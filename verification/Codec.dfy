/** The record in which the communication matrix leaves the kernel: a magic number, the
    matrix header with its pointers cleared, the pids, and the cells, all little-endian. */
module Codecs {
  import opened Arithmetic
  import opened Matrices

  const MAGIC: Word := 0x48151623

  type Byte = x: nat | x < 256

  type Int32 = x: int | -0x8000_0000 <= x < 0x8000_0000

  // ------------------------------------------------------------ words in memory

  function Bytes(w: Word): seq<Byte> {
    [w % 256, w / 256 % 256, w / 256 / 256 % 256, w / 256 / 256 / 256]
  }

  function WordFrom(b0: Byte, b1: Byte, b2: Byte, b3: Byte): Word {
    b0 + 256 * (b1 + 256 * (b2 + 256 * b3))
  }

  lemma BytesDetermineWord(w: Word)
    ensures WordFrom(Bytes(w)[0], Bytes(w)[1], Bytes(w)[2], Bytes(w)[3]) == w
  {
  }

  lemma LowByte(b: Byte, rest: nat)
    ensures (b + 256 * rest) % 256 == b && (b + 256 * rest) / 256 == rest
  {
  }

  lemma WordDeterminesBytes(b0: Byte, b1: Byte, b2: Byte, b3: Byte)
    ensures Bytes(WordFrom(b0, b1, b2, b3)) == [b0, b1, b2, b3]
  {
    LowByte(b0, b1 + 256 * (b2 + 256 * b3));
    LowByte(b1, b2 + 256 * b3);
    LowByte(b2, b3);
  }

  /** An `int` as the word with the same bits, and back. */
  function Unsigned(i: Int32): Word {
    if i < 0 then i + 0x1_0000_0000 else i
  }

  function Signed(w: Word): Int32 {
    if w < 0x8000_0000 then w else w - 0x1_0000_0000
  }

  function AllBytes(ws: seq<Word>): (b: seq<Byte>)
    ensures |b| == 4 * |ws|
  {
    if ws == [] then [] else AllBytes(ws[..|ws| - 1]) + Bytes(ws[|ws| - 1])
  }

  /** The `k`th word of a buffer. */
  function WordAt(b: seq<Byte>, k: nat): Word
    requires 4 * k + 4 <= |b|
  {
    WordFrom(b[4 * k], b[4 * k + 1], b[4 * k + 2], b[4 * k + 3])
  }

  lemma {:induction false} WordOfAll(ws: seq<Word>, tail: seq<Byte>, k: nat)
    requires k < |ws|
    ensures WordAt(AllBytes(ws) + tail, k) == ws[k]
  {
    var n := |ws| - 1;
    if k == n {
      BytesDetermineWord(ws[n]);
    } else {
      WordOfAll(ws[..n], Bytes(ws[n]) + tail, k);
      assert AllBytes(ws[..n]) + (Bytes(ws[n]) + tail) == AllBytes(ws) + tail;
    }
  }

  /** `n` words of a buffer. */
  function WordsAt(b: seq<Byte>, from: nat, n: nat): (r: seq<Word>)
    requires 4 * (from + n) <= |b|
    ensures |r| == n && forall k | 0 <= k < n :: r[k] == WordAt(b, from + k)
  {
    if n == 0 then [] else WordsAt(b, from, n - 1) + [WordAt(b, from + n - 1)]
  }

  lemma BytesOfWord(b: seq<Byte>, k: nat)
    requires 4 * k + 4 <= |b|
    ensures Bytes(WordAt(b, k)) == b[4 * k..4 * k + 4]
  {
    WordDeterminesBytes(b[4 * k], b[4 * k + 1], b[4 * k + 2], b[4 * k + 3]);
  }

  lemma JoinSlices(b: seq<Byte>, m: nat, n: nat)
    requires m <= n <= |b|
    ensures b[..m] + b[m..n] == b[..n]
  {
  }

  lemma {:induction false} AllOfWords(b: seq<Byte>, n: nat)
    requires 4 * n <= |b|
    ensures AllBytes(WordsAt(b, 0, n)) == b[..4 * n]
  {
    if n > 0 {
      AllOfWords(b, n - 1);
      AllBytesConcat(WordsAt(b, 0, n - 1), WordAt(b, n - 1));
      BytesOfWord(b, n - 1);
      JoinSlices(b, 4 * (n - 1), 4 * n);
    }
  }

  lemma AllBytesConcat(ws: seq<Word>, w: Word)
    ensures AllBytes(ws + [w]) == AllBytes(ws) + Bytes(w)
  {
    assert (ws + [w])[..|ws|] == ws;
  }

  lemma {:induction false} AllBytesAppend(ws: seq<Word>, vs: seq<Word>)
    ensures AllBytes(ws + vs) == AllBytes(ws) + AllBytes(vs)
  {
    if vs == [] {
      assert ws + vs == ws;
    } else {
      var n := |vs| - 1;
      assert ws + vs == (ws + vs[..n]) + [vs[n]];
      AllBytesAppend(ws, vs[..n]);
      AllBytesConcat(ws + vs[..n], vs[n]);
    }
  }

  // ---------------------------------------------------------------- the record

  datatype Record = Record(numThreads: nat, maxThreads: nat, pids: seq<Int32>, matrix: seq<Word>)

  /** Counts are non-negative `int`s, and the two arrays are as long as they say. */
  ghost predicate RecordOk(r: Record) {
    r.numThreads < 0x8000_0000 && r.maxThreads < 0x8000_0000
    && |r.pids| == r.numThreads && |r.matrix| == r.maxThreads * r.maxThreads
  }

  function PidWords(pids: seq<Int32>): seq<Word> {
    seq(|pids|, i requires 0 <= i < |pids| => Unsigned(pids[i]))
  }

  /** Magic, two counts, two cleared 8-byte pointers. */
  function Header(numThreads: Int32, maxThreads: Int32): seq<Word> {
    [MAGIC, Unsigned(numThreads), Unsigned(maxThreads), 0, 0, 0, 0]
  }

  const HEADER_WORDS: nat := 7

  function Words(r: Record): seq<Word>
    requires RecordOk(r)
  {
    Header(r.numThreads, r.maxThreads) + PidWords(r.pids) + r.matrix
  }

  function Encoded(r: Record): seq<Byte>
    requires RecordOk(r)
  {
    AllBytes(Words(r))
  }

  function Size(numThreads: nat, maxThreads: nat): nat {
    4 + 24 + 4 * numThreads + 4 * (maxThreads * maxThreads)
  }

  /** The buffer holds a word, and if that is the magic number a header and all that it announces. */
  ghost predicate Complete(b: seq<Byte>) {
    && |b| >= 4
    && (WordAt(b, 0) == MAGIC ==>
          && |b| >= 28 && Signed(WordAt(b, 1)) >= 0 && Signed(WordAt(b, 2)) >= 0
          && Size(WordAt(b, 1), WordAt(b, 2)) <= |b|)
  }

  /** A wrong magic number makes the thread count -1, which is `None` here. */
  function Decoded(b: seq<Byte>): Option<Record>
    requires Complete(b)
  {
    if WordAt(b, 0) != MAGIC then None
    else
      var nt, mt := WordAt(b, 1), WordAt(b, 2);
      Some(Record(nt, mt, PidsAt(b, nt), WordsAt(b, HEADER_WORDS + nt, mt * mt)))
  }

  function PidsAt(b: seq<Byte>, n: nat): (r: seq<Int32>)
    requires 4 * (HEADER_WORDS + n) <= |b|
    ensures |r| == n && forall k | 0 <= k < n :: r[k] == Signed(WordAt(b, HEADER_WORDS + k))
  {
    if n == 0 then [] else PidsAt(b, n - 1) + [Signed(WordAt(b, HEADER_WORDS + n - 1))]
  }

  lemma SizeIsBytes(r: Record)
    requires RecordOk(r)
    ensures |Encoded(r)| == Size(r.numThreads, r.maxThreads)
  {
  }

  lemma WordBack(r: Record, tail: seq<Byte>, k: nat)
    requires RecordOk(r) && k < HEADER_WORDS + r.numThreads + |r.matrix|
    ensures 4 * k + 4 <= |Encoded(r) + tail| && WordAt(Encoded(r) + tail, k) == Words(r)[k]
  {
    WordOfAll(Words(r), tail, k);
  }

  /** A word stored with its lowest byte first. */
  predicate Little(b: seq<Byte>, at: nat, w: int) {
    && at + 4 <= |b|
    && b[at] as int + 0x100 * b[at + 1] as int + 0x1_0000 * b[at + 2] as int + 0x100_0000 * b[at + 3] as int == w
  }

  lemma LittleWord(r: Record, k: nat)
    requires RecordOk(r) && k < HEADER_WORDS + r.numThreads + |r.matrix|
    ensures Little(Encoded(r), 4 * k, Words(r)[k])
  {
    WordBack(r, [], k);
    assert Encoded(r) + [] == Encoded(r);
  }

  /** The magic number is told by its bytes. */
  lemma MagicBytes(b: seq<Byte>)
    requires |b| >= 4
    ensures WordAt(b, 0) == MAGIC <==> b[..4] == [0x23, 0x16, 0x15, 0x48]
  {
    MagicWord(b[0], b[1], b[2], b[3]);
    assert b[..4] == [b[0], b[1], b[2], b[3]];
  }

  lemma MagicWord(b0: Byte, b1: Byte, b2: Byte, b3: Byte)
    ensures WordFrom(b0, b1, b2, b3) == MAGIC <==> b0 == 0x23 && b1 == 0x16 && b2 == 0x15 && b3 == 0x48
  {
    WordDeterminesBytes(b0, b1, b2, b3);
  }

  /** What every encoding looks like, byte by byte: the magic number, the two counts, sixteen zero bytes, the pids in
      two's complement, and the cells, every word with its lowest byte first. */
  lemma EncodingLayout(r: Record)
    requires RecordOk(r)
    ensures var b := Encoded(r);
            && |b| == 28 + 4 * r.numThreads + 4 * (r.maxThreads * r.maxThreads)
            && b[..4] == [0x23, 0x16, 0x15, 0x48]
            && Little(b, 4, r.numThreads) && Little(b, 8, r.maxThreads)
            && forall i | 12 <= i < 28 :: b[i] == 0
    ensures forall i: nat | i < r.numThreads ::
              Little(Encoded(r), 28 + 4 * i, (if r.pids[i] as int < 0 then 0x1_0000_0000 else 0) + r.pids[i] as int)
    ensures forall k: nat | k < |r.matrix| :: Little(Encoded(r), 28 + 4 * r.numThreads + 4 * k, r.matrix[k])
  {
    HeaderLayout(r);
    forall i: nat | i < r.numThreads
      ensures Little(Encoded(r), 28 + 4 * i, (if r.pids[i] as int < 0 then 0x1_0000_0000 else 0) + r.pids[i] as int)
    {
      LittleWord(r, HEADER_WORDS + i);
      assert Words(r)[HEADER_WORDS + i] == Unsigned(r.pids[i]);
    }
    forall k: nat | k < |r.matrix|
      ensures Little(Encoded(r), 28 + 4 * r.numThreads + 4 * k, r.matrix[k])
    {
      LittleWord(r, HEADER_WORDS + r.numThreads + k);
    }
  }

  lemma HeaderLayout(r: Record)
    requires RecordOk(r)
    ensures var b := Encoded(r);
            && |b| == 28 + 4 * r.numThreads + 4 * (r.maxThreads * r.maxThreads)
            && b[..4] == [0x23, 0x16, 0x15, 0x48]
            && Little(b, 4, r.numThreads) && Little(b, 8, r.maxThreads)
            && forall i | 12 <= i < 28 :: b[i] == 0
  {
    var b := Encoded(r);
    SizeIsBytes(r);
    LittleWord(r, 0);
    LittleWord(r, 1);
    LittleWord(r, 2);
    MagicBytes(b);
    forall i | 12 <= i < 28
      ensures b[i] == 0
    {
      LittleWord(r, i / 4);
      ZeroByte(b, i / 4, i);
    }
  }

  lemma ZeroByte(b: seq<Byte>, k: nat, i: nat)
    requires Little(b, 4 * k, 0) && 4 * k <= i < 4 * k + 4
    ensures b[i] == 0
  {
  }

  lemma PidsBack(r: Record, tail: seq<Byte>)
    requires RecordOk(r)
    ensures PidsAt(Encoded(r) + tail, r.numThreads) == r.pids
  {
    forall i: nat | i < r.numThreads
      ensures Signed(WordAt(Encoded(r) + tail, HEADER_WORDS + i)) == r.pids[i]
    {
      WordBack(r, tail, HEADER_WORDS + i);
      assert Words(r)[HEADER_WORDS + i] == Unsigned(r.pids[i]);
    }
  }

  lemma MatrixBack(r: Record, tail: seq<Byte>)
    requires RecordOk(r)
    ensures WordsAt(Encoded(r) + tail, HEADER_WORDS + r.numThreads, |r.matrix|) == r.matrix
  {
    forall i: nat | i < |r.matrix|
      ensures WordAt(Encoded(r) + tail, HEADER_WORDS + r.numThreads + i) == r.matrix[i]
    {
      WordBack(r, tail, HEADER_WORDS + r.numThreads + i);
    }
  }

  lemma HeaderBack(r: Record, tail: seq<Byte>)
    requires RecordOk(r)
    ensures |Encoded(r) + tail| >= 28 && WordAt(Encoded(r) + tail, 0) == MAGIC
    ensures WordAt(Encoded(r) + tail, 1) == r.numThreads && WordAt(Encoded(r) + tail, 2) == r.maxThreads
    ensures Complete(Encoded(r) + tail)
  {
    SizeIsBytes(r);
    WordBack(r, tail, 0);
    WordBack(r, tail, 1);
    WordBack(r, tail, 2);
  }

  /** Decoding what was encoded gives the record back, whatever follows it in memory. */
  lemma RoundTrip(r: Record, tail: seq<Byte>)
    requires RecordOk(r)
    ensures Complete(Encoded(r) + tail) && Decoded(Encoded(r) + tail) == Some(r)
  {
    HeaderBack(r, tail);
    PidsBack(r, tail);
    MatrixBack(r, tail);
  }

  /** The first `m` bytes with the two pointers cleared. */
  function Cleared(b: seq<Byte>, m: nat): (c: seq<Byte>)
    requires 28 <= m <= |b|
    ensures |c| == m && forall i | 0 <= i < m :: c[i] == if 12 <= i < 28 then 0 else b[i]
  {
    b[..12] + seq(16, _ => 0) + b[28..m]
  }

  /** Encoding what was decoded gives the bytes back, except that the pointers come out cleared. */
  lemma RoundTripBack(b: seq<Byte>)
    requires Complete(b) && WordAt(b, 0) == MAGIC
    ensures var r := Decoded(b).value;
            RecordOk(r) && Size(r.numThreads, r.maxThreads) <= |b|
              && Encoded(r) == Cleared(b, Size(r.numThreads, r.maxThreads))
  {
    var r := Decoded(b).value;
    var n := HEADER_WORDS + r.numThreads + |r.matrix|;
    var c := Cleared(b, 4 * n);
    SameWords(b, r, c, n);
    AllOfWords(c, n);
    assert c[..4 * n] == c;
  }

  lemma DecodedWord(b: seq<Byte>, r: Record, k: nat)
    requires Complete(b) && Decoded(b) == Some(r) && k < HEADER_WORDS + r.numThreads + |r.matrix|
    ensures RecordOk(r) && 4 * k + 4 <= |b|
    ensures Words(r)[k] == if 3 <= k < HEADER_WORDS then 0 else WordAt(b, k)
  {
  }

  lemma SameWords(b: seq<Byte>, r: Record, c: seq<Byte>, n: nat)
    requires Complete(b) && Decoded(b) == Some(r)
    requires n == HEADER_WORDS + r.numThreads + |r.matrix| && |c| == 4 * n <= |b|
    requires forall i | 0 <= i < |c| :: c[i] == if 12 <= i < 28 then 0 else b[i]
    ensures RecordOk(r) && WordsAt(c, 0, n) == Words(r)
  {
    forall k: nat | k < n
      ensures WordAt(c, k) == Words(r)[k]
    {
      DecodedWord(b, r, k);
      if 3 <= k < HEADER_WORDS {
        ZeroWord(c, k);
      } else {
        SameWord(b, c, k);
      }
    }
  }

  lemma SameWord(b: seq<Byte>, c: seq<Byte>, k: nat)
    requires 4 * k + 4 <= |b| && 4 * k + 4 <= |c| && forall i | 4 * k <= i < 4 * k + 4 :: c[i] == b[i]
    ensures WordAt(c, k) == WordAt(b, k)
  {
  }

  lemma ZeroWord(c: seq<Byte>, k: nat)
    requires 4 * k + 4 <= |c| && forall i | 4 * k <= i < 4 * k + 4 :: c[i] == 0
    ensures WordAt(c, k) == 0
  {
  }

  // ------------------------------------------------------------- the operations

  /** `memcpy` of a word. */
  method PutWord(buf: array<Byte>, at: nat, w: Word, ghost before: seq<Byte>)
    requires at + 4 <= buf.Length && buf[..at] == before
    modifies buf
    ensures buf[..at + 4] == before + Bytes(w)
  {
    var b := Bytes(w);
    buf[at], buf[at + 1], buf[at + 2], buf[at + 3] := b[0], b[1], b[2], b[3];
    assert buf[..at] == before;
    assert buf[..at + 4] == buf[..at] + [buf[at], buf[at + 1], buf[at + 2], buf[at + 3]];
  }

  lemma OneWordMore(before: seq<Byte>, ws: seq<Word>, k: nat)
    requires k < |ws|
    ensures before + AllBytes(ws[..k]) + Bytes(ws[k]) == before + AllBytes(ws[..k + 1])
  {
    assert ws[..k + 1] == ws[..k] + [ws[k]];
    AllBytesConcat(ws[..k], ws[k]);
  }

  /** `memcpy` of words. */
  method PutWords(buf: array<Byte>, at: nat, ws: seq<Word>, ghost before: seq<Byte>)
    requires at + 4 * |ws| <= buf.Length && buf[..at] == before
    modifies buf
    ensures buf[..at + 4 * |ws|] == before + AllBytes(ws)
  {
    for k := 0 to |ws|
      invariant buf[..at + 4 * k] == before + AllBytes(ws[..k])
    {
      PutWord(buf, at + 4 * k, ws[k], before + AllBytes(ws[..k]));
      OneWordMore(before, ws, k);
    }
    assert ws[..|ws|] == ws;
  }

  lemma EncodedParts(r: Record)
    requires RecordOk(r)
    ensures Encoded(r) == AllBytes(Header(r.numThreads, r.maxThreads)) + AllBytes(PidWords(r.pids)) + AllBytes(r.matrix)
  {
    AllBytesAppend(Header(r.numThreads, r.maxThreads), PidWords(r.pids));
    AllBytesAppend(Header(r.numThreads, r.maxThreads) + PidWords(r.pids), r.matrix);
  }

  method MatrixEncode(data: Record) returns (ret: array<Byte>)
    requires RecordOk(data)
    ensures fresh(ret) && ret[..] == Encoded(data)
  {
    SizeIsBytes(data);
    ret := new Byte[Size(data.numThreads, data.maxThreads)];
    var head, pids := Header(data.numThreads, data.maxThreads), PidWords(data.pids);
    PutWords(ret, 0, head, []);
    var tmp := 28;
    PutWords(ret, tmp, pids, AllBytes(head));
    tmp := tmp + 4 * data.numThreads;
    PutWords(ret, tmp, data.matrix, AllBytes(head) + AllBytes(pids));
    EncodedParts(data);
    assert ret[..] == ret[..ret.Length];
  }

  /** `memcpy` of words into a new array. */
  method TakeWords(buf: array<Byte>, from: nat, n: nat) returns (ws: seq<Word>)
    requires 4 * (from + n) <= buf.Length
    ensures ws == WordsAt(buf[..], from, n)
  {
    ws := [];
    for k := 0 to n
      invariant ws == WordsAt(buf[..], from, k)
    {
      ws := ws + [WordAt(buf[..], from + k)];
    }
  }

  method TakePids(buf: array<Byte>, n: nat) returns (pids: seq<Int32>)
    requires 4 * (HEADER_WORDS + n) <= buf.Length
    ensures pids == PidsAt(buf[..], n)
  {
    pids := [];
    for k := 0 to n
      invariant pids == PidsAt(buf[..], k)
    {
      pids := pids + [Signed(WordAt(buf[..], HEADER_WORDS + k))];
    }
  }

  method MatrixDecode(buf: array<Byte>) returns (ret: Option<Record>)
    requires Complete(buf[..])
    ensures ret == Decoded(buf[..])
    ensures ret.None? <==> buf[..4] != [0x23, 0x16, 0x15, 0x48]
    ensures forall r, tail | RecordOk(r) && buf[..] == Encoded(r) + tail :: ret == Some(r)
  {
    MagicBytes(buf[..]);
    assert buf[..][..4] == buf[..4];
    if WordAt(buf[..], 0) != MAGIC {
      ret := None;
    } else {
      var nt: nat, mt: nat := WordAt(buf[..], 1), WordAt(buf[..], 2);
      var pids := TakePids(buf, nt);
      var matrix := TakeWords(buf, HEADER_WORDS + nt, mt * mt);
      ret := Some(Record(nt, mt, pids, matrix));
    }
    forall r, tail | RecordOk(r) && buf[..] == Encoded(r) + tail
      ensures ret == Some(r)
    {
      RoundTrip(r, tail);
    }
  }

  /** The size of an encoded record, found by decoding it. */
  method MatrixSize(buf: array<Byte>) returns (size: nat)
    requires Complete(buf[..]) && WordAt(buf[..], 0) == MAGIC
    ensures size <= buf.Length
    ensures forall r, tail | RecordOk(r) && buf[..] == Encoded(r) + tail :: size == |Encoded(r)|
  {
    var tmp := MatrixDecode(buf);
    size := Size(tmp.value.numThreads, tmp.value.maxThreads);
    forall r, tail | RecordOk(r) && buf[..] == Encoded(r) + tail
      ensures size == |Encoded(r)|
    {
      SizeIsBytes(r);
    }
  }

  // ------------------------------------------------------------ the small matrix

  lemma InSquare(i: nat, j: nat, n: nat)
    requires i < n && j < n
    ensures i * n + j < n * n
  {
    TwoDigitBound(j, n, i, n);
    MulCommutes(i, n);
  }

  /** The cell of two threads, in either order. */
  function Lookup(r: Record, i: nat, j: nat): Word
    requires RecordOk(r) && i < r.maxThreads && j < r.maxThreads
  {
    InSquare(i, j, r.maxThreads);
    InSquare(j, i, r.maxThreads);
    if i > j then r.matrix[i * r.maxThreads + j] else r.matrix[j * r.maxThreads + i]
  }

  /** The index of a cell, which is computed as an `int`. */
  function IntIndex(i: nat, j: nat, max: nat): nat {
    i * max + j
  }

  /** It never overflows exactly if there are at most 46340 threads. */
  lemma IndexFitsInt(max: nat)
    ensures (forall i: nat, j: nat | i < max && j < max :: IntIndex(i, j, max) < 0x8000_0000) <==> max <= 46340
  {
    if max <= 46340 {
      forall i: nat, j: nat | i < max && j < max
        ensures IntIndex(i, j, max) < 0x8000_0000
      {
        InSquare(i, j, max);
        MulMonotone(max, 46340, max, 46340);
      }
    } else {
      MulMonotone(46340, max - 1, 46341, max);
      assert IntIndex(max - 1, max - 1, max) >= 0x8000_0000;
    }
  }

  /** Symmetric, and what the detector's matrix reads at the same pair. */
  lemma LookupIsReading(r: Record, bits: nat, i: nat, j: nat)
    requires RecordOk(r) && r.maxThreads == Pow2(bits) && i < r.maxThreads && j < r.maxThreads
    ensures Lookup(r, i, j) == Lookup(r, j, i) == Reading(r.matrix, bits)(i, j)
  {
    IndexInRange(bits, i, j);
  }

  /** The first `m` entries of row `i`. */
  function SmallRow(r: Record, i: nat, m: nat): (row: seq<Word>)
    requires RecordOk(r) && i < r.maxThreads && m <= r.maxThreads
    ensures |row| == m && forall j | 0 <= j < m :: row[j] == Lookup(r, i, j)
  {
    if m == 0 then [] else SmallRow(r, i, m - 1) + [Lookup(r, i, m - 1)]
  }

  /** The last `k` rows, in reverse. */
  function SmallRows(r: Record, k: nat): (rows: seq<Word>)
    requires RecordOk(r) && k <= r.numThreads <= r.maxThreads
    ensures |rows| == Times(k, r.numThreads)
  {
    if k == 0 then [] else SmallRows(r, k - 1) + SmallRow(r, r.numThreads - k, r.numThreads)
  }

  /** Row `i` of the small matrix is its `n - 1 - i`th. */
  lemma {:induction false} SmallEntry(r: Record, k: nat, i: nat, j: nat)
    requires RecordOk(r) && k <= r.numThreads <= r.maxThreads && r.numThreads - k <= i < r.numThreads
             && j < r.numThreads
    ensures Times(r.numThreads - 1 - i, r.numThreads) + j < |SmallRows(r, k)|
    ensures SmallRows(r, k)[Times(r.numThreads - 1 - i, r.numThreads) + j] == Lookup(r, i, j)
  {
    var n := r.numThreads;
    if i > n - k {
      SmallEntry(r, k - 1, i, j);
    }
  }

  /** Copies row `i` to position `at`. */
  method CopyRow(data: Record, i: nat, ret: array<Word>, at: nat)
    requires RecordOk(data) && i < data.numThreads <= data.maxThreads && at + data.numThreads <= ret.Length
    modifies ret
    ensures ret[..at + data.numThreads] == old(ret[..at]) + SmallRow(data, i, data.numThreads)
  {
    var a := at;
    for j := 0 to data.numThreads
      invariant a == at + j
      invariant ret[..a] == old(ret[..at]) + SmallRow(data, i, j)
    {
      ghost var done := ret[..a];
      ret[a] := Lookup(data, i, j);
      a := a + 1;
      assert ret[..a] == done + [Lookup(data, i, j)];
    }
  }

  lemma RowFits(n: nat, i: nat)
    requires i < n
    ensures Times(n - 1 - i, n) + n == Times(n - i, n) <= Times(n, n)
  {
    TimesMonotone(n - i, n, n);
  }

  /** Copies the used part of the matrix, row by row from the last. */
  method GetSmallMatrix(data: Record) returns (ret: array<Word>)
    requires RecordOk(data) && data.numThreads <= data.maxThreads
    ensures fresh(ret) && ret.Length == data.numThreads * data.numThreads && ret[..] == SmallRows(data, data.numThreads)
  {
    var n := data.numThreads;
    TimesIsProduct(n, n);
    ret := new Word[n * n];
    var a := 0;
    var i: int := n - 1;
    while i >= 0
      invariant -1 <= i < n && a == Times(n - 1 - i, n) <= ret.Length
      invariant ret[..a] == SmallRows(data, n - 1 - i)
    {
      RowFits(n, i);
      CopyRow(data, i, ret, a);
      a := a + n;
      i := i - 1;
    }
    assert ret[..] == ret[..ret.Length];
  }

  /** The small matrix shows, at row n-1-i and column j, what the detector counted for `i` and `j`. */
  lemma SmallMatrixShows(r: Record, bits: nat, i: nat, j: nat)
    requires RecordOk(r) && r.maxThreads == Pow2(bits) && i < r.numThreads <= r.maxThreads && j < r.numThreads
    ensures var at := (r.numThreads - 1 - i) * r.numThreads + j;
            0 <= at < |SmallRows(r, r.numThreads)| && SmallRows(r, r.numThreads)[at] == Reading(r.matrix, bits)(i, j)
  {
    SmallEntry(r, r.numThreads, i, j);
    TimesIsProduct(r.numThreads - 1 - i, r.numThreads);
    LookupIsReading(r, bits, i, j);
  }
}

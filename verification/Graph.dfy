/** The vertex and edge arena. A pointer into the arena is an index; `nextVertex` and
    `nextEdge` are both the allocation cursors and the used counts. */
module Graphs {

  datatype ElType = Pu | Core | Cache | Interconnection | NumaNode | Socket | Undefined | Root

  /** One entry of a vertex's `linked` buffer: an edge and the vertex at its other end. */
  datatype Link = Link(e: nat, v: nat)

  /** `linked` holds the links in use, so its length is the vertex's arity. */
  datatype Vertex = Vertex(typ: ElType, id: nat, pos: nat, linked: seq<Link>)

  datatype Edge = Edge(typ: ElType, weight: int, src: nat, dest: nat)

  class Graph {
    const vertices: array<Vertex>
    const edges: array<Edge>
    var nextVertex: nat
    var nextEdge: nat

    ghost predicate Valid()
      reads this, vertices
    {
      && nextVertex <= vertices.Length
      && nextEdge <= edges.Length
      && forall i | 0 <= i < vertices.Length :: vertices[i].pos == i
    }

    constructor (nVertices: nat, nEdges: nat)
      ensures Valid() && fresh(vertices) && fresh(edges)
      ensures vertices.Length == nVertices && edges.Length == nEdges
      ensures nextVertex == 0 && nextEdge == 0
    {
      vertices := new Vertex[nVertices];
      edges := new Edge[nEdges];
      new;
      for k := 0 to nVertices
        invariant forall i | 0 <= i < k :: vertices[i].pos == i
      {
        vertices[k] := vertices[k].(pos := k);
      }
      nextVertex, nextEdge := 0, 0;
    }

    method GetFreeVertex() returns (v: nat)
      requires Valid() && nextVertex < vertices.Length
      modifies this`nextVertex, vertices
      ensures Valid() && v == old(nextVertex) && nextVertex == v + 1
      ensures vertices[..] == old(vertices[..])[v := old(vertices[v]).(linked := [])]
    {
      v := nextVertex;
      vertices[v] := vertices[v].(linked := []);
      nextVertex := nextVertex + 1;
    }

    method GetFreeEdge() returns (e: nat)
      requires Valid() && nextEdge < edges.Length
      modifies this`nextEdge
      ensures Valid() && e == old(nextEdge) && nextEdge == e + 1
    {
      e := nextEdge;
      nextEdge := nextEdge + 1;
    }

    /** Links `src` and `dest` both ways, each as the other's newest link. */
    method ConnectVertices(src: nat, dest: nat) returns (e: nat)
      requires Valid() && nextEdge < edges.Length && src != dest
      requires src < nextVertex && dest < nextVertex
      requires |vertices[src].linked| < vertices.Length && |vertices[dest].linked| < vertices.Length
      modifies this`nextEdge, vertices, edges
      ensures Valid() && e == old(nextEdge) && nextEdge == e + 1
      ensures edges[..] == old(edges[..])[e := old(edges[e]).(src := src, dest := dest)]
      ensures var s, d := old(vertices[src]), old(vertices[dest]);
              vertices[..] == old(vertices[..])[src := s.(linked := s.linked + [Link(e, dest)])]
                                               [dest := d.(linked := d.linked + [Link(e, src)])]
    {
      e := GetFreeEdge();
      edges[e] := edges[e].(src := src, dest := dest);
      vertices[src] := vertices[src].(linked := vertices[src].linked + [Link(e, dest)]);
      vertices[dest] := vertices[dest].(linked := vertices[dest].linked + [Link(e, src)]);
    }
  }
}

/** `Digraph<VertexLabel>`: a set of vertices, compared by reference, and
    the `Vertex` class with a label and (never initialised) edge lists.
    The `Label` property is the field `name` (`label` is a Dafny keyword).

    Vertices are objects, so they live in an arena: a `Vertex` reference is
    an index into a sequence of vertex records, and two references are the
    same vertex iff they are the same index. `null` edge lists are `None`. */
module Digraphs {
  import opened Wrappers
  import opened Exceptions

  type Vertex = nat

  datatype VertexRecord<L> = VertexRecord(name: L, inEdges: Option<seq<Vertex>>, outEdges: Option<seq<Vertex>>)

  type Arena<L> = seq<VertexRecord<L>>

  /** `new Vertex(label)` as written: the constructor assigns the `Label`
      property to itself, so it keeps its default value
      `defaultLabel` (`default(VertexLabel)`), and neither edge list is ever
      assigned. The result is a reference distinct from every existing
      one. */
  function NewVertex<L>(arena: Arena<L>, name: L, defaultLabel: L): (r: (Arena<L>, Vertex))
    ensures r.1 == |arena| && |r.0| == |arena| + 1
    ensures forall v :: 0 <= v < |arena| ==> r.0[v] == arena[v] && v != r.1
    ensures r.0[r.1].name == defaultLabel
    ensures r.0[r.1].inEdges == None && r.0[r.1].outEdges == None
  {
    (arena + [VertexRecord(defaultLabel, None, None)], |arena|)
  }

  /** The constructor ignores its argument: any label other than the
      default is lost. */
  lemma NewVertexLosesLabel<L>(arena: Arena<L>, name: L, defaultLabel: L)
    requires name != defaultLabel
    ensures var (a, v) := NewVertex(arena, name, defaultLabel); a[v].name != name
  {
  }

  /** `new Vertex(label)` as evidently intended (`this.Label = label`). */
  function NewVertexIntended<L>(arena: Arena<L>, name: L): (r: (Arena<L>, Vertex))
    ensures r.1 == |arena| && |r.0| == |arena| + 1
    ensures forall v :: 0 <= v < |arena| ==> r.0[v] == arena[v] && v != r.1
    ensures r.0[r.1].name == name
    ensures r.0[r.1].inEdges == None && r.0[r.1].outEdges == None
  {
    (arena + [VertexRecord(name, None, None)], |arena|)
  }

  /** The corrected constructor differs from the written one exactly in the
      label it stores. */
  lemma NewVertexIntendedKeepsLabel<L>(arena: Arena<L>, name: L, defaultLabel: L)
    ensures NewVertexIntended(arena, name).0[|arena|].name == name
    ensures NewVertex(arena, name, defaultLabel).0 ==
      NewVertexIntended(arena, name).0[|arena| := VertexRecord(defaultLabel, None, None)]
  {
  }

  /** The `Predecessors` property: `InEdges.ToArray()`. The extension method
      `ToArray` throws `ArgumentNullException` for a `null` list. */
  function Predecessors<L>(arena: Arena<L>, v: Vertex): (r: Result<seq<Vertex>, Exception>)
    requires v < |arena|
    ensures r.Failure? <==> arena[v].inEdges.None?
    ensures r.Failure? ==> r.error == ArgumentNullException
    ensures r.Success? ==> r.value == arena[v].inEdges.value
  {
    match arena[v].inEdges
    case None => Failure(ArgumentNullException)
    case Some(edges) => Success(edges)
  }

  /** The `Successors` property: `OutEdges.ToArray()`. */
  function Successors<L>(arena: Arena<L>, v: Vertex): (r: Result<seq<Vertex>, Exception>)
    requires v < |arena|
    ensures r.Failure? <==> arena[v].outEdges.None?
    ensures r.Failure? ==> r.error == ArgumentNullException
    ensures r.Success? ==> r.value == arena[v].outEdges.value
  {
    match arena[v].outEdges
    case None => Failure(ArgumentNullException)
    case Some(edges) => Success(edges)
  }

  /** No vertex has its edge lists set. */
  predicate NoEdgeLists<L>(arena: Arena<L>) {
    forall v :: 0 <= v < |arena| ==> arena[v].inEdges.None? && arena[v].outEdges.None?
  }

  /** Nothing in the class ever assigns an edge list, so in every arena built
      by the constructor, `Predecessors` and `Successors` throw for every
      vertex. */
  lemma {:induction false} EdgesAlwaysFail<L>(labels: seq<L>, defaultLabel: L)
    ensures NoEdgeLists(Build(labels, defaultLabel))
    ensures forall v :: 0 <= v < |Build(labels, defaultLabel)| ==>
      Predecessors(Build(labels, defaultLabel), v) == Failure(ArgumentNullException) &&
      Successors(Build(labels, defaultLabel), v) == Failure(ArgumentNullException)
  {
    if labels != [] {
      EdgesAlwaysFail(labels[..|labels| - 1], defaultLabel);
    }
  }

  /** The arena after constructing one vertex per label, in order. */
  function Build<L>(labels: seq<L>, defaultLabel: L): (r: Arena<L>)
    ensures |r| == |labels|
  {
    if labels == [] then []
    else NewVertex(Build(labels[..|labels| - 1], defaultLabel), labels[|labels| - 1], defaultLabel).0
  }

  // ---------------------------------------------------------------------
  // The graph

  /** A `HashSet<Vertex>` compared by reference. */
  datatype Digraph = Digraph(vertices: set<Vertex>)

  /** `new Digraph()`. */
  function Empty(): (r: Digraph)
    ensures forall v :: !Contains(r, v)
  {
    Digraph({})
  }

  /** `Contains(v)`. */
  predicate Contains(g: Digraph, v: Vertex) {
    v in g.vertices
  }

  /** `Add(v)`: afterwards the graph contains `v` and exactly the vertices it
      contained before besides. */
  function Add(g: Digraph, v: Vertex): (r: Digraph)
    ensures Contains(r, v)
    ensures forall u :: u != v ==> (Contains(r, u) <==> Contains(g, u))
  {
    Digraph(g.vertices + {v})
  }

  /** Adding a vertex twice is the same as adding it once, and adding a
      vertex the graph contains changes nothing. */
  lemma AddIdempotent(g: Digraph, v: Vertex)
    ensures Add(Add(g, v), v) == Add(g, v)
    ensures Contains(g, v) ==> Add(g, v) == g
  {
    assert Add(Add(g, v), v).vertices == Add(g, v).vertices;
    if Contains(g, v) {
      assert Add(g, v).vertices == g.vertices;
    }
  }

  /** The order in which vertices are added does not matter. */
  lemma AddCommutes(g: Digraph, u: Vertex, v: Vertex)
    ensures Add(Add(g, u), v) == Add(Add(g, v), u)
  {
    assert Add(Add(g, u), v).vertices == Add(Add(g, v), u).vertices;
  }

  /** `DrawEdge(from, to)` has an empty body: the graph and every vertex
      record are left as they were. */
  function DrawEdge<L>(g: Digraph, arena: Arena<L>, from: Vertex, to: Vertex): (r: (Digraph, Arena<L>))
    ensures forall v :: Contains(r.0, v) <==> Contains(g, v)
    ensures r.1 == arena
  {
    (g, arena)
  }

  /** Since `DrawEdge` records nothing, no sequence of `DrawEdge` calls makes
      an edge list readable. */
  lemma {:induction false} DrawEdgesKeepEdgesUnset<L>(g: Digraph, arena: Arena<L>, edges: seq<(Vertex, Vertex)>)
    requires NoEdgeLists(arena)
    ensures NoEdgeLists(DrawEdges(g, arena, edges).1)
    ensures DrawEdges(g, arena, edges).0 == g
  {
    if edges != [] {
      DrawEdgesKeepEdgesUnset(g, arena, edges[..|edges| - 1]);
    }
  }

  /** `DrawEdge` for each pair of `edges`, in order. */
  function DrawEdges<L>(g: Digraph, arena: Arena<L>, edges: seq<(Vertex, Vertex)>): (Digraph, Arena<L>) {
    if edges == [] then (g, arena)
    else
      var (g', a') := DrawEdges(g, arena, edges[..|edges| - 1]);
      DrawEdge(g', a', edges[|edges| - 1].0, edges[|edges| - 1].1)
  }
}

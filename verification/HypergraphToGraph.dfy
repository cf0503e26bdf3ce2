/**
  Hypergraphs as directed graphs: every place of a hyperedge becomes a node that points to the next
  place and to the vertex in it. Two hypergraphs are isomorphic iff these graphs are.

  One direction lifts an isomorphism of hypergraphs to their graphs. The other one recognises the nodes
  of a graph by their edges: places have outgoing edges, vertices have incoming ones only, and first
  places are those that no place points to. Following the chain of places then carries each hyperedge
  over as a whole.
 */
module HypergraphToGraph {
  import opened Types
  import opened Collections
  import opened EngineIsomorphism

  datatype Node = Hyperedge(index: int, position: int) | Vertex(name: Atom)

  datatype Graph = Graph(nodes: set<Node>, edges: set<(Node, Node)>)

  function Places(index: int, hyperedge: AtomsVector): (r: seq<Node>)
    ensures |r| == |hyperedge| && forall k :: 0 <= k < |r| ==> r[k] == Hyperedge(index, k + 1)
  {
    seq(|hyperedge|, k => Hyperedge(index, k + 1))
  }

  function VerticesOf(hyperedge: AtomsVector): (r: seq<Node>)
    ensures |r| == |hyperedge| && forall k :: 0 <= k < |r| ==> r[k] == Vertex(hyperedge[k])
  {
    seq(|hyperedge|, k requires 0 <= k < |hyperedge| => Vertex(hyperedge[k]))
  }

  // The graph of one hyperedge; an empty one is a single node.
  function ToStructurePreserving(index: int, hyperedge: AtomsVector): Graph {
    if hyperedge == [] then Graph({Hyperedge(index, 0)}, {})
    else
      var places, vertices := Places(index, hyperedge), VerticesOf(hyperedge);
      var nextPlaces := places[1..];
      Graph(
        (set a | a in places) + (set b | b in vertices),
        (set k | 0 <= k < |nextPlaces| :: (places[k], nextPlaces[k])) +
        (set k | 0 <= k < |places| :: (places[k], vertices[k])))
  }

  function GraphJoin(graphs: seq<Graph>): Graph {
    if graphs == [] then Graph({}, {})
    else
      var rest, last := GraphJoin(graphs[..|graphs| - 1]), graphs[|graphs| - 1];
      Graph(rest.nodes + last.nodes, rest.edges + last.edges)
  }

  function HyperedgeGraphs(h: Hypergraph): (r: seq<Graph>)
    ensures |r| == |h| && forall i :: 0 <= i < |h| ==> r[i] == ToStructurePreserving(i + 1, h[i])
  {
    seq(|h|, i requires 0 <= i < |h| => ToStructurePreserving(i + 1, h[i]))
  }

  function StructurePreserving(h: Hypergraph): Graph {
    GraphJoin(HyperedgeGraphs(h))
  }

  // ----- the graph described

  ghost predicate IsPlace(h: Hypergraph, i: int, k: int) {
    1 <= i <= |h| && 1 <= k <= |h[i - 1]|
  }

  ghost predicate IsNode(h: Hypergraph, a: Node) {
    match a
    case Hyperedge(i, k) => IsPlace(h, i, k) || (1 <= i <= |h| && h[i - 1] == [] && k == 0)
    case Vertex(x) => HasAtom(h, x)
  }

  ghost predicate IsEdge(h: Hypergraph, a: Node, b: Node) {
    && a.Hyperedge? && IsPlace(h, a.index, a.position)
    && (b == Vertex(h[a.index - 1][a.position - 1]) ||
        (b == Hyperedge(a.index, a.position + 1) && IsPlace(h, a.index, a.position + 1)))
  }

  lemma HyperedgeGraphNodes(h: Hypergraph, i: nat, a: Node)
    requires i < |h|
    ensures a in ToStructurePreserving(i + 1, h[i]).nodes <==>
            (match a
             case Hyperedge(j, k) => j == i + 1 && IsNode(h, a)
             case Vertex(x) => x in h[i])
  {
    var e := h[i];
    var places, vertices := Places(i + 1, e), VerticesOf(e);
    if a.Hyperedge? && a.index == i + 1 && IsPlace(h, a.index, a.position) {
      assert places[a.position - 1] == a;
    }
    if a.Vertex? && a.name in e {
      var k :| 0 <= k < |e| && e[k] == a.name;
      assert vertices[k] == a;
    }
  }

  lemma HyperedgeGraphEdges(h: Hypergraph, i: nat, a: Node, b: Node)
    requires i < |h|
    ensures (a, b) in ToStructurePreserving(i + 1, h[i]).edges <==> IsEdge(h, a, b) && a.index == i + 1
  {
    var e := h[i];
    var places, vertices := Places(i + 1, e), VerticesOf(e);
    if IsEdge(h, a, b) && a.index == i + 1 {
      var k := a.position - 1;
      assert places[k] == a;
      if b.Vertex? {
        assert (a, b) == (places[k], vertices[k]);
      } else {
        assert (a, b) == (places[k], places[1..][k]);
      }
    }
  }

  lemma {:induction false} JoinMembers(graphs: seq<Graph>)
    ensures forall a :: a in GraphJoin(graphs).nodes <==> exists i :: 0 <= i < |graphs| && a in graphs[i].nodes
    ensures forall e :: e in GraphJoin(graphs).edges <==> exists i :: 0 <= i < |graphs| && e in graphs[i].edges
  {
    if graphs != [] {
      var n := |graphs| - 1;
      JoinMembers(graphs[..n]);
      assert forall i :: 0 <= i < n ==> graphs[..n][i] == graphs[i];
    }
  }

  // The conversion yields exactly the nodes and edges described above.
  lemma StructureIs(h: Hypergraph)
    ensures forall a :: a in StructurePreserving(h).nodes <==> IsNode(h, a)
    ensures forall a, b :: (a, b) in StructurePreserving(h).edges <==> IsEdge(h, a, b)
  {
    var graphs := HyperedgeGraphs(h);
    JoinMembers(graphs);
    forall a
      ensures a in StructurePreserving(h).nodes <==> IsNode(h, a)
    {
      StructureNode(h, a);
    }
    forall a, b
      ensures (a, b) in StructurePreserving(h).edges <==> IsEdge(h, a, b)
    {
      if i :| 0 <= i < |graphs| && (a, b) in graphs[i].edges {
        HyperedgeGraphEdges(h, i, a, b);
      }
      if IsEdge(h, a, b) {
        HyperedgeGraphEdges(h, a.index - 1, a, b);
        assert (a, b) in graphs[a.index - 1].edges;
      }
    }
  }

  lemma StructureNode(h: Hypergraph, a: Node)
    ensures (exists i :: 0 <= i < |h| && a in HyperedgeGraphs(h)[i].nodes) <==> IsNode(h, a)
  {
    var graphs := HyperedgeGraphs(h);
    if i :| 0 <= i < |h| && a in graphs[i].nodes {
      HyperedgeGraphNodes(h, i, a);
      if a.Vertex? {
        assert a.name in h[i];
      }
    }
    if IsNode(h, a) {
      match a
      case Hyperedge(j, k) =>
        HyperedgeGraphNodes(h, j - 1, a);
        assert a in graphs[j - 1].nodes;
      case Vertex(x) =>
        var i :| 0 <= i < |h| && x in h[i];
        HyperedgeGraphNodes(h, i, a);
        assert a in graphs[i].nodes;
    }
  }

  // ----- isomorphism

  // Renames the vertices, without identifying any two, and reorders the hyperedges.
  ghost predicate IsHypergraphIsomorphism(s: map<Atom, Atom>, p: seq<int>, h: Hypergraph, g: Hypergraph) {
    && |h| == |g| && IsPermutation(p, |h|)
    && (forall x :: x in s <==> HasAtom(h, x))
    && (forall x, y :: x in s && y in s && s[x] == s[y] ==> x == y)
    && (forall i :: 0 <= i < |h| ==> IsRenamed(s, h[i], g[p[i]]))
  }

  ghost predicate IsRenamed(s: map<Atom, Atom>, v: AtomsVector, w: AtomsVector) {
    |v| == |w| && forall k :: 0 <= k < |v| ==> v[k] in s && s[v[k]] == w[k]
  }

  ghost predicate IsGraphIsomorphism(f: map<Node, Node>, a: Graph, b: Graph) {
    && f.Keys == a.nodes && (forall u :: u in f ==> f[u] in b.nodes)
    && (forall u, v :: u in f && v in f && f[u] == f[v] ==> u == v)
    && (forall w :: w in b.nodes ==> exists u :: u in f && f[u] == w)
    && (forall u, v :: u in f && v in f ==> ((u, v) in a.edges <==> (f[u], f[v]) in b.edges))
  }

  ghost predicate HypergraphsAreIsomorphic(h: Hypergraph, g: Hypergraph) {
    exists s, p :: IsHypergraphIsomorphism(s, p, h, g)
  }

  ghost predicate GraphsAreIsomorphic(a: Graph, b: Graph) {
    exists f :: IsGraphIsomorphism(f, a, b)
  }

  // ----- from hypergraphs to graphs

  ghost function Lifted(s: map<Atom, Atom>, p: seq<int>, h: Hypergraph, a: Node): Node
    requires |p| == |h| && IsNode(h, a) && forall x :: HasAtom(h, x) ==> x in s
  {
    match a
    case Hyperedge(i, k) => Hyperedge(p[i - 1] + 1, k)
    case Vertex(x) => Vertex(s[x])
  }

  lemma LiftedIsNode(s: map<Atom, Atom>, p: seq<int>, h: Hypergraph, g: Hypergraph, a: Node)
    requires IsHypergraphIsomorphism(s, p, h, g) && IsNode(h, a)
    ensures IsNode(g, Lifted(s, p, h, a))
  {
    match a
    case Hyperedge(i, k) =>
      assert IsRenamed(s, h[i - 1], g[p[i - 1]]);
    case Vertex(x) =>
      var i :| 0 <= i < |h| && x in h[i];
      var k :| 0 <= k < |h[i]| && h[i][k] == x;
      assert IsRenamed(s, h[i], g[p[i]]);
      assert g[p[i]][k] == s[x];
  }

  lemma LiftedIsEdge(s: map<Atom, Atom>, p: seq<int>, h: Hypergraph, g: Hypergraph, a: Node, b: Node)
    requires IsHypergraphIsomorphism(s, p, h, g) && IsNode(h, a) && IsNode(h, b)
    ensures IsEdge(h, a, b) <==> IsEdge(g, Lifted(s, p, h, a), Lifted(s, p, h, b))
  {
    if a.Hyperedge? {
      var i := a.index - 1;
      assert IsRenamed(s, h[i], g[p[i]]);
      assert b.Hyperedge? ==> (p[b.index - 1] == p[i] <==> b.index == a.index);
      if b.Vertex? && IsPlace(h, a.index, a.position) {
        assert h[i][a.position - 1] in s;
      }
    }
  }

  lemma LiftedIsInjective(s: map<Atom, Atom>, p: seq<int>, h: Hypergraph, g: Hypergraph, a: Node, b: Node)
    requires IsHypergraphIsomorphism(s, p, h, g) && IsNode(h, a) && IsNode(h, b)
    ensures Lifted(s, p, h, a) == Lifted(s, p, h, b) ==> a == b
  {
    if a.Hyperedge? && b.Hyperedge? {
      assert p[a.index - 1] == p[b.index - 1] ==> a.index == b.index;
    }
  }

  lemma LiftedReaches(s: map<Atom, Atom>, p: seq<int>, h: Hypergraph, g: Hypergraph, b: Node) returns (a: Node)
    requires IsHypergraphIsomorphism(s, p, h, g) && IsNode(g, b)
    ensures IsNode(h, a) && Lifted(s, p, h, a) == b
  {
    match b
    case Hyperedge(j, k) =>
      var i := PermutationReaches(p, |h|, j - 1);
      assert IsRenamed(s, h[i], g[p[i]]);
      a := Hyperedge(i + 1, k);
    case Vertex(y) =>
      var j :| 0 <= j < |g| && y in g[j];
      var k :| 0 <= k < |g[j]| && g[j][k] == y;
      var i := PermutationReaches(p, |h|, j);
      assert IsRenamed(s, h[i], g[p[i]]);
      a := Vertex(h[i][k]);
      assert h[i][k] in h[i];
  }

  lemma IsomorphicHypergraphsHaveIsomorphicGraphs(h: Hypergraph, g: Hypergraph)
    requires HypergraphsAreIsomorphic(h, g)
    ensures GraphsAreIsomorphic(StructurePreserving(h), StructurePreserving(g))
  {
    var s, p :| IsHypergraphIsomorphism(s, p, h, g);
    StructureIs(h);
    StructureIs(g);
    var nodes := StructurePreserving(h).nodes;
    var f := map a | a in nodes :: Lifted(s, p, h, a);
    forall a | a in f
      ensures f[a] in StructurePreserving(g).nodes
    {
      LiftedIsNode(s, p, h, g, a);
    }
    forall a, b | a in f && b in f
      ensures f[a] == f[b] ==> a == b
      ensures (a, b) in StructurePreserving(h).edges <==> (f[a], f[b]) in StructurePreserving(g).edges
    {
      LiftedIsInjective(s, p, h, g, a, b);
      LiftedIsEdge(s, p, h, g, a, b);
    }
    forall b | b in StructurePreserving(g).nodes
      ensures exists a :: a in f && f[a] == b
    {
      var a := LiftedReaches(s, p, h, g, b);
      assert a in f && f[a] == b;
    }
    assert IsGraphIsomorphism(f, StructurePreserving(h), StructurePreserving(g));
  }

  // ----- from graphs to hypergraphs

  // The same as an isomorphism of the two graphs, in terms of the hypergraphs.
  ghost predicate IsStructureIsomorphism(f: map<Node, Node>, h: Hypergraph, g: Hypergraph) {
    && (forall a :: a in f <==> IsNode(h, a))
    && (forall a :: a in f ==> IsNode(g, f[a]))
    && (forall a, b :: a in f && b in f && f[a] == f[b] ==> a == b)
    && (forall w :: IsNode(g, w) ==> Reaches(f, w))
    && (forall a, b :: a in f && b in f ==> (IsEdge(h, a, b) <==> IsEdge(g, f[a], f[b])))
  }

  ghost predicate Reaches(f: map<Node, Node>, w: Node) {
    exists a :: a in f && f[a] == w
  }

  ghost predicate IsPlaceNode(a: Node) {
    a.Hyperedge? && a.position >= 1
  }

  // Places are the nodes with outgoing edges, ...
  lemma PlacesToPlaces(f: map<Node, Node>, h: Hypergraph, g: Hypergraph, a: Node)
    requires IsStructureIsomorphism(f, h, g) && IsNode(h, a)
    ensures IsPlaceNode(a) <==> IsPlaceNode(f[a])
  {
    if IsPlaceNode(a) {
      var b := Vertex(h[a.index - 1][a.position - 1]);
      assert h[a.index - 1][a.position - 1] in h[a.index - 1];
      assert IsNode(h, b) && IsEdge(h, a, b) && IsEdge(g, f[a], f[b]);
    }
    if IsPlaceNode(f[a]) {
      var w := f[a];
      var v := Vertex(g[w.index - 1][w.position - 1]);
      assert g[w.index - 1][w.position - 1] in g[w.index - 1];
      assert IsNode(g, v) && IsEdge(g, w, v) && Reaches(f, v);
      var b :| b in f && f[b] == v;
      assert IsEdge(h, a, b);
    }
  }

  lemma VertexHasPlace(h: Hypergraph, x: Atom) returns (a: Node)
    requires HasAtom(h, x)
    ensures IsNode(h, a) && IsEdge(h, a, Vertex(x))
  {
    var i :| 0 <= i < |h| && x in h[i];
    var k :| 0 <= k < |h[i]| && h[i][k] == x;
    a := Hyperedge(i + 1, k + 1);
  }

  // ... vertices are those that have incoming edges only, ...
  lemma VerticesToVertices(f: map<Node, Node>, h: Hypergraph, g: Hypergraph, a: Node)
    requires IsStructureIsomorphism(f, h, g) && IsNode(h, a)
    ensures a.Vertex? <==> f[a].Vertex?
  {
    PlacesToPlaces(f, h, g, a);
    if a.Vertex? {
      var b := VertexHasPlace(h, a.name);
      assert IsEdge(g, f[b], f[a]);
    }
    if f[a].Vertex? {
      var w := VertexHasPlace(g, f[a].name);
      assert Reaches(f, w);
      var b :| b in f && f[b] == w;
      assert IsEdge(h, b, a);
    }
  }

  lemma PlaceBefore(f: map<Node, Node>, h: Hypergraph, g: Hypergraph, a: Node)
    requires IsStructureIsomorphism(f, h, g) && a in f && IsPlaceNode(f[a]) && f[a].position > 1
    ensures exists b :: b in f && IsEdge(h, b, a)
  {
    var w := f[a];
    var v := Hyperedge(w.index, w.position - 1);
    assert IsNode(g, v) && IsEdge(g, v, w) && Reaches(f, v);
    var b :| b in f && f[b] == v;
    assert IsEdge(h, b, a);
  }

  lemma PlaceAfter(f: map<Node, Node>, h: Hypergraph, g: Hypergraph, a: Node)
    requires IsStructureIsomorphism(f, h, g) && a in f && IsPlaceNode(f[a])
    requires IsPlace(g, f[a].index, f[a].position + 1)
    ensures exists b :: b in f && b.Hyperedge? && IsEdge(h, a, b)
  {
    var v := Hyperedge(f[a].index, f[a].position + 1);
    assert IsNode(g, v) && IsEdge(g, f[a], v) && Reaches(f, v);
    var b :| b in f && f[b] == v;
    VerticesToVertices(f, h, g, b);
    assert IsEdge(h, a, b);
  }

  // ... and first places are those places that have none.
  lemma FirstToFirst(f: map<Node, Node>, h: Hypergraph, g: Hypergraph, i: int)
    requires IsStructureIsomorphism(f, h, g) && IsPlace(h, i, 1)
    ensures f[Hyperedge(i, 1)].Hyperedge? && f[Hyperedge(i, 1)].position == 1
  {
    var a := Hyperedge(i, 1);
    PlacesToPlaces(f, h, g, a);
    if f[a].position > 1 {
      PlaceBefore(f, h, g, a);
    }
  }

  // Following the chain of places, each place goes to the same place of one hyperedge.
  lemma {:induction false} ChainToChain(f: map<Node, Node>, h: Hypergraph, g: Hypergraph, i: int, k: int)
    requires IsStructureIsomorphism(f, h, g) && IsPlace(h, i, k)
    ensures f[Hyperedge(i, 1)].Hyperedge? && f[Hyperedge(i, k)] == Hyperedge(f[Hyperedge(i, 1)].index, k)
    decreases k
  {
    if k == 1 {
      FirstToFirst(f, h, g, i);
    } else {
      ChainToChain(f, h, g, i, k - 1);
      PlacesToPlaces(f, h, g, Hyperedge(i, k));
      assert IsEdge(h, Hyperedge(i, k - 1), Hyperedge(i, k));
      assert IsEdge(g, f[Hyperedge(i, k - 1)], f[Hyperedge(i, k)]);
    }
  }

  ghost function First(h: Hypergraph, i: int): Node
    requires 1 <= i <= |h|
  {
    Hyperedge(i, if h[i - 1] == [] then 0 else 1)
  }

  lemma FirstsToFirsts(f: map<Node, Node>, h: Hypergraph, g: Hypergraph, i: int)
    requires IsStructureIsomorphism(f, h, g) && 1 <= i <= |h|
    ensures f[First(h, i)].Hyperedge? && 1 <= f[First(h, i)].index <= |g|
    ensures f[First(h, i)] == First(g, f[First(h, i)].index)
  {
    var a := First(h, i);
    assert IsNode(h, a);
    VerticesToVertices(f, h, g, a);
    PlacesToPlaces(f, h, g, a);
    if h[i - 1] != [] {
      FirstToFirst(f, h, g, i);
    }
  }

  lemma SameLength(f: map<Node, Node>, h: Hypergraph, g: Hypergraph, i: int)
    requires IsStructureIsomorphism(f, h, g) && 1 <= i <= |h|
    ensures f[First(h, i)].Hyperedge? && 1 <= f[First(h, i)].index <= |g|
    ensures |g[f[First(h, i)].index - 1]| == |h[i - 1]|
  {
    FirstsToFirsts(f, h, g, i);
    PlacesToPlaces(f, h, g, First(h, i));
    if h[i - 1] != [] {
      ChainToChain(f, h, g, i, |h[i - 1]|);
      ChainEnds(f, h, g, i, f[First(h, i)].index);
    }
  }

  lemma ChainEnds(f: map<Node, Node>, h: Hypergraph, g: Hypergraph, i: int, j: int)
    requires IsStructureIsomorphism(f, h, g) && 1 <= i <= |h| && 1 <= j <= |g| && h[i - 1] != []
    requires Hyperedge(i, |h[i - 1]|) in f && f[Hyperedge(i, |h[i - 1]|)] == Hyperedge(j, |h[i - 1]|)
    ensures |g[j - 1]| <= |h[i - 1]|
  {
    var n := |h[i - 1]|;
    if |g[j - 1]| > n {
      PlaceAfter(f, h, g, Hyperedge(i, n));
    }
  }

  ghost function EdgeImage(f: map<Node, Node>, h: Hypergraph, g: Hypergraph, i: int): (j: int)
    requires IsStructureIsomorphism(f, h, g) && 0 <= i < |h|
    ensures First(h, i + 1) in f
    ensures 0 <= j < |g| && f[First(h, i + 1)] == First(g, j + 1)
  {
    assert IsNode(h, First(h, i + 1));
    FirstsToFirsts(f, h, g, i + 1);
    f[First(h, i + 1)].index - 1
  }

  ghost function EdgeMap(f: map<Node, Node>, h: Hypergraph, g: Hypergraph): (p: seq<int>)
    requires IsStructureIsomorphism(f, h, g)
    ensures |p| == |h| && forall i :: 0 <= i < |h| ==> p[i] == EdgeImage(f, h, g, i)
  {
    seq(|h|, i requires 0 <= i < |h| => EdgeImage(f, h, g, i))
  }

  lemma EdgeMapReaches(f: map<Node, Node>, h: Hypergraph, g: Hypergraph, j: int) returns (i: int)
    requires IsStructureIsomorphism(f, h, g) && 0 <= j < |g|
    ensures 0 <= i < |h| && EdgeMap(f, h, g)[i] == j
  {
    var w := First(g, j + 1);
    assert IsNode(g, w) && Reaches(f, w);
    var a :| a in f && f[a] == w;
    VerticesToVertices(f, h, g, a);
    PlacesToPlaces(f, h, g, a);
    if a.position >= 1 {
      ChainToChain(f, h, g, a.index, a.position);
    }
    assert a == First(h, a.index);
    i := a.index - 1;
  }

  lemma EdgeMapIsPermutation(f: map<Node, Node>, h: Hypergraph, g: Hypergraph)
    requires IsStructureIsomorphism(f, h, g)
    ensures |h| == |g| && IsPermutation(EdgeMap(f, h, g), |h|)
  {
    var p := EdgeMap(f, h, g);
    forall i, j | 0 <= i < j < |p|
      ensures p[i] != p[j]
    {
      assert First(h, i + 1) in f && First(h, j + 1) in f;
    }
    forall j
      ensures j in Elements(p) <==> j in Below(|g|)
    {
      if j in Below(|g|) {
        var i := EdgeMapReaches(f, h, g, j);
        assert p[i] == j;
      }
    }
    SameElements(Elements(p), Below(|g|));
    DistinctSize(p);
    SizeOfBelow(|g|);
  }

  ghost function VertexImage(f: map<Node, Node>, h: Hypergraph, g: Hypergraph, x: Atom): (y: Atom)
    requires IsStructureIsomorphism(f, h, g) && HasAtom(h, x)
    ensures Vertex(x) in f && f[Vertex(x)] == Vertex(y)
  {
    assert IsNode(h, Vertex(x));
    VerticesToVertices(f, h, g, Vertex(x));
    f[Vertex(x)].name
  }

  ghost function VertexMap(f: map<Node, Node>, h: Hypergraph, g: Hypergraph): (s: map<Atom, Atom>)
    requires IsStructureIsomorphism(f, h, g)
    ensures forall x :: x in s <==> HasAtom(h, x)
    ensures forall x :: x in s ==> s[x] == VertexImage(f, h, g, x)
  {
    map x | x in Atoms(h) :: VertexImage(f, h, g, x)
  }

  lemma HyperedgeIsRenamed(f: map<Node, Node>, h: Hypergraph, g: Hypergraph, i: int)
    requires IsStructureIsomorphism(f, h, g) && 0 <= i < |h|
    ensures IsRenamed(VertexMap(f, h, g), h[i], g[EdgeImage(f, h, g, i)])
  {
    SameLength(f, h, g, i + 1);
    forall k | 0 <= k < |h[i]|
      ensures h[i][k] in VertexMap(f, h, g) && VertexMap(f, h, g)[h[i][k]] == g[EdgeImage(f, h, g, i)][k]
    {
      PlaceIsRenamed(f, h, g, i, k);
    }
  }

  lemma PlaceIsRenamed(f: map<Node, Node>, h: Hypergraph, g: Hypergraph, i: int, k: int)
    requires IsStructureIsomorphism(f, h, g) && 0 <= i < |h| && 0 <= k < |h[i]|
    requires |g[EdgeImage(f, h, g, i)]| == |h[i]|
    ensures HasAtom(h, h[i][k]) && VertexImage(f, h, g, h[i][k]) == g[EdgeImage(f, h, g, i)][k]
  {
    ChainToChain(f, h, g, i + 1, k + 1);
    var x := h[i][k];
    assert x in h[i] && HasAtom(h, x);
    var a, b := Hyperedge(i + 1, k + 1), Vertex(x);
    assert IsNode(h, a) && IsNode(h, b) && IsEdge(h, a, b) && IsEdge(g, f[a], f[b]);
    assert f[b] == Vertex(VertexImage(f, h, g, x));
  }

  lemma IsomorphicGraphsHaveIsomorphicHypergraphs(h: Hypergraph, g: Hypergraph)
    requires GraphsAreIsomorphic(StructurePreserving(h), StructurePreserving(g))
    ensures HypergraphsAreIsomorphic(h, g)
  {
    var f :| IsGraphIsomorphism(f, StructurePreserving(h), StructurePreserving(g));
    GraphIsomorphismIsStructural(f, h, g);
    StructureIsomorphismIsEnough(f, h, g);
  }

  lemma GraphIsomorphismIsStructural(f: map<Node, Node>, h: Hypergraph, g: Hypergraph)
    requires IsGraphIsomorphism(f, StructurePreserving(h), StructurePreserving(g))
    ensures IsStructureIsomorphism(f, h, g)
  {
    hide StructurePreserving, IsNode, IsEdge;
    StructureIs(h);
    StructureIs(g);
    forall a, b | a in f && b in f
      ensures IsEdge(h, a, b) <==> IsEdge(g, f[a], f[b])
    {
      assert (a, b) in StructurePreserving(h).edges <==> (f[a], f[b]) in StructurePreserving(g).edges;
    }
    forall w | IsNode(g, w)
      ensures Reaches(f, w)
    {
      assert w in StructurePreserving(g).nodes;
    }
  }

  lemma StructureIsomorphismIsEnough(f: map<Node, Node>, h: Hypergraph, g: Hypergraph)
    requires IsStructureIsomorphism(f, h, g)
    ensures HypergraphsAreIsomorphic(h, g)
  {
    var s, p := VertexMap(f, h, g), EdgeMap(f, h, g);
    EdgeMapIsPermutation(f, h, g);
    forall i | 0 <= i < |h|
      ensures IsRenamed(s, h[i], g[p[i]])
    {
      HyperedgeIsRenamed(f, h, g, i);
    }
    forall x, y | x in s && y in s && s[x] == s[y]
      ensures x == y
    {
      assert f[Vertex(x)] == f[Vertex(y)];
    }
    assert IsHypergraphIsomorphism(s, p, h, g);
  }

  // The test by graphs is right: repeated vertices, repeated hyperedges and empty ones included.
  lemma IsomorphicIffGraphsAre(h: Hypergraph, g: Hypergraph)
    ensures HypergraphsAreIsomorphic(h, g) <==> GraphsAreIsomorphic(StructurePreserving(h), StructurePreserving(g))
  {
    if HypergraphsAreIsomorphic(h, g) {
      IsomorphicHypergraphsHaveIsomorphicGraphs(h, g);
    }
    if GraphsAreIsomorphic(StructurePreserving(h), StructurePreserving(g)) {
      IsomorphicGraphsHaveIsomorphicHypergraphs(h, g);
    }
  }

  // ----- nothing is lost

  ghost predicate SameStructure(h: Hypergraph, g: Hypergraph) {
    && (forall a :: IsNode(h, a) <==> IsNode(g, a))
    && (forall a, b :: IsEdge(h, a, b) <==> IsEdge(g, a, b))
  }

  // The original hypergraph, order and all, can be read off its graph.
  lemma GraphDeterminesHypergraph(h: Hypergraph, g: Hypergraph)
    requires StructurePreserving(h) == StructurePreserving(g)
    ensures h == g
  {
    StructureIs(h);
    StructureIs(g);
    assert SameStructure(h, g) by {
      hide StructurePreserving, IsNode, IsEdge;
    }
    IndicesAgree(h, g);
    IndicesAgree(g, h);
    forall i | 0 <= i < |h|
      ensures h[i] == g[i]
    {
      HyperedgesAgree(h, g, i);
    }
  }

  lemma IndicesAgree(h: Hypergraph, g: Hypergraph)
    requires SameStructure(h, g)
    ensures |h| <= |g|
  {
    if h != [] {
      assert IsNode(h, First(h, |h|));
    }
  }

  lemma HyperedgesAgree(h: Hypergraph, g: Hypergraph, i: int)
    requires SameStructure(h, g) && 0 <= i < |h| == |g|
    ensures h[i] == g[i]
  {
    PlacesAgree(h, g, i);
    PlacesAgree(g, h, i);
    forall k | 0 <= k < |h[i]|
      ensures h[i][k] == g[i][k]
    {
      assert IsEdge(h, Hyperedge(i + 1, k + 1), Vertex(h[i][k]));
    }
  }

  lemma PlacesAgree(h: Hypergraph, g: Hypergraph, i: int)
    requires SameStructure(h, g) && 0 <= i < |h| == |g|
    ensures |h[i]| <= |g[i]|
  {
    if h[i] != [] {
      assert IsNode(h, Hyperedge(i + 1, |h[i]|));
    }
  }
}

/**
  Unifications of two hypergraphs: all ways to pair some hyperedges of one with hyperedges of the
  other, and for each of them the least identification of vertices that makes paired hyperedges equal.
 */
module HypergraphUnifications {
  import opened Types

  type Hypergraph = seq<AtomsVector>

  // Pairs of hyperedge indices in the order in which they were paired.
  type EdgeMatch = seq<(int, int)>

  // ----- enumerating the pairings

  predicate IsUsed(m: EdgeMatch, i: int, j: int) {
    exists k | 0 <= k < |m| :: m[k].0 == i || m[k].1 == j
  }

  // Pairings are built in one order only, so going back would find them again.
  predicate IsBacktracking(m: EdgeMatch, i: int, j: int) {
    m != [] && (i < m[|m| - 1].0 || (i == m[|m| - 1].0 && j < m[|m| - 1].1))
  }

  predicate CanPair(e1: Hypergraph, e2: Hypergraph, m: EdgeMatch, i: int, j: int)
    requires 0 <= i < |e1| && 0 <= j < |e2|
  {
    |e1[i]| == |e2[j]| && !IsUsed(m, i, j) && !IsBacktracking(m, i, j)
  }

  // The first index that is not smaller than those used.
  function NextIndex(m: EdgeMatch): int {
    if m == [] then 0 else m[|m| - 1].0 + 1
  }

  predicate IsWithin(e1: Hypergraph, m: EdgeMatch) {
    m == [] || 0 <= m[|m| - 1].0 < |e1|
  }

  // All pairings that extend m, in the order in which they are found: trying all pairs of hyperedges
  // after position, where position i * |e2| + j stands for the pair of i and j.
  function RemainingOverlaps(e1: Hypergraph, e2: Hypergraph, m: EdgeMatch, i: nat, j: nat): seq<EdgeMatch>
    requires IsWithin(e1, m) && i <= |e1| && j <= |e2|
    decreases |e1| - NextIndex(m), |e1| - i, |e2| - j
  {
    if i == |e1| then []
    else if j == |e2| then RemainingOverlaps(e1, e2, m, i + 1, 0)
    else
      (if CanPair(e1, e2, m, i, j) then
         NotBackIsNext(m, i, j);
         [m + [(i, j)]] + RemainingOverlaps(e1, e2, m + [(i, j)], 0, 0)
       else []) + RemainingOverlaps(e1, e2, m, i, j + 1)
  }

  lemma NotBackIsNext(m: EdgeMatch, i: int, j: int)
    requires !IsUsed(m, i, j) && !IsBacktracking(m, i, j) && i >= 0
    ensures i >= NextIndex(m) && NextIndex(m + [(i, j)]) == i + 1
  {
    if m != [] {
      var last := |m| - 1;
      assert m[last].0 != i;
    }
  }

  function AllOverlaps(e1: Hypergraph, e2: Hypergraph): seq<EdgeMatch> {
    RemainingOverlaps(e1, e2, [], 0, 0)
  }

  // A partial injection between hyperedges of the same length, listed by its first indices.
  ghost predicate IsPairing(e1: Hypergraph, e2: Hypergraph, m: EdgeMatch) {
    && (forall k :: 0 <= k < |m| ==> 0 <= m[k].0 < |e1| && 0 <= m[k].1 < |e2| && |e1[m[k].0]| == |e2[m[k].1]|)
    && (forall k, l :: 0 <= k < l < |m| ==> m[k].0 < m[l].0 && m[k].1 != m[l].1)
  }

  lemma PairKeepsPairing(e1: Hypergraph, e2: Hypergraph, m: EdgeMatch, i: int, j: int)
    requires IsPairing(e1, e2, m) && 0 <= i < |e1| && 0 <= j < |e2|
    ensures CanPair(e1, e2, m, i, j) <==> IsPairing(e1, e2, m + [(i, j)])
  {
    var m' := m + [(i, j)];
    if CanPair(e1, e2, m, i, j) {
      NotBackIsNext(m, i, j);
      forall k, l | 0 <= k < l < |m'|
        ensures m'[k].0 < m'[l].0 && m'[k].1 != m'[l].1
      {
        assert k < |m| ==> m'[k] == m[k];
        assert l < |m| ==> m'[l] == m[l];
        assert k < |m| - 1 ==> m[k].0 < m[|m| - 1].0;
      }
    }
    if IsPairing(e1, e2, m') {
      forall k | 0 <= k < |m|
        ensures m[k].0 < i && m[k].1 != j
      {
        assert m'[k] == m[k] && m'[|m|] == (i, j);
      }
      assert m'[|m|] == (i, j);
    }
  }

  // x extends m, by a pair at the given position or a later one.
  ghost predicate Extends(m: EdgeMatch, x: EdgeMatch, i: int, j: int) {
    |m| < |x| && x[..|m|] == m && (x[|m|].0 > i || (x[|m|].0 == i && x[|m|].1 >= j))
  }

  ghost function Expected(e1: Hypergraph, e2: Hypergraph, m: EdgeMatch, x: EdgeMatch, i: int, j: int): nat {
    if IsPairing(e1, e2, x) && Extends(m, x, i, j) then 1 else 0
  }

  // What is found from a position on: every pairing that continues there, once, and nothing else.
  lemma {:induction false} RemainingIsExact(e1: Hypergraph, e2: Hypergraph, m: EdgeMatch, i: nat, j: nat, x: EdgeMatch)
    requires IsPairing(e1, e2, m) && IsWithin(e1, m) && i <= |e1| && j <= |e2|
    ensures multiset(RemainingOverlaps(e1, e2, m, i, j))[x] == Expected(e1, e2, m, x, i, j)
    decreases |e1| - NextIndex(m), |e1| - i, |e2| - j, 1
  {
    hide RemainingOverlaps, IsPairing, Expected;
    if i == |e1| {
      NothingBeyond(e1, e2, m, x, j);
    } else if j == |e2| {
      RemainingIsExact(e1, e2, m, i + 1, 0, x);
      RowIsOver(e1, e2, m, x, i);
    } else {
      PairIsExact(e1, e2, m, i, j, x);
    }
  }

  lemma {:induction false} PairIsExact(e1: Hypergraph, e2: Hypergraph, m: EdgeMatch, i: nat, j: nat, x: EdgeMatch)
    requires IsPairing(e1, e2, m) && IsWithin(e1, m) && i < |e1| && j < |e2|
    ensures multiset(RemainingOverlaps(e1, e2, m, i, j))[x] == Expected(e1, e2, m, x, i, j)
    decreases |e1| - NextIndex(m), |e1| - i, |e2| - j, 0
  {
    hide IsPairing, Expected, IsUsed, IsBacktracking;
    RemainingIsExact(e1, e2, m, i, j + 1, x);
    PairKeepsPairing(e1, e2, m, i, j);
    if CanPair(e1, e2, m, i, j) {
      NotBackIsNext(m, i, j);
      RemainingIsExact(e1, e2, m + [(i, j)], 0, 0, x);
    }
    PairAddsUp(e1, e2, m, i, j, x);
  }

  lemma PairAddsUp(e1: Hypergraph, e2: Hypergraph, m: EdgeMatch, i: nat, j: nat, x: EdgeMatch)
    requires IsWithin(e1, m) && i < |e1| && j < |e2|
    requires CanPair(e1, e2, m, i, j) <==> IsPairing(e1, e2, m + [(i, j)])
    requires multiset(RemainingOverlaps(e1, e2, m, i, j + 1))[x] == Expected(e1, e2, m, x, i, j + 1)
    requires CanPair(e1, e2, m, i, j) ==>
               && IsWithin(e1, m + [(i, j)])
               && multiset(RemainingOverlaps(e1, e2, m + [(i, j)], 0, 0))[x] == Expected(e1, e2, m + [(i, j)], x, 0, 0)
    ensures multiset(RemainingOverlaps(e1, e2, m, i, j))[x] == Expected(e1, e2, m, x, i, j)
  {
    hide Expected, IsPairing, IsUsed, IsBacktracking;
    ExpectedAddsUp(e1, e2, m, x, i, j);
    var all, rest := RemainingOverlaps(e1, e2, m, i, j), RemainingOverlaps(e1, e2, m, i, j + 1);
    if CanPair(e1, e2, m, i, j) {
      var deeper := RemainingOverlaps(e1, e2, m + [(i, j)], 0, 0);
      assert all == [m + [(i, j)]] + deeper + rest;
    } else {
      assert all == [] + rest == rest;
    }
  }

  lemma ExpectedAddsUp(e1: Hypergraph, e2: Hypergraph, m: EdgeMatch, x: EdgeMatch, i: int, j: int)
    ensures var m' := m + [(i, j)];
            Expected(e1, e2, m, x, i, j) ==
            Expected(e1, e2, m, x, i, j + 1) +
            if IsPairing(e1, e2, m') then (if x == m' then 1 else 0) + Expected(e1, e2, m', x, 0, 0) else 0
  {
  }

  lemma NothingBeyond(e1: Hypergraph, e2: Hypergraph, m: EdgeMatch, x: EdgeMatch, j: int)
    requires IsWithin(e1, m) && 0 <= j <= |e2|
    ensures Expected(e1, e2, m, x, |e1|, j) == 0 == multiset(RemainingOverlaps(e1, e2, m, |e1|, j))[x]
  {
  }

  lemma RowIsOver(e1: Hypergraph, e2: Hypergraph, m: EdgeMatch, x: EdgeMatch, i: int)
    requires IsWithin(e1, m) && 0 <= i < |e1|
    ensures Expected(e1, e2, m, x, i, |e2|) == Expected(e1, e2, m, x, i + 1, 0)
    ensures RemainingOverlaps(e1, e2, m, i, |e2|) == RemainingOverlaps(e1, e2, m, i + 1, 0)
  {
  }

  // Every nonempty partial injection between hyperedges of the same length is found exactly once.
  lemma EveryPairingOnce(e1: Hypergraph, e2: Hypergraph, x: EdgeMatch)
    ensures multiset(AllOverlaps(e1, e2))[x] == if x != [] && IsPairing(e1, e2, x) then 1 else 0
  {
    RemainingIsExact(e1, e2, [], 0, 0, x);
    if x != [] && IsPairing(e1, e2, x) {
      assert x[..0] == [] && x[0].0 >= 0 && x[0].1 >= 0;
    }
  }

  // They are found in lexicographic order, and what is extended comes before what it is extended to.
  lemma OverlapsAreInOrder(e1: Hypergraph, e2: Hypergraph, p: int, q: int)
    requires 0 <= p < q < |AllOverlaps(e1, e2)|
    ensures IsFoundBefore(AllOverlaps(e1, e2)[p], AllOverlaps(e1, e2)[q])
  {
    RemainingAreInOrder(e1, e2, [], 0, 0);
  }

  ghost predicate IsFoundBefore(x: EdgeMatch, y: EdgeMatch) {
    exists k: nat :: DiffersAt(x, y, k)
  }

  ghost predicate DiffersAt(x: EdgeMatch, y: EdgeMatch, k: nat) {
    && k <= |x| && k < |y| && x[..k] == y[..k]
    && (k == |x| || x[k].0 < y[k].0 || (x[k].0 == y[k].0 && x[k].1 < y[k].1))
  }

  ghost predicate AreInOrder(s: seq<EdgeMatch>) {
    forall p, q :: 0 <= p < q < |s| ==> IsFoundBefore(s[p], s[q])
  }

  lemma {:induction false} RemainingAreInOrder(e1: Hypergraph, e2: Hypergraph, m: EdgeMatch, i: nat, j: nat)
    requires IsPairing(e1, e2, m) && IsWithin(e1, m) && i <= |e1| && j <= |e2|
    ensures AreInOrder(RemainingOverlaps(e1, e2, m, i, j))
    decreases |e1| - NextIndex(m), |e1| - i, |e2| - j
  {
    hide IsPairing, IsUsed, IsBacktracking, IsFoundBefore;
    if i < |e1| {
      if j == |e2| {
        RemainingAreInOrder(e1, e2, m, i + 1, 0);
      } else {
        RemainingAreInOrder(e1, e2, m, i, j + 1);
        PairKeepsPairing(e1, e2, m, i, j);
        if CanPair(e1, e2, m, i, j) {
          NotBackIsNext(m, i, j);
          RemainingAreInOrder(e1, e2, m + [(i, j)], 0, 0);
          PairIsInOrder(e1, e2, m, i, j);
        }
      }
    }
  }

  lemma PairIsInOrder(e1: Hypergraph, e2: Hypergraph, m: EdgeMatch, i: nat, j: nat)
    requires IsPairing(e1, e2, m) && IsWithin(e1, m) && i < |e1| && j < |e2|
    requires IsPairing(e1, e2, m + [(i, j)]) && IsWithin(e1, m + [(i, j)]) && NextIndex(m + [(i, j)]) > NextIndex(m)
    requires AreInOrder(RemainingOverlaps(e1, e2, m + [(i, j)], 0, 0))
    requires AreInOrder(RemainingOverlaps(e1, e2, m, i, j + 1))
    ensures AreInOrder([m + [(i, j)]] + RemainingOverlaps(e1, e2, m + [(i, j)], 0, 0) +
                       RemainingOverlaps(e1, e2, m, i, j + 1))
  {
    hide RemainingOverlaps, IsPairing, IsFoundBefore, CanPair, NextIndex, IsWithin;
    var paired, deeper, rest :=
      m + [(i, j)], RemainingOverlaps(e1, e2, m + [(i, j)], 0, 0), RemainingOverlaps(e1, e2, m, i, j + 1);
    forall x | x in deeper
      ensures IsFoundBefore(paired, x) && |x| > |m| && x[..|m|] == m && x[|m|] == (i, j)
    {
      RemainingExtends(e1, e2, paired, 0, 0, x);
      ExtensionIsFoundAfter(m, i, j, x);
    }
    forall x, y | (x == paired || x in deeper) && y in rest
      ensures IsFoundBefore(x, y)
    {
      RemainingExtends(e1, e2, m, i, j + 1, y);
      LaterPairIsFoundAfter(m, i, j, x, y);
    }
  }

  lemma RemainingExtends(e1: Hypergraph, e2: Hypergraph, m: EdgeMatch, i: nat, j: nat, x: EdgeMatch)
    requires IsPairing(e1, e2, m) && IsWithin(e1, m) && i <= |e1| && j <= |e2|
    requires x in RemainingOverlaps(e1, e2, m, i, j)
    ensures Extends(m, x, i, j)
  {
    RemainingIsExact(e1, e2, m, i, j, x);
    assert x in multiset(RemainingOverlaps(e1, e2, m, i, j));
  }

  lemma ExtensionIsFoundAfter(m: EdgeMatch, i: nat, j: nat, x: EdgeMatch)
    requires Extends(m + [(i, j)], x, 0, 0)
    ensures IsFoundBefore(m + [(i, j)], x) && |x| > |m| && x[..|m|] == m && x[|m|] == (i, j)
  {
    var paired := m + [(i, j)];
    assert x[..|m|] == x[..|paired|][..|m|] == m && x[|m|] == x[..|paired|][|m|];
    assert DiffersAt(paired, x, |paired|);
  }

  lemma LaterPairIsFoundAfter(m: EdgeMatch, i: nat, j: nat, x: EdgeMatch, y: EdgeMatch)
    requires |x| > |m| && x[..|m|] == m && x[|m|] == (i, j) && Extends(m, y, i, j + 1)
    ensures IsFoundBefore(x, y)
  {
    assert DiffersAt(x, y, |m|);
  }

  // ----- identifying vertices

  // Vertices of the first and of the second hypergraph are different to begin with.
  datatype Vertex = First(name: Atom) | Second(name: Atom)

  type Links = seq<(Vertex, Vertex)>

  function AllFirst(v: AtomsVector): (r: seq<Vertex>)
    ensures |r| == |v| && forall k :: 0 <= k < |v| ==> r[k] == First(v[k])
  {
    seq(|v|, k requires 0 <= k < |v| => First(v[k]))
  }

  function AllSecond(v: AtomsVector): (r: seq<Vertex>)
    ensures |r| == |v| && forall k :: 0 <= k < |v| ==> r[k] == Second(v[k])
  {
    seq(|v|, k requires 0 <= k < |v| => Second(v[k]))
  }

  // Vertices at the same places of two paired hyperedges are linked.
  function Threaded(v: seq<Vertex>, w: seq<Vertex>): (r: Links)
    requires |v| == |w|
    ensures |r| == |v| && forall k :: 0 <= k < |v| ==> r[k] == (v[k], w[k])
  {
    seq(|v|, k requires 0 <= k < |v| => (v[k], w[k]))
  }

  function CombinedVertexMatch(e1: Hypergraph, e2: Hypergraph, m: EdgeMatch): Links
    requires IsPairing(e1, e2, m)
  {
    if m == [] then []
    else
      var n := |m| - 1;
      CombinedVertexMatch(e1, e2, m[..n]) + Threaded(AllFirst(e1[m[n].0]), AllSecond(e2[m[n].1]))
  }

  // One vertex for every connected component of the links.
  function Representative(links: Links, v: Vertex): Vertex {
    if links == [] then v
    else
      var rest, link := links[..|links| - 1], links[|links| - 1];
      var r := Representative(rest, v);
      if r == Representative(rest, link.1) then Representative(rest, link.0) else r
  }

  function Identified(links: Links, v: seq<Vertex>): (r: seq<Vertex>)
    ensures |r| == |v| && forall k :: 0 <= k < |v| ==> r[k] == Representative(links, v[k])
  {
    seq(|v|, k requires 0 <= k < |v| => Representative(links, v[k]))
  }

  lemma {:induction false} LinksAreIdentified(links: Links, i: nat)
    requires i < |links|
    ensures Representative(links, links[i].0) == Representative(links, links[i].1)
  {
    if i < |links| - 1 {
      LinksAreIdentified(links[..|links| - 1], i);
    }
  }

  // Nothing more is identified: whatever agrees on the links does not tell a vertex from its representative.
  lemma {:induction false} RepresentativeIsMostGeneral(links: Links, f: Vertex -> Atom, v: Vertex)
    requires forall i :: 0 <= i < |links| ==> f(links[i].0) == f(links[i].1)
    ensures f(Representative(links, v)) == f(v)
  {
    if links != [] {
      var rest, link := links[..|links| - 1], links[|links| - 1];
      RepresentativeIsMostGeneral(rest, f, v);
      RepresentativeIsMostGeneral(rest, f, link.0);
      RepresentativeIsMostGeneral(rest, f, link.1);
      assert f(link.0) == f(link.1);
    }
  }

  lemma {:induction false} PairedLink(e1: Hypergraph, e2: Hypergraph, m: EdgeMatch, k: nat, l: nat) returns (i: nat)
    requires IsPairing(e1, e2, m) && k < |m| && l < |e1[m[k].0]|
    ensures var links := CombinedVertexMatch(e1, e2, m);
            i < |links| && links[i] == (First(e1[m[k].0][l]), Second(e2[m[k].1][l]))
  {
    var n := |m| - 1;
    var rest := CombinedVertexMatch(e1, e2, m[..n]);
    if k < n {
      i := PairedLink(e1, e2, m[..n], k, l);
    } else {
      i := |rest| + l;
    }
  }

  lemma {:induction false} LinkIsPaired(e1: Hypergraph, e2: Hypergraph, m: EdgeMatch, i: nat) returns (k: nat, l: nat)
    requires IsPairing(e1, e2, m) && i < |CombinedVertexMatch(e1, e2, m)|
    ensures k < |m| && l < |e1[m[k].0]|
    ensures CombinedVertexMatch(e1, e2, m)[i] == (First(e1[m[k].0][l]), Second(e2[m[k].1][l]))
  {
    var n := |m| - 1;
    var rest := CombinedVertexMatch(e1, e2, m[..n]);
    if i < |rest| {
      k, l := LinkIsPaired(e1, e2, m[..n], i);
    } else {
      k, l := n, i - |rest|;
    }
  }

  // Paired hyperedges become equal.
  lemma PairedAreEqual(e1: Hypergraph, e2: Hypergraph, m: EdgeMatch, k: nat)
    requires IsPairing(e1, e2, m) && k < |m|
    ensures var links := CombinedVertexMatch(e1, e2, m);
            Identified(links, AllFirst(e1[m[k].0])) == Identified(links, AllSecond(e2[m[k].1]))
  {
    var links := CombinedVertexMatch(e1, e2, m);
    forall l | 0 <= l < |e1[m[k].0]|
      ensures Representative(links, First(e1[m[k].0][l])) == Representative(links, Second(e2[m[k].1][l]))
    {
      var i := PairedLink(e1, e2, m, k, l);
      LinksAreIdentified(links, i);
    }
  }

  function Mapped(f: Vertex -> Atom, v: seq<Vertex>): (r: AtomsVector)
    ensures |r| == |v| && forall k :: 0 <= k < |v| ==> r[k] == f(v[k])
  {
    seq(|v|, k requires 0 <= k < |v| => f(v[k]))
  }

  ghost predicate AgreesOnPairs(f: Vertex -> Atom, e1: Hypergraph, e2: Hypergraph, m: EdgeMatch)
    requires IsPairing(e1, e2, m)
  {
    forall k :: 0 <= k < |m| ==> Mapped(f, AllFirst(e1[m[k].0])) == Mapped(f, AllSecond(e2[m[k].1]))
  }

  // Any two maps of the vertices that make the paired hyperedges equal factor through the identification.
  lemma IdentificationIsMostGeneral(
    f: Vertex -> Atom, e1: Hypergraph, e2: Hypergraph, m: EdgeMatch, v: seq<Vertex>)
    requires IsPairing(e1, e2, m) && AgreesOnPairs(f, e1, e2, m)
    ensures Mapped(f, Identified(CombinedVertexMatch(e1, e2, m), v)) == Mapped(f, v)
  {
    var links := CombinedVertexMatch(e1, e2, m);
    forall i | 0 <= i < |links|
      ensures f(links[i].0) == f(links[i].1)
    {
      var k, l := LinkIsPaired(e1, e2, m, i);
      assert Mapped(f, AllFirst(e1[m[k].0]))[l] == Mapped(f, AllSecond(e2[m[k].1]))[l];
    }
    forall k | 0 <= k < |v|
      ensures f(Representative(links, v[k])) == f(v[k])
    {
      RepresentativeIsMostGeneral(links, f, v[k]);
    }
  }

  // ----- the union

  function FirstsOf(m: EdgeMatch): (r: seq<int>)
    ensures |r| == |m| && forall k :: 0 <= k < |m| ==> r[k] == m[k].0
  {
    seq(|m|, k requires 0 <= k < |m| => m[k].0)
  }

  function SecondsOf(m: EdgeMatch): (r: seq<int>)
    ensures |r| == |m| && forall k :: 0 <= k < |m| ==> r[k] == m[k].1
  {
    seq(|m|, k requires 0 <= k < |m| => m[k].1)
  }

  function Complement(count: nat, used: seq<int>): (r: seq<int>)
    ensures forall i :: i in r <==> 0 <= i < count && i !in used
    ensures forall k, l :: 0 <= k < l < |r| ==> r[k] < r[l]
  {
    if count == 0 then []
    else
      var rest := Complement(count - 1, used);
      assert forall k :: 0 <= k < |rest| ==> rest[k] in rest;
      rest + if count - 1 in used then [] else [count - 1]
  }

  function PositionIn(s: seq<int>, i: int): (k: int)
    requires i in s
    ensures 0 <= k < |s| && s[k] == i
  {
    if s[|s| - 1] == i then |s| - 1 else PositionIn(s[..|s| - 1], i)
  }

  function UnpairedFirst(e1: Hypergraph, links: Links, indices: seq<int>): (r: seq<seq<Vertex>>)
    requires forall i :: i in indices ==> 0 <= i < |e1|
    ensures |r| == |indices|
    ensures forall k :: 0 <= k < |r| ==> 0 <= indices[k] < |e1| && r[k] == Identified(links, AllFirst(e1[indices[k]]))
  {
    assert forall k :: 0 <= k < |indices| ==> indices[k] in indices;
    seq(|indices|, k requires 0 <= k < |indices| => Identified(links, AllFirst(e1[indices[k]])))
  }

  function UnpairedSecond(e2: Hypergraph, links: Links, indices: seq<int>): (r: seq<seq<Vertex>>)
    requires forall j :: j in indices ==> 0 <= j < |e2|
    ensures |r| == |indices|
    ensures forall k :: 0 <= k < |r| ==> 0 <= indices[k] < |e2| && r[k] == Identified(links, AllSecond(e2[indices[k]]))
  {
    assert forall k :: 0 <= k < |indices| ==> indices[k] in indices;
    seq(|indices|, k requires 0 <= k < |indices| => Identified(links, AllSecond(e2[indices[k]])))
  }

  lemma PairedIndices(e1: Hypergraph, e2: Hypergraph, m: EdgeMatch)
    requires IsPairing(e1, e2, m)
    ensures forall i :: i in FirstsOf(m) ==> 0 <= i < |e1|
  {
    forall i | i in FirstsOf(m)
      ensures 0 <= i < |e1|
    {
      var k :| 0 <= k < |m| && FirstsOf(m)[k] == i;
    }
  }

  // First the unpaired hyperedges of the first hypergraph, then those of the second, then the paired ones.
  function FindUnion(e1: Hypergraph, e2: Hypergraph, m: EdgeMatch): (r: seq<seq<Vertex>>)
    requires IsPairing(e1, e2, m)
  {
    var links := CombinedVertexMatch(e1, e2, m);
    PairedIndices(e1, e2, m);
    UnpairedFirst(e1, links, Complement(|e1|, FirstsOf(m))) +
    UnpairedSecond(e2, links, Complement(|e2|, SecondsOf(m))) +
    UnpairedFirst(e1, links, FirstsOf(m))
  }

  // Where the hyperedges of the first hypergraph end up.
  function FirstPosition(e1: Hypergraph, e2: Hypergraph, m: EdgeMatch, i: int): int
    requires IsPairing(e1, e2, m) && 0 <= i < |e1|
  {
    var unique1, unique2 := Complement(|e1|, FirstsOf(m)), Complement(|e2|, SecondsOf(m));
    if i in FirstsOf(m) then |unique1| + |unique2| + PositionIn(FirstsOf(m), i) else PositionIn(unique1, i)
  }

  function SecondPosition(e1: Hypergraph, e2: Hypergraph, m: EdgeMatch, j: int): int
    requires IsPairing(e1, e2, m) && 0 <= j < |e2|
  {
    var unique1, unique2 := Complement(|e1|, FirstsOf(m)), Complement(|e2|, SecondsOf(m));
    if j in SecondsOf(m) then |unique1| + |unique2| + PositionIn(SecondsOf(m), j)
    else |unique1| + PositionIn(unique2, j)
  }

  // The union contains both hypergraphs at the reported positions, ...
  lemma UnionContainsFirst(e1: Hypergraph, e2: Hypergraph, m: EdgeMatch, i: int)
    requires IsPairing(e1, e2, m) && 0 <= i < |e1|
    ensures var p := FirstPosition(e1, e2, m, i);
            && 0 <= p < |FindUnion(e1, e2, m)|
            && FindUnion(e1, e2, m)[p] == Identified(CombinedVertexMatch(e1, e2, m), AllFirst(e1[i]))
  {
    hide Representative, CombinedVertexMatch, IsPairing;
    PairedIndices(e1, e2, m);
    var unique1 := Complement(|e1|, FirstsOf(m));
    if i in FirstsOf(m) {
      assert FirstsOf(m)[PositionIn(FirstsOf(m), i)] == i;
    } else {
      assert unique1[PositionIn(unique1, i)] == i;
    }
  }

  lemma UnionContainsSecond(e1: Hypergraph, e2: Hypergraph, m: EdgeMatch, j: int)
    requires IsPairing(e1, e2, m) && 0 <= j < |e2|
    ensures var p := SecondPosition(e1, e2, m, j);
            && 0 <= p < |FindUnion(e1, e2, m)|
            && FindUnion(e1, e2, m)[p] == Identified(CombinedVertexMatch(e1, e2, m), AllSecond(e2[j]))
  {
    hide Representative, CombinedVertexMatch, IsPairing;
    PairedIndices(e1, e2, m);
    var unique2 := Complement(|e2|, SecondsOf(m));
    if j in SecondsOf(m) {
      var k := PositionIn(SecondsOf(m), j);
      assert m[k].1 == j && FirstsOf(m)[k] == m[k].0;
      PairedAreEqual(e1, e2, m, k);
    } else {
      assert unique2[PositionIn(unique2, j)] == j;
    }
  }

  // ... two hyperedges share a position iff they are paired, ...
  lemma SharedIffPaired(e1: Hypergraph, e2: Hypergraph, m: EdgeMatch, i: int, j: int)
    requires IsPairing(e1, e2, m) && 0 <= i < |e1| && 0 <= j < |e2|
    ensures FirstPosition(e1, e2, m, i) == SecondPosition(e1, e2, m, j) <==> (i, j) in m
  {
    if (i, j) in m {
      var k :| 0 <= k < |m| && m[k] == (i, j);
      assert FirstsOf(m)[k] == i && SecondsOf(m)[k] == j;
      assert PositionIn(FirstsOf(m), i) == k && PositionIn(SecondsOf(m), j) == k;
    }
    if i in FirstsOf(m) && j in SecondsOf(m) && PositionIn(FirstsOf(m), i) == PositionIn(SecondsOf(m), j) {
      var k := PositionIn(FirstsOf(m), i);
      assert m[k] == (i, j);
    }
  }

  // ... and nothing else is in it.
  lemma UnionHasNothingElse(e1: Hypergraph, e2: Hypergraph, m: EdgeMatch, p: int)
    requires IsPairing(e1, e2, m) && 0 <= p < |FindUnion(e1, e2, m)|
    ensures (exists i :: 0 <= i < |e1| && FirstPosition(e1, e2, m, i) == p) ||
            (exists j :: 0 <= j < |e2| && SecondPosition(e1, e2, m, j) == p)
  {
    hide Representative, CombinedVertexMatch, Identified;
    PairedIndices(e1, e2, m);
    var unique1, unique2 := Complement(|e1|, FirstsOf(m)), Complement(|e2|, SecondsOf(m));
    if p < |unique1| {
      var i := unique1[p];
      PositionOf(unique1, p);
      assert FirstPosition(e1, e2, m, i) == p;
    } else if p < |unique1| + |unique2| {
      var j := unique2[p - |unique1|];
      PositionOf(unique2, p - |unique1|);
      assert SecondPosition(e1, e2, m, j) == p;
    } else {
      var k := p - |unique1| - |unique2|;
      assert FirstsOf(m)[k] == m[k].0;
      PositionOf(FirstsOf(m), k);
      assert FirstPosition(e1, e2, m, m[k].0) == p;
    }
  }

  // The unpaired hyperedges of the first hypergraph come first, then those of the second, then the paired ones.
  lemma GroupsAreInOrder(e1: Hypergraph, e2: Hypergraph, m: EdgeMatch, i: int, i': int, j: int)
    requires IsPairing(e1, e2, m) && 0 <= i < |e1| && 0 <= i' < |e1| && 0 <= j < |e2|
    requires i !in FirstsOf(m) && i' in FirstsOf(m) && j !in SecondsOf(m)
    ensures FirstPosition(e1, e2, m, i) < SecondPosition(e1, e2, m, j) < FirstPosition(e1, e2, m, i')
  {
    hide IsPairing;
  }

  // The hyperedges of a group stay in order, the paired ones in that of the first hypergraph.
  lemma FirstsStayInOrder(e1: Hypergraph, e2: Hypergraph, m: EdgeMatch, i: int, i': int)
    requires IsPairing(e1, e2, m) && 0 <= i < i' < |e1| && (i in FirstsOf(m) <==> i' in FirstsOf(m))
    ensures FirstPosition(e1, e2, m, i) < FirstPosition(e1, e2, m, i')
  {
    PositionsAscend(if i in FirstsOf(m) then FirstsOf(m) else Complement(|e1|, FirstsOf(m)), i, i');
  }

  lemma SecondsStayInOrder(e1: Hypergraph, e2: Hypergraph, m: EdgeMatch, j: int, j': int)
    requires IsPairing(e1, e2, m) && 0 <= j < j' < |e2| && j !in SecondsOf(m) && j' !in SecondsOf(m)
    ensures SecondPosition(e1, e2, m, j) < SecondPosition(e1, e2, m, j')
  {
    PositionsAscend(Complement(|e2|, SecondsOf(m)), j, j');
  }

  lemma PositionsAscend(s: seq<int>, i: int, i': int)
    requires i in s && i' in s && i < i' && forall k, l :: 0 <= k < l < |s| ==> s[k] < s[l]
    ensures PositionIn(s, i) < PositionIn(s, i')
  {
  }

  lemma PositionOf(s: seq<int>, k: int)
    requires 0 <= k < |s| && forall i, j :: 0 <= i < j < |s| ==> s[i] != s[j]
    ensures s[k] in s && PositionIn(s, s[k]) == k
  {
  }
}

/**
  Elementary facts about sets, maps and sequences that the other modules share.

  The elements that lemmas return are witnesses: of a set being inhabited, or of two collections
  being different. That two collections are equal is often shown by looking at such a witness of
  their difference.
 */
module Collections {
  // Takes some element of a set, as iterating over a hash table does.
  method Pick<T(==)>(s: set<T>) returns (x: T)
    requires s != {}
    ensures x in s
  {
    ghost var witness_ := Member(s);
    x :| x in s;
  }

  lemma Member<T>(s: set<T>) returns (x: T)
    requires s != {}
    ensures x in s
  {
    assert exists y :: y in s;
    x :| x in s;
  }

  lemma Difference<T>(s: set<T>, t: set<T>) returns (x: T)
    requires s != t
    ensures x in s <==> x !in t
  {
    assert exists y :: y in s <==> y !in t;
    x :| x in s <==> x !in t;
  }

  lemma SameElements(s: set<int>, t: set<int>)
    requires forall x :: x in s <==> x in t
    ensures s == t
  {
    if s != t {
      var x := Difference(s, t);
    }
  }

  lemma IntSubset(s: set<int>, t: set<int>)
    requires forall x :: x in s ==> x in t
    ensures s <= t
  {
    SameElements(s + t, t);
  }

  lemma MapDifference<K, V>(m: map<K, V>, n: map<K, V>) returns (k: K)
    requires m != n
    ensures (k in m <==> k !in n) || (k in m && k in n && m[k] != n[k])
  {
    assert exists l :: (l in m <==> l !in n) || (l in m && l in n && m[l] != n[l]);
    k :| (k in m <==> k !in n) || (k in m && k in n && m[k] != n[k]);
  }

  lemma {:induction false} SubsetSize<T>(s: set<T>, t: set<T>)
    requires s <= t
    ensures |s| <= |t|
  {
    if s != {} {
      var x := Member(s);
      SubsetSize(s - {x}, t - {x});
    }
  }

  // Sets that differ in x at most.
  lemma SizeStep(before: set<int>, after: set<int>, x: int)
    requires forall y :: y != x ==> (y in before <==> y in after)
    ensures |after| == |before| - (if x in before then 1 else 0) + if x in after then 1 else 0
  {
    SameElements(after - {x}, before - {x});
    assert x !in before ==> before - {x} == before;
    assert x !in after ==> after - {x} == after;
  }

  lemma SizeOfReplaced(s: set<int>, gone: set<int>, added: set<int>)
    requires forall x :: x in gone ==> x in s
    requires forall x :: x in added ==> x !in s
    ensures |s - gone + added| == |s| - |gone| + |added|
  {
    SameElements((s - gone) + gone, s);
    SameElements((s - gone) * added, {});
  }

  lemma SameSizeSubset<T>(s: set<T>, t: set<T>)
    requires s <= t && |s| == |t|
    ensures s == t
  {
    if s != t {
      var x := Difference(s, t);
      SubsetSize(s, t - {x});
    }
  }

  ghost function Elements<T(!new)>(s: seq<T>): (r: set<T>)
    ensures forall x :: x in r <==> x in s
  {
    if s == [] then {} else Elements(s[..|s| - 1]) + {s[|s| - 1]}
  }

  // Without repetitions a sequence has as many elements as places.
  lemma {:induction false} DistinctSize<T(!new)>(s: seq<T>)
    requires forall i, j :: 0 <= i < j < |s| ==> s[i] != s[j]
    ensures |Elements(s)| == |s|
  {
    if s != [] {
      DistinctSize(s[..|s| - 1]);
    }
  }

  lemma {:induction false} DistinctMultiplicity(s: seq<int>, x: int)
    requires forall i, j :: 0 <= i < j < |s| ==> s[i] != s[j]
    ensures multiset(s)[x] == if x in s then 1 else 0
  {
    if s != [] {
      var n := |s| - 1;
      DistinctMultiplicity(s[..n], x);
      assert s == s[..n] + [s[n]];
    }
  }

  ghost function Below(n: nat): (s: set<int>)
    ensures forall i :: i in s <==> 0 <= i < n
  {
    if n == 0 then {} else Below(n - 1) + {n - 1}
  }

  lemma {:induction false} SizeOfBelow(n: nat)
    ensures |Below(n)| == n
  {
    if n > 0 {
      SizeOfBelow(n - 1);
    }
  }

  ghost function Sum(a: seq<int>): int {
    if a == [] then 0 else Sum(a[..|a| - 1]) + a[|a| - 1]
  }

  lemma {:induction false} SumIsNatural(a: seq<int>)
    requires forall i :: 0 <= i < |a| ==> a[i] >= 0
    ensures Sum(a) >= 0
  {
    if a != [] {
      SumIsNatural(a[..|a| - 1]);
    }
  }
}

/**
  The convex hull of points in the plane by Graham scan, in exact arithmetic.

  The lowest point is the center, and all others lie in the upper half of the plane around it. They are
  sorted by angle, where a comes before b if the cross product of a and b is positive, and of every
  direction only the farthest point is kept. The stack is then always a chain that turns left, and the
  triangles of the center and two neighbours on the chain cover all points that were scanned: popping
  a point only widens the last triangle.
 */
module GrahamScan {

  datatype Point = Point(x: real, y: real)

  const ORIGIN: Point := Point(0.0, 0.0)

  function Minus(a: Point, b: Point): Point {
    Point(a.x - b.x, a.y - b.y)
  }

  function Plus(a: Point, b: Point): Point {
    Point(a.x + b.x, a.y + b.y)
  }

  // The square of the distance from the origin, which orders points as the distance does.
  function Norm(a: Point): real {
    Square(a.x) + Square(a.y)
  }

  function Square(x: real): real {
    Product(x, x)
  }

  function Product(p: real, q: real): real {
    p * q
  }

  function Cross(a: Point, b: Point): real {
    a.x * b.y - a.y * b.x
  }

  // The turn from the first two points to the third one: its sign is positive for a left turn.
  function RotationDirection(a: Point, b: Point, c: Point): real {
    (b.x - a.x) * (c.y - b.y) - (b.y - a.y) * (c.x - b.x)
  }

  // ----- identities between areas

  lemma Areas(a: Point, b: Point, q: Point, u: Point, v: Point)
    ensures Cross(a, b) * RotationDirection(u, v, q) ==
            Cross(q, b) * RotationDirection(u, v, a) + Cross(a, q) * RotationDirection(u, v, b) +
            RotationDirection(a, b, q) * Cross(u, v)
  {
  }

  lemma AreasFromFirst(a: Point, b: Point, c: Point, d: Point)
    ensures RotationDirection(a, b, d) * Cross(b, c) ==
            RotationDirection(a, b, c) * Cross(b, d) + Cross(a, b) * RotationDirection(b, c, d)
  {
  }

  lemma AreasFromLast(a: Point, b: Point, c: Point, d: Point)
    ensures RotationDirection(a, c, d) * Cross(b, c) ==
            RotationDirection(b, c, d) * Cross(a, c) + Cross(c, d) * RotationDirection(a, b, c)
  {
  }

  lemma CrossesOfFour(a: Point, b: Point, c: Point, d: Point)
    ensures Cross(a, c) * Cross(b, d) == Cross(a, b) * Cross(c, d) + Cross(a, d) * Cross(b, c)
  {
  }

  lemma PositiveFactor(p: real, q: real)
    requires q > 0.0
    ensures p * q > 0.0 ==> p > 0.0
    ensures p * q >= 0.0 ==> p >= 0.0
  {
  }

  lemma NaturalProduct(p: real, q: real)
    requires p >= 0.0 && q >= 0.0
    ensures p * q >= 0.0
    ensures p > 0.0 && q > 0.0 ==> p * q > 0.0
  {
  }

  // ----- directions

  // Where all points lie as seen from the bottommost and then leftmost one.
  predicate InUpperHalf(a: Point) {
    a.y > 0.0 || (a.y == 0.0 && a.x > 0.0)
  }

  // The polar angle of a is at most that of b.
  predicate NotAfter(a: Point, b: Point) {
    Cross(a, b) >= 0.0
  }

  lemma NotAfterTransitive(a: Point, b: Point, c: Point)
    requires InUpperHalf(a) && InUpperHalf(b) && InUpperHalf(c) && NotAfter(a, b) && NotAfter(b, c)
    ensures NotAfter(a, c)
    ensures Cross(a, b) > 0.0 || Cross(b, c) > 0.0 ==> Cross(a, c) > 0.0
  {
    assert Cross(a, c) * b.y == Cross(a, b) * c.y + Cross(b, c) * a.y;
    NaturalProduct(Cross(a, b), c.y);
    NaturalProduct(Cross(b, c), a.y);
    if b.y > 0.0 {
      PositiveFactor(Cross(a, c), b.y);
      StrictlyAfter(a, b, c);
    } else {
      FlatMiddle(a, b, c);
    }
  }

  lemma StrictlyAfter(a: Point, b: Point, c: Point)
    requires InUpperHalf(a) && InUpperHalf(b) && InUpperHalf(c) && NotAfter(a, b) && NotAfter(b, c) && b.y > 0.0
    ensures Cross(a, b) > 0.0 || Cross(b, c) > 0.0 ==> Cross(a, c) > 0.0
  {
    assert Cross(a, c) * b.y == Cross(a, b) * c.y + Cross(b, c) * a.y;
    PositiveFactor(Cross(a, c), b.y);
    if c.y == 0.0 {
      NaturalProduct(b.y, c.x);
    } else if a.y == 0.0 {
      NaturalProduct(a.x, c.y);
      assert Cross(a, c) == a.x * c.y;
    } else {
      NaturalProduct(Cross(a, b), c.y);
      NaturalProduct(Cross(b, c), a.y);
    }
  }

  lemma FlatMiddle(a: Point, b: Point, c: Point)
    requires InUpperHalf(a) && InUpperHalf(b) && InUpperHalf(c) && NotAfter(a, b) && NotAfter(b, c) && b.y == 0.0
    ensures NotAfter(a, c)
    ensures Cross(a, b) > 0.0 || Cross(b, c) > 0.0 ==> Cross(a, c) > 0.0
  {
    assert Cross(a, b) == -(a.y * b.x) && Cross(b, c) == b.x * c.y;
    NaturalProduct(a.y, b.x);
    assert a.y == 0.0 && Cross(a, c) == a.x * c.y;
    NaturalProduct(a.x, c.y);
    if Cross(b, c) > 0.0 {
      assert c.y > 0.0;
    }
  }

  ghost predicate AllInUpperHalf(s: seq<Point>) {
    forall i :: 0 <= i < |s| ==> InUpperHalf(s[i])
  }

  // ----- the center

  function MinimalBy(f: Point -> real, s: seq<Point>): (m: seq<Point>)
    requires s != []
    ensures m != [] && (forall p :: p in m <==> p in s && forall q :: q in s ==> f(p) <= f(q))
  {
    var least := Least(f, s);
    Filtered(p => f(p) == least, s)
  }

  function Least(f: Point -> real, s: seq<Point>): (r: real)
    requires s != []
    ensures (exists p :: p in s && f(p) == r) && forall q :: q in s ==> r <= f(q)
  {
    if |s| == 1 then assert s[0] in s; f(s[0])
    else
      var rest := Least(f, s[1..]);
      assert s == [s[0]] + s[1..];
      if f(s[0]) < rest then f(s[0]) else rest
  }

  function Filtered(keeps: Point -> bool, s: seq<Point>): (r: seq<Point>)
    ensures forall p :: p in r <==> p in s && keeps(p)
    ensures |r| <= |s|
    ensures (exists p :: p in s && !keeps(p)) ==> |r| < |s|
  {
    if s == [] then []
    else
      assert s == [s[0]] + s[1..];
      (if keeps(s[0]) then [s[0]] else []) + Filtered(keeps, s[1..])
  }

  // All other points lie to the right of it at its height, or above it.
  function Center(points: seq<Point>): (c: Point)
    requires points != []
    ensures c in points
    ensures forall p :: p in points && p != c ==> InUpperHalf(Minus(p, c))
  {
    MinimalBy((p: Point) => p.x, MinimalBy((p: Point) => p.y, points))[0]
  }

  function Centered(points: seq<Point>, c: Point): (r: seq<Point>)
    ensures forall q :: q in r <==> exists p :: p in points && p != c && q == Minus(p, c)
  {
    if points == [] then []
    else
      assert points == [points[0]] + points[1..];
      (if points[0] == c then [] else [Minus(points[0], c)]) + Centered(points[1..], c)
  }

  // ----- sorting and grouping by direction

  ghost predicate IsSorted(s: seq<Point>) {
    forall i, j :: 0 <= i < j < |s| ==> NotAfter(s[i], s[j])
  }

  function Insert(p: Point, s: seq<Point>): (r: seq<Point>)
    ensures multiset(r) == multiset(s) + multiset{p}
  {
    if s == [] || NotAfter(p, s[0]) then [p] + s
    else
      assert s == [s[0]] + s[1..];
      [s[0]] + Insert(p, s[1..])
  }

  function SortedByAngle(s: seq<Point>): (r: seq<Point>)
    ensures multiset(r) == multiset(s)
  {
    if s == [] then []
    else
      assert s == [s[0]] + s[1..];
      Insert(s[0], SortedByAngle(s[1..]))
  }

  lemma SameMembers(a: seq<Point>, b: seq<Point>, p: Point)
    requires multiset(a) == multiset(b)
    ensures p in a <==> p in b
  {
    assert p in a <==> p in multiset(a);
    assert p in b <==> p in multiset(b);
  }

  lemma {:induction false} InsertSorts(p: Point, s: seq<Point>)
    requires IsSorted(s) && AllInUpperHalf(s) && InUpperHalf(p)
    ensures IsSorted(Insert(p, s)) && AllInUpperHalf(Insert(p, s))
  {
    if s != [] && !NotAfter(p, s[0]) {
      var rest := Insert(p, s[1..]);
      InsertSorts(p, s[1..]);
      assert NotAfter(s[0], p);
      forall j | 0 <= j < |rest|
        ensures NotAfter(s[0], rest[j])
      {
        assert rest[j] in multiset(rest);
        assert rest[j] == p || rest[j] in s[1..];
      }
    } else if s != [] {
      forall j | 0 <= j < |s|
        ensures NotAfter(p, s[j])
      {
        if j > 0 {
          NotAfterTransitive(p, s[0], s[j]);
        }
      }
    }
  }

  lemma {:induction false} SortSorts(s: seq<Point>)
    requires AllInUpperHalf(s)
    ensures IsSorted(SortedByAngle(s)) && AllInUpperHalf(SortedByAngle(s))
  {
    if s != [] {
      SortSorts(s[1..]);
      InsertSorts(s[0], SortedByAngle(s[1..]));
    }
  }

  function Farthest(s: seq<Point>): (f: Point)
    requires s != []
    ensures f in s && forall q :: q in s ==> Norm(q) <= Norm(f)
  {
    MinimalBy((p: Point) => -Norm(p), s)[0]
  }

  function SameAngle(p: Point, s: seq<Point>): (r: seq<Point>)
    ensures forall q :: q in r <==> q in s && Cross(p, q) == 0.0
  {
    Filtered(q => Cross(p, q) == 0.0, s)
  }

  function OtherAngles(p: Point, s: seq<Point>): (r: seq<Point>)
    ensures forall q :: q in r <==> q in s && Cross(p, q) != 0.0
    ensures p in s ==> |r| < |s|
  {
    assert Cross(p, p) == 0.0;
    Filtered(q => Cross(p, q) != 0.0, s)
  }

  // Of the points in the same direction only the farthest one is kept.
  function FarthestByAngle(s: seq<Point>): (r: seq<Point>)
    decreases |s|
  {
    if s == [] then []
    else
      assert s[0] in s && Cross(s[0], s[0]) == 0.0;
      [Farthest(SameAngle(s[0], s))] + FarthestByAngle(OtherAngles(s[0], s))
  }

  lemma {:induction false} FilteredIsSorted(keeps: Point -> bool, s: seq<Point>)
    requires IsSorted(s) && AllInUpperHalf(s)
    ensures IsSorted(Filtered(keeps, s)) && AllInUpperHalf(Filtered(keeps, s))
  {
    if s != [] {
      var rest := Filtered(keeps, s[1..]);
      FilteredIsSorted(keeps, s[1..]);
      forall j | 0 <= j < |rest|
        ensures NotAfter(s[0], rest[j])
      {
        assert rest[j] in s[1..];
      }
    }
  }

  // Every point has one in its direction that is at least as far away.
  ghost predicate IsOutdone(q: Point, r: seq<Point>) {
    exists i :: 0 <= i < |r| && Cross(r[i], q) == 0.0 && Norm(q) <= Norm(r[i])
  }

  ghost predicate DirectionsIncrease(r: seq<Point>) {
    forall i, j :: 0 <= i < j < |r| ==> Cross(r[i], r[j]) > 0.0
  }

  lemma {:induction false} OnePerDirection(s: seq<Point>)
    requires IsSorted(s) && AllInUpperHalf(s)
    ensures forall p :: p in FarthestByAngle(s) ==> p in s
    ensures DirectionsIncrease(FarthestByAngle(s)) && AllInUpperHalf(FarthestByAngle(s))
    ensures forall q :: q in s ==> IsOutdone(q, FarthestByAngle(s))
    decreases |s|
  {
    if s != [] {
      assert s[0] in s && Cross(s[0], s[0]) == 0.0;
      var first, others := Farthest(SameAngle(s[0], s)), OtherAngles(s[0], s);
      FilteredIsSorted(q => Cross(s[0], q) != 0.0, s);
      OnePerDirection(others);
      FirstDirection(s, first, others, FarthestByAngle(others));
    }
  }

  lemma FirstDirection(s: seq<Point>, first: Point, others: seq<Point>, rest: seq<Point>)
    requires IsSorted(s) && AllInUpperHalf(s) && s != []
    requires first in s && Cross(s[0], first) == 0.0
    requires forall q :: q in s && Cross(s[0], q) == 0.0 ==> Norm(q) <= Norm(first)
    requires forall q :: q in others <==> q in s && Cross(s[0], q) != 0.0
    requires (forall p :: p in rest ==> p in others) && DirectionsIncrease(rest) && AllInUpperHalf(rest)
    requires forall q :: q in others ==> IsOutdone(q, rest)
    ensures DirectionsIncrease([first] + rest) && AllInUpperHalf([first] + rest)
    ensures forall q :: q in s ==> IsOutdone(q, [first] + rest)
  {
    var r := [first] + rest;
    forall j | 0 <= j < |rest|
      ensures Cross(first, rest[j]) > 0.0
    {
      assert rest[j] in others;
      LaterDirection(s, first, rest[j]);
    }
    forall q | q in s
      ensures IsOutdone(q, r)
    {
      if Cross(s[0], q) == 0.0 {
        SameDirection(s[0], first, q);
        assert r[0] == first;
      } else {
        var i :| 0 <= i < |rest| && Cross(rest[i], q) == 0.0 && Norm(q) <= Norm(rest[i]);
        assert r[i + 1] == rest[i];
      }
    }
  }

  lemma LaterDirection(s: seq<Point>, first: Point, q: Point)
    requires IsSorted(s) && AllInUpperHalf(s) && s != [] && first in s && q in s
    requires Cross(s[0], first) == 0.0 && Cross(s[0], q) != 0.0
    ensures Cross(first, q) > 0.0
  {
    var j :| 0 <= j < |s| && s[j] == q;
    assert Cross(s[0], s[0]) == 0.0;
    assert NotAfter(s[0], q);
    assert Cross(first, s[0]) == -Cross(s[0], first);
    NotAfterTransitive(first, s[0], q);
  }

  lemma SameDirection(a: Point, b: Point, c: Point)
    requires InUpperHalf(a) && InUpperHalf(b) && InUpperHalf(c) && Cross(a, b) == 0.0 && Cross(a, c) == 0.0
    ensures Cross(b, c) == 0.0
  {
    assert Cross(b, a) == -Cross(a, b) && Cross(c, a) == -Cross(a, c) && Cross(c, b) == -Cross(b, c);
    NotAfterTransitive(b, a, c);
    NotAfterTransitive(c, a, b);
  }

  // ----- convex chains, with the center as an invisible first point

  ghost predicate IsConvexChain(s: seq<Point>) {
    && DirectionsIncrease(s)
    && forall i, j, k :: 0 <= i < j < k < |s| ==> RotationDirection(s[i], s[j], s[k]) > 0.0
  }

  // q lies in the triangle of the center, a and b.
  ghost predicate InFan(a: Point, b: Point, q: Point) {
    Cross(a, q) >= 0.0 && Cross(q, b) >= 0.0 && RotationDirection(a, b, q) >= 0.0
  }

  ghost predicate IsCovered(s: seq<Point>, q: Point) {
    q in s || exists i :: 0 <= i < |s| - 1 && InFan(s[i], s[i + 1], q)
  }

  // One left turn at the end is enough for all of the chain to turn left.
  lemma PushKeepsConvex(s: seq<Point>, c: Point)
    requires IsConvexChain(s) && forall i :: 0 <= i < |s| ==> Cross(s[i], c) > 0.0
    requires |s| > 1 ==> RotationDirection(s[|s| - 2], s[|s| - 1], c) > 0.0
    ensures IsConvexChain(s + [c])
  {
    var n := |s|;
    forall i, j | 0 <= i < j < n
      ensures RotationDirection(s[i], s[j], c) > 0.0
    {
      if i < n - 2 {
        LastTurn(s[i], s[n - 2], s[n - 1], c);
      }
      if j < n - 1 {
        EarlierTurn(s, i, j, c);
      }
    }
  }

  lemma LastTurn(a: Point, b: Point, c: Point, d: Point)
    requires RotationDirection(a, b, c) > 0.0 && RotationDirection(b, c, d) > 0.0
    requires Cross(a, c) > 0.0 && Cross(b, c) > 0.0 && Cross(c, d) > 0.0
    ensures RotationDirection(a, c, d) > 0.0
  {
    AreasFromLast(a, b, c, d);
    NaturalProduct(RotationDirection(b, c, d), Cross(a, c));
    NaturalProduct(Cross(c, d), RotationDirection(a, b, c));
    PositiveFactor(RotationDirection(a, c, d), Cross(b, c));
  }

  lemma FirstTurn(a: Point, b: Point, c: Point, d: Point)
    requires RotationDirection(a, b, c) > 0.0 && RotationDirection(b, c, d) > 0.0
    requires Cross(a, b) > 0.0 && Cross(b, c) > 0.0 && Cross(b, d) > 0.0
    ensures RotationDirection(a, b, d) > 0.0
  {
    AreasFromFirst(a, b, c, d);
    NaturalProduct(RotationDirection(a, b, c), Cross(b, d));
    NaturalProduct(Cross(a, b), RotationDirection(b, c, d));
    PositiveFactor(RotationDirection(a, b, d), Cross(b, c));
  }

  lemma EarlierTurn(s: seq<Point>, i: nat, j: nat, c: Point)
    requires IsConvexChain(s) && i < j < |s| - 1 && forall m :: 0 <= m < |s| ==> Cross(s[m], c) > 0.0
    requires RotationDirection(s[|s| - 2], s[|s| - 1], c) > 0.0
    ensures RotationDirection(s[i], s[j], c) > 0.0
  {
    var n := |s|;
    if j < n - 2 {
      LastTurn(s[j], s[n - 2], s[n - 1], c);
    }
    FirstTurn(s[i], s[j], s[n - 1], c);
  }

  // The point that is popped lies inside of the wider triangle, and so does all that it covered.
  lemma FanGrows(a: Point, b: Point, c: Point, q: Point)
    requires Cross(a, b) > 0.0 && Cross(b, c) > 0.0 && Cross(a, c) > 0.0 && RotationDirection(a, b, c) <= 0.0
    requires InFan(a, b, q) || InFan(b, c, q)
    ensures InFan(a, c, q)
  {
    CrossesOfFour(a, q, b, c);
    CrossesOfFour(a, b, q, c);
    assert RotationDirection(a, c, b) == -RotationDirection(a, b, c);
    assert RotationDirection(a, c, a) == 0.0 && RotationDirection(a, c, c) == 0.0;
    if InFan(a, b, q) {
      FanGrowsAtStart(a, b, c, q);
    } else {
      FanGrowsAtEnd(a, b, c, q);
    }
  }

  lemma FanGrowsAtStart(a: Point, b: Point, c: Point, q: Point)
    requires Cross(a, b) > 0.0 && Cross(b, c) > 0.0 && Cross(a, c) > 0.0 && RotationDirection(a, c, b) >= 0.0
    requires InFan(a, b, q)
    ensures InFan(a, c, q)
  {
    assert Cross(q, c) * Cross(a, b) == Cross(a, q) * Cross(b, c) + Cross(a, c) * Cross(q, b);
    NaturalProduct(Cross(a, q), Cross(b, c));
    NaturalProduct(Cross(a, c), Cross(q, b));
    PositiveFactor(Cross(q, c), Cross(a, b));
    Areas(a, b, q, a, c);
    assert RotationDirection(a, c, a) == 0.0;
    NaturalProduct(Cross(a, q), RotationDirection(a, c, b));
    NaturalProduct(RotationDirection(a, b, q), Cross(a, c));
    PositiveFactor(RotationDirection(a, c, q), Cross(a, b));
  }

  lemma FanGrowsAtEnd(a: Point, b: Point, c: Point, q: Point)
    requires Cross(a, b) > 0.0 && Cross(b, c) > 0.0 && Cross(a, c) > 0.0 && RotationDirection(a, c, b) >= 0.0
    requires InFan(b, c, q)
    ensures InFan(a, c, q)
  {
    assert Cross(a, q) * Cross(b, c) == Cross(a, b) * Cross(q, c) + Cross(a, c) * Cross(b, q);
    NaturalProduct(Cross(a, b), Cross(q, c));
    NaturalProduct(Cross(a, c), Cross(b, q));
    PositiveFactor(Cross(a, q), Cross(b, c));
    Areas(b, c, q, a, c);
    assert RotationDirection(a, c, c) == 0.0;
    NaturalProduct(Cross(q, c), RotationDirection(a, c, b));
    NaturalProduct(RotationDirection(b, c, q), Cross(a, c));
    PositiveFactor(RotationDirection(a, c, q), Cross(b, c));
  }

  lemma InOwnFan(a: Point, b: Point)
    requires Cross(a, b) > 0.0
    ensures InFan(a, b, a) && InFan(a, b, b)
  {
  }

  // Popping a point that does not turn left towards c loses nothing.
  lemma PopKeepsCovered(s: seq<Point>, c: Point, q: Point)
    requires IsConvexChain(s) && |s| > 1 && forall i :: 0 <= i < |s| ==> Cross(s[i], c) > 0.0
    requires RotationDirection(s[|s| - 2], s[|s| - 1], c) <= 0.0
    requires IsCovered(s + [c], q)
    ensures IsCovered(s[..|s| - 1] + [c], q)
  {
    var n := |s|;
    if i :| 0 <= i < n && InFan((s + [c])[i], (s + [c])[i + 1], q) {
      PopMovesFan(s, c, q, i);
    } else if q == s[n - 1] {
      InOwnFan(s[n - 2], s[n - 1]);
      PopMovesFan(s, c, q, n - 2);
    } else {
      MemberStays(s, c, q);
    }
  }

  lemma PopMovesFan(s: seq<Point>, c: Point, q: Point, i: nat)
    requires IsConvexChain(s) && |s| > 1 && Cross(s[|s| - 2], c) > 0.0 && Cross(s[|s| - 1], c) > 0.0
    requires RotationDirection(s[|s| - 2], s[|s| - 1], c) <= 0.0
    requires i < |s| && InFan((s + [c])[i], (s + [c])[i + 1], q)
    ensures IsCovered(s[..|s| - 1] + [c], q)
  {
    var n, after := |s|, s[..|s| - 1] + [c];
    if i < n - 2 {
      assert after[i] == s[i] && after[i + 1] == s[i + 1];
    } else {
      FanGrows(s[n - 2], s[n - 1], c, q);
      assert after[n - 2] == s[n - 2] && after[n - 1] == c;
    }
  }

  lemma MemberStays(s: seq<Point>, c: Point, q: Point)
    requires |s| > 1 && q in s + [c] && q != s[|s| - 1]
    ensures q in s[..|s| - 1] + [c]
  {
    var before, after := s + [c], s[..|s| - 1] + [c];
    var i :| 0 <= i < |before| && before[i] == q;
    if i < |s| - 1 {
      assert after[i] == q;
    } else {
      assert after[|s| - 1] == q;
    }
  }

  lemma CoveredByMore(s: seq<Point>, c: Point, q: Point)
    requires IsCovered(s, q)
    ensures IsCovered(s + [c], q)
  {
    if i :| 0 <= i < |s| - 1 && InFan(s[i], s[i + 1], q) {
      assert (s + [c])[i] == s[i] && (s + [c])[i + 1] == s[i + 1];
    }
  }

  // ----- the scan

  ghost predicate AllCovered(s: seq<Point>, points: seq<Point>) {
    forall q :: q in points ==> IsCovered(s, q)
  }

  // Pushes every point in turn, after popping those that would not turn left towards it.
  method Scan(points: seq<Point>) returns (stack: seq<Point>)
    requires DirectionsIncrease(points)
    ensures IsConvexChain(stack) && AllCovered(stack, points)
    ensures forall p :: p in stack ==> p in points
    ensures points != [] ==> stack != []
  {
    stack := [];
    for n := 0 to |points|
      invariant IsConvexChain(stack) && AllCovered(stack, points[..n])
      invariant forall p :: p in stack ==> p in points[..n]
      invariant n > 0 ==> stack != []
    {
      stack := PopUntilLeft(points, n, stack);
      PushKeepsConvex(stack, points[n]);
      stack := stack + [points[n]];
      assert points[..n + 1] == points[..n] + [points[n]];
    }
    assert points[..|points|] == points;
  }

  method PopUntilLeft(points: seq<Point>, n: nat, before: seq<Point>) returns (stack: seq<Point>)
    requires DirectionsIncrease(points) && n < |points|
    requires IsConvexChain(before) && AllCovered(before, points[..n])
    requires forall p :: p in before ==> p in points[..n]
    ensures IsConvexChain(stack) && AllCovered(stack + [points[n]], points[..n + 1])
    ensures forall p :: p in stack ==> p in points[..n]
    ensures forall i :: 0 <= i < |stack| ==> Cross(stack[i], points[n]) > 0.0
    ensures |stack| > 1 ==> RotationDirection(stack[|stack| - 2], stack[|stack| - 1], points[n]) > 0.0
  {
    var point := points[n];
    stack := before;
    ghost var seen := points[..n + 1];
    forall q | q in seen
      ensures IsCovered(stack + [point], q)
    {
      assert points[..n + 1] == points[..n] + [point];
      if q in points[..n] {
        CoveredByMore(stack, point, q);
      } else {
        assert (stack + [point])[|stack|] == q;
      }
    }
    forall i | 0 <= i < |stack|
      ensures Cross(stack[i], point) > 0.0
    {
      assert stack[i] in points[..n];
    }
    while |stack| > 1 && RotationDirection(stack[|stack| - 2], stack[|stack| - 1], point) <= 0.0
      invariant IsConvexChain(stack) && AllCovered(stack + [point], points[..n + 1])
      invariant forall p :: p in stack ==> p in points[..n]
      invariant forall i :: 0 <= i < |stack| ==> Cross(stack[i], point) > 0.0
      decreases |stack|
    {
      forall q | q in seen
        ensures IsCovered(stack[..|stack| - 1] + [point], q)
      {
        PopKeepsCovered(stack, point, q);
      }
      stack := stack[..|stack| - 1];
    }
  }

  // ----- the hull

  ghost function Next(i: int, n: int): int {
    if i == n - 1 then 0 else i + 1
  }

  // The polygon turns left all the time, from any corner to any later ones.
  ghost predicate IsConvexPolygon(p: seq<Point>) {
    forall i, j, k :: 0 <= i < j < k < |p| ==> RotationDirection(p[i], p[j], p[k]) > 0.0
  }

  ghost predicate IsOnLeft(p: seq<Point>, q: Point) {
    forall i :: 0 <= i < |p| ==> RotationDirection(p[i], p[Next(i, |p|)], q) >= 0.0
  }

  // a + l (b - a)
  function Between(a: Point, b: Point, l: real): Point {
    Point(a.x + l * (b.x - a.x), a.y + l * (b.y - a.y))
  }

  ghost predicate IsOnSegment(a: Point, b: Point, q: Point) {
    exists l :: 0.0 <= l <= 1.0 && q == Between(a, b, l)
  }

  // q lies inside of the polygon or on its border; a polygon may be a point or a segment.
  ghost predicate IsInHull(p: seq<Point>, q: Point) {
    && IsOnLeft(p, q)
    && (|p| == 1 ==> q == p[0])
    && (|p| == 2 ==> IsOnSegment(p[0], p[1], q))
  }

  lemma ChainIsPolygon(s: seq<Point>)
    requires IsConvexChain(s)
    ensures IsConvexPolygon([ORIGIN] + s)
  {
    var p := [ORIGIN] + s;
    forall i, j, k | 0 <= i < j < k < |p|
      ensures RotationDirection(p[i], p[j], p[k]) > 0.0
    {
      assert p[j] == s[j - 1] && p[k] == s[k - 1];
      if i == 0 {
        assert RotationDirection(ORIGIN, p[j], p[k]) == Cross(p[j], p[k]);
      } else {
        assert p[i] == s[i - 1];
      }
    }
  }

  // All edges go around the center, and all corners lie to their left.
  lemma CornerIsOnLeft(s: seq<Point>, m: nat, i: nat)
    requires IsConvexChain(s) && m < |s| && i < |s| + 1
    ensures var p := [ORIGIN] + s;
            && Cross(p[i], p[Next(i, |p|)]) >= 0.0
            && RotationDirection(p[i], p[Next(i, |p|)], s[m]) >= 0.0
  {
    var p := [ORIGIN] + s;
    var n, q := |s|, s[m];
    if i == 0 {
      assert RotationDirection(ORIGIN, s[0], q) == Cross(s[0], q);
    } else if i == n {
      assert RotationDirection(s[n - 1], ORIGIN, q) == Cross(q, s[n - 1]);
    } else {
      assert p[i] == s[i - 1] && p[i + 1] == s[i];
      assert RotationDirection(s[i - 1], s[i], q) == RotationDirection(q, s[i - 1], s[i]);
    }
  }

  lemma FanIsOnLeft(a: Point, b: Point, q: Point, u: Point, v: Point)
    requires Cross(a, b) > 0.0 && InFan(a, b, q) && Cross(u, v) >= 0.0
    requires RotationDirection(u, v, a) >= 0.0 && RotationDirection(u, v, b) >= 0.0
    ensures RotationDirection(u, v, q) >= 0.0
  {
    Areas(a, b, q, u, v);
    NaturalProduct(Cross(q, b), RotationDirection(u, v, a));
    NaturalProduct(Cross(a, q), RotationDirection(u, v, b));
    NaturalProduct(RotationDirection(a, b, q), Cross(u, v));
    PositiveFactor(RotationDirection(u, v, q), Cross(a, b));
  }

  lemma CoveredIsOnLeft(s: seq<Point>, q: Point)
    requires IsConvexChain(s) && IsCovered(s, q)
    ensures IsOnLeft([ORIGIN] + s, q)
  {
    var p := [ORIGIN] + s;
    forall i | 0 <= i < |p|
      ensures RotationDirection(p[i], p[Next(i, |p|)], q) >= 0.0
    {
      if m :| 0 <= m < |s| - 1 && InFan(s[m], s[m + 1], q) {
        CornerIsOnLeft(s, m, i);
        CornerIsOnLeft(s, m + 1, i);
        FanIsOnLeft(s[m], s[m + 1], q, p[i], p[Next(i, |p|)]);
      } else {
        var m :| 0 <= m < |s| && s[m] == q;
        CornerIsOnLeft(s, m, i);
      }
    }
  }

  // A point that is outdone lies between the center and the one that outdoes it.
  lemma OutdoneIsBetween(r: Point, q: Point)
    requires InUpperHalf(r) && InUpperHalf(q) && Cross(r, q) == 0.0 && Norm(q) <= Norm(r)
    ensures IsOnSegment(ORIGIN, r, q)
  {
    var l := if r.y > 0.0 then q.y / r.y else q.x / r.x;
    Proportional(r, q, l);
    ScaledNorm(r, l);
    NormIsPositive(r);
    if l > 1.0 {
      LongerThan(l, Norm(r));
    }
    assert q == Between(ORIGIN, r, l);
  }

  lemma Proportional(r: Point, q: Point, l: real)
    requires InUpperHalf(r) && InUpperHalf(q) && Cross(r, q) == 0.0
    requires l == if r.y > 0.0 then q.y / r.y else q.x / r.x
    ensures q.x == l * r.x && q.y == l * r.y && l >= 0.0
  {
    if r.y > 0.0 {
      assert q.y == l * r.y;
      assert (q.x - l * r.x) * r.y == 0.0;
    } else {
      assert q.x == l * r.x;
      assert r.x * q.y == 0.0;
    }
  }

  lemma ScaledNorm(r: Point, l: real)
    ensures Norm(Point(l * r.x, l * r.y)) == (l * l) * Norm(r)
  {
  }

  lemma NormIsPositive(r: Point)
    requires InUpperHalf(r)
    ensures Norm(r) > 0.0
  {
    SquareIsNatural(r.x);
    SquareIsNatural(r.y);
  }

  lemma SquareIsNatural(a: real)
    ensures Square(a) >= 0.0
    ensures a != 0.0 ==> Square(a) > 0.0
  {
    if a > 0.0 {
      PositiveProduct(a, a);
    } else if a < 0.0 {
      PositiveProduct(-a, -a);
      OppositeProduct(a, a);
    }
  }

  lemma PositiveProduct(p: real, q: real)
    requires p > 0.0 && q > 0.0
    ensures Product(p, q) > 0.0
  {
  }

  lemma OppositeProduct(p: real, q: real)
    ensures Product(-p, -q) == Product(p, q)
  {
  }

  lemma LongerThan(l: real, n: real)
    requires l > 1.0 && n > 0.0
    ensures (l * l) * n > n
  {
    assert l * l > 1.0;
    PositiveFactor((l * l - 1.0) * n, 1.0);
    NaturalProduct(l * l - 1.0, n);
  }

  lemma BetweenIsOnLeft(u: Point, v: Point, r: Point, q: Point)
    requires IsOnSegment(ORIGIN, r, q) && Cross(u, v) >= 0.0 && RotationDirection(u, v, r) >= 0.0
    ensures RotationDirection(u, v, q) >= 0.0
  {
    var l :| 0.0 <= l <= 1.0 && q == Between(ORIGIN, r, l);
    assert RotationDirection(u, v, q) == l * RotationDirection(u, v, r) + (1.0 - l) * Cross(u, v);
    NaturalProduct(l, RotationDirection(u, v, r));
    NaturalProduct(1.0 - l, Cross(u, v));
  }

  // ----- everything moved back

  function Moved(s: seq<Point>, c: Point): (r: seq<Point>)
    ensures |r| == |s| && forall i :: 0 <= i < |s| ==> r[i] == Plus(s[i], c)
  {
    seq(|s|, i requires 0 <= i < |s| => Plus(s[i], c))
  }

  lemma MovedTurn(u: Point, v: Point, q: Point, c: Point)
    ensures RotationDirection(Plus(u, c), Plus(v, c), Plus(q, c)) == RotationDirection(u, v, q)
  {
  }

  lemma MovedIsConvex(p: seq<Point>, c: Point)
    requires IsConvexPolygon(p)
    ensures IsConvexPolygon(Moved(p, c))
  {
    var moved := Moved(p, c);
    forall i, j, k | 0 <= i < j < k < |moved|
      ensures RotationDirection(moved[i], moved[j], moved[k]) > 0.0
    {
      MovedTurn(p[i], p[j], p[k], c);
    }
  }

  lemma MovedIsInHull(p: seq<Point>, q: Point, c: Point)
    requires IsInHull(p, q)
    ensures IsInHull(Moved(p, c), Plus(q, c))
  {
    var moved := Moved(p, c);
    forall i | 0 <= i < |moved|
      ensures RotationDirection(moved[i], moved[Next(i, |moved|)], Plus(q, c)) >= 0.0
    {
      MovedTurn(p[i], p[Next(i, |p|)], q, c);
    }
    if |p| == 2 {
      var l :| 0.0 <= l <= 1.0 && q == Between(p[0], p[1], l);
      assert Plus(q, c) == Between(moved[0], moved[1], l);
    }
  }

  lemma CenterIsInHull(s: seq<Point>)
    requires IsConvexChain(s)
    ensures IsInHull([ORIGIN] + s, ORIGIN)
  {
    var p := [ORIGIN] + s;
    forall i | 0 <= i < |p|
      ensures RotationDirection(p[i], p[Next(i, |p|)], ORIGIN) >= 0.0
    {
      if s != [] {
        CornerIsOnLeft(s, 0, i);
      }
      assert RotationDirection(p[i], p[Next(i, |p|)], ORIGIN) == Cross(p[i], p[Next(i, |p|)]);
    }
    if |s| == 1 {
      assert ORIGIN == Between(p[0], p[1], 0.0);
    }
  }

  // What covers the farthest points covers them all.
  lemma OutdoneIsInHull(s: seq<Point>, farthest: seq<Point>, q: Point)
    requires IsConvexChain(s) && s != [] && AllCovered(s, farthest) && AllInUpperHalf(farthest)
    requires forall p :: p in s ==> p in farthest
    requires InUpperHalf(q) && IsOutdone(q, farthest)
    ensures IsInHull([ORIGIN] + s, q)
  {
    var p := [ORIGIN] + s;
    var m :| 0 <= m < |farthest| && Cross(farthest[m], q) == 0.0 && Norm(q) <= Norm(farthest[m]);
    var r := farthest[m];
    assert r in farthest;
    OutdoneIsBetween(r, q);
    CoveredIsOnLeft(s, r);
    forall i | 0 <= i < |p|
      ensures RotationDirection(p[i], p[Next(i, |p|)], q) >= 0.0
    {
      CornerIsOnLeft(s, 0, i);
      BetweenIsOnLeft(p[i], p[Next(i, |p|)], r, q);
    }
    if |p| == 2 {
      assert r == s[0] == p[1];
    }
  }

  // A strictly convex polygon with corners among the points, which contains all of them.
  method ConvexHullPolygon(points: seq<Point>) returns (polygon: seq<Point>)
    requires points != []
    ensures polygon != [] && forall p :: p in polygon ==> p in points
    ensures IsConvexPolygon(polygon)
    ensures forall q :: q in points ==> IsInHull(polygon, q)
    // It starts at the lowest of its points, the one furthest to the left if there are several.
    ensures forall q :: q in points ==> polygon[0].y < q.y || (polygon[0].y == q.y && polygon[0].x <= q.x)
  {
    var center := Center(points);
    var centered := Centered(points, center);
    var sorted := SortedByAngle(centered);
    var deduplicated := FarthestByAngle(sorted);
    CenteredIsInUpperHalf(points, centered);
    SortSorts(centered);
    OnePerDirection(sorted);
    var stack := Scan(deduplicated);
    polygon := Moved([ORIGIN] + stack, center);
    hide InUpperHalf;
    StartsAtCenter(points, stack);
    HullIsRight(points, center, centered, sorted, deduplicated, stack);
  }

  lemma StartsAtCenter(points: seq<Point>, stack: seq<Point>)
    requires points != []
    ensures var first := Moved([ORIGIN] + stack, Center(points))[0];
            forall q :: q in points ==> first.y < q.y || (first.y == q.y && first.x <= q.x)
  {
    var center := Center(points);
    assert Moved([ORIGIN] + stack, center)[0] == center;
    forall q | q in points
      ensures center.y < q.y || (center.y == q.y && center.x <= q.x)
    {
      assert q != center ==> InUpperHalf(Minus(q, center));
    }
  }

  lemma CenteredIsInUpperHalf(points: seq<Point>, centered: seq<Point>)
    requires points != [] && centered == Centered(points, Center(points))
    ensures AllInUpperHalf(centered)
  {
    forall i | 0 <= i < |centered|
      ensures InUpperHalf(centered[i])
    {
      assert centered[i] in centered;
    }
  }

  lemma HullIsRight(
    points: seq<Point>, center: Point, centered: seq<Point>, sorted: seq<Point>, farthest: seq<Point>,
    stack: seq<Point>)
    requires points != [] && center in points && centered == Centered(points, center)
    requires multiset(sorted) == multiset(centered) && AllInUpperHalf(sorted) && AllInUpperHalf(farthest)
    requires forall p :: p in farthest ==> p in sorted
    requires forall q :: q in sorted ==> IsOutdone(q, farthest)
    requires IsConvexChain(stack) && AllCovered(stack, farthest) && forall p :: p in stack ==> p in farthest
    requires farthest != [] ==> stack != []
    ensures var polygon := Moved([ORIGIN] + stack, center);
            && IsConvexPolygon(polygon)
            && (forall p :: p in polygon ==> p in points)
            && forall q :: q in points ==> IsInHull(polygon, q)
  {
    var p := [ORIGIN] + stack;
    ChainIsPolygon(stack);
    MovedIsConvex(p, center);
    forall v | v in Moved(p, center)
      ensures v in points
    {
      CornerIsPoint(points, center, centered, sorted, stack, v);
    }
    forall q | q in points
      ensures IsInHull(Moved(p, center), q)
    {
      PointIsInHull(points, center, centered, sorted, farthest, stack, q);
    }
  }

  lemma PointIsInHull(
    points: seq<Point>, center: Point, centered: seq<Point>, sorted: seq<Point>, farthest: seq<Point>,
    stack: seq<Point>, q: Point)
    requires centered == Centered(points, center) && multiset(sorted) == multiset(centered)
    requires AllInUpperHalf(sorted) && AllInUpperHalf(farthest)
    requires forall r :: r in sorted ==> IsOutdone(r, farthest)
    requires IsConvexChain(stack) && AllCovered(stack, farthest) && forall r :: r in stack ==> r in farthest
    requires farthest != [] ==> stack != []
    requires q in points
    ensures IsInHull(Moved([ORIGIN] + stack, center), q)
  {
    hide IsInHull, IsConvexChain, AllCovered, Norm, Cross;
    var p := [ORIGIN] + stack;
    if q == center {
      CenterIsInHull(stack);
      MovedIsInHull(p, ORIGIN, center);
    } else {
      var r := Minus(q, center);
      assert r in centered;
      SameMembers(centered, sorted, r);
      OutdoneIsInHull(stack, farthest, r);
      MovedIsInHull(p, r, center);
    }
  }

  lemma CornerIsPoint(
    points: seq<Point>, center: Point, centered: seq<Point>, sorted: seq<Point>, stack: seq<Point>, v: Point)
    requires center in points && centered == Centered(points, center) && multiset(sorted) == multiset(centered)
    requires (forall p :: p in stack ==> p in sorted) && v in Moved([ORIGIN] + stack, center)
    ensures v in points
  {
    var p := [ORIGIN] + stack;
    var i :| 0 <= i < |p| && Plus(p[i], center) == v;
    if i == 0 {
      assert v == center;
    } else {
      var q := stack[i - 1];
      assert p[i] == q && q in stack;
      SameMembers(sorted, centered, q);
      var o :| o in points && o != center && q == Minus(o, center);
      assert v == o;
    }
  }
}

/**
  What the queries of node_class.cpp compute, stated against the stored points:
  exact result sets for printInRange and existInCircle, and for findNearest the leaf it
  searches, the minimality of the leaf scan and its tie-break.
 */
module QueryProofs {
  import opened Geometry
  import opened TreeModel
  import InsertProofs

  // ---------------------------------------------------------------------------
  // Consequences of the tree invariant
  // ---------------------------------------------------------------------------

  lemma {:induction false} NoDupConcat(a: seq<Pt>, b: seq<Pt>)
    requires NoDup(a) && NoDup(b)
    requires forall q :: q in a ==> q !in b
    ensures NoDup(a + b)
  {
    var s := a + b;
    forall i, j | 0 <= i < j < |s| ensures s[i] != s[j] {
      if i < |a| && j >= |a| {
        assert s[i] in a && s[j] in b;
      }
    }
  }

  /** In a well-formed internal node no point is stored in two children. */
  lemma {:induction false} ChildrenDisjoint(r: Rect, kids: seq<QTree>, cap: int)
    requires WF(Internal(r, kids), cap)
    ensures forall q :: q in AllPts(kids[0]) + AllPts(kids[1]) ==> q !in AllPts(kids[2])
    ensures forall q :: q in AllPts(kids[0]) + AllPts(kids[1]) + AllPts(kids[2]) ==> q !in AllPts(kids[3])
    ensures forall q :: q in AllPts(kids[0]) ==> q !in AllPts(kids[1])
  {
    forall q | q in AllPts(kids[0]) + AllPts(kids[1]) + AllPts(kids[2])
      ensures q !in AllPts(kids[3]) && (q !in AllPts(kids[2]) || q !in AllPts(kids[0]) + AllPts(kids[1]))
      ensures q in AllPts(kids[0]) ==> q !in AllPts(kids[1])
    {
      if q in AllPts(kids[0]) {
        assert FirstQuadrant(r, q) == 0;
      } else if q in AllPts(kids[1]) {
        assert FirstQuadrant(r, q) == 1;
      } else {
        assert FirstQuadrant(r, q) == 2;
      }
    }
  }

  /** No point is stored twice anywhere in a well-formed tree. */
  lemma {:induction false} NoDuplicates(t: QTree, cap: int)
    requires WF(t, cap)
    ensures NoDup(AllPts(t))
    decreases t
  {
    match t
    case Leaf(_, _) =>
    case Internal(r, kids) =>
      var a, b, c, e := AllPts(kids[0]), AllPts(kids[1]), AllPts(kids[2]), AllPts(kids[3]);
      NoDuplicates(kids[0], cap);
      NoDuplicates(kids[1], cap);
      NoDuplicates(kids[2], cap);
      NoDuplicates(kids[3], cap);
      ChildrenDisjoint(r, kids, cap);
      NoDupConcat(a, b);
      NoDupConcat(a + b, c);
      NoDupConcat(a + b + c, e);
  }

  /** The number of stored points is the number of distinct stored points. */
  lemma {:induction false} CountIsDistinct(s: seq<Pt>)
    requires NoDup(s)
    ensures |set q | q in s| == |s|
    decreases |s|
  {
    if s != [] {
      var init := s[..|s| - 1];
      var last := s[|s| - 1];
      assert s == init + [last];
      assert NoDup(init);
      CountIsDistinct(init);
      assert last !in init;
      assert (set q | q in s) == (set q | q in init) + {last};
    }
  }

  /** A point strictly inside a quadrant is strictly inside the parent region. */
  lemma {:induction false} QuadrantStrictlyInParent(r: Rect, i: int, q: Pt)
    requires 0 <= i < 4 && StrictlyInside(Quadrant(r, i), q)
    ensures StrictlyInside(r, q)
  {
  }

  /**
    The placement invariant, read as a statement about the stored points: a point is stored
    exactly when it lies in the root's closed region and in the leaf that first-match descent
    on its coordinates reaches.
   */
  lemma {:induction false} StoredIffAtHome(t: QTree, q: Pt, cap: int)
    requires WF(t, cap)
    ensures InBoundary(t.r, q) ==> Home(t, q).Leaf? && InBoundary(Home(t, q).r, q)
    ensures q in AllPts(t) <==> InBoundary(t.r, q) && Home(t, q).Leaf? && q in AllPts(Home(t, q))
    decreases t
  {
    match t
    case Leaf(r, pts) =>
    case Internal(r, kids) =>
      var i := FirstQuadrant(r, q);
      InsertProofs.InternalPts(r, kids, q);
      if i < 4 {
        StoredIffAtHome(kids[i], q, cap);
      }
  }

  /** A point strictly inside its home leaf is strictly inside every enclosing region. */
  lemma {:induction false} HomeStrictlyInside(t: QTree, q: Pt, cap: int)
    requires WF(t, cap) && StrictlyInside(Home(t, q).r, q)
    ensures StrictlyInside(t.r, q)
    decreases t
  {
    match t
    case Leaf(_, _) =>
    case Internal(r, kids) =>
      var i := FirstQuadrant(r, q);
      if i < 4 {
        HomeStrictlyInside(kids[i], q, cap);
        QuadrantStrictlyInParent(r, i, q);
      }
  }

  /** A stored point of child i has the same home as in child i. */
  lemma {:induction false} HomeOfChildPoint(r: Rect, kids: seq<QTree>, i: int, q: Pt, cap: int)
    requires WF(Internal(r, kids), cap) && 0 <= i < 4 && q in AllPts(kids[i])
    ensures Home(Internal(r, kids), q) == Home(kids[i], q)
  {
  }

  // ---------------------------------------------------------------------------
  // printInRange
  // ---------------------------------------------------------------------------

  lemma {:induction false} InRangeMembers(pts: seq<Pt>, c: Rect)
    ensures forall q :: q in InRange(pts, c) <==> q in pts && StrictlyInside(c, q)
    decreases |pts|
  {
    if pts != [] {
      var init := pts[..|pts| - 1];
      InRangeMembers(init, c);
      assert pts == init + [pts[|pts| - 1]];
    }
  }

  /**
    printInRange reports exactly the stored points that are strictly inside the query
    rectangle and strictly inside their own leaf's region. So a point on a split line or on
    the root's edge is never reported, whatever the query.
   */
  lemma {:induction false} RangeExact(t: QTree, q: Rect, cap: int, p: Pt)
    requires WF(t, cap)
    ensures p in RangeT(t, q) <==>
      p in AllPts(t) && StrictlyInside(q, p) && StrictlyInside(Home(t, p).r, p)
    decreases t
  {
    match t
    case Leaf(r, pts) =>
      InRangeMembers(pts, Clip(q, r));
    case Internal(r, kids) =>
      var c := Clip(q, r);
      forall j | 0 <= j < 4
        ensures p in RangeT(kids[j], c) <==>
          p in AllPts(kids[j]) && StrictlyInside(c, p) && StrictlyInside(Home(kids[j], p).r, p)
      {
        RangeExact(kids[j], c, cap, p);
      }
      RangeInternal(r, kids, q, cap, p);
  }

  /** The inductive step of RangeExact. */
  lemma {:induction false} RangeInternal(r: Rect, kids: seq<QTree>, q: Rect, cap: int, p: Pt)
    requires WF(Internal(r, kids), cap)
    requires forall j :: 0 <= j < 4 ==>
      (p in RangeT(kids[j], Clip(q, r)) <==>
       p in AllPts(kids[j]) && StrictlyInside(Clip(q, r), p) && StrictlyInside(Home(kids[j], p).r, p))
    ensures p in RangeT(Internal(r, kids), q) <==>
      p in AllPts(Internal(r, kids)) && StrictlyInside(q, p) && StrictlyInside(Home(Internal(r, kids), p).r, p)
  {
    var t := Internal(r, kids);
    var c := Clip(q, r);
    assert RangeT(t, q) == RangeT(kids[0], c) + RangeT(kids[1], c) + RangeT(kids[2], c) + RangeT(kids[3], c);
    InsertProofs.InternalPts(r, kids, p);
    forall j | 0 <= j < 4 && p in RangeT(kids[j], c)
      ensures Home(t, p) == Home(kids[j], p)
    {
      HomeOfChildPoint(r, kids, j, p, cap);
    }
    if p in AllPts(t) && StrictlyInside(q, p) && StrictlyInside(Home(t, p).r, p) {
      var i := FirstQuadrant(r, p);
      assert p in AllPts(kids[i]);
      HomeOfChildPoint(r, kids, i, p, cap);
      HomeStrictlyInside(kids[i], p, cap);
      QuadrantStrictlyInParent(r, i, p);
      assert p in RangeT(kids[i], c);
    }
  }

  /** The children's answers concatenated in order are the internal node's answer. */
  lemma {:induction false} RangeOfAllChildren(r: Rect, kids: seq<QTree>, q: Rect)
    requires |kids| == 4
    ensures RangeOfChildren(kids, Clip(q, r), 4) == RangeT(Internal(r, kids), q)
  {
    var c := Clip(q, r);
    assert RangeOfChildren(kids, c, 1) == RangeT(kids[0], c);
    assert RangeOfChildren(kids, c, 2) == RangeT(kids[0], c) + RangeT(kids[1], c);
    assert RangeOfChildren(kids, c, 3) == RangeT(kids[0], c) + RangeT(kids[1], c) + RangeT(kids[2], c);
  }

  /** A leaf reports each of its points at most once. */
  lemma {:induction false} InRangeNoDup(pts: seq<Pt>, c: Rect)
    requires NoDup(pts)
    ensures NoDup(InRange(pts, c))
    decreases |pts|
  {
    if pts != [] {
      var init := pts[..|pts| - 1];
      var p := pts[|pts| - 1];
      assert forall i :: 0 <= i < |init| ==> init[i] == pts[i];
      InRangeNoDup(init, c);
      InRangeMembers(init, c);
      assert p !in init;
      NoDupConcat(InRange(init, c), if StrictlyInside(c, p) then [p] else []);
    }
  }

  /** printInRange reports every point at most once. */
  lemma {:induction false} RangeNoDup(t: QTree, q: Rect, cap: int)
    requires WF(t, cap)
    ensures NoDup(RangeT(t, q))
    decreases t
  {
    match t
    case Leaf(r, pts) =>
      InRangeNoDup(pts, Clip(q, r));
    case Internal(r, kids) =>
      var c := Clip(q, r);
      var a, b, e, f := RangeT(kids[0], c), RangeT(kids[1], c), RangeT(kids[2], c), RangeT(kids[3], c);
      RangeNoDup(kids[0], c, cap);
      RangeNoDup(kids[1], c, cap);
      RangeNoDup(kids[2], c, cap);
      RangeNoDup(kids[3], c, cap);
      ChildrenDisjoint(r, kids, cap);
      forall p | p in a + b + e + f
        ensures p in a ==> p in AllPts(kids[0])
        ensures p in b ==> p in AllPts(kids[1])
        ensures p in e ==> p in AllPts(kids[2])
        ensures p in f ==> p in AllPts(kids[3])
      {
        RangeExact(kids[0], c, cap, p);
        RangeExact(kids[1], c, cap, p);
        RangeExact(kids[2], c, cap, p);
        RangeExact(kids[3], c, cap, p);
      }
      NoDupConcat(a, b);
      NoDupConcat(a + b, e);
      NoDupConcat(a + b + e, f);
  }

  // ---------------------------------------------------------------------------
  // existInCircle
  // ---------------------------------------------------------------------------

  /** A square at least radius² comes from a value at least radius away from 0. */
  lemma {:induction false} SquareAbove(a: real, radius: real)
    requires radius > 0.0
    ensures a >= radius || a <= -radius ==> a * a >= radius * radius
  {
    if a >= radius {
      assert a * a >= radius * a >= radius * radius;
    } else if a <= -radius {
      assert a * a == (-a) * (-a) >= radius * (-a) >= radius * radius;
    }
  }

  /** A point closer than the radius lies strictly inside the circle's bounding square. */
  lemma {:induction false} WithinRadiusInBox(p: Pt, x: real, y: real, radius: real)
    requires WithinRadius(p, x, y, radius)
    ensures StrictlyInside(CircleBox(x, y, radius), p)
  {
    assert (x - p.x) * (x - p.x) >= 0.0 && (y - p.y) * (y - p.y) >= 0.0;
    SquareAbove(x - p.x, radius);
    SquareAbove(y - p.y, radius);
  }

  /** Some stored point is closer than the radius and strictly inside its own leaf's region. */
  ghost predicate SomeWithin(t: QTree, x: real, y: real, radius: real)
  {
    exists p :: p in AllPts(t) && StrictlyInside(Home(t, p).r, p) && WithinRadius(p, x, y, radius)
  }

  /**
    existInCircle answers true exactly when some stored point is closer than the radius and
    strictly inside its own leaf's region. A non-positive radius, an empty tree, or a point at
    exactly the radius give false.
   */
  lemma {:induction false} CircleExact(t: QTree, x: real, y: real, radius: real, cap: int)
    requires WF(t, cap)
    ensures ExistT(t, x, y, radius) <==> SomeWithin(t, x, y, radius)
    decreases t
  {
    match t
    case Leaf(r, pts) =>
      CircleLeaf(r, pts, x, y, radius);
    case Internal(r, kids) =>
      forall j | 0 <= j < 4
        ensures ExistT(kids[j], x, y, radius) <==> SomeWithin(kids[j], x, y, radius)
      {
        CircleExact(kids[j], x, y, radius, cap);
      }
      CircleInternal(r, kids, x, y, radius, cap);
  }

  /** The base case of CircleExact. */
  lemma {:induction false} CircleLeaf(r: Rect, pts: seq<Pt>, x: real, y: real, radius: real)
    ensures ExistT(Leaf(r, pts), x, y, radius) <==> SomeWithin(Leaf(r, pts), x, y, radius)
  {
    var t := Leaf(r, pts);
    var box := Clip(CircleBox(x, y, radius), r);
    if ExistT(t, x, y, radius) {
      var k :| 0 <= k < |pts| && StrictlyInside(box, pts[k]) && WithinRadius(pts[k], x, y, radius);
      assert pts[k] in AllPts(t) && StrictlyInside(Home(t, pts[k]).r, pts[k]);
    }
    if SomeWithin(t, x, y, radius) {
      var p :| p in AllPts(t) && StrictlyInside(Home(t, p).r, p) && WithinRadius(p, x, y, radius);
      WithinRadiusInBox(p, x, y, radius);
      var k :| 0 <= k < |pts| && pts[k] == p;
      assert StrictlyInside(box, pts[k]);
    }
  }

  /** The inductive step of CircleExact. */
  lemma {:induction false} CircleInternal(r: Rect, kids: seq<QTree>, x: real, y: real, radius: real, cap: int)
    requires WF(Internal(r, kids), cap)
    requires forall j :: 0 <= j < 4 ==> (ExistT(kids[j], x, y, radius) <==> SomeWithin(kids[j], x, y, radius))
    ensures ExistT(Internal(r, kids), x, y, radius) <==> SomeWithin(Internal(r, kids), x, y, radius)
  {
    var t := Internal(r, kids);
    if ExistT(t, x, y, radius) {
      var i :| 0 <= i < 4 && ExistT(kids[i], x, y, radius);
      var p :| p in AllPts(kids[i]) && StrictlyInside(Home(kids[i], p).r, p) && WithinRadius(p, x, y, radius);
      HomeOfChildPoint(r, kids, i, p, cap);
      InsertProofs.InternalPts(r, kids, p);
      assert p in AllPts(t) && StrictlyInside(Home(t, p).r, p);
    }
    if SomeWithin(t, x, y, radius) {
      var p :| p in AllPts(t) && StrictlyInside(Home(t, p).r, p) && WithinRadius(p, x, y, radius);
      InsertProofs.InternalPts(r, kids, p);
      var i := FirstQuadrant(r, p);
      assert p in AllPts(kids[i]);
      HomeOfChildPoint(r, kids, i, p, cap);
      assert SomeWithin(kids[i], x, y, radius);
    }
  }

  /** The children's answers ORed in order are the internal node's answer. */
  lemma {:induction false} ExistOfAllChildren(r: Rect, kids: seq<QTree>, x: real, y: real, radius: real)
    requires |kids| == 4
    ensures ExistOfChildren(kids, x, y, radius, 4) == ExistT(Internal(r, kids), x, y, radius)
  {
    assert ExistOfChildren(kids, x, y, radius, 1) == ExistT(kids[0], x, y, radius);
    assert ExistOfChildren(kids, x, y, radius, 2) == (ExistT(kids[0], x, y, radius) || ExistT(kids[1], x, y, radius));
    assert ExistOfChildren(kids, x, y, radius, 3) ==
      (ExistT(kids[0], x, y, radius) || ExistT(kids[1], x, y, radius) || ExistT(kids[2], x, y, radius));
  }

  // ---------------------------------------------------------------------------
  // findNearest
  // ---------------------------------------------------------------------------

  /**
    The leaf scan of findNearest. When no stored point sits at the sentinel's coordinates:
    the answer is a stored point, or the seed when one was given; it is no farther than any
    stored point, nor than the seed.
   */
  lemma {:induction false} ScanMinimal(pts: seq<Pt>, x: real, y: real, c: Pt)
    requires Sentinel !in pts
    ensures c == Sentinel && pts != [] ==> Scan(pts, x, y, c) in pts
    ensures c == Sentinel && pts == [] ==> Scan(pts, x, y, c) == Sentinel
    ensures c != Sentinel ==> Scan(pts, x, y, c) in pts || Scan(pts, x, y, c) == c
    ensures forall q :: q in pts ==> DistSq(Scan(pts, x, y, c), x, y) <= DistSq(q, x, y)
    ensures c != Sentinel ==> DistSq(Scan(pts, x, y, c), x, y) <= DistSq(c, x, y)
    decreases |pts|
  {
    if pts != [] {
      var init := pts[..|pts| - 1];
      var p := pts[|pts| - 1];
      assert pts == init + [p];
      ScanMinimal(init, x, y, c);
      var w := Scan(init, x, y, c);
      assert w == Sentinel <==> c == Sentinel && init == [];
    }
  }

  /** The tie-break: at equal distance the stored point replaces the candidate when its x
      is larger, or else when its y is larger; otherwise the candidate stays. */
  lemma {:induction false} TieBreak(c: Pt, p: Pt, x: real, y: real)
    requires c != Sentinel && DistSq(p, x, y) == DistSq(c, x, y)
    ensures Step(c, p, x, y) == if p.x > c.x || p.y > c.y then p else c
  {
  }

  /** The scan of two points is two steps. */
  lemma {:induction false} ScanTwo(a: Pt, b: Pt, x: real, y: real, c: Pt)
    ensures Scan([a, b], x, y, c) == Step(Step(c, a, x, y), b, x, y)
  {
    assert [a, b][..1] == [a] && [a][..0] == [];
    assert Scan([a], x, y, c) == Step(c, a, x, y);
  }

  /** From the sentinel, the first stored point becomes the candidate. */
  lemma {:induction false} StepFromSentinel(p: Pt, x: real, y: real)
    ensures Step(Sentinel, p, x, y) == p
  {
  }

  /** The tie-break is not lexicographic: of two points at equal distance where one has the
      larger x and the other the larger y, whichever is stored later wins. */
  lemma {:induction false} TieBreakDependsOnOrder(a: Pt, b: Pt, x: real, y: real)
    requires a != Sentinel && b != Sentinel && DistSq(a, x, y) == DistSq(b, x, y)
    requires a.x > b.x && b.y > a.y
    ensures Scan([a, b], x, y, Sentinel) == b
    ensures Scan([b, a], x, y, Sentinel) == a
  {
    ScanTwo(a, b, x, y, Sentinel);
    ScanTwo(b, a, x, y, Sentinel);
    StepFromSentinel(a, x, y);
    StepFromSentinel(b, x, y);
    TieBreak(a, b, x, y);
    TieBreak(b, a, x, y);
  }

  /** Of two points at equal distance, one with both the larger x and the larger y wins
      whichever is stored first. */
  lemma {:induction false} TieBreakDominant(a: Pt, b: Pt, x: real, y: real)
    requires a != Sentinel && b != Sentinel && DistSq(a, x, y) == DistSq(b, x, y)
    requires a.x > b.x && a.y > b.y
    ensures Scan([a, b], x, y, Sentinel) == a
    ensures Scan([b, a], x, y, Sentinel) == a
  {
    ScanTwo(a, b, x, y, Sentinel);
    ScanTwo(b, a, x, y, Sentinel);
    StepFromSentinel(a, x, y);
    StepFromSentinel(b, x, y);
    TieBreak(a, b, x, y);
    TieBreak(b, a, x, y);
  }

  /** A stored point at the sentinel's coordinates counts as "no candidate yet": the next stored
      point replaces it, however far away, even when the target is the stored point itself. */
  lemma {:induction false} StoredSentinelIsSkipped()
    ensures Scan([Sentinel, Pt(100.0, 100.0)], Sentinel.x, Sentinel.y, Sentinel) == Pt(100.0, 100.0)
  {
    var far := Pt(100.0, 100.0);
    ScanTwo(Sentinel, far, Sentinel.x, Sentinel.y, Sentinel);
    StepFromSentinel(Sentinel, Sentinel.x, Sentinel.y);
    StepFromSentinel(far, Sentinel.x, Sentinel.y);
  }

  /** The leaf reached by following, at every internal node, the last child that contains c. */
  function LastHome(t: QTree, c: Pt): QTree
    decreases t
  {
    match t
    case Leaf(_, _) => t
    case Internal(r, kids) =>
      if |kids| != 4 then t
      else
        var i := LastContaining(kids, c, 4);
        if i < 0 then t else LastHome(kids[i], c)
  }

  /**
    In a well-formed tree whose region holds c, last-match descent on c ends in a leaf whose
    region holds c and whose points are stored points; and findNearest with candidate c
    answers exactly what that leaf answers.
   */
  lemma {:induction false} LastHomeIsInTree(t: QTree, x: real, y: real, c: Pt, cap: int)
    requires WF(t, cap) && InBoundary(t.r, c)
    ensures LastHome(t, c).Leaf? && InBoundary(LastHome(t, c).r, c)
    ensures forall q :: q in AllPts(LastHome(t, c)) ==> q in AllPts(t)
    ensures NearestT(t, x, y, c) == NearestT(LastHome(t, c), x, y, c)
    decreases t
  {
    match t
    case Leaf(_, _) =>
    case Internal(r, kids) =>
      var f := FirstQuadrant(r, c);
      assert InBoundary(kids[f].r, c);
      var i := LastContaining(kids, c, 4);
      assert i >= f;
      LastHomeIsInTree(kids[i], x, y, c, cap);
      InsertProofs.InternalPts(r, kids, c);
      forall q | q in AllPts(kids[i]) ensures q in AllPts(t) {
        InsertProofs.InternalPts(r, kids, q);
      }
  }

  /**
    Internal-node findNearest descends into one child only and returns its answer unchanged.
    With the sentinel as candidate (the unseeded call), the leaf searched is therefore the one
    reached by last-match descent on (M_PI, M_E), whatever the target; for a leaf it is the
    leaf itself. When the tree is a leaf or its region holds (M_PI, M_E): the answer is None
    exactly when that leaf is empty, and otherwise a stored point of that leaf no farther from
    the target than any other point of that leaf.
   */
  lemma {:induction false} NearestSearchesOneLeaf(t: QTree, x: real, y: real, cap: int)
    requires WF(t, cap) && (t.Leaf? || InBoundary(t.r, Sentinel)) && Sentinel !in AllPts(t)
    ensures LastHome(t, Sentinel).Leaf?
    ensures NearestT(t, x, y, Sentinel) == None <==> LastHome(t, Sentinel).pts == []
    ensures NearestT(t, x, y, Sentinel).Some? ==>
      NearestT(t, x, y, Sentinel).value in LastHome(t, Sentinel).pts &&
      NearestT(t, x, y, Sentinel).value in AllPts(t)
    ensures NearestT(t, x, y, Sentinel).Some? ==>
      forall q :: q in LastHome(t, Sentinel).pts ==>
        DistSq(NearestT(t, x, y, Sentinel).value, x, y) <= DistSq(q, x, y)
  {
    if t.Internal? {
      LastHomeIsInTree(t, x, y, Sentinel, cap);
    }
    var leaf := LastHome(t, Sentinel);
    assert Sentinel !in leaf.pts;
    ScanMinimal(leaf.pts, x, y, Sentinel);
  }

  /** The leaf scan answers a stored point or its seed; from the sentinel, a stored point. */
  lemma {:induction false} ScanStored(pts: seq<Pt>, x: real, y: real, c: Pt)
    ensures Scan(pts, x, y, c) in pts || Scan(pts, x, y, c) == c
    ensures c == Sentinel && pts != [] ==> Scan(pts, x, y, c) in pts
    decreases |pts|
  {
    if pts != [] {
      var init := pts[..|pts| - 1];
      var p := pts[|pts| - 1];
      assert pts == init + [p];
      ScanStored(init, x, y, c);
    }
  }

  /** What the unseeded findNearest finds is a stored point. */
  lemma {:induction false} NearestIsStored(t: QTree, x: real, y: real)
    ensures NearestT(t, x, y, Sentinel).Some? ==> NearestT(t, x, y, Sentinel).value in AllPts(t)
    decreases t
  {
    match t
    case Leaf(_, pts) =>
      ScanStored(pts, x, y, Sentinel);
    case Internal(r, kids) =>
      if |kids| == 4 {
        var i := LastContaining(kids, Sentinel, 4);
        if i >= 0 {
          NearestIsStored(kids[i], x, y);
          var n := NearestT(kids[i], x, y, Sentinel);
          if n.Some? {
            InsertProofs.InternalPts(r, kids, n.value);
          }
        }
      }
  }

  /** Once a node has split, findNearest without a seed answers nothing whenever the node's
      region does not hold (M_PI, M_E), however many points are stored. */
  lemma {:induction false} NearestOutsideSentinel(t: QTree, x: real, y: real, cap: int)
    requires WF(t, cap) && t.Internal? && !InBoundary(t.r, Sentinel)
    ensures NearestT(t, x, y, Sentinel) == None
  {
    assert FirstQuadrant(t.r, Sentinel) == 4;
    assert forall j :: 0 <= j < 4 ==> !InBoundary(t.kids[j].r, Sentinel);
  }

  // A worked example over the region [0, 10] x [0, 10] with capacity 2.

  const Square: Rect := Rect(0.0, 10.0, 0.0, 10.0)
  const Kids0: seq<QTree> := [Leaf(Rect(0.0, 5.0, 5.0, 10.0), []), Leaf(Rect(5.0, 10.0, 5.0, 10.0), []),
                              Leaf(Rect(0.0, 5.0, 0.0, 5.0), []), Leaf(Rect(5.0, 10.0, 0.0, 5.0), [])]
  const Kids1: seq<QTree> := Kids0[1 := Leaf(Rect(5.0, 10.0, 5.0, 10.0), [Pt(9.0, 9.0)])]
  const Kids2: seq<QTree> := Kids1[2 := Leaf(Rect(0.0, 5.0, 0.0, 5.0), [Pt(1.0, 1.0)])]

  lemma {:induction false} SquareQuadrants()
    ensures EmptyKids(Square) == Kids0
    ensures forall j :: 0 <= j < 4 ==> Quadrant(Square, j) == Kids0[j].r
    ensures forall j :: 0 <= j < 4 ==> H(Kids0[j].r, 1.0) < H(Square, 1.0)
  {
    QuadrantMeasure(Square, 0, 1.0);
    QuadrantMeasure(Square, 1, 1.0);
    QuadrantMeasure(Square, 2, 1.0);
    QuadrantMeasure(Square, 3, 1.0);
  }

  /** During the split, (9, 9) is refused by the top-left leaf and kept by the top-right one. */
  lemma {:induction false} ExampleOfferFirst()
    ensures forall j :: 0 <= j < 4 ==> MaxH(Kids0[j], 1.0) < H(Square, 1.0)
    ensures Offer(Kids0, Pt(9.0, 9.0), 0, Square, 2, 1.0) == Kids1
  {
    SquareQuadrants();
    assert Insert(Kids0[0], Pt(9.0, 9.0), 2, 1.0).0 == false;
    var none: seq<Pt> := [];
    assert none + [Pt(9.0, 9.0)] == [Pt(9.0, 9.0)];
    assert Insert(Kids0[1], Pt(9.0, 9.0), 2, 1.0) == (true, Leaf(Rect(5.0, 10.0, 5.0, 10.0), [Pt(9.0, 9.0)]));
  }

  /** Then (1, 1) is refused by both top leaves and kept by the bottom-left one. */
  lemma {:induction false} ExampleOfferSecond()
    ensures forall j :: 0 <= j < 4 ==> MaxH(Kids1[j], 1.0) < H(Square, 1.0)
    ensures Offer(Kids1, Pt(1.0, 1.0), 0, Square, 2, 1.0) == Kids2
  {
    SquareQuadrants();
    assert Insert(Kids1[0], Pt(1.0, 1.0), 2, 1.0).0 == false;
    assert Insert(Kids1[1], Pt(1.0, 1.0), 2, 1.0).0 == false;
    var none: seq<Pt> := [];
    assert none + [Pt(1.0, 1.0)] == [Pt(1.0, 1.0)];
    assert Insert(Kids1[2], Pt(1.0, 1.0), 2, 1.0) == (true, Leaf(Rect(0.0, 5.0, 0.0, 5.0), [Pt(1.0, 1.0)]));
  }

  /** Inserting (1, 1) and then (9, 9) splits the root. */
  lemma {:induction false} ExampleInserts()
    ensures Insert(Leaf(Square, []), Pt(1.0, 1.0), 2, 1.0) == (true, Leaf(Square, [Pt(1.0, 1.0)]))
    ensures Insert(Leaf(Square, [Pt(1.0, 1.0)]), Pt(9.0, 9.0), 2, 1.0) == (true, Internal(Square, Kids2))
  {
    SquareQuadrants();
    ExampleOfferFirst();
    ExampleOfferSecond();
    var pts := [Pt(1.0, 1.0), Pt(9.0, 9.0)];
    assert pts[..1] == [Pt(1.0, 1.0)] && [Pt(1.0, 1.0)][..0] == [];
    assert Distribute(Kids1, [Pt(1.0, 1.0)], Square, 2, 1.0) == Kids2;
    assert Distribute(Kids0, pts, Square, 2, 1.0) == Kids2;
  }

  /** The known limitation of the single-child descent: after inserting (1, 1) and (9, 9) into
      a tree over [0, 10] x [0, 10] with capacity 2, the nearest point to (9, 9) is reported as
      (1, 1), because (M_PI, M_E) lies in the bottom-left quadrant. */
  lemma {:induction false} NearestIsNotAlwaysNearest()
    ensures var t1 := Insert(Leaf(Square, []), Pt(1.0, 1.0), 2, 1.0).1;
      var t2 := Insert(t1, Pt(9.0, 9.0), 2, 1.0).1;
      Pt(9.0, 9.0) in AllPts(t2) &&
      NearestT(t2, 9.0, 9.0, Sentinel) == Some(Pt(1.0, 1.0))
  {
    ExampleInserts();
    assert LastContaining(Kids2, Sentinel, 4) == 2;
    assert Scan([Pt(1.0, 1.0)], 9.0, 9.0, Sentinel) == Pt(1.0, 1.0);
    assert AllPts(Internal(Square, Kids2)) == [Pt(9.0, 9.0), Pt(1.0, 1.0)];
  }
}

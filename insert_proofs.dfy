/**
  What insertion promises (node_class.cpp, insertPoint and splitNode): it keeps the tree
  invariant, it accepts a point exactly when the point lies in the node's closed region and
  is not stored yet, and it loses no point, splits included.
 */
module InsertProofs {
  import opened Geometry
  import opened TreeModel

  lemma {:induction false} SeparatedSub(s: seq<Pt>, s': seq<Pt>, d: real)
    requires Separated(s, d)
    requires forall a :: a in s' ==> a in s
    ensures Separated(s', d)
  {
  }

  /** The points of an internal node are those of its four children. */
  lemma {:induction false} InternalPts(r: Rect, kids: seq<QTree>, q: Pt)
    requires |kids| == 4
    ensures q in AllPts(Internal(r, kids)) <==>
      q in AllPts(kids[0]) || q in AllPts(kids[1]) || q in AllPts(kids[2]) || q in AllPts(kids[3])
  {
  }

  /** A sequence that gained exactly p holds only old points and p. */
  lemma {:induction false} GrowthMembers(a: seq<Pt>, b: seq<Pt>, p: Pt)
    requires multiset(a) == multiset(b) + multiset{p}
    ensures forall q :: q in a <==> q in b || q == p
  {
    forall q ensures q in a <==> q in b || q == p {
      assert q in a <==> q in multiset(a);
      assert q in b <==> q in multiset(b);
    }
  }

  /** Replacing child i changes the node's points by what child i gained. */
  lemma {:induction false} ReplaceKidPts(r: Rect, kids: seq<QTree>, i: int, k: QTree, m: multiset<Pt>)
    requires |kids| == 4 && 0 <= i < 4
    requires multiset(AllPts(k)) == multiset(AllPts(kids[i])) + m
    ensures multiset(AllPts(Internal(r, kids[i := k]))) == multiset(AllPts(Internal(r, kids))) + m
  {
    var a, b, c, e := AllPts(kids[0]), AllPts(kids[1]), AllPts(kids[2]), AllPts(kids[3]);
    assert AllPts(Internal(r, kids)) == a + b + c + e;
    if i == 0 {
      assert AllPts(Internal(r, kids[i := k])) == AllPts(k) + b + c + e;
    } else if i == 1 {
      assert AllPts(Internal(r, kids[i := k])) == a + AllPts(k) + c + e;
    } else if i == 2 {
      assert AllPts(Internal(r, kids[i := k])) == a + b + AllPts(k) + e;
    } else {
      assert AllPts(Internal(r, kids[i := k])) == a + b + c + AllPts(k);
    }
  }

  /** Replacing child i by a well-formed tree over the same region whose extra points all
      belong to quadrant i keeps the node well-formed. */
  lemma {:induction false} ReplaceKidWF(r: Rect, kids: seq<QTree>, i: int, k: QTree, cap: int)
    requires WF(Internal(r, kids), cap) && 0 <= i < 4
    requires WF(k, cap) && k.r == kids[i].r
    requires forall q :: q in AllPts(k) ==> q in AllPts(kids[i]) || FirstQuadrant(r, q) == i
    ensures WF(Internal(r, kids[i := k]), cap)
  {
    var kids' := kids[i := k];
    forall j, q | 0 <= j < 4 && q in AllPts(kids'[j])
      ensures FirstQuadrant(r, q) == j
    {
      if j != i {
        assert kids'[j] == kids[j];
      }
    }
  }

  /** Child i of a well-formed node gaining exactly q, a point of quadrant i, keeps the node
      well-formed and adds exactly q to it. */
  lemma {:induction false} AbsorbInChild(r: Rect, kids: seq<QTree>, i: int, k: QTree, q: Pt, cap: int)
    requires WF(Internal(r, kids), cap) && 0 <= i < 4 && FirstQuadrant(r, q) == i
    requires WF(k, cap) && k.r == kids[i].r
    requires multiset(AllPts(k)) == multiset(AllPts(kids[i])) + multiset{q}
    ensures WF(Internal(r, kids[i := k]), cap)
    ensures multiset(AllPts(Internal(r, kids[i := k]))) == multiset(AllPts(Internal(r, kids))) + multiset{q}
  {
    ReplaceKidPts(r, kids, i, k, multiset{q});
    GrowthMembers(AllPts(k), AllPts(kids[i]), q);
    ReplaceKidWF(r, kids, i, k, cap);
  }

  /** In a well-formed internal node, the child loop of insertPoint picks the first quadrant. */
  lemma {:induction false} FirstChildIsFirstQuadrant(r: Rect, kids: seq<QTree>, p: Pt, cap: int)
    requires WF(Internal(r, kids), cap)
    ensures FirstChild(kids, p, 0) == FirstQuadrant(r, p)
  {
  }

  /** Appending a point that is not stored keeps a leaf free of duplicates. */
  lemma {:induction false} AppendNoDup(pts: seq<Pt>, p: Pt)
    requires NoDup(pts) && p !in pts
    ensures NoDup(pts + [p])
  {
    var all := pts + [p];
    forall a, b | 0 <= a < b < |all| ensures all[a] != all[b] {
      if b == |pts| {
        assert all[a] in pts;
      }
    }
  }

  /** What insertPoint promises about its outcome (ok, t') on a node of value t. */
  ghost predicate InsertOutcome(t: QTree, p: Pt, cap: int, res: (bool, QTree))
  {
    WF(res.1, cap) &&
    (res.0 <==> InBoundary(t.r, p) && p !in AllPts(t)) &&
    multiset(AllPts(res.1)) == multiset(AllPts(t)) + (if res.0 then multiset{p} else multiset{}) &&
    (!res.0 ==> res.1 == t)
  }

  /** An accepted point adds one to the number of stored points; a refused one adds none. */
  lemma {:induction false} OutcomeCount(t: QTree, p: Pt, cap: int, res: (bool, QTree))
    requires InsertOutcome(t, p, cap, res)
    ensures |AllPts(res.1)| == |AllPts(t)| + (if res.0 then 1 else 0)
  {
    assert |multiset(AllPts(res.1))| == |AllPts(res.1)|;
    assert |multiset(AllPts(t))| == |AllPts(t)|;
  }

  /** insertPoint keeps the invariant, accepts exactly a new point of the closed region,
      adds exactly that point, and leaves the tree unchanged when it refuses. */
  lemma {:induction false} InsertCorrect(t: QTree, p: Pt, cap: int, d: real)
    requires cap >= 2 && d > 0.0 && WF(t, cap) && Separated(AllPts(t) + [p], d)
    ensures InsertOutcome(t, p, cap, Insert(t, p, cap, d))
    decreases MaxH(t, d), 2, Size(t), 1
  {
    if !InBoundary(t.r, p) {
    } else if t.Internal? {
      InsertInternalCorrect(t, p, cap, d);
    } else if p !in t.pts {
      InsertLeafCorrect(t, p, cap, d);
    }
  }

  lemma {:induction false} InsertInternalCorrect(t: QTree, p: Pt, cap: int, d: real)
    requires cap >= 2 && d > 0.0 && WF(t, cap) && Separated(AllPts(t) + [p], d)
    requires t.Internal? && InBoundary(t.r, p)
    ensures InsertOutcome(t, p, cap, Insert(t, p, cap, d))
    decreases MaxH(t, d), 2, Size(t), 0
  {
    var r, kids := t.r, t.kids;
    var i := FirstChild(kids, p, 0);
    FirstChildIsFirstQuadrant(r, kids, p, cap);
    KidMeasures(t, i, d);
    SeparatedSub(AllPts(t) + [p], AllPts(kids[i]) + [p], d);
    InsertCorrect(kids[i], p, cap, d);
    var (ok, k) := Insert(kids[i], p, cap, d);
    assert Insert(t, p, cap, d) == (ok, Internal(r, kids[i := k]));
    InternalPts(r, kids, p);
    assert p in AllPts(t) <==> p in AllPts(kids[i]);
    if ok {
      AbsorbInChild(r, kids, i, k, p, cap);
    } else {
      assert kids[i := k] == kids;
    }
    assert InsertOutcome(t, p, cap, (ok, Internal(r, kids[i := k])));
  }

  lemma {:induction false} InsertLeafCorrect(t: QTree, p: Pt, cap: int, d: real)
    requires cap >= 2 && d > 0.0 && WF(t, cap) && Separated(AllPts(t) + [p], d)
    requires t.Leaf? && InBoundary(t.r, p) && p !in t.pts
    ensures InsertOutcome(t, p, cap, Insert(t, p, cap, d))
    decreases MaxH(t, d), 2, Size(t), 0
  {
    var r, pts := t.r, t.pts;
    AppendNoDup(pts, p);
    if |pts| + 1 == cap {
      assert pts[0] in AllPts(t) + [p];
      SpanOfTwoPoints(r, pts[0], p, d);
      assert MaxH(t, d) == H(r, d);
      SplitCorrect(r, pts + [p], cap, d);
    }
  }

  /** splitNode keeps every point: the new internal node is well-formed and holds exactly
      the leaf's points. */
  lemma {:induction false} SplitCorrect(r: Rect, pts: seq<Pt>, cap: int, d: real)
    requires cap >= 2 && d > 0.0 && MaxSide(r) >= d
    requires forall q :: q in pts ==> InBoundary(r, q)
    requires NoDup(pts) && Separated(pts, d)
    ensures WF(Split(r, pts, cap, d), cap)
    ensures multiset(AllPts(Split(r, pts, cap, d))) == multiset(pts)
    decreases H(r, d), 1, 0, 0
  {
    QuadrantMeasure(r, 0, d);
    QuadrantMeasure(r, 1, d);
    QuadrantMeasure(r, 2, d);
    QuadrantMeasure(r, 3, d);
    var e := EmptyKids(r);
    assert AllPts(Internal(r, e)) == [];
    assert WF(Internal(r, e), cap);
    DistributeCorrect(e, pts, r, cap, d);
  }

  /** What the drain loop of splitNode needs at every round: children over the quadrants that
      are well-formed, and remaining points of the parent region, distinct, not yet stored. */
  ghost predicate DrainReady(kids: seq<QTree>, pts: seq<Pt>, parent: Rect, cap: int, d: real)
  {
    cap >= 2 && d > 0.0 && |kids| == 4 &&
    (forall i :: 0 <= i < 4 ==> MaxH(kids[i], d) < H(parent, d)) &&
    WF(Internal(parent, kids), cap) &&
    (forall q :: q in pts ==> InBoundary(parent, q) && q !in AllPts(Internal(parent, kids))) &&
    NoDup(pts) && Separated(AllPts(Internal(parent, kids)) + pts, d)
  }

  /** Right after the children are created, the drain loop can start on all of a full leaf's points. */
  lemma {:induction false} DrainStart(r: Rect, pts: seq<Pt>, cap: int, d: real)
    requires cap >= 2 && d > 0.0 && MaxSide(r) >= d
    requires forall q :: q in pts ==> InBoundary(r, q)
    requires NoDup(pts) && Separated(pts, d)
    ensures DrainReady(EmptyKids(r), pts, r, cap, d)
  {
    QuadrantMeasure(r, 0, d);
    QuadrantMeasure(r, 1, d);
    QuadrantMeasure(r, 2, d);
    QuadrantMeasure(r, 3, d);
    var e := EmptyKids(r);
    assert AllPts(Internal(r, e)) == [];
    assert WF(Internal(r, e), cap);
  }

  /** A remaining point and the points of one child are separated. */
  lemma {:induction false} ChildSeparated(parent: Rect, kids: seq<QTree>, i: int, pts: seq<Pt>, q: Pt, d: real)
    requires |kids| == 4 && 0 <= i < 4 && q in pts
    requires Separated(AllPts(Internal(parent, kids)) + pts, d)
    ensures Separated(AllPts(kids[i]) + [q], d)
  {
    forall a | a in AllPts(kids[i]) + [q] ensures a in AllPts(Internal(parent, kids)) + pts {
      InternalPts(parent, kids, a);
    }
    SeparatedSub(AllPts(Internal(parent, kids)) + pts, AllPts(kids[i]) + [q], d);
  }

  /** The drain loop hands every remaining point to the children and drops none. */
  lemma {:induction false} DistributeCorrect(kids: seq<QTree>, pts: seq<Pt>, parent: Rect, cap: int, d: real)
    requires cap >= 2 && d > 0.0 && |kids| == 4
    requires forall i :: 0 <= i < 4 ==> MaxH(kids[i], d) < H(parent, d)
    requires WF(Internal(parent, kids), cap)
    requires forall q :: q in pts ==> InBoundary(parent, q) && q !in AllPts(Internal(parent, kids))
    requires NoDup(pts)
    requires Separated(AllPts(Internal(parent, kids)) + pts, d)
    ensures WF(Internal(parent, Distribute(kids, pts, parent, cap, d)), cap)
    ensures multiset(AllPts(Internal(parent, Distribute(kids, pts, parent, cap, d)))) ==
            multiset(AllPts(Internal(parent, kids))) + multiset(pts)
    decreases H(parent, d), 0, |pts|, 1
  {
    if pts == [] {
      return;
    }
    var q := pts[|pts| - 1];
    var rest := pts[..|pts| - 1];
    DistributeStep(kids, pts, parent, cap, d);
    var kids1 := Offer(kids, q, 0, parent, cap, d);
    DistributeCorrect(kids1, rest, parent, cap, d);
    assert pts == rest + [q];
  }

  /** One round of the drain loop keeps the drain loop's precondition. */
  lemma {:induction false} DistributeStep(kids: seq<QTree>, pts: seq<Pt>, parent: Rect, cap: int, d: real)
    requires cap >= 2 && d > 0.0 && |kids| == 4 && pts != []
    requires forall i :: 0 <= i < 4 ==> MaxH(kids[i], d) < H(parent, d)
    requires WF(Internal(parent, kids), cap)
    requires forall q :: q in pts ==> InBoundary(parent, q) && q !in AllPts(Internal(parent, kids))
    requires NoDup(pts)
    requires Separated(AllPts(Internal(parent, kids)) + pts, d)
    ensures var kids1 := Offer(kids, pts[|pts| - 1], 0, parent, cap, d);
      var rest := pts[..|pts| - 1];
      WF(Internal(parent, kids1), cap) &&
      multiset(AllPts(Internal(parent, kids1))) == multiset(AllPts(Internal(parent, kids))) + multiset{pts[|pts| - 1]} &&
      (forall q :: q in rest ==> InBoundary(parent, q) && q !in AllPts(Internal(parent, kids1))) &&
      NoDup(rest) &&
      Separated(AllPts(Internal(parent, kids1)) + rest, d)
    decreases H(parent, d), 0, |pts|, 0
  {
    var q := pts[|pts| - 1];
    var rest := pts[..|pts| - 1];
    assert pts == rest + [q];
    var before := AllPts(Internal(parent, kids));
    SeparatedSub(before + pts, before + [q], d);
    OfferCorrect(kids, q, 0, parent, cap, d);
    var kids1 := Offer(kids, q, 0, parent, cap, d);
    var after := AllPts(Internal(parent, kids1));
    GrowthMembers(after, before, q);
    assert q !in rest;
    SeparatedSub(before + pts, after + rest, d);
  }

  /** One round of the drain loop, stated on DrainReady: the last remaining point may be handed
      out, and afterwards the rest is ready to drain into the new children. */
  lemma {:induction false} DrainAdvance(kids: seq<QTree>, pts: seq<Pt>, parent: Rect, cap: int, d: real)
    requires DrainReady(kids, pts, parent, cap, d) && pts != []
    ensures var q := pts[|pts| - 1];
      InBoundary(parent, q) && q !in AllPts(Internal(parent, kids)) &&
      Separated(AllPts(Internal(parent, kids)) + [q], d)
    ensures var kids1 := Offer(kids, pts[|pts| - 1], 0, parent, cap, d);
      DrainReady(kids1, pts[..|pts| - 1], parent, cap, d) &&
      Distribute(kids1, pts[..|pts| - 1], parent, cap, d) == Distribute(kids, pts, parent, cap, d)
  {
    var q := pts[|pts| - 1];
    var before := AllPts(Internal(parent, kids));
    SeparatedSub(before + pts, before + [q], d);
    DistributeStep(kids, pts, parent, cap, d);
  }

  /** What splitNode knows of the points of the full leaf it splits. */
  ghost predicate SplitReady(r: Rect, pts: seq<Pt>, cap: int, d: real)
  {
    cap >= 2 && d > 0.0 && MaxSide(r) >= d &&
    (forall q :: q in pts ==> InBoundary(r, q)) && NoDup(pts) && Separated(pts, d)
  }

  /** The children after the drain loop of splitNode has handed out pts[k..], last first. */
  function Drained(r: Rect, pts: seq<Pt>, k: int, cap: int, d: real): (kids: seq<QTree>)
    requires d > 0.0 && MaxSide(r) >= d && 0 <= k <= |pts|
    ensures |kids| == 4 && forall j :: 0 <= j < 4 ==> MaxH(kids[j], d) < H(r, d)
    decreases |pts| - k
  {
    if k == |pts| then
      QuadrantMeasure(r, 0, d);
      QuadrantMeasure(r, 1, d);
      QuadrantMeasure(r, 2, d);
      QuadrantMeasure(r, 3, d);
      EmptyKids(r)
    else Offer(Drained(r, pts, k + 1, cap, d), pts[k], 0, r, cap, d)
  }

  /** Midway through the drain loop the children and the points left make a state the loop
      can go on from, and finishing from it gives what finishing from the start gives. */
  lemma {:induction false} DrainedReady(r: Rect, pts: seq<Pt>, k: int, cap: int, d: real)
    requires SplitReady(r, pts, cap, d) && 0 <= k <= |pts|
    ensures DrainReady(Drained(r, pts, k, cap, d), pts[..k], r, cap, d)
    ensures Distribute(Drained(r, pts, k, cap, d), pts[..k], r, cap, d) ==
            Distribute(EmptyKids(r), pts, r, cap, d)
    decreases |pts| - k
  {
    if k == |pts| {
      assert pts[..k] == pts;
      DrainStart(r, pts, cap, d);
    } else {
      DrainedReady(r, pts, k + 1, cap, d);
      DrainedStep(r, pts, k, cap, d);
    }
  }

  /** One round of the drain loop, stated on Drained. */
  lemma {:induction false} DrainedStep(r: Rect, pts: seq<Pt>, k: int, cap: int, d: real)
    requires d > 0.0 && MaxSide(r) >= d && 0 <= k < |pts|
    requires DrainReady(Drained(r, pts, k + 1, cap, d), pts[..k + 1], r, cap, d)
    ensures DrainReady(Drained(r, pts, k, cap, d), pts[..k], r, cap, d)
    ensures Distribute(Drained(r, pts, k, cap, d), pts[..k], r, cap, d) ==
            Distribute(Drained(r, pts, k + 1, cap, d), pts[..k + 1], r, cap, d)
  {
    var before := pts[..k + 1];
    assert before[|before| - 1] == pts[k] && before[..|before| - 1] == pts[..k];
    DrainAdvance(Drained(r, pts, k + 1, cap, d), before, r, cap, d);
  }

  /** What handing out pts[k-1] needs: the children are well formed, and the point lies in the
      region, is not stored yet, and is separated from what is. */
  lemma {:induction false} NextReady(r: Rect, pts: seq<Pt>, k: int, cap: int, d: real)
    requires SplitReady(r, pts, cap, d) && 0 < k <= |pts|
    ensures var kids := Drained(r, pts, k, cap, d);
      WF(Internal(r, kids), cap) && InBoundary(r, pts[k - 1]) &&
      pts[k - 1] !in AllPts(Internal(r, kids)) &&
      Separated(AllPts(Internal(r, kids)) + [pts[k - 1]], d)
  {
    DrainedReady(r, pts, k, cap, d);
    var rest := pts[..k];
    assert rest[|rest| - 1] == pts[k - 1];
    DrainAdvance(Drained(r, pts, k, cap, d), rest, r, cap, d);
  }

  /** Once every point is handed out, the children are those of Split. */
  lemma {:induction false} DrainedAll(r: Rect, pts: seq<Pt>, cap: int, d: real)
    requires SplitReady(r, pts, cap, d)
    ensures Drained(r, pts, 0, cap, d) == Distribute(EmptyKids(r), pts, r, cap, d)
  {
    DrainedReady(r, pts, 0, cap, d);
  }

  /** The inner loop of splitNode: offered in order, a point of the parent region that is not
      yet stored goes to its first quadrant and nowhere else. */
  lemma {:induction false} OfferCorrect(kids: seq<QTree>, q: Pt, i: int, parent: Rect, cap: int, d: real)
    requires cap >= 2 && d > 0.0 && |kids| == 4 && 0 <= i <= 4
    requires forall j :: 0 <= j < 4 ==> MaxH(kids[j], d) < H(parent, d)
    requires WF(Internal(parent, kids), cap)
    requires InBoundary(parent, q) && q !in AllPts(Internal(parent, kids))
    requires i <= FirstQuadrant(parent, q)
    requires Separated(AllPts(Internal(parent, kids)) + [q], d)
    ensures WF(Internal(parent, Offer(kids, q, i, parent, cap, d)), cap)
    ensures multiset(AllPts(Internal(parent, Offer(kids, q, i, parent, cap, d)))) ==
            multiset(AllPts(Internal(parent, kids))) + multiset{q}
    decreases H(parent, d), 0, 0, 4 - i
  {
    var f := FirstQuadrant(parent, q);
    if i < f {
      assert !InBoundary(kids[i].r, q);
      OfferCorrect(kids, q, i + 1, parent, cap, d);
    } else {
      InternalPts(parent, kids, q);
      SeparatedSub(AllPts(Internal(parent, kids)) + [q], AllPts(kids[i]) + [q], d);
      InsertCorrect(kids[i], q, cap, d);
      var (ok, k) := Insert(kids[i], q, cap, d);
      assert ok;
      AbsorbInChild(parent, kids, i, k, q, cap);
    }
  }
}

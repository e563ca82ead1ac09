/**
  The value of a quadtree node, and the behaviour of every Node operation as a
  function of that value (node_class.cpp).

  A node is a leaf holding its stored points in storage order, or an internal node
  holding four children in the order top-left, top-right, bottom-left, bottom-right.
  Internal nodes hold no points of their own, so the datatype gives them none.
 */
module TreeModel {
  import opened Geometry

  datatype QTree = Leaf(r: Rect, pts: seq<Pt>) | Internal(r: Rect, kids: seq<QTree>)

  /** Every stored point of the subtree: children in order 0..3, each leaf in storage order. */
  function AllPts(t: QTree): seq<Pt>
    decreases t
  {
    match t
    case Leaf(_, pts) => pts
    case Internal(_, kids) =>
      if |kids| == 4 then AllPts(kids[0]) + AllPts(kids[1]) + AllPts(kids[2]) + AllPts(kids[3])
      else []
  }

  /** Number of nodes (a termination measure). */
  function Size(t: QTree): nat
    decreases t
  {
    match t
    case Leaf(_, _) => 1
    case Internal(_, kids) =>
      if |kids| == 4 then 1 + Size(kids[0]) + Size(kids[1]) + Size(kids[2]) + Size(kids[3])
      else 1
  }

  function MaxNat(a: nat, b: nat): nat
  {
    if a < b then b else a
  }

  /** The largest region measure in the subtree (a termination measure). */
  function MaxH(t: QTree, d: real): nat
    requires d > 0.0
    decreases t
  {
    match t
    case Leaf(r, _) => H(r, d)
    case Internal(r, kids) =>
      if |kids| == 4
      then MaxNat(H(r, d), MaxNat(MaxNat(MaxH(kids[0], d), MaxH(kids[1], d)),
                                  MaxNat(MaxH(kids[2], d), MaxH(kids[3], d))))
      else H(r, d)
  }

  lemma {:induction false} KidMeasures(t: QTree, i: int, d: real)
    requires t.Internal? && |t.kids| == 4 && 0 <= i < 4 && d > 0.0
    ensures MaxH(t.kids[i], d) <= MaxH(t, d)
    ensures Size(t.kids[i]) < Size(t)
  {
    if i == 0 {} else if i == 1 {} else if i == 2 {} else {}
  }

  predicate NoDup(s: seq<Pt>)
  {
    forall i, j :: 0 <= i < j < |s| ==> s[i] != s[j]
  }

  /**
    The tree invariant kept by every insertion:
    - every leaf holds fewer than `cap` points, all in its own closed region, none twice;
    - an internal node has four children covering its quadrants, and each stored point sits
      in the child that first-match descent on its coordinates picks.
   */
  ghost predicate WF(t: QTree, cap: int)
    decreases t
  {
    match t
    case Leaf(r, pts) =>
      |pts| < cap && (forall q :: q in pts ==> InBoundary(r, q)) && NoDup(pts)
    case Internal(r, kids) =>
      |kids| == 4 &&
      (forall i :: 0 <= i < 4 ==> kids[i].r == Quadrant(r, i) && WF(kids[i], cap)) &&
      (forall i, q :: 0 <= i < 4 && q in AllPts(kids[i]) ==> FirstQuadrant(r, q) == i)
  }

  /** The leaf that first-match descent on q's coordinates reaches. */
  function Home(t: QTree, q: Pt): (l: QTree)
    decreases t
  {
    match t
    case Leaf(_, _) => t
    case Internal(r, kids) =>
      var i := FirstQuadrant(r, q);
      if |kids| == 4 && i < 4 then Home(kids[i], q) else t
  }

  // ---------------------------------------------------------------------------
  // Insertion (Node::insertPoint and Node::splitNode)
  // ---------------------------------------------------------------------------

  /** The child the internal-node loop of insertPoint hands p to: the first one, from
      index i on, whose closed region holds p; 4 if none does. */
  function FirstChild(kids: seq<QTree>, p: Pt, i: int): (j: int)
    requires |kids| == 4 && 0 <= i <= 4
    ensures i <= j <= 4
    ensures j < 4 ==> InBoundary(kids[j].r, p)
    ensures forall k :: i <= k < j ==> !InBoundary(kids[k].r, p)
    decreases 4 - i
  {
    if i == 4 then 4
    else if InBoundary(kids[i].r, p) then i
    else FirstChild(kids, p, i + 1)
  }

  /** The leaf an empty split produces, in child order. */
  function EmptyKids(r: Rect): seq<QTree>
  {
    [Leaf(Quadrant(r, 0), []), Leaf(Quadrant(r, 1), []),
     Leaf(Quadrant(r, 2), []), Leaf(Quadrant(r, 3), [])]
  }

  /**
    insertPoint on a node of value t: whether p was accepted, and the node's new value.
    `d` is a positive lower bound on the distances between the points involved. It is
    only a termination witness: the guard `MaxSide(r) >= d` holds whenever the tree
    invariant and the separation hold (InsertCorrect).
   */
  function Insert(t: QTree, p: Pt, cap: int, d: real): (res: (bool, QTree))
    requires d > 0.0
    ensures res.1.r == t.r
    ensures MaxH(res.1, d) == MaxH(t, d)
    ensures !res.0 ==> res.1 == t
    decreases MaxH(t, d), 2, Size(t), 0
  {
    if !InBoundary(t.r, p) then (false, t)
    else match t
      case Internal(r, kids) =>
        if |kids| != 4 then (true, t)
        else
          var i := FirstChild(kids, p, 0);
          if i == 4 then (true, t)
          else
            KidMeasures(t, i, d);
            var (ok, k) := Insert(kids[i], p, cap, d);
            var t' := Internal(r, kids[i := k]);
            assert MaxH(t', d) == MaxH(t, d) by {
              if i == 0 {} else if i == 1 {} else if i == 2 {} else {}
            }
            (ok, t')
      case Leaf(r, pts) =>
        if p in pts then (false, t)
        else if |pts| + 1 == cap && MaxSide(r) >= d then (true, Split(r, pts + [p], cap, d))
        else (true, Leaf(r, pts + [p]))
  }

  /** splitNode on a full leaf holding pts: four fresh quadrant leaves, then every point
      handed to them, last-stored first. */
  function Split(r: Rect, pts: seq<Pt>, cap: int, d: real): (t: QTree)
    requires d > 0.0 && MaxSide(r) >= d
    ensures t.r == r && MaxH(t, d) == H(r, d)
    decreases H(r, d), 1, 0, 0
  {
    QuadrantMeasure(r, 0, d);
    QuadrantMeasure(r, 1, d);
    QuadrantMeasure(r, 2, d);
    QuadrantMeasure(r, 3, d);
    Internal(r, Distribute(EmptyKids(r), pts, r, cap, d))
  }

  /** The drain loop of splitNode: while points remain, offer the last one to the children. */
  function Distribute(kids: seq<QTree>, pts: seq<Pt>, parent: Rect, cap: int, d: real): (res: seq<QTree>)
    requires d > 0.0 && |kids| == 4
    requires forall i :: 0 <= i < 4 ==> MaxH(kids[i], d) < H(parent, d)
    ensures |res| == 4
    ensures forall i :: 0 <= i < 4 ==> res[i].r == kids[i].r && MaxH(res[i], d) == MaxH(kids[i], d)
    decreases H(parent, d), 0, |pts|, 1
  {
    if pts == [] then kids
    else Distribute(Offer(kids, pts[|pts| - 1], 0, parent, cap, d), pts[..|pts| - 1], parent, cap, d)
  }

  /** The inner loop of splitNode: try children i, i+1, ..., 3 and stop at the first that accepts q. */
  function Offer(kids: seq<QTree>, q: Pt, i: int, parent: Rect, cap: int, d: real): (res: seq<QTree>)
    requires d > 0.0 && |kids| == 4 && 0 <= i <= 4
    requires forall j :: 0 <= j < 4 ==> MaxH(kids[j], d) < H(parent, d)
    ensures |res| == 4
    ensures forall j :: 0 <= j < 4 ==> res[j].r == kids[j].r && MaxH(res[j], d) == MaxH(kids[j], d)
    decreases H(parent, d), 0, 0, 4 - i
  {
    if i == 4 then kids
    else
      var (ok, k) := Insert(kids[i], q, cap, d);
      if ok then kids[i := k] else Offer(kids, q, i + 1, parent, cap, d)
  }

  // ---------------------------------------------------------------------------
  // Range enumeration (Node::printInRange)
  // ---------------------------------------------------------------------------

  /** The points of a leaf strictly inside the (already clipped) range c, in storage order. */
  function InRange(pts: seq<Pt>, c: Rect): seq<Pt>
  {
    if pts == [] then []
    else InRange(pts[..|pts| - 1], c) + (if StrictlyInside(c, pts[|pts| - 1]) then [pts[|pts| - 1]] else [])
  }

  /** printInRange(q.xMin, q.xMax, q.yMin, q.yMax) on a node of value t: the query is clipped to
      the node's region; a leaf reports its points strictly inside the clipped range; an
      internal node concatenates its children's answers to the clipped range. */
  function RangeT(t: QTree, q: Rect): seq<Pt>
    decreases t
  {
    var c := Clip(q, t.r);
    match t
    case Leaf(_, pts) => InRange(pts, c)
    case Internal(_, kids) =>
      if |kids| == 4 then RangeT(kids[0], c) + RangeT(kids[1], c) + RangeT(kids[2], c) + RangeT(kids[3], c)
      else []
  }

  /** The answers of the first n children to the clipped range c, concatenated. */
  function RangeOfChildren(kids: seq<QTree>, c: Rect, n: int): seq<Pt>
    requires 0 <= n <= |kids|
  {
    if n == 0 then [] else RangeOfChildren(kids, c, n - 1) + RangeT(kids[n - 1], c)
  }

  // ---------------------------------------------------------------------------
  // Circle existence (Node::existInCircle)
  // ---------------------------------------------------------------------------

  /** The bounding square of the circle, before clipping. */
  function CircleBox(x: real, y: real, radius: real): Rect
  {
    Rect(x - radius, x + radius, y - radius, y + radius)
  }

  /** Some stored point is strictly inside the clipped box and closer than the radius. */
  predicate AnyWithin(pts: seq<Pt>, box: Rect, x: real, y: real, radius: real)
  {
    exists k :: 0 <= k < |pts| && StrictlyInside(box, pts[k]) && WithinRadius(pts[k], x, y, radius)
  }

  /** existInCircle(x, y, radius) on a node of value t. Each node clips the circle's bounding
      square to its own region; an internal node ORs its children's answers. */
  function ExistT(t: QTree, x: real, y: real, radius: real): bool
    decreases t
  {
    match t
    case Leaf(r, pts) => AnyWithin(pts, Clip(CircleBox(x, y, radius), r), x, y, radius)
    case Internal(_, kids) =>
      |kids| == 4 &&
      (ExistT(kids[0], x, y, radius) || ExistT(kids[1], x, y, radius) ||
       ExistT(kids[2], x, y, radius) || ExistT(kids[3], x, y, radius))
  }

  /** The OR of the first n children's answers. */
  function ExistOfChildren(kids: seq<QTree>, x: real, y: real, radius: real, n: int): bool
    requires 0 <= n <= |kids|
  {
    n > 0 && (ExistOfChildren(kids, x, y, radius, n - 1) || ExistT(kids[n - 1], x, y, radius))
  }

  // ---------------------------------------------------------------------------
  // Nearest point (Node::findNearest)
  // ---------------------------------------------------------------------------

  /**
    One iteration of the leaf loop of findNearest with candidate c and stored point p.
    A candidate equal to the sentinel means "none yet" and is first replaced by p.
    Then p replaces the candidate when it is strictly closer, or, at equal distance,
    when its x is larger, or else when its y is larger.
   */
  function Step(c: Pt, p: Pt, x: real, y: real): Pt
  {
    var c1 := if c == Sentinel then p else c;
    var dp := DistSq(p, x, y);
    var dc := DistSq(c1, x, y);
    if dp <= dc then
      if dp == dc then
        if p.x > c1.x then p
        else if p.y > c1.y then p
        else c1
      else p
    else c1
  }

  /** The candidate after the leaf loop has visited pts, starting from candidate c. */
  function Scan(pts: seq<Pt>, x: real, y: real, c: Pt): Pt
  {
    if pts == [] then c else Step(Scan(pts[..|pts| - 1], x, y, c), pts[|pts| - 1], x, y)
  }

  /** The internal-node loop of findNearest: the last child among the first n whose closed
      region holds the candidate c; -1 if none does. */
  function LastContaining(kids: seq<QTree>, c: Pt, n: int): (i: int)
    requires 0 <= n <= |kids|
    ensures -1 <= i < n
    ensures i >= 0 ==> InBoundary(kids[i].r, c)
    ensures forall j :: i < j < n ==> !InBoundary(kids[j].r, c)
  {
    if n == 0 then -1
    else if InBoundary(kids[n - 1].r, c) then n - 1
    else LastContaining(kids, c, n - 1)
  }

  /**
    findNearest(x, y, c.x, c.y) on a node of value t. A leaf without points answers None;
    otherwise it answers its loop's final candidate. An internal node answers what the last
    child containing the candidate answers; when no child contains it (the source reads an
    uninitialised index there) the model answers None.
   */
  function NearestT(t: QTree, x: real, y: real, c: Pt): Option<Pt>
    decreases t
  {
    match t
    case Leaf(_, pts) => if pts == [] then None else Some(Scan(pts, x, y, c))
    case Internal(_, kids) =>
      if |kids| != 4 then None
      else
        var i := LastContaining(kids, c, 4);
        if i < 0 then None else NearestT(kids[i], x, y, c)
  }
}

/**
  The Quadtree class of quadtree_class.cpp: a capacity, a region, a count of accepted points
  and a root node. Each command is proved against the stored points of the root's value.
 */
module QuadtreeClass {
  import opened Geometry
  import opened TreeModel
  import InsertProofs
  import QueryProofs
  import opened NodeClass

  /** What nearest answers: "no point exists" on an empty tree, the empty string when the
      root's findNearest finds nothing, or the coordinates of a point. */
  datatype NearestAnswer = NoPointExists | NothingFound | Found(p: Pt)

  class Quadtree {
    const maxPoints: int
    var currentPoints: int
    const xMax: real
    const xMin: real
    const yMax: real
    const yMin: real
    const rootNode: Node

    function Region(): Rect
    {
      Rect(xMin, xMax, yMin, yMax)
    }

    /** The stored points, in the order of the root's value. */
    ghost function Points(): seq<Pt>
      reads this, rootNode
    {
      AllPts(rootNode.Tree)
    }

    /** The root is a valid, well-formed node over the tree's region and capacity, and the
        counter equals the number of stored points. */
    ghost predicate Valid()
      reads this, rootNode, rootNode.Repr
    {
      this !in rootNode.Repr &&
      rootNode.Valid() && WF(rootNode.Tree, maxPoints) && maxPoints >= 2 &&
      rootNode.maxPoints == maxPoints && rootNode.Region() == Region() &&
      currentPoints == |AllPts(rootNode.Tree)|
    }

    /** Quadtree::Quadtree(num, Xm, Ym, Xx, Yx): an empty root over [Xm, Xx] x [Ym, Yx]. The
        region is non-empty as INIT checks before constructing, and the capacity is at least
        two since a capacity of one splits forever. */
    constructor (num: int, Xm: real, Ym: real, Xx: real, Yx: real)
      requires num >= 2 && Xm < Xx && Ym < Yx
      ensures Valid() && fresh(rootNode.Repr)
      ensures Region() == Rect(Xm, Xx, Ym, Yx) && maxPoints == num
      ensures rootNode.Tree == Leaf(Region(), []) && currentPoints == 0
      ensures Points() == []
    {
      maxPoints := num;
      xMin, yMin, xMax, yMax := Xm, Ym, Xx, Yx;
      currentPoints := 0;
      rootNode := new Node(Xm, Xx, Ym, Yx, num);
      new;
      FreshLeafValid(rootNode);
    }

    /** Quadtree::insert(x, y): the root's new outcome and value are those of insertPoint.
        So (x, y) is accepted exactly when it lies in the closed region and is not stored yet;
        an accepted point is added and counted, a refused one changes nothing. */
    method Insert(x: real, y: real) returns (success: bool)
      requires Valid()
      modifies this, rootNode.Repr
      ensures Valid() && fresh(rootNode.Repr - old(rootNode.Repr))
      ensures (success, rootNode.Tree) ==
              TreeModel.Insert(old(rootNode.Tree), Pt(x, y), maxPoints,
                               SepBound(old(Points()) + [Pt(x, y)]))
      ensures success <==> InBoundary(Region(), Pt(x, y)) && Pt(x, y) !in old(Points())
      ensures multiset(Points()) ==
              multiset(old(Points())) + (if success then multiset{Pt(x, y)} else multiset{})
      ensures currentPoints == old(currentPoints) + (if success then 1 else 0)
      ensures !success ==> Points() == old(Points())
    {
      var point := Pt(x, y);
      ghost var t := rootNode.Tree;
      ghost var d := SepBound(AllPts(t) + [point]);
      InsertProofs.InsertCorrect(t, point, maxPoints, d);
      success := rootNode.InsertPoint(point, d);
      InsertProofs.OutcomeCount(t, point, maxPoints, (success, rootNode.Tree));
      if success {
        currentPoints := currentPoints + 1;
      }
    }

    /** Quadtree::numPoints: the counter, which is the number of distinct stored points. */
    method NumPoints() returns (n: int)
      requires Valid()
      ensures n == |Points()| && n == |set q | q in Points()|
    {
      QueryProofs.NoDuplicates(rootNode.Tree, maxPoints);
      QueryProofs.CountIsDistinct(AllPts(rootNode.Tree));
      n := currentPoints;
    }

    /** Quadtree::search(x, y, distance): some stored point closer than distance to (x, y) lies
        strictly inside its own leaf's region. */
    method Search(x: real, y: real, distance: real) returns (found: bool)
      requires Valid()
      ensures found <==> QueryProofs.SomeWithin(rootNode.Tree, x, y, distance)
    {
      found := rootNode.ExistInCircle(x, y, distance);
      QueryProofs.CircleExact(rootNode.Tree, x, y, distance, maxPoints);
    }

    /** Quadtree::range(xMi, yMi, xMx, yMx): the root's printInRange, in report order (children
        in order, then storage order in each leaf); every point is reported once. An empty
        answer is printed as "no points within range". RANGE checks xMi < xMx and yMi < yMx
        first. */
    method Range(xMi: real, yMi: real, xMx: real, yMx: real) returns (result: seq<Pt>)
      requires Valid() && xMi < xMx && yMi < yMx
      ensures result == RangeT(rootNode.Tree, Rect(xMi, xMx, yMi, yMx))
      ensures forall p :: p in result <==>
        p in Points() && StrictlyInside(Rect(xMi, xMx, yMi, yMx), p) &&
        StrictlyInside(Home(rootNode.Tree, p).r, p)
      ensures NoDup(result)
    {
      result := rootNode.PrintInRange(xMi, xMx, yMi, yMx);
      forall p
        ensures p in result <==>
          p in Points() && StrictlyInside(Rect(xMi, xMx, yMi, yMx), p) &&
          StrictlyInside(Home(rootNode.Tree, p).r, p)
      {
        QueryProofs.RangeExact(rootNode.Tree, Rect(xMi, xMx, yMi, yMx), maxPoints, p);
      }
      QueryProofs.RangeNoDup(rootNode.Tree, Rect(xMi, xMx, yMi, yMx), maxPoints);
    }

    /** Quadtree::nearest(x, y): "no point exists" exactly when nothing is stored; otherwise the
        answer of the root's findNearest seeded with (M_PI, M_E), and a found point is a stored
        point. When the root is a leaf, or the region holds (M_PI, M_E), and that point is not
        stored, only the leaf reached by last-match descent on it is searched: nothing is found
        exactly when that leaf is empty, and a found point is no farther from (x, y) than any
        point of that leaf. Once the root has split and the region does not hold (M_PI, M_E),
        nothing is ever found. */
    method Nearest(x: real, y: real) returns (answer: NearestAnswer)
      requires Valid()
      ensures answer == NoPointExists <==> Points() == []
      ensures Points() != [] ==>
        (answer == NothingFound <==> NearestT(rootNode.Tree, x, y, Sentinel) == None) &&
        (answer.Found? ==> NearestT(rootNode.Tree, x, y, Sentinel) == Some(answer.p))
      ensures answer.Found? ==> answer.p in Points()
      ensures (rootNode.Tree.Leaf? || InBoundary(Region(), Sentinel)) && Sentinel !in Points() && Points() != [] ==>
        var leaf := QueryProofs.LastHome(rootNode.Tree, Sentinel);
        leaf.Leaf? && (answer == NothingFound <==> leaf.pts == []) &&
        (answer.Found? ==>
           answer.p in leaf.pts && forall q :: q in leaf.pts ==> DistSq(answer.p, x, y) <= DistSq(q, x, y))
      ensures !InBoundary(Region(), Sentinel) && rootNode.Tree.Internal? && Points() != [] ==>
        answer == NothingFound
    {
      if currentPoints == 0 {
        return NoPointExists;
      }
      var found := rootNode.FindNearest(x, y, Sentinel);
      QueryProofs.NearestIsStored(rootNode.Tree, x, y);
      if (rootNode.Tree.Leaf? || InBoundary(Region(), Sentinel)) && Sentinel !in Points() {
        QueryProofs.NearestSearchesOneLeaf(rootNode.Tree, x, y, maxPoints);
      }
      if !InBoundary(Region(), Sentinel) && rootNode.Tree.Internal? {
        QueryProofs.NearestOutsideSentinel(rootNode.Tree, x, y, maxPoints);
      }
      if found.None? {
        return NothingFound;
      }
      answer := Found(found.value);
    }
  }
}

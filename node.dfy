/**
  The Node class of node_class.cpp: a region, a capacity, a points array filled from the
  front, a leaf flag and four children created by a split. Each method is proved to compute
  what the matching function of TreeModel says of the node's value `Tree`.
 */
module NodeClass {
  import opened Geometry
  import opened TreeModel
  import InsertProofs
  import QueryProofs

  /** A node straight from the constructor: an empty leaf owning only itself and its array. */
  ghost predicate FreshLeaf(c: Node)
    reads c
  {
    c.Repr == {c, c.pointsArray} && c.pointsArray.Length == c.maxPoints && c.isLeafNode &&
    c.currentPoints == 0 && c.childNodes == [] && c.Tree == Leaf(c.Region(), [])
  }

  /** A fresh leaf is valid. */
  lemma {:induction false} FreshLeafValid(c: Node)
    requires FreshLeaf(c)
    ensures c.Valid()
  {
    assert c.pointsArray[..0] == [];
  }

  /** Four fresh leaves over distinct objects, outside the node's own objects, make a node
      whose children are in order. */
  lemma {:induction false} Adopted(n: Node, c0: Node, c1: Node, c2: Node, c3: Node)
    requires n in n.Repr && n.pointsArray in n.Repr
    requires n.childNodes == [c0, c1, c2, c3]
    requires n.Tree == Internal(n.Tree.r, [c0.Tree, c1.Tree, c2.Tree, c3.Tree])
    requires FreshLeaf(c0) && FreshLeaf(c1) && FreshLeaf(c2) && FreshLeaf(c3)
    requires c0.Repr + c1.Repr + c2.Repr + c3.Repr <= n.Repr
    requires n !in c0.Repr + c1.Repr + c2.Repr + c3.Repr
    requires n.pointsArray !in c0.Repr + c1.Repr + c2.Repr + c3.Repr
    requires c0.Repr !! c1.Repr && c0.Repr !! c2.Repr && c0.Repr !! c3.Repr
    requires c1.Repr !! c2.Repr && c1.Repr !! c3.Repr && c2.Repr !! c3.Repr
    requires c0.maxPoints == n.maxPoints && c1.maxPoints == n.maxPoints
    requires c2.maxPoints == n.maxPoints && c3.maxPoints == n.maxPoints
    ensures n.ChildrenOk()
  {
    FreshLeafValid(c0);
    FreshLeafValid(c1);
    FreshLeafValid(c2);
    FreshLeafValid(c3);
  }

  /** The four `new Node(this, ...)` calls of splitNode: fresh empty leaves over the quadrants
      of the region, in child order, each with the parent's capacity. */
  method NewQuadrants(xMin: real, xMax: real, yMin: real, yMax: real, maxPoints: int)
    returns (c0: Node, c1: Node, c2: Node, c3: Node)
    requires maxPoints >= 0
    ensures FreshLeaf(c0) && FreshLeaf(c1) && FreshLeaf(c2) && FreshLeaf(c3)
    ensures fresh(c0.Repr) && fresh(c1.Repr) && fresh(c2.Repr) && fresh(c3.Repr)
    ensures c0.Repr !! c1.Repr && c0.Repr !! c2.Repr && c0.Repr !! c3.Repr
    ensures c1.Repr !! c2.Repr && c1.Repr !! c3.Repr && c2.Repr !! c3.Repr
    ensures c0.maxPoints == maxPoints && c1.maxPoints == maxPoints
    ensures c2.maxPoints == maxPoints && c3.maxPoints == maxPoints
    ensures [c0.Tree, c1.Tree, c2.Tree, c3.Tree] == EmptyKids(Rect(xMin, xMax, yMin, yMax))
  {
    var xMid := (xMin + xMax) / 2.0;
    var yMid := (yMin + yMax) / 2.0;
    c0 := new Node(xMin, xMid, yMid, yMax, maxPoints);
    c1 := new Node(xMid, xMax, yMid, yMax, maxPoints);
    c2 := new Node(xMin, xMid, yMin, yMid, maxPoints);
    c3 := new Node(xMid, xMax, yMin, yMid, maxPoints);
  }

  class Node {
    const xMin: real
    const xMax: real
    const yMin: real
    const yMax: real
    const maxPoints: int
    const pointsArray: array<Pt>
    var isLeafNode: bool
    var currentPoints: int
    var childNodes: seq<Node>

    /** The value of the subtree rooted here. */
    ghost var Tree: QTree
    /** The objects making up the subtree: nodes and their points arrays. */
    ghost var Repr: set<object>

    function Region(): Rect
    {
      Rect(xMin, xMax, yMin, yMax)
    }

    /** A leaf holds its points in pointsArray[0 .. currentPoints-1]; an internal node holds none
        and has four valid children with disjoint footprints. */
    ghost predicate Valid()
      reads this, Repr
      decreases Repr, 1
    {
      this in Repr && pointsArray in Repr &&
      pointsArray.Length == maxPoints && 0 <= currentPoints <= maxPoints &&
      Tree.r == Region() &&
      if isLeafNode then
        childNodes == [] && Tree == Leaf(Region(), pointsArray[..currentPoints])
      else
        currentPoints == 0 && ChildrenOk()
    }

    /** The four children are valid, own disjoint parts of Repr, and make up Tree's children. */
    ghost predicate ChildrenOk()
      reads this`Repr, this`childNodes, this`Tree, Repr - {this}
      decreases Repr, 0
    {
      this in Repr && pointsArray in Repr &&
      |childNodes| == 4 && Tree.Internal? && |Tree.kids| == 4 &&
      (forall i :: 0 <= i < 4 ==>
        childNodes[i] in Repr && childNodes[i].Repr <= Repr &&
        this !in childNodes[i].Repr && pointsArray !in childNodes[i].Repr &&
        childNodes[i].Valid() && childNodes[i].Tree == Tree.kids[i] &&
        childNodes[i].maxPoints == maxPoints) &&
      (forall i, j :: 0 <= i < j < 4 ==> childNodes[i].Repr !! childNodes[j].Repr)
    }

    /** Node::Node: an empty leaf over the given region. */
    constructor (xMi: real, xMx: real, yMi: real, yMx: real, maxP: int)
      requires maxP >= 0
      ensures FreshLeaf(this) && fresh(Repr)
      ensures Region() == Rect(xMi, xMx, yMi, yMx) && maxPoints == maxP
    {
      xMin, xMax, yMin, yMax := xMi, xMx, yMi, yMx;
      maxPoints := maxP;
      currentPoints := 0;
      pointsArray := new Pt[maxP];
      isLeafNode := true;
      childNodes := [];
      Tree := Leaf(Rect(xMi, xMx, yMi, yMx), []);
      Repr := {this, pointsArray};
    }

    /** Node::isInBoundary. */
    predicate IsInBoundary(p: Pt)
      ensures IsInBoundary(p) <==> InBoundary(Region(), p)
    {
      p.x >= xMin && p.x <= xMax && p.y >= yMin && p.y <= yMax
    }

    /**
      Node::insertPoint. `d` is a ghost lower bound on the separation of the points involved;
      it only measures termination of the split cascade.
     */
    method InsertPoint(p: Pt, ghost d: real) returns (ok: bool)
      requires Valid() && WF(Tree, maxPoints) && maxPoints >= 2
      requires d > 0.0 && Separated(AllPts(Tree) + [p], d)
      modifies Repr
      ensures Valid() && fresh(Repr - old(Repr))
      ensures (ok, Tree) == Insert(old(Tree), p, maxPoints, d)
      decreases MaxH(Tree, d), 2, Size(Tree), 1
    {
      if !IsInBoundary(p) {
        return false;
      }
      if isLeafNode {
        ok := InsertIntoLeaf(p, d);
        return;
      }
      var i := 0;
      while i < 4 && !childNodes[i].IsInBoundary(p)
        invariant 0 <= i <= 4
        invariant FirstChild(Tree.kids, p, i) == FirstChild(Tree.kids, p, 0)
      {
        assert childNodes[i].Valid();
        i := i + 1;
      }
      if i == 4 {
        return true;
      }
      KidMeasures(Tree, i, d);
      InsertProofs.ChildSeparated(Region(), Tree.kids, i, [p], p, d);
      ok := InsertIntoChild(i, p, d);
    }

    /** The leaf branch of insertPoint: refuse a point stored already, otherwise store it after
        the others and split the leaf once it is full. */
    method InsertIntoLeaf(p: Pt, ghost d: real) returns (ok: bool)
      requires Valid() && isLeafNode && WF(Tree, maxPoints) && maxPoints >= 2
      requires d > 0.0 && Separated(Tree.pts + [p], d) && InBoundary(Region(), p)
      modifies Repr
      ensures Valid() && fresh(Repr - old(Repr))
      ensures (ok, Tree) == Insert(old(Tree), p, maxPoints, d)
      decreases MaxH(Tree, d), 2, Size(Tree), 0
    {
      ghost var pts := Tree.pts;
      var i := 0;
      while i < currentPoints
        invariant 0 <= i <= currentPoints
        invariant forall j :: 0 <= j < i ==> pointsArray[j] != p
      {
        if pointsArray[i] == p {
          return false;
        }
        i := i + 1;
      }
      pointsArray[currentPoints] := p;
      currentPoints := currentPoints + 1;
      assert pointsArray[..currentPoints] == pts + [p];
      Tree := Leaf(Region(), pointsArray[..currentPoints]);
      if currentPoints == maxPoints {
        assert pts[0] in pts + [p];
        SpanOfTwoPoints(Region(), pts[0], p, d);
        InsertProofs.AppendNoDup(pts, p);
        SplitNode(d);
      }
      ok := true;
    }

    /** The call `p_childNodes[i]->insertPoint(p)` made by insertPoint and by splitNode, together
        with the bookkeeping that keeps the children's footprints apart. */
    method InsertIntoChild(i: int, p: Pt, ghost d: real) returns (ok: bool)
      requires ChildrenOk() && 0 <= i < 4 && maxPoints >= 2 && d > 0.0
      requires WF(Tree.kids[i], maxPoints) && Separated(AllPts(Tree.kids[i]) + [p], d)
      modifies Repr
      ensures ChildrenOk() && fresh(Repr - old(Repr))
      ensures (ok, Tree.kids[i]) == Insert(old(Tree.kids[i]), p, maxPoints, d)
      ensures Tree == Internal(old(Tree.r), old(Tree.kids)[i := Tree.kids[i]])
      ensures isLeafNode == old(isLeafNode) && currentPoints == old(currentPoints)
      ensures childNodes == old(childNodes) && unchanged(pointsArray)
      decreases MaxH(Tree.kids[i], d), 2, Size(Tree.kids[i]), 2
    {
      var child := childNodes[i];
      ok := child.InsertPoint(p, d);
      forall j | 0 <= j < 4 && j != i
        ensures childNodes[j].Valid() && childNodes[j].Tree == old(childNodes[j].Tree)
        ensures childNodes[j].Repr == old(childNodes[j].Repr)
      {
      }
      Tree := Internal(Tree.r, Tree.kids[i := child.Tree]);
      Repr := Repr + child.Repr;
      assert ChildrenOk();
    }

    /** Node::splitNode: four fresh children over the quadrants, then the stored points handed
        to them, last first, each to the first child that accepts it. */
    method SplitNode(ghost d: real)
      requires Valid() && isLeafNode && currentPoints == maxPoints && maxPoints >= 2 && d > 0.0
      requires forall q :: q in Tree.pts ==> InBoundary(Region(), q)
      requires NoDup(Tree.pts) && Separated(Tree.pts, d) && MaxSide(Region()) >= d
      modifies Repr
      ensures Valid() && fresh(Repr - old(Repr))
      ensures Tree == Split(Region(), old(Tree.pts), maxPoints, d)
      decreases H(Region(), d), 1, 0, 0
    {
      ghost var r := Region();
      ghost var pts := Tree.pts;
      assert InsertProofs.SplitReady(r, pts, maxPoints, d);
      MakeChildren();
      while currentPoints != 0
        invariant 0 <= currentPoints <= maxPoints
        invariant this in Repr && pointsArray in Repr && !isLeafNode && ChildrenOk()
        invariant Tree == Internal(r, InsertProofs.Drained(r, pts, currentPoints, maxPoints, d))
        invariant fresh(Repr - old(Repr)) && unchanged(pointsArray)
        decreases currentPoints
      {
        var q := pointsArray[currentPoints - 1];
        HandOut(q, currentPoints, pts, d);
        currentPoints := currentPoints - 1;
      }
      InsertProofs.DrainedAll(r, pts, maxPoints, d);
    }

    /** The first half of splitNode: four empty leaves over the quadrants, in child order,
        become the children, and the node stops being a leaf. */
    method MakeChildren()
      requires this in Repr && pointsArray in Repr && maxPoints >= 0
      modifies this
      ensures ChildrenOk() && !isLeafNode && fresh(Repr - old(Repr))
      ensures Tree == Internal(Region(), EmptyKids(Region()))
      ensures currentPoints == old(currentPoints)
    {
      var c0, c1, c2, c3 := NewQuadrants(xMin, xMax, yMin, yMax, maxPoints);
      childNodes, isLeafNode := [c0, c1, c2, c3], false;
      Repr := Repr + c0.Repr + c1.Repr + c2.Repr + c3.Repr;
      Tree := Internal(Region(), [c0.Tree, c1.Tree, c2.Tree, c3.Tree]);
      Adopted(this, c0, c1, c2, c3);
    }

    /** The body of the drain loop of splitNode: offer q, the k-th stored point, to the children
        in order and stop at the first that accepts it. */
    method HandOut(q: Pt, ghost k: int, ghost pts: seq<Pt>, ghost d: real)
      requires ChildrenOk() && InsertProofs.SplitReady(Tree.r, pts, maxPoints, d)
      requires 0 < k <= |pts| && q == pts[k - 1]
      requires Tree.kids == InsertProofs.Drained(Tree.r, pts, k, maxPoints, d)
      modifies Repr
      ensures ChildrenOk() && fresh(Repr - old(Repr))
      ensures Tree == Internal(old(Tree.r), InsertProofs.Drained(old(Tree.r), pts, k - 1, maxPoints, d))
      ensures isLeafNode == old(isLeafNode) && currentPoints == old(currentPoints)
      ensures childNodes == old(childNodes) && unchanged(pointsArray)
      decreases H(Tree.r, d), 0, 0, 0
    {
      ghost var r := Tree.r;
      ghost var kids := Tree.kids;
      InsertProofs.NextReady(r, pts, k, maxPoints, d);
      assert InsertProofs.Drained(r, pts, k - 1, maxPoints, d) == Offer(kids, q, 0, r, maxPoints, d);
      var i := 0;
      while i < 4
        invariant 0 <= i <= 4
        invariant ChildrenOk() && fresh(Repr - old(Repr)) && Tree == old(Tree)
        invariant isLeafNode == old(isLeafNode) && currentPoints == old(currentPoints)
        invariant childNodes == old(childNodes) && unchanged(pointsArray)
        invariant Offer(kids, q, i, r, maxPoints, d) == Offer(kids, q, 0, r, maxPoints, d)
      {
        InsertProofs.ChildSeparated(r, kids, i, [q], q, d);
        var ok := InsertIntoChild(i, q, d);
        if ok {
          return;
        }
        assert kids[i := Tree.kids[i]] == kids;
        i := i + 1;
      }
    }

    /** Node::printInRange(x0, x1, y0, y1): the reported points, in report order. */
    method PrintInRange(x0: real, x1: real, y0: real, y1: real) returns (result: seq<Pt>)
      requires Valid()
      ensures result == RangeT(Tree, Rect(x0, x1, y0, y1))
      decreases Repr
    {
      var xMinRange, xMaxRange := x0, x1;
      var yMinRange, yMaxRange := y0, y1;
      if x0 < xMin { xMinRange := xMin; }
      if x1 > xMax { xMaxRange := xMax; }
      if y0 < yMin { yMinRange := yMin; }
      if y1 > yMax { yMaxRange := yMax; }
      ghost var c := Rect(xMinRange, xMaxRange, yMinRange, yMaxRange);
      assert c == Clip(Rect(x0, x1, y0, y1), Region());
      result := [];
      if isLeafNode {
        var i := 0;
        while i < currentPoints
          invariant 0 <= i <= currentPoints
          invariant result == InRange(pointsArray[..i], c)
        {
          var p := pointsArray[i];
          if p.x > xMinRange && p.x < xMaxRange && p.y > yMinRange && p.y < yMaxRange {
            result := result + [p];
          }
          assert pointsArray[..i + 1][..i] == pointsArray[..i];
          i := i + 1;
        }
        return;
      }
      var i := 0;
      while i < 4
        invariant 0 <= i <= 4
        invariant result == RangeOfChildren(Tree.kids, c, i)
      {
        var part := childNodes[i].PrintInRange(xMinRange, xMaxRange, yMinRange, yMaxRange);
        result := result + part;
        i := i + 1;
      }
      QueryProofs.RangeOfAllChildren(Region(), Tree.kids, Rect(x0, x1, y0, y1));
    }

    /** Node::existInCircle(x, y, radius). */
    method ExistInCircle(x: real, y: real, radius: real) returns (result: bool)
      requires Valid()
      ensures result == ExistT(Tree, x, y, radius)
      decreases Repr
    {
      var xMinRange, xMaxRange := x - radius, x + radius;
      var yMinRange, yMaxRange := y - radius, y + radius;
      if xMinRange < xMin { xMinRange := xMin; }
      if xMaxRange > xMax { xMaxRange := xMax; }
      if yMinRange < yMin { yMinRange := yMin; }
      if yMaxRange > yMax { yMaxRange := yMax; }
      ghost var box := Rect(xMinRange, xMaxRange, yMinRange, yMaxRange);
      assert box == Clip(CircleBox(x, y, radius), Region());
      if isLeafNode {
        var i := 0;
        while i < currentPoints
          invariant 0 <= i <= currentPoints
          invariant forall k :: 0 <= k < i ==>
            !(StrictlyInside(box, pointsArray[k]) && WithinRadius(pointsArray[k], x, y, radius))
        {
          var p := pointsArray[i];
          if p.x > xMinRange && p.x < xMaxRange && p.y > yMinRange && p.y < yMaxRange {
            if WithinRadius(p, x, y, radius) {
              assert Tree.pts[i] == p;
              return true;
            }
          }
          i := i + 1;
        }
        return false;
      }
      result := false;
      var i := 0;
      while i < 4
        invariant 0 <= i <= 4
        invariant result == ExistOfChildren(Tree.kids, x, y, radius, i)
      {
        if !result {
          result := childNodes[i].ExistInCircle(x, y, radius);
        }
        i := i + 1;
      }
      QueryProofs.ExistOfAllChildren(Region(), Tree.kids, x, y, radius);
    }

    /** Node::findNearest(x, y, nearest.x, nearest.y): None stands for the empty answer. */
    method FindNearest(x: real, y: real, nearest: Pt) returns (answer: Option<Pt>)
      requires Valid()
      ensures answer == NearestT(Tree, x, y, nearest)
      decreases Repr
    {
      if isLeafNode {
        var current := nearest;
        var foundAPoint := false;
        var i := 0;
        while i < currentPoints
          invariant 0 <= i <= currentPoints
          invariant current == Scan(pointsArray[..i], x, y, nearest)
          invariant foundAPoint == (i > 0)
        {
          var p := pointsArray[i];
          foundAPoint := true;
          if current == Sentinel {
            current := p;
          }
          var currentDistance := DistSq(p, x, y);
          var nearestDistance := DistSq(current, x, y);
          if currentDistance <= nearestDistance {
            if currentDistance == nearestDistance {
              if p.x > current.x {
                current := p;
              } else if p.y > current.y {
                current := p;
              }
            } else {
              current := p;
            }
          }
          assert pointsArray[..i + 1][..i] == pointsArray[..i];
          i := i + 1;
        }
        if !foundAPoint {
          return None;
        }
        return Some(current);
      }
      var firstNodeIndex := -1;
      var i := 0;
      while i < 4
        invariant 0 <= i <= 4
        invariant firstNodeIndex == LastContaining(Tree.kids, nearest, i)
      {
        assert childNodes[i].Valid();
        if childNodes[i].IsInBoundary(nearest) {
          firstNodeIndex := i;
        }
        i := i + 1;
      }
      if firstNodeIndex < 0 {
        return None;
      }
      answer := childNodes[firstNodeIndex].FindNearest(x, y, nearest);
    }
  }
}

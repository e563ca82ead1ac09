# Quadtree: a verified Dafny model

This project models a point-region quadtree over a closed axis-aligned rectangle. Each node
is either a leaf holding up to `maxPoints - 1` points in a points array, or an internal node
with four children over the quadrants of its region. The children are top left, top right,
bottom left and bottom right, in that order. Inserting into a leaf adds the point unless it
is already stored. When the array then becomes full, the node splits: it creates the four
children, becomes internal and hands its points to them from the last to the first. A
handed-out point goes to the first child whose closed region contains it, and that child may
in turn split. The `Quadtree` object wraps a root node and counts the accepted points.

The queries:

- `range` reports the points strictly inside the query rectangle after it has been clipped to
  each node's region.
- `search` reports whether some point strictly inside that clipped box lies closer than the
  given distance.
- `nearest` descends from the root to the last child whose region contains the current
  candidate, which starts as (M_PI, M_E). It then scans that one leaf. On a tie the scanned
  point replaces the candidate when its x is larger, or else when its y is larger, even if
  its x is smaller.

The model is in six modules:

- `Geometry` (`geometry.dfy`): points, rectangles, quadrants, the first-match quadrant,
  squared distance and the candidate (M_PI, M_E) written as the exact values of the two
  doubles.
- `TreeModel` (`tree_model.dfy`): the value `QTree` of a subtree, and functions that say what
  each node operation computes on that value.
- `InsertProofs` (`insert_proofs.dfy`): what insertion and splitting are proved to mean.
- `QueryProofs` (`query_proofs.dfy`): what the queries are proved to mean.
- `NodeClass` (`node.dfy`): the `Node` class with its fields. Its methods update them in
  place and are proved to compute the `TreeModel` functions on the node's ghost value `Tree`,
  keeping `Valid()`.
- `QuadtreeClass` (`quadtree.dfy`): the `Quadtree` class. Its invariant is that the counter
  equals the number of stored points.

Proved behaviours worth knowing about:

- Range and search only see a point that lies strictly inside the region of the leaf storing
  it. `QueryProofs.RangeExact` and `QueryProofs.CircleExact` state this, so a point on a split
  line or on the outer border is never reported.
- When the root is a leaf, or its region contains (M_PI, M_E), nearest searches exactly one
  leaf: the one reached by last-match descent on (M_PI, M_E). It can therefore miss a nearer
  point (`QueryProofs.NearestIsNotAlwaysNearest`), and it answers empty exactly when that leaf
  is empty (`QueryProofs.NearestSearchesOneLeaf`).
- Once the root has split and its region does not contain (M_PI, M_E), no child holds the
  candidate and the source goes on to read the uninitialised `firstNodeIndex`. The model
  chooses the empty answer for that case (`QueryProofs.NearestOutsideSentinel`).
- When one of two tied points has the larger x and the other the larger y, the later-stored
  one wins (`QueryProofs.TieBreakDependsOnOrder`). A tied point with both the larger x and the
  larger y wins in either order (`QueryProofs.TieBreakDominant`).
- A stored (M_PI, M_E) is treated as "no candidate yet" (`QueryProofs.StoredSentinelIsSkipped`).

## Model

| member | source | states |
|---|---|---|
| Geometry.InBoundary | node_class.cpp:43-47 | membership of a closed rectangle, the test of isInBoundary |
| Geometry.StrictlyInside | node_class.cpp:91-92 | membership of an open rectangle, the test the range and circle scans apply |
| Geometry.Quadrant | node_class.cpp:235-241 | the region of child i: top left, top right, bottom left, bottom right, split at the midpoints |
| Geometry.DistSq | point_class.cpp:29-34 | the squared Euclidean distance that distanceToPoint takes the root of |
| Geometry.WithinRadius | node_class.cpp:118 | distance below the radius, stated on squares for a positive radius and false otherwise |
| Geometry.FirstQuadrant | node_class.cpp:56-61 | the first child, in order 0..3, whose closed region holds p; a child exists exactly when p is in the parent's closed region, and no earlier child holds p |
| Geometry.Clip | node_class.cpp:83-88 | a point is strictly inside the clipped rectangle exactly when it is strictly inside both the query and the node region |
| TreeModel.FirstChild | node_class.cpp:56-61 | the index found is the first child from i on whose region holds p, or 4 when none does |
| TreeModel.EmptyKids | node_class.cpp:238-241 | the four empty leaves over the quadrants, in child order |
| TreeModel.Insert | node_class.cpp:49-79 | insertion keeps the node's region and leaves the tree unchanged when the point is refused |
| TreeModel.Split | node_class.cpp:233-254 | a split produces an internal node over the same region |
| TreeModel.Distribute | node_class.cpp:244-251 | handing out points keeps four children over the same quadrants |
| TreeModel.Offer | node_class.cpp:245-249 | offering one point to the children keeps their regions |
| TreeModel.LastContaining | node_class.cpp:186-193 | the index is the last child whose region holds the candidate, or -1 when none does |
| TreeModel.InRange | node_class.cpp:89-97 | the leaf's points strictly inside the clipped query, in storage order; `QueryProofs.InRangeMembers` proves its members |
| TreeModel.RangeT | node_class.cpp:81-104 | printInRange on a node's value: clip, then the leaf scan or the children's answers in order; `QueryProofs.RangeExact` and `QueryProofs.RangeNoDup` are proved about it |
| TreeModel.RangeOfChildren | node_class.cpp:100-102 | the concatenation of the first n children's answers for the clipped query |
| TreeModel.CircleBox | node_class.cpp:108-109 | the square around (x, y) with half-side radius, before clipping |
| TreeModel.AnyWithin | node_class.cpp:115-122 | some leaf point strictly inside the clipped box is closer than the radius |
| TreeModel.ExistT | node_class.cpp:106-130 | existInCircle on a node's value; `QueryProofs.CircleExact` is proved about it |
| TreeModel.ExistOfChildren | node_class.cpp:126-128 | the or of the first n children's answers |
| TreeModel.Step | node_class.cpp:148-175 | one iteration of the leaf scan, including the (M_PI, M_E) replacement and the tie-break; `QueryProofs.TieBreak` is proved about it |
| TreeModel.Scan | node_class.cpp:147-176 | the candidate after the leaf loop; `QueryProofs.ScanMinimal` is proved about it |
| TreeModel.NearestT | node_class.cpp:132-195 | findNearest on a node's value: the scan of a non-empty leaf, or the answer of the last child holding the candidate; `QueryProofs.NearestSearchesOneLeaf` is proved about it |
| QueryProofs.LastHome | node_class.cpp:186-194 | the leaf reached by last-match descent on the candidate; `QueryProofs.LastHomeIsInTree` is proved about it |
| InsertProofs.InsertCorrect | node_class.cpp:49-79 | insertion keeps the tree well formed; it succeeds exactly when p is in the region and not yet stored; the stored multiset grows by exactly p on success and the tree is unchanged on refusal |
| InsertProofs.InsertInternalCorrect | node_class.cpp:55-61 | the same outcome for an internal node, which passes p to the first child holding it |
| InsertProofs.InsertLeafCorrect | node_class.cpp:63-78 | the same outcome for a leaf and a new point of its region: append, and split when full; a duplicate is refused by the branch of `InsertCorrect` that leaves the tree unchanged |
| InsertProofs.OutcomeCount | quadtree_class.cpp:55-58 | the number of stored points grows by one exactly when insertion succeeds |
| InsertProofs.SplitCorrect | node_class.cpp:233-254 | a split of a full leaf is well formed and stores exactly the leaf's points |
| InsertProofs.DistributeCorrect | node_class.cpp:244-251 | handing out pts to valid children yields a well-formed node storing the children's points plus pts |
| InsertProofs.OfferCorrect | node_class.cpp:245-249 | offering one point that is in the region and new adds exactly that point and keeps the node well formed |
| InsertProofs.DrainedReady | node_class.cpp:244-251 | after handing out the last k points, the remaining points can still be handed out and the end result is that of the whole hand-out |
| InsertProofs.NextReady | node_class.cpp:246 | the next point handed out is in the region and new to the children, which form a well-formed node |
| InsertProofs.DrainedAll | node_class.cpp:244-251 | the loop from the last point down to the first computes the whole hand-out |
| InsertProofs.FirstChildIsFirstQuadrant | node_class.cpp:56-61 | in a well-formed node the first child holding p is the first quadrant of the region holding p |
| InsertProofs.ChildSeparated | node_class.cpp:59 | points passed to a child stay separated from that child's points |
| QueryProofs.NoDuplicates | node_class.cpp:64-70 | no point is stored twice in a well-formed tree |
| QueryProofs.CountIsDistinct | quadtree_class.cpp:61-63 | the number of stored points equals the number of distinct stored points |
| QueryProofs.StoredIffAtHome | node_class.cpp:55-61 | a point is stored exactly when it is in the region and in the leaf reached by first-match descent |
| QueryProofs.HomeStrictlyInside | node_class.cpp:89-92 | a point strictly inside its leaf's region is strictly inside every ancestor's region |
| QueryProofs.InRangeMembers | node_class.cpp:89-97 | the leaf scan reports exactly the leaf's points strictly inside the clipped query |
| QueryProofs.RangeExact | node_class.cpp:81-104 | a point is reported exactly when it is stored, strictly inside the query rectangle and strictly inside its own leaf's region |
| QueryProofs.RangeOfAllChildren | node_class.cpp:99-103 | an internal node reports its children's answers for the clipped query, in child order |
| QueryProofs.RangeNoDup | node_class.cpp:81-104 | no point is reported twice |
| QueryProofs.WithinRadiusInBox | node_class.cpp:106-118 | a point closer than the radius lies strictly inside the box around the centre |
| QueryProofs.CircleExact | node_class.cpp:106-130 | search answers true exactly when some stored point closer than the radius lies strictly inside its own leaf's region |
| QueryProofs.ExistOfAllChildren | node_class.cpp:125-129 | an internal node ors its children's answers |
| QueryProofs.ScanMinimal | node_class.cpp:146-181 | when no stored point is (M_PI, M_E), the leaf scan returns a point no farther than any point of the leaf, and one of the leaf's points when started from (M_PI, M_E) on a non-empty leaf |
| QueryProofs.ScanStored | node_class.cpp:146-181 | the scan returns a point of the leaf or the candidate it started from |
| QueryProofs.TieBreak | node_class.cpp:156-174 | at equal distance from a real candidate, one scan step takes the new point when its x is larger or, failing that, its y is larger, and otherwise keeps the candidate |
| QueryProofs.TieBreakDependsOnOrder | node_class.cpp:161-169 | for two equidistant points where one has the larger x and the other the larger y, the later-stored point wins |
| QueryProofs.TieBreakDominant | node_class.cpp:161-169 | for two equidistant points where one has both the larger x and the larger y, that point wins in either storage order |
| QueryProofs.StoredSentinelIsSkipped | node_class.cpp:150-153 | a stored (M_PI, M_E) is replaced by the next point scanned, even when it is the query point itself |
| QueryProofs.LastHomeIsInTree | node_class.cpp:183-195 | when the region holds the candidate, the leaf reached by last-match descent holds the candidate, its points are stored points, and nearest answers as that leaf does |
| QueryProofs.NearestSearchesOneLeaf | node_class.cpp:132-195 | when the tree is a leaf or its region holds (M_PI, M_E), and that point is not stored: nothing is found exactly when the reached leaf is empty, and a found point is a point of that leaf no farther than any other point of it |
| QueryProofs.NearestIsStored | node_class.cpp:132-195 | a point found by nearest is a stored point |
| QueryProofs.NearestOutsideSentinel | node_class.cpp:186-194 | in an internal node whose region does not hold (M_PI, M_E), the model answers nothing found, its choice for the uninitialised `firstNodeIndex` of the source |
| QueryProofs.ExampleInserts | node_class.cpp:49-79 | inserting (1, 1) then (9, 9) into capacity 2 over [0, 10] x [0, 10] splits the root and hands (9, 9) then (1, 1) to their quadrants |
| QueryProofs.NearestIsNotAlwaysNearest | node_class.cpp:183-195 | in that tree, nearest to (9, 9) answers (1, 1) although (9, 9) is stored |
| NodeClass.FreshLeafValid | node_class.cpp:260-272 | a freshly constructed node is a valid empty leaf |
| NodeClass.Adopted | node_class.cpp:238-242 | four fresh leaves over disjoint objects make valid, ordered children |
| NodeClass.NewQuadrants | node_class.cpp:235-241 | the four new children are fresh empty leaves over the quadrants in child order with the parent's capacity |
| NodeClass.Node.constructor | node_class.cpp:260-272 | an empty leaf over the given region, with an array of maxP slots and no children |
| NodeClass.Node.IsInBoundary | node_class.cpp:43-47 | membership of the node's closed region |
| NodeClass.Node.InsertPoint | node_class.cpp:49-79 | the new outcome and value of the node are those of TreeModel.Insert, and the node stays valid |
| NodeClass.Node.InsertIntoLeaf | node_class.cpp:63-78 | the leaf branch: refuse a duplicate, otherwise write the next slot and split when full, as TreeModel.Insert |
| NodeClass.Node.InsertIntoChild | node_class.cpp:57-59 | the child's outcome and value are those of TreeModel.Insert and the other children are unchanged |
| NodeClass.Node.SplitNode | node_class.cpp:233-254 | the node's new value is TreeModel.Split of its old points and it stays valid |
| NodeClass.Node.MakeChildren | node_class.cpp:235-242 | the node becomes internal with four empty children over its quadrants |
| NodeClass.Node.HandOut | node_class.cpp:245-249 | handing out the k-th point computes one more step of the drain, from the last point to the first |
| NodeClass.Node.PrintInRange | node_class.cpp:81-104 | the reported points are TreeModel.RangeT of the node's value |
| NodeClass.Node.ExistInCircle | node_class.cpp:106-130 | the answer is TreeModel.ExistT of the node's value |
| NodeClass.Node.FindNearest | node_class.cpp:132-195 | the answer is TreeModel.NearestT of the node's value |
| QuadtreeClass.Quadtree.constructor | quadtree_class.cpp:65-69 | a valid tree over the given region and capacity whose root is an empty leaf, with the counter at zero |
| QuadtreeClass.Quadtree.Insert | quadtree_class.cpp:52-60 | the root's new outcome and value are those of `TreeModel.Insert` (insertPoint); success exactly when (x, y) is in the region and new; the stored multiset grows by exactly that point on success, nothing changes on failure, and the counter follows |
| QuadtreeClass.Quadtree.NumPoints | quadtree_class.cpp:61-63 | the counter equals the number of stored points, all distinct |
| QuadtreeClass.Quadtree.Search | quadtree_class.cpp:48-50 | true exactly when some stored point closer than distance lies strictly inside its own leaf's region |
| QuadtreeClass.Quadtree.Range | quadtree_class.cpp:40-46 | the answer is `TreeModel.RangeT` of the root, in report order; the reported points are exactly the stored points strictly inside the query and strictly inside their own leaf's region, each once |
| QuadtreeClass.Quadtree.Nearest | quadtree_class.cpp:33-38 | "no point exists" exactly when nothing is stored; otherwise nothing found or the found point exactly as `TreeModel.NearestT` of the root seeded with (M_PI, M_E); a found point is stored; when the root is a leaf or the region holds (M_PI, M_E), and that point is not stored, the answer is the nearest point of the one leaf reached by last-match descent, or nothing found exactly when that leaf is empty; with (M_PI, M_E) outside a split root's region, nothing is found |

## Left out

- Reading commands, printing answers and the exceptions of `main.cpp` are not modelled. The
  checks of INIT (main.cpp:21) and RANGE (main.cpp:60) become preconditions of the
  constructor and of `Range`.
- Answers are values (`seq<Pt>`, `bool`, `NearestAnswer`), not strings. `std::to_string`
  formatting, `extractX`/`extractY`, and the "no points within range" text for an empty range
  are not modelled.
- Coordinates are real numbers, not doubles. Rounding is not modelled: the midpoint
  `(xMin + xMax)/2` and the distance comparisons are exact.
- `distanceToPoint` takes a square root; the model compares squared distances. For
  non-negative radii this gives the same order, and `WithinRadius` is false for a radius of
  zero or less, as `sqrt(..) < radius` is.
- Destructors, `delete`, the parent link `p_parentNode` and the default constructor
  `Node::Node()` are not modelled. The points array is kept after a split instead of being
  deleted, and is no longer read once the node is internal.
- The array of child nodes is a field of type `seq<Node>`, empty in a leaf and set once when
  the node splits.
- The code after the `return` in `findNearest` (node_class.cpp:196-228) is unreachable and
  not modelled.
- An uninitialised `firstNodeIndex` (no child holds the candidate) is undefined behaviour in
  the source; the model answers "nothing found" (`None`) there.
- NodeClass.Node.InsertPoint: takes a ghost bound `d` on the separation of the points
  involved and requires the points to be that far apart. The bound only measures termination
  of a cascade of splits, and `Quadtree.Insert` always supplies one, so it adds no demand on
  callers of `insert`.
- QuadtreeClass.Quadtree.constructor: requires a capacity of at least 2. With capacity 1 the
  first insertion fills the leaf and splits it forever, and with capacity 0 the array write
  is out of bounds.
- TreeModel.Insert: its leaf branch splits only when the region is at least `d` wide. Under
  the separation bound this always holds for a full leaf (`Geometry.SpanOfTwoPoints`), so it
  does not change any reachable outcome.

# Touch panes and their quadtree, modelled in Dafny

This project models the core of a JavaFX touch library. The library has three parts.

- **The region quadtree** (`QuadTree.java`). It indexes the action groups of a touch pane by their
  proximity bounds: the bounds in the scene, grown by half the proximity threshold on every side.
  A node holding ten objects above depth five splits into four quadrants.
- **The touch pane** (`TouchPane.java`). It registers action groups and rebuilds the index when
  the pane is resized. On every animation frame it brings the index up to date. Then it walks
  every registered group against the groups the index retrieves, and records which pairs collide
  and which are in each other's proximity.
- **Two generations of the draggable pane** (`control/TactilePane.java` of the older API and of
  the later `tactilefx` control). Both have:
  - drag handlers for touch and mouse, in which one pointer at a time holds a node's drag;
  - the press, move and release handling, clamping the node to the pane when borders collide;
  - the `draggable` property, which also takes the node out of use.

  The older pane also has registration with a pane's physics, with a tracker per node. The later
  pane adds:
  - validated physics settings;
  - a bond set that keeps one bond per target;
  - the clean-up when a node stops being active;
  - `DragContext.bind`, with which another touch point takes over a drag.

The Dafny modules follow that structure:

- `Geometry`: bounding boxes, inclusive `contains` and `intersects`, quadrants, and the drag
  clamp.
- `Outcomes`: `Option`, `Result`, and the exceptions an operation can end in.
- `QuadTreeSpec`: the tree as pure functions over an arena of nodes. A node's identity is its
  index and the root is node 0. This module holds every structural lemma.
- `QuadTree`: the class whose methods change the arena in place. Each method is proved against
  the map of indexed objects to the bounds they were indexed with.
- `QuadTreeAsWritten`: the quadtree defects, modelled as written, with the inputs that show
  them.
- `TouchPane`: the pane class, its frame, registration and resize.
- `TactileApiPane`: the older draggable pane, plus the registry of trackers.
- `TactileFxPane`: the later draggable pane.

What the library does outside the model comes in as parameters:

- The bounds of a group or node in the scene now are a function `boundsOf`, or fields of the node.
- The chain of a node's ancestors is a sequence.
- `toFront()` and the events the pane fires are appended to a log.

## Model

Source paths abbreviate as follows:

- `QuadTree.java` is `TactileAPI/src/nl/utwente/cs/caes/tactile/QuadTree.java`.
- `TouchPane.java` is `TactileAPI/src/nl/utwente/cs/caes/tactile/TouchPane.java`.
- The older pane is `TactileAPI/src/nl/utwente/cs/caes/tactile/control/TactilePane.java`.
- The later pane is `tactilefx/src/main/java/nl/utwente/ewi/caes/tactilefx/control/TactilePane.java`.

The table gives every path in full.

| member | source | states |
|---|---|---|
| Geometry.ClampAxis | TactileAPI/src/nl/utwente/cs/caes/tactile/control/TactilePane.java:460-469 | the clamped start is left alone when the node lies inside the span; otherwise it is the span's start or its end minus the size; a node no larger than the span ends up inside it |
| Geometry.AxisTarget | TactileAPI/src/nl/utwente/cs/caes/tactile/control/TactilePane.java:453-471 | without colliding borders the grab point lands exactly on the pointer; with them a node that fits stays inside the pane |
| Geometry.Grow | TactileAPI/src/nl/utwente/cs/caes/tactile/TouchPane.java:77-81 | the box is enlarged by the margin on every side and contains the original for a non-negative margin |
| Geometry.QuadrantsDisjoint | TactileAPI/src/nl/utwente/cs/caes/tactile/QuadTree.java:111-124 | the quadrants a split creates do not overlap: a point strictly inside one quadrant is strictly inside no other |
| QuadTreeSpec.ProximityBounds | TactileAPI/src/nl/utwente/cs/caes/tactile/QuadTree.java:230-236 | the bounds stick out by half the threshold on every side and contain the object's bounds |
| QuadTreeSpec.GetTreeNode | TactileAPI/src/nl/utwente/cs/caes/tactile/QuadTree.java:92-104 | bounds inside the node give the first child containing them, and the node itself when no child does; bounds outside the node, and a missing entry, give the parent |
| QuadTreeSpec.FirstFitIsQuadrantFit | TactileAPI/src/nl/utwente/cs/caes/tactile/QuadTree.java:95-99 | the child chosen is the first quadrant, in the order top-left, top-right, bottom-right, bottom-left, that contains the bounds |
| QuadTreeSpec.Descend | TactileAPI/src/nl/utwente/cs/caes/tactile/QuadTree.java:72-82 | an insertion descends to a node below the start in which no child fits the bounds, and that node still contains bounds the start contained |
| QuadTreeSpec.InsertTarget | TactileAPI/src/nl/utwente/cs/caes/tactile/QuadTree.java:71-83 | the node an insertion stores at is one where the bounds are correctly placed: inside its region with no child fitting, or the root |
| QuadTreeSpec.SplitChild | TactileAPI/src/nl/utwente/cs/caes/tactile/QuadTree.java:117-136 | a new child is a leaf one level down under the split node, and holds exactly the entries whose first fitting quadrant is its own |
| QuadTreeSpec.SplitShape | TactileAPI/src/nl/utwente/cs/caes/tactile/QuadTree.java:110-137 | splitting a leaf above the maximum depth keeps the arena a well-formed tree and only appends to it |
| QuadTreeSpec.SplitIndexed | TactileAPI/src/nl/utwente/cs/caes/tactile/QuadTree.java:126-136 | a split keeps every object, with the same bounds, and only ever moves one down into a new child |
| QuadTreeSpec.DepthBounded | TactileAPI/src/nl/utwente/cs/caes/tactile/QuadTree.java:77 | no node of a well-formed tree is deeper than the maximum depth |
| QuadTreeSpec.SiblingSubtreesDisjoint | TactileAPI/src/nl/utwente/cs/caes/tactile/QuadTree.java:116-124 | no node lies below two different children of one node |
| QuadTreeSpec.StoredBoundsStayPut | TactileAPI/src/nl/utwente/cs/caes/tactile/QuadTree.java:251 | for an object stored at a node, locating it again from there answers that node or its parent |
| QuadTreeSpec.RetrieveSubtree | TactileAPI/src/nl/utwente/cs/caes/tactile/QuadTree.java:250-264 | an object is retrieved at a node exactly when it is stored in that node's subtree |
| QuadTreeSpec.RetrieveAll | TactileAPI/src/nl/utwente/cs/caes/tactile/QuadTree.java:245-248 | retrieving from the root yields every indexed object |
| QuadTreeSpec.RetrieveNoDuplicates | TactileAPI/src/nl/utwente/cs/caes/tactile/QuadTree.java:253-262 | the four children's results and the node's own objects are pairwise disjoint, so the list repeats nothing |
| QuadTree.QuadTree.Threshold | TactileAPI/src/nl/utwente/cs/caes/tactile/QuadTree.java:197-207 | the threshold is positive and every node of the tree has the root's threshold |
| QuadTree.QuadTree.constructor | TactileAPI/src/nl/utwente/cs/caes/tactile/QuadTree.java:34-37 | a new tree is a single empty root covering the region, with the default threshold 25 |
| QuadTree.QuadTree.Insert | TactileAPI/src/nl/utwente/cs/caes/tactile/QuadTree.java:65-69 | the object is indexed with its proximity bounds under the current threshold; nothing else indexed changes; the arena only grows |
| QuadTree.QuadTree.Put | TactileAPI/src/nl/utwente/cs/caes/tactile/QuadTree.java:71-83 | the object is indexed with the given bounds, and every other object stays put or moves only into new nodes |
| QuadTree.QuadTree.Store | TactileAPI/src/nl/utwente/cs/caes/tactile/QuadTree.java:74 | the object is added to the map of the node its bounds are placed at |
| QuadTree.QuadTree.Split | TactileAPI/src/nl/utwente/cs/caes/tactile/QuadTree.java:110-137 | the tree becomes the split arena; what is indexed does not change |
| QuadTree.QuadTree.Remove | TactileAPI/src/nl/utwente/cs/caes/tactile/QuadTree.java:145-154 | the object is no longer indexed and nothing else changes (corrected, see Findings) |
| QuadTree.RemoveEverywhereIndexed | TactileAPI/src/nl/utwente/cs/caes/tactile/QuadTree.java:145-154 | deleting an object from every node keeps the tree indexed and removes exactly that object |
| QuadTree.QuadTree.Retrieve | TactileAPI/src/nl/utwente/cs/caes/tactile/QuadTree.java:245-264 | the objects retrieved for any object are all the objects indexed |
| QuadTree.QuadTree.Clear | TactileAPI/src/nl/utwente/cs/caes/tactile/QuadTree.java:48-57 | the tree becomes an empty root with no children and keeps its threshold (corrected, see Findings) |
| QuadTree.QuadTree.SetProximityThreshold | TactileAPI/src/nl/utwente/cs/caes/tactile/QuadTree.java:193-227 | a positive value becomes every node's threshold; any other value fails with an illegal argument and changes nothing; what is indexed is untouched |
| QuadTree.RethresholdIndexed | TactileAPI/src/nl/utwente/cs/caes/tactile/QuadTree.java:211-218 | setting the threshold on every node keeps the index and its stored bounds |
| QuadTree.QuadTree.Update | TactileAPI/src/nl/utwente/cs/caes/tactile/QuadTree.java:160-186 | the same objects stay indexed under the same threshold, each now with the proximity bounds of its bounds now |
| QuadTree.QuadTree.UpdateNode | TactileAPI/src/nl/utwente/cs/caes/tactile/QuadTree.java:161-179 | updating one node re-indexes exactly the node's objects whose bounds changed; the others stay put or move into new nodes; a node with no change is left alone |
| QuadTree.QuadTree.TakeOutChanged | TactileAPI/src/nl/utwente/cs/caes/tactile/QuadTree.java:161-175 | the pending objects are the node's objects whose proximity bounds changed, with their new bounds, and they leave the node |
| QuadTree.QuadTree.Reinsert | TactileAPI/src/nl/utwente/cs/caes/tactile/QuadTree.java:177-179 | the pending objects are indexed again with their new bounds and the rest stays put or moves into new nodes |
| QuadTree.Changed | TactileAPI/src/nl/utwente/cs/caes/tactile/QuadTree.java:165-174 | the changed objects are those whose recomputed proximity bounds differ from the stored ones; every other object's stored bounds are current |
| QuadTree.UpdateNodeProgress | TactileAPI/src/nl/utwente/cs/caes/tactile/QuadTree.java:160-186 | after a node is updated no object at or before it is stale, and fewer objects are stale unless nothing changed |
| QuadTreeAsWritten.SplitRootWithStraddlers | TactileAPI/src/nl/utwente/cs/caes/tactile/QuadTree.java:126-136 | a split root can hold ten objects that straddle its centre |
| QuadTreeAsWritten.SplitTestIgnoresChildren | TactileAPI/src/nl/utwente/cs/caes/tactile/QuadTree.java:77-78 | the split test as written fires on a node that already has children |
| QuadTreeAsWritten.SplitAgainOrphansChildren | TactileAPI/src/nl/utwente/cs/caes/tactile/QuadTree.java:116 | splitting a node again leaves its old children, and all they store, unreachable |
| QuadTreeAsWritten.RetrieveAsWritten | TactileAPI/src/nl/utwente/cs/caes/tactile/QuadTree.java:250-260 | retrieval as written fails only at a childless root with a null answer from the lookup; otherwise it agrees with the corrected retrieval |
| QuadTreeAsWritten.RetrieveAsWrittenFailsAtEdge | TactileAPI/src/nl/utwente/cs/caes/tactile/QuadTree.java:253-258 | an object near the pane's edge in a small tree makes retrieval as written fail |
| QuadTreeAsWritten.RemoveAsWritten | TactileAPI/src/nl/utwente/cs/caes/tactile/QuadTree.java:145-154 | removal as written fails exactly when the current proximity bounds leave the root, and otherwise deletes the object only where its current bounds would be inserted |
| QuadTreeAsWritten.RemoveAsWrittenFailsAtEdge | TactileAPI/src/nl/utwente/cs/caes/tactile/QuadTree.java:147-152 | removing an unmoved object at the edge fails |
| QuadTreeAsWritten.RemoveAsWrittenMissesMovedObject | TactileAPI/src/nl/utwente/cs/caes/tactile/QuadTree.java:146-150 | removing an object that moved into another quadrant leaves it in the tree |
| QuadTreeAsWritten.ClearAsWritten | TactileAPI/src/nl/utwente/cs/caes/tactile/QuadTree.java:48-57 | clearing as written empties the root's map and parent but keeps the four child slots, now null, of a root that had children |
| QuadTreeAsWritten.GetTreeNodeAfterClear | TactileAPI/src/nl/utwente/cs/caes/tactile/QuadTree.java:93-99 | after such a clear, locating bounds inside the root fails exactly when the slots are null |
| QuadTreeAsWritten.ClearAsWrittenBreaksInsert | TactileAPI/src/nl/utwente/cs/caes/tactile/QuadTree.java:48-57 | the first insertion after clearing a split tree fails |
| TouchPane.Classify | TactileAPI/src/nl/utwente/cs/caes/tactile/TouchPane.java:92-113 | a pair collides exactly when the bounds intersect, and is apart exactly when neither the bounds nor the grown bounds intersect |
| TouchPane.ClassifySymmetric | TactileAPI/src/nl/utwente/cs/caes/tactile/TouchPane.java:92-98 | the classification of a pair does not depend on its order |
| TouchPane.NearMeansProximityBoundsMeet | TactileAPI/src/nl/utwente/cs/caes/tactile/TouchPane.java:77-81 | the frame's grown bounds meet another group's bounds exactly when the two groups' proximity bounds in the index meet |
| TouchPane.Step | TactileAPI/src/nl/utwente/cs/caes/tactile/TouchPane.java:92-113 | after a visit the pair collides iff it was classified colliding or was colliding and is now apart; it is in proximity iff classified near or was in proximity and now collides |
| TouchPane.StepIdempotent | TactileAPI/src/nl/utwente/cs/caes/tactile/TouchPane.java:92-113 | visiting a pair twice with the same classification changes nothing more |
| TouchPane.StepNotExclusive | TactileAPI/src/nl/utwente/cs/caes/tactile/TouchPane.java:92-97 | a pair in proximity that starts to collide stays in proximity |
| TouchPane.StepProgress | TactileAPI/src/nl/utwente/cs/caes/tactile/TouchPane.java:84-114 | visiting one more ordered pair keeps every pair's link where the visits so far put it |
| TouchPane.FrameSettlesPair | TactileAPI/src/nl/utwente/cs/caes/tactile/TouchPane.java:74-115 | after a frame a visited pair's link is one step from its link before the frame, classified by its bounds now |
| TouchPane.FrameKeepsUnvisited | TactileAPI/src/nl/utwente/cs/caes/tactile/TouchPane.java:74-115 | a pair the frame did not visit keeps its link |
| TouchPane.TouchPane.constructor | TactileAPI/src/nl/utwente/cs/caes/tactile/TouchPane.java:64 | a new pane has no groups, no links and an empty index with the default threshold |
| TouchPane.TouchPane.Register | TactileAPI/src/nl/utwente/cs/caes/tactile/TouchPane.java:131-143 | registration succeeds iff the group was registered already or the pane is among its ancestors, and fails with an illegal argument otherwise; the group joins the set either way; only a newly registered group with the pane as ancestor is indexed |
| TouchPane.TouchPane.Deregister | TactileAPI/src/nl/utwente/cs/caes/tactile/TouchPane.java:152-155 | the group leaves the set and the index; nothing else indexed changes |
| TouchPane.TouchPane.Resize | TactileAPI/src/nl/utwente/cs/caes/tactile/TouchPane.java:35-61 | a fresh index holds every registered group with its proximity bounds now, under the default threshold |
| TouchPane.TouchPane.Frame | TactileAPI/src/nl/utwente/cs/caes/tactile/TouchPane.java:70-115 | the index is brought up to date; then every registered group is visited against every indexed group other than itself, and every link ends where those visits put it |
| TouchPane.TouchPane.VisitFrom | TactileAPI/src/nl/utwente/cs/caes/tactile/TouchPane.java:83-114 | one group's row of pairs is visited and the links record it |
| TouchPane.TouchPane.Visit | TactileAPI/src/nl/utwente/cs/caes/tactile/TouchPane.java:87-113 | a group paired with itself is skipped; any other pair takes one step |
| TouchPane.TouchPane.PairStep | TactileAPI/src/nl/utwente/cs/caes/tactile/TouchPane.java:92-113 | both orders of the pair take the step of its classification and no other pair changes |
| TactileApiPane.NextTouchId | TactileAPI/src/nl/utwente/cs/caes/tactile/control/TactilePane.java:364-406 | only a press of a free context or a release by the holder changes who holds the drag |
| TactileApiPane.HeldUntilReleased | TactileAPI/src/nl/utwente/cs/caes/tactile/control/TactilePane.java:367-380 | a pointer that holds a drag keeps it through any events other than its own release |
| TactileApiPane.PressHoldRelease | TactileAPI/src/nl/utwente/cs/caes/tactile/control/TactilePane.java:367-380 | a free context pressed by a pointer is held by it until that pointer's release frees it |
| TactileApiPane.DragFollowsPointer | TactileAPI/src/nl/utwente/cs/caes/tactile/control/TactilePane.java:440-471 | the layout position a move gives the node is its grabbed position plus the pointer's displacement since the press, as long as the clamp does not intervene |
| TactileApiPane.Node.constructor | TactileAPI/src/nl/utwente/cs/caes/tactile/control/TactilePane.java:71-199 | a node starts with every attached property at its default: not in use, no anchor, zero vector, going to the front on contact, draggable |
| TactileApiPane.DragContext.constructor | TactileAPI/src/nl/utwente/cs/caes/tactile/control/TactilePane.java:344-347 | a new context belongs to its node and is free |
| TactileApiPane.TactilePane.constructor | TactileAPI/src/nl/utwente/cs/caes/tactile/control/TactilePane.java:509-513 | borders do not collide by default, and nothing has been brought to the front |
| TactileApiPane.Node.SetDraggable | TactileAPI/src/nl/utwente/cs/caes/tactile/control/TactilePane.java:195-211 | the property takes the value, and a node made not draggable is no longer in use |
| TactileApiPane.TactilePane.HandleTouch | TactileAPI/src/nl/utwente/cs/caes/tactile/control/TactilePane.java:364-384 | press, move and release events are consumed, others are not; the holder changes as the drag state machine says; the node is pressed, moved or released when the guard holds and is otherwise untouched |
| TactileApiPane.TactilePane.HandleMouse | TactileAPI/src/nl/utwente/cs/caes/tactile/control/TactilePane.java:358-406 | a mouse event synthesized from touch and aimed at a draggable node is consumed by the filter and changes nothing; any other event is handled as a touch, with the mouse as the pointer |
| TactileApiPane.TactilePane.HandlePointer | TactileAPI/src/nl/utwente/cs/caes/tactile/control/TactilePane.java:364-406 | the dispatch shared by both handlers: press, move and release are consumed, others are not; the holder changes as the drag state machine says; the node is pressed, moved or released when the guard holds and is otherwise untouched |
| TactileApiPane.TactilePane.Press | TactileAPI/src/nl/utwente/cs/caes/tactile/control/TactilePane.java:431-447 | a draggable node loses its anchor, is in use, stops, records the grab offset and comes to the front if set to; a node that is not draggable is untouched |
| TactileApiPane.TactilePane.Move | TactileAPI/src/nl/utwente/cs/caes/tactile/control/TactilePane.java:449-473 | a draggable node without an anchor has its layout position set to the pointer minus the grab offset, clamped to the pane when borders collide, so its bounds in the parent sit its translation beyond that; otherwise it stays |
| TactileApiPane.TactilePane.Release | TactileAPI/src/nl/utwente/cs/caes/tactile/control/TactilePane.java:475-478 | the node is no longer in use |
| TactileApiPane.Registered | TactileAPI/src/nl/utwente/cs/caes/tactile/control/TactilePane.java:541-550 | every listed node is tracked by the pane and every other node keeps its tracker |
| TactileApiPane.Registry.constructor | TactileAPI/src/nl/utwente/cs/caes/tactile/control/TactilePane.java:281-283 | no node has a tracker until it is registered, and the physics tracks nothing |
| TactileApiPane.Registry.Register | TactileAPI/src/nl/utwente/cs/caes/tactile/control/TactilePane.java:541-550 | the trackers become the registration of the listed nodes with the pane, and the physics tracks exactly the pairs the trackers name |
| TactileApiPane.Registry.Track | TactileAPI/src/nl/utwente/cs/caes/tactile/control/TactilePane.java:543-548 | a node leaves its old pane's physics and is tracked by the new pane |
| TactileApiPane.Registry.Deregister | TactileAPI/src/nl/utwente/cs/caes/tactile/control/TactilePane.java:552-557 | exactly the listed nodes tracked by this pane lose their tracker, and the physics stays consistent with the trackers (corrected, see Findings) |
| TactileApiPane.Registry.SetTracker | TactileAPI/src/nl/utwente/cs/caes/tactile/control/TactilePane.java:267-276 | a pane registers the node with it; no pane deregisters it from its current pane |
| TactileApiPane.DeregisterAsWritten | TactileAPI/src/nl/utwente/cs/caes/tactile/control/TactilePane.java:552-557 | deregistration as written clears the tracker of every listed node and stops tracking it on the calling pane only |
| TactileApiPane.DeregisterElsewhereLeavesTracked | TactileAPI/src/nl/utwente/cs/caes/tactile/control/TactilePane.java:552-557 | deregistering a node at a pane it is not registered with clears its tracker while the other pane's physics keeps tracking it |
| TactileApiPane.DeregisterAgreesAtOwnPane | TactileAPI/src/nl/utwente/cs/caes/tactile/control/TactilePane.java:552-557 | for nodes registered with the calling pane, the code as written and the corrected deregistration agree |
| TactileFxPane.AddBond | tactilefx/src/main/java/nl/utwente/ewi/caes/tactilefx/control/TactilePane.java:403-423 | the new bond is in the set; it replaces any bond to the same target; bonds to other targets stay; at most one bond per target is preserved |
| TactileFxPane.BondSet.Add | tactilefx/src/main/java/nl/utwente/ewi/caes/tactilefx/control/TactilePane.java:412-418 | the set becomes the one with the bond added or replaced, keeps one bond per target, and the call answers true |
| TactileFxPane.BindOutcome | tactilefx/src/main/java/nl/utwente/ewi/caes/tactilefx/control/TactilePane.java:1476-1483 | a bind succeeds iff the pointer already holds the drag, or it is a press whose target is the draggable or below it; otherwise it fails with an illegal argument |
| TactileFxPane.DragContext.Bind | tactilefx/src/main/java/nl/utwente/ewi/caes/tactilefx/control/TactilePane.java:1484-1500 | the outcome is as documented; on taking over, the pointer holds the drag and the node is pressed at the given point; otherwise nothing changes (corrected, see Findings) |
| TactileFxPane.BindAsWrittenRejectsDraggable | tactilefx/src/main/java/nl/utwente/ewi/caes/tactilefx/control/TactilePane.java:1487-1493 | a press on the draggable itself is rejected as written although the documentation accepts it |
| TactileFxPane.BindAgreesBelowDraggable | tactilefx/src/main/java/nl/utwente/ewi/caes/tactilefx/control/TactilePane.java:1487-1493 | for any target other than the draggable the walk as written and the documented rule agree |
| TactileFxPane.DragContext.constructor | tactilefx/src/main/java/nl/utwente/ewi/caes/tactilefx/control/TactilePane.java:1441-1444 | a new context belongs to its node and is free |
| TactileFxPane.Node.SetDraggable | tactilefx/src/main/java/nl/utwente/ewi/caes/tactilefx/control/TactilePane.java:309-320 | the property takes the value, and a node made not draggable is no longer in use |
| TactileFxPane.TactilePane.constructor | tactilefx/src/main/java/nl/utwente/ewi/caes/tactilefx/control/TactilePane.java:1164-1265 | friction 0.95, bounce 0.70, slide 1.6 and vector threshold 1.6, all in range |
| TactileFxPane.TactilePane.SetFriction | tactilefx/src/main/java/nl/utwente/ewi/caes/tactilefx/control/TactilePane.java:1164-1177 | a value in [0, 1] is set, any other fails with an illegal argument and keeps the old value; the settings stay in range |
| TactileFxPane.TactilePane.SetBounce | tactilefx/src/main/java/nl/utwente/ewi/caes/tactilefx/control/TactilePane.java:1194-1207 | a value in [0, 1] is set, any other fails with an illegal argument and keeps the old value |
| TactileFxPane.TactilePane.SetSlide | tactilefx/src/main/java/nl/utwente/ewi/caes/tactilefx/control/TactilePane.java:1224-1237 | a non-negative value is set, a negative one fails with an illegal argument and keeps the old value |
| TactileFxPane.TactilePane.SetVectorThreshold | tactilefx/src/main/java/nl/utwente/ewi/caes/tactilefx/control/TactilePane.java:1252-1265 | a non-negative value is set, a negative one fails with an illegal argument and keeps the old value |
| TactileFxPane.TactilePane.HandleTouch | tactilefx/src/main/java/nl/utwente/ewi/caes/tactilefx/control/TactilePane.java:873-896 | a node that is not draggable ignores the event; otherwise only a press of a free context or a move or release by the holder is acted on and consumed, with the press, move or release effect, and anything else changes nothing |
| TactileFxPane.TactilePane.HandleMouse | tactilefx/src/main/java/nl/utwente/ewi/caes/tactilefx/control/TactilePane.java:898-922 | the same for the mouse, which also ignores events synthesized from touch |
| TactileFxPane.TactilePane.HandlePointer | tactilefx/src/main/java/nl/utwente/ewi/caes/tactilefx/control/TactilePane.java:875-920 | the dispatch shared by both handlers: only a press of a free context or a move or release by the holder is acted on and consumed, with the press, move or release effect; anything else changes nothing |
| TactileFxPane.TactilePane.Press | tactilefx/src/main/java/nl/utwente/ewi/caes/tactilefx/control/TactilePane.java:957-969 | the node loses its anchor, is in use, stops, records the grab point in its own coordinates and comes to the front if set to |
| TactileFxPane.TactilePane.Move | tactilefx/src/main/java/nl/utwente/ewi/caes/tactilefx/control/TactilePane.java:971-1001 | a node without an anchor gets the bounds in parent that put its grab point on the pointer, clamped to the pane when borders collide; an anchored node stays |
| TactileFxPane.DraggedBoundsInPane | tactilefx/src/main/java/nl/utwente/ewi/caes/tactilefx/control/TactilePane.java:979-998 | with colliding borders a dragged node that fits stays in the pane and one already inside follows the pointer exactly; without them the grab point is under the pointer |
| TactileFxPane.TactilePane.Release | tactilefx/src/main/java/nl/utwente/ewi/caes/tactilefx/control/TactilePane.java:1003-1005 | the node is no longer in use |
| TactileFxPane.LeftEventsExactly | tactilefx/src/main/java/nl/utwente/ewi/caes/tactilefx/control/TactilePane.java:830-840 | the events fired name each partner and the node both ways, and nothing else |
| TactileFxPane.TactilePane.FireLeft | tactilefx/src/main/java/nl/utwente/ewi/caes/tactilefx/control/TactilePane.java:830-833 | the partners are visited once each, in some order, and for each the two events are fired in that order |
| TactileFxPane.TactilePane.Deactivate | tactilefx/src/main/java/nl/utwente/ewi/caes/tactilefx/control/TactilePane.java:826-845 | the area-left events for every colliding partner, then the proximity-left events for every partner in proximity, are fired; the node's two sets are emptied and its tracker cleared |

## Left out

- Printing (`System.out.println` in the frame) and the JavaFX listener, timer and CSS plumbing are not modelled.
- The physics timer and its `startTracking` and `stopTracking` are modelled only as the set of pairs it tracks. Starting adds the pair and stopping removes it.
- Floating point is modelled by the reals. A `NaN` passed to a range setter is accepted by the code and cannot arise here.
- Scene-to-local conversion is an identity: the pane's coordinates are the scene's.
- In the older pane, a node's layout bounds start at its layout position, and its bounds in the parent are those shifted by its translation. Scaling, rotation and other transforms are not modelled.
- In the later pane, a node's transforms other than its translation are not modelled.
- `toFront()` and the events the later pane fires are entries of a log, not calls into the scene graph.
- The order of a hash set's iteration is left open: loops choose their next element nondeterministically, and the frame's result is stated for any order.
- In the later pane, the branch that adds a node to the active nodes is not modelled. The pane's spatial index is a separate class and is not modelled.
- When a node leaves the later pane's active nodes, the listener calls `insert` on the spatial index with that node (tactilefx/src/main/java/nl/utwente/ewi/caes/tactilefx/control/TactilePane.java:828). This re-indexes a node that is leaving instead of removing it. The call is not modelled, because the spatial index is not.
- A `Bond`'s identity is modelled by an integer field.
- QuadTree.QuadTree.Insert: requires that the object is not indexed already. Every caller in the model meets this. The code would keep a second entry in another node.
- QuadTree.QuadTree.Update: the order in which nodes are updated and objects re-inserted follows the arena, not the child order of the recursion. The resulting index is stated, not the node each object ends up in.
- TouchPane.TouchPane.Register: a group whose ancestors do not include the pane stays in the set, unindexed, as the code leaves it. A later resize indexes it.
- Removal from the quadtree looks the object up by its current bounds, recomputed at the call, not by the bounds it was stored under.
- Deactivating a node in the later pane leaves its partners' collision and proximity sets untouched.
- A quadtree node splits once it holds ten objects.

## Findings

| source | as written | input that shows it | evidently intended | confidence | as-written member | corrected member |
|---|---|---|---|---|---|---|
| TactileAPI/src/nl/utwente/cs/caes/tactile/QuadTree.java:77 | the split test ignores whether the node already has children, and `split()` replaces the children array | a split root that keeps ten objects straddling its centre; the next insertion at the root splits it again | split only a leaf | not executed | QuadTreeAsWritten.SplitAgainOrphansChildren | QuadTree.QuadTree.Put |
| TactileAPI/src/nl/utwente/cs/caes/tactile/QuadTree.java:258 | at a childless root whose lookup answers `null`, the code reads the level of `null` | one object near the edge of a 100 by 100 pane, so its proximity bounds leave the root | return the root's objects | not executed | QuadTreeAsWritten.RetrieveAsWrittenFailsAtEdge | QuadTree.QuadTree.Retrieve |
| TactileAPI/src/nl/utwente/cs/caes/tactile/QuadTree.java:152 | when the current proximity bounds leave the root, `getTreeNode` answers the root's `null` parent, which is then called | removing that unmoved edge object | remove the object | not executed | QuadTreeAsWritten.RemoveAsWrittenFailsAtEdge | QuadTree.QuadTree.Remove |
| TactileAPI/src/nl/utwente/cs/caes/tactile/QuadTree.java:146-150 | removal looks for the object where its current bounds would go, not where it is stored | object 7 indexed in the top-left quarter, moved to the bottom-right one before the call | remove the object wherever it is stored | not executed | QuadTreeAsWritten.RemoveAsWrittenMissesMovedObject | QuadTree.QuadTree.Remove |
| TactileAPI/src/nl/utwente/cs/caes/tactile/QuadTree.java:49-53 | clearing sets the four child slots to `null` but keeps the array, so the next `getTreeNode` dereferences `null` | clear a split tree, then insert an object inside the pane | drop the children array | not executed | QuadTreeAsWritten.ClearAsWrittenBreaksInsert | QuadTree.QuadTree.Clear |
| TactileAPI/src/nl/utwente/cs/caes/tactile/control/TactilePane.java:552-557 | deregistration clears the tracker of every listed node, whichever pane tracks it, but stops tracking only on the calling pane | node 5 registered with pane 2, deregistered at pane 1 | deregister only nodes this pane tracks, as the documentation of the tracker at lines 278-283 implies | not executed | TactileApiPane.DeregisterElsewhereLeavesTracked | TactileApiPane.Registry.Deregister |
| tactilefx/src/main/java/nl/utwente/ewi/caes/tactilefx/control/TactilePane.java:1488 | the walk stops at a node whose parent is the draggable, so the draggable itself as the target runs off the top of the scene graph | a touch press whose target is the draggable node 3 | accept the draggable as the target, as the documentation at lines 1480-1482 says | not executed | TactileFxPane.BindAsWrittenRejectsDraggable | TactileFxPane.DragContext.Bind |

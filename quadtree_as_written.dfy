/** Four places where the spatial index, as written, does not do what its documentation and its
    callers evidently expect. Each is modelled here as the code does it, with an input that shows
    the difference; the corrected behaviour is what the class `QuadTree.QuadTree` implements. */
module QuadTreeAsWritten {
  import opened Geometry
  import opened Outcomes
  import opened QuadTreeSpec

  /** The pane of the examples below: a 100 by 100 square at the origin. */
  const Pane: Rect := Rect(0.0, 0.0, 100.0, 100.0)

  // ---------------------------------------------------------------------------------------------
  // Splitting a node that already has children

  /** The split test of the private `insert` as written: a node splits once its map holds
      `MaxObjects` entries and it is above `MaxDepth`, whether or not it has children already. */
  predicate SplitsAsWritten(node: TreeNode) {
    |node.entries| >= MaxObjects && node.level < MaxDepth
  }

  /** A root that was split before and keeps ten objects straddling its centre. */
  function SplitRootWithStraddlers(): (node: TreeNode)
    ensures node.firstChild.Some? && |node.entries| == MaxObjects
  {
    var straddler := ProximityBounds(Rect(45.0, 45.0, 10.0, 10.0), DefaultThreshold);
    var m := map[0 := straddler, 1 := straddler, 2 := straddler, 3 := straddler, 4 := straddler,
                 5 := straddler, 6 := straddler, 7 := straddler, 8 := straddler, 9 := straddler];
    assert m.Keys == {0, 1, 2, 3, 4, 5, 6, 7, 8, 9};
    TreeNode(Pane, 0, None, Some(1), m, DefaultThreshold)
  }

  /** Objects that straddle the centre stay at the root when it splits, so a root with children
      can reach ten objects, and the test as written then splits it again. */
  lemma SplitTestIgnoresChildren()
    ensures SplitsAsWritten(SplitRootWithStraddlers())
    ensures SplitRootWithStraddlers().firstChild.Some?
  {
  }

  /** Splitting node `t` again, as line 116 does, replaces its children: afterwards no node of the
      arena refers to the old children, so whatever they and their subtrees stored is no longer
      reachable from the root, although it still sits in the orphaned nodes. */
  lemma SplitAgainOrphansChildren(ns: seq<TreeNode>, t: nat)
    requires WellFormed(ns) && t < |ns| && ns[t].firstChild.Some?
    ensures var f := ns[t].firstChild.value; var ns2 := SplitSpec(ns, t);
      f + 4 <= |ns| &&
      (forall i :: 0 <= i < |ns2| ==> ns2[i].firstChild != Some(f)) &&
      (forall c :: f <= c < f + 4 ==> ns2[c] == ns[c])
  {
    var f := ns[t].firstChild.value;
    var ns2 := SplitSpec(ns, t);
    assert LinkedToChildren(ns, t) && ChildLinked(ns, t, 0);
    forall i | 0 <= i < |ns2|
      ensures ns2[i].firstChild != Some(f)
    {
      if i < |ns| && ns[i].firstChild == Some(f) {
        OneParentPerChildren(ns, i, t);
      } else if i >= |ns| {
        assert ns2[i] == SplitChild(ns[t], t, i - |ns|);
      }
    }
  }

  /** In a well-formed arena two nodes with the same children are the same node, since the
      children name one parent. */
  lemma OneParentPerChildren(ns: seq<TreeNode>, i: nat, j: nat)
    requires WellFormed(ns) && i < |ns| && j < |ns| && ns[i].firstChild.Some? && ns[i].firstChild == ns[j].firstChild
    ensures i == j
  {
    assert LinkedToChildren(ns, i) && ChildLinked(ns, i, 0);
    assert LinkedToChildren(ns, j) && ChildLinked(ns, j, 0);
  }

  // ---------------------------------------------------------------------------------------------
  // Retrieving at a childless root

  /** `retrieve(object)` as written. Only the root has no parent, so only there can `getTreeNode`
      answer `null`; at a root without children the code then reads the level of that `null` and
      fails. Everywhere else it reports what `QuadTreeSpec.Retrieve` reports. */
  function RetrieveAsWritten(ns: seq<TreeNode>, n: nat, o: ObjectId): (r: Result<set<ObjectId>>)
    requires WellFormed(ns) && n < |ns|
    ensures r.Err? ==> n == 0 && ns[0].firstChild.None? && r.fault == NullPointer
    ensures r.Ok? ==> r.value == Retrieve(ns, n, o)
  {
    assert n > 0 ==> LinkedToParent(ns, n);
    var g := GetTreeNode(ns, n, Lookup(ns[n].entries, o));
    if g.None? && ns[n].firstChild.None? then Err(NullPointer) else Ok(Retrieve(ns, n, o))
  }

  /** An object near the edge of the pane, whose proximity bounds stick out of it. */
  const EdgeBounds: Rect := ProximityBounds(Rect(2.0, 40.0, 10.0, 10.0), DefaultThreshold)

  /** The tree of a pane holding only that object: `insert` leaves it at the root. */
  function EdgeTree(): (ns: seq<TreeNode>)
    ensures WellFormed(ns) && |ns| == 1
  {
    [EmptyRoot(Pane, DefaultThreshold).(entries := map[7 := EdgeBounds])]
  }

  /** With fewer than ten objects and one of them sticking out of the pane, `retrieve` as written
      fails for that object, where the corrected retrieval reports the object itself. */
  lemma RetrieveAsWrittenFailsAtEdge()
    ensures InsertTarget([EmptyRoot(Pane, DefaultThreshold)], 0, EdgeBounds) == 0
    ensures RetrieveAsWritten(EdgeTree(), 0, 7) == Err(NullPointer)
    ensures Retrieve(EdgeTree(), 0, 7) == {7}
  {
    assert !Contains(Pane, EdgeBounds);
  }

  // ---------------------------------------------------------------------------------------------
  // Removing by the current bounds

  /** `remove(object)` as written, called on the root: it recomputes the object's proximity bounds
      from its bounds `current` now, and deletes the object from the node an insertion with those
      bounds would choose, and from no other node. When the root does not contain those bounds,
      `getTreeNode` answers the root's `null` parent and the code fails. */
  function RemoveAsWritten(ns: seq<TreeNode>, o: ObjectId, current: Rect): (r: Result<seq<TreeNode>>)
    requires WellFormed(ns)
    ensures var b := ProximityBounds(current, ns[0].threshold);
      (r.Err? <==> !Contains(ns[0].region, b)) && (r.Err? ==> r.fault == NullPointer)
    ensures r.Ok? ==>
      var t := InsertTarget(ns, 0, ProximityBounds(current, ns[0].threshold));
      |r.value| == |ns| && r.value[t].entries == ns[t].entries - {o} &&
      forall i :: 0 <= i < |ns| && i != t ==> r.value[i] == ns[i]
  {
    var b := ProximityBounds(current, ns[0].threshold);
    if !Contains(ns[0].region, b) then Err(NullPointer)
    else
      var t := Descend(ns, 0, b);
      Ok(ns[t := ns[t].(entries := ns[t].entries - {o})])
  }

  /** The object at the edge has not moved, yet removing it fails. */
  lemma RemoveAsWrittenFailsAtEdge()
    ensures RemoveAsWritten(EdgeTree(), 7, Rect(2.0, 40.0, 10.0, 10.0)) == Err(NullPointer)
  {
    assert !Contains(Pane, EdgeBounds);
  }

  /** A split pane whose top-left child stores object 7. */
  function MovedTree(): (ns: seq<TreeNode>)
    ensures WellFormed(ns) && |ns| == 5
  {
    var root := EmptyRoot(Pane, DefaultThreshold).(entries := map[7 := ProximityBounds(Rect(20.0, 20.0, 10.0, 10.0), DefaultThreshold)]);
    SplitShape([root], 0);
    SplitSpec([root], 0)
  }

  /** Object 7 was indexed in the top-left quarter and has since moved to the bottom-right one;
      removing it as written deletes it from the bottom-right child, so it stays in the tree. */
  lemma RemoveAsWrittenMissesMovedObject()
    ensures var r := RemoveAsWritten(MovedTree(), 7, Rect(70.0, 70.0, 10.0, 10.0));
      r.Ok? && 7 in MovedTree()[1].entries && 7 in r.value[1].entries
  {
    var ns := MovedTree();
    var b := ProximityBounds(Rect(70.0, 70.0, 10.0, 10.0), DefaultThreshold);
    assert QuadrantFit(Pane, ProximityBounds(Rect(20.0, 20.0, 10.0, 10.0), DefaultThreshold)) == Some(0);
    assert FirstFit(ns, 0, b) == Some(3);
    assert FirstFit(ns, 3, b).None?;
  }

  // ---------------------------------------------------------------------------------------------
  // Clearing a root with children

  /** The root after `clear()` as written: its map is empty and it has no parent, but a root that
      had children keeps its array of four child slots, now all `null`. */
  datatype ClearedRoot = ClearedRoot(root: TreeNode, nullChildren: bool)

  function ClearAsWritten(ns: seq<TreeNode>): (c: ClearedRoot)
    requires |ns| > 0
    ensures c.root.entries == map[] && c.root.parent.None? && c.root.firstChild.None?
    ensures c.root.region == ns[0].region && c.root.threshold == ns[0].threshold
    ensures c.nullChildren <==> ns[0].firstChild.Some?
  {
    ClearedRoot(ns[0].(entries := map[], parent := None, firstChild := None), ns[0].firstChild.Some?)
  }

  /** `getTreeNode` on a cleared root, as written: bounds inside the root make it read the region
      of child 0, which fails when the slots are `null`. */
  function GetTreeNodeAfterClear(c: ClearedRoot, b: Rect): (r: Result<Option<nat>>)
    ensures r.Err? <==> c.nullChildren && Contains(c.root.region, b)
    ensures r.Ok? ==> r.value == (if Contains(c.root.region, b) then Some(0) else None)
  {
    if !Contains(c.root.region, b) then Ok(None)
    else if c.nullChildren then Err(NullPointer)
    else Ok(Some(0))
  }

  /** After clearing a tree whose root was split, the next insertion of an object inside the
      pane fails. */
  lemma ClearAsWrittenBreaksInsert()
    ensures GetTreeNodeAfterClear(ClearAsWritten(MovedTree()), ProximityBounds(Rect(20.0, 20.0, 10.0, 10.0), DefaultThreshold))
      == Err(NullPointer)
  {
  }
}

/** The quadtree object of the touch library: a class whose state is the arena of nodes described
    in `QuadTreeSpec`. Each method changes the arena the way the original recursive methods change
    the linked nodes; the ghost map `loc` records which node stores each object. */
module QuadTree {
  import opened Geometry
  import opened Outcomes
  import opened QuadTreeSpec

  /** The arena with every node's threshold set to `v`. */
  function Rethreshold(ns: seq<TreeNode>, v: real): (ns2: seq<TreeNode>)
    ensures |ns2| == |ns|
  {
    seq(|ns|, i requires 0 <= i < |ns| => ns[i].(threshold := v))
  }

  /** Giving every node the same new positive threshold keeps the tree indexed with the same
      contents, since where an object may be stored depends only on the regions. */
  lemma RethresholdIndexed(ns: seq<TreeNode>, loc: map<ObjectId, nat>, v: real)
    requires Indexed(ns, loc) && v > 0.0
    ensures Indexed(Rethreshold(ns, v), loc) && Stored(Rethreshold(ns, v), loc) == Stored(ns, loc)
    ensures forall i :: 0 <= i < |ns| ==> Rethreshold(ns, v)[i].threshold == v
  {
    var ns2 := Rethreshold(ns, v);
    forall i | 0 < i < |ns2|
      ensures LinkedToParent(ns2, i)
    {
      assert LinkedToParent(ns, i);
    }
    forall i | 0 <= i < |ns2|
      ensures LinkedToChildren(ns2, i)
    {
      assert LinkedToChildren(ns, i);
      if ns[i].firstChild.Some? {
        forall k | 0 <= k < 4
          ensures ChildLinked(ns2, i, k)
        {
          assert ChildLinked(ns, i, k);
        }
      }
    }
    forall i, o | 0 <= i < |ns2|
      ensures EntryPlaced(ns2, i, o)
    {
      assert EntryPlaced(ns, i, o);
      if ns[i].firstChild.Some? {
        assert LinkedToChildren(ns, i);
      }
    }
    var m2, m := Stored(ns2, loc), Stored(ns, loc);
    assert m2.Keys == m.Keys;
    assert forall o :: o in m ==> m2[o] == m[o];
  }

  /** The arena with `o` dropped from every node. */
  function RemoveEverywhere(ns: seq<TreeNode>, o: ObjectId): (ns2: seq<TreeNode>)
    ensures |ns2| == |ns|
  {
    seq(|ns|, i requires 0 <= i < |ns| => ns[i].(entries := ns[i].entries - {o}))
  }

  /** Dropping an object from every node of an indexed tree forgets exactly that object and keeps
      every other object where it was. */
  lemma RemoveEverywhereIndexed(ns: seq<TreeNode>, loc: map<ObjectId, nat>, o: ObjectId)
    requires Indexed(ns, loc)
    ensures Indexed(RemoveEverywhere(ns, o), loc - {o})
    ensures Stored(RemoveEverywhere(ns, o), loc - {o}) == Stored(ns, loc) - {o}
  {
    var ns2 := RemoveEverywhere(ns, o);
    if o in loc {
      DeleteIndexed(ns, loc, o);
      var ns3 := ns[loc[o] := ns[loc[o]].(entries := ns[loc[o]].entries - {o})];
      forall i | 0 <= i < |ns|
        ensures ns2[i] == ns3[i]
      {
        if i != loc[o] {
          assert ns[i].entries - {o} == ns[i].entries;
        }
      }
      assert ns2 == ns3;
    } else {
      forall i | 0 <= i < |ns|
        ensures ns2[i] == ns[i]
      {
        assert ns[i].entries - {o} == ns[i].entries;
      }
      assert ns2 == ns;
      assert loc - {o} == loc;
      assert Stored(ns, loc) - {o} == Stored(ns, loc);
    }
  }

  /** The entries of a leaf being split that are still at the leaf while the entries in `todo`
      remain to be considered: those in `todo` and those that fit no quadrant. */
  function StayMap(node: TreeNode, todo: set<ObjectId>): map<ObjectId, Rect> {
    map o | o in node.entries && (o in todo || QuadrantFit(node.region, node.entries[o]).None?) :: node.entries[o]
  }

  /** The entries already moved to child `k` of a leaf being split while the entries in `todo`
      remain to be considered. */
  function MovedMap(node: TreeNode, k: nat, todo: set<ObjectId>): map<ObjectId, Rect> {
    map o | o in node.entries && o !in todo && QuadrantFit(node.region, node.entries[o]) == Some(k) :: node.entries[o]
  }

  /** The entries already moved to each of the four children. */
  function MovedSeq(node: TreeNode, todo: set<ObjectId>): (ms: seq<map<ObjectId, Rect>>)
    ensures |ms| == 4
  {
    [MovedMap(node, 0, todo), MovedMap(node, 1, todo), MovedMap(node, 2, todo), MovedMap(node, 3, todo)]
  }

  /** One turn of the loop of `split()`: entry `o` stays at the leaf when no quadrant fits it, and
      otherwise leaves the leaf for the child of the first quadrant that fits it. */
  lemma SplitStep(node: TreeNode, todo: set<ObjectId>, o: ObjectId)
    requires o in todo && todo <= node.entries.Keys
    ensures var q := QuadrantFit(node.region, node.entries[o]);
      StayMap(node, todo - {o}) == if q.None? then StayMap(node, todo) else StayMap(node, todo) - {o}
    ensures var q := QuadrantFit(node.region, node.entries[o]);
      var ms := MovedSeq(node, todo);
      MovedSeq(node, todo - {o}) == if q.None? then ms else ms[q.value := ms[q.value][o := node.entries[o]]]
  {
    var q := QuadrantFit(node.region, node.entries[o]);
    if q.None? {
      assert StayMap(node, todo - {o}) == StayMap(node, todo);
    } else {
      assert StayMap(node, todo - {o}) == StayMap(node, todo) - {o};
    }
    forall k | 0 <= k < 4
      ensures MovedMap(node, k, todo - {o}) ==
        if q == Some(k) then MovedMap(node, k, todo)[o := node.entries[o]] else MovedMap(node, k, todo)
    {
      if q == Some(k) {
        assert MovedMap(node, k, todo - {o}) == MovedMap(node, k, todo)[o := node.entries[o]];
      } else {
        assert MovedMap(node, k, todo - {o}) == MovedMap(node, k, todo);
      }
    }
  }

  /** Before the loop of `split()` every entry is at the leaf; after it the maps are those of the
      split arena. */
  lemma SplitEnds(ns: seq<TreeNode>, t: nat)
    requires t < |ns|
    ensures StayMap(ns[t], ns[t].entries.Keys) == ns[t].entries
    ensures MovedSeq(ns[t], ns[t].entries.Keys) == [map[], map[], map[], map[]]
    ensures SplitSpec(ns, t) ==
      ns[t := ns[t].(firstChild := Some(|ns|), entries := StayMap(ns[t], {}))] +
        [SplitChild(ns[t], t, 0).(entries := MovedMap(ns[t], 0, {})),
         SplitChild(ns[t], t, 1).(entries := MovedMap(ns[t], 1, {})),
         SplitChild(ns[t], t, 2).(entries := MovedMap(ns[t], 2, {})),
         SplitChild(ns[t], t, 3).(entries := MovedMap(ns[t], 3, {}))]
  {
    var node := ns[t];
    assert StayMap(node, node.entries.Keys) == node.entries;
    forall k | 0 <= k < 4
      ensures MovedMap(node, k, node.entries.Keys) == map[]
    {
      assert MovedMap(node, k, node.entries.Keys).Keys == {};
    }
    forall k | 0 <= k < 4
      ensures SplitChild(node, t, k).(entries := MovedMap(node, k, {})) == SplitChild(node, t, k)
    {
      assert MovedMap(node, k, {}) == SplitChild(node, t, k).entries;
    }
    var stay := map o | o in node.entries && QuadrantFit(node.region, node.entries[o]).None? :: node.entries[o];
    assert StayMap(node, {}) == stay;
  }

  /** The objects of the map `e` of a node, apart from those in `todo`, whose stored proximity
      bounds differ from those of their bounds in the scene, `boundsOf`, each with its new
      proximity bounds. */
  function Changed(e: map<ObjectId, Rect>, todo: set<ObjectId>, boundsOf: ObjectId -> Rect, th: real)
    : (c: map<ObjectId, Rect>)
    ensures c.Keys <= e.Keys && c.Keys !! todo
    ensures forall x :: x in c ==> c[x] == ProximityBounds(boundsOf(x), th) && c[x] != e[x]
    ensures forall x :: x in e && x !in todo && x !in c ==> e[x] == ProximityBounds(boundsOf(x), th)
  {
    map x | x in e && x !in todo && e[x] != ProximityBounds(boundsOf(x), th) :: ProximityBounds(boundsOf(x), th)
  }

  /** Node `i` of the arena with the objects `p` taken out. */
  function TakeOut(ns: seq<TreeNode>, i: nat, p: set<ObjectId>): (ns2: seq<TreeNode>)
    requires i < |ns|
    ensures |ns2| == |ns|
  {
    ns[i := ns[i].(entries := ns[i].entries - p)]
  }

  /** Taking nothing out leaves the arena and the locations as they were. */
  lemma TakeOutNothing(ns: seq<TreeNode>, loc: map<ObjectId, nat>, i: nat)
    requires i < |ns|
    ensures TakeOut(ns, i, {}) == ns && loc - {} == loc
  {
    assert ns[i].entries - {} == ns[i].entries;
    assert ns[i].(entries := ns[i].entries) == ns[i];
    assert loc - {} == loc;
  }

  /** One turn of the first loop of `update()` on a node with map `e`: object `o` is taken out
      and remembered with its new proximity bounds exactly when these differ from its stored ones. */
  lemma ChangedStep(e: map<ObjectId, Rect>, todo: set<ObjectId>, o: ObjectId, boundsOf: ObjectId -> Rect, th: real)
    requires o in e && o in todo
    ensures var c := Changed(e, todo, boundsOf, th);
      var b := ProximityBounds(boundsOf(o), th);
      Changed(e, todo - {o}, boundsOf, th) == (if b != e[o] then c[o := b] else c) &&
      (b != e[o] ==> (e - c.Keys) - {o} == e - c[o := b].Keys)
  {
    var c := Changed(e, todo, boundsOf, th);
    var b := ProximityBounds(boundsOf(o), th);
    if b != e[o] {
      assert Changed(e, todo - {o}, boundsOf, th) == c[o := b];
      assert (e - c.Keys) - {o} == e - c[o := b].Keys;
    } else {
      assert Changed(e, todo - {o}, boundsOf, th) == c;
    }
  }

  /** Before the first loop of `update()` on a node nothing has been found. */
  lemma ChangedNone(e: map<ObjectId, Rect>, boundsOf: ObjectId -> Rect, th: real)
    ensures Changed(e, e.Keys, boundsOf, th) == map[] && e - {} == e
  {
    assert Changed(e, e.Keys, boundsOf, th).Keys == {};
  }

  /** Taking some of its objects out of a node keeps the tree indexed and forgets exactly them. */
  lemma TakeOutIndexed(ns: seq<TreeNode>, loc: map<ObjectId, nat>, i: nat, p: set<ObjectId>)
    requires Indexed(ns, loc) && i < |ns| && p <= ns[i].entries.Keys
    ensures Indexed(TakeOut(ns, i, p), loc - p) && Extends(ns, TakeOut(ns, i, p))
    ensures Stored(TakeOut(ns, i, p), loc - p) == Stored(ns, loc) - p
    ensures forall x :: x in p ==> x in loc && loc[x] == i
  {
    var ns2 := TakeOut(ns, i, p);
    var loc2 := loc - p;
    SameShapeWellFormed(ns, ns2);
    forall j, x | 0 <= j < |ns2|
      ensures EntryPlaced(ns2, j, x)
    {
      assert EntryPlaced(ns, j, x);
    }
    forall j, x | 0 <= j < |ns2| && x in ns2[j].entries
      ensures x in loc2 && loc2[x] == j
    {
      assert x in ns[j].entries && loc[x] == j;
      assert forall y :: y in p ==> y in ns[i].entries && loc[y] == i;
    }
    var m2, m := Stored(ns2, loc2), Stored(ns, loc) - p;
    assert m2.Keys == m.Keys;
    assert forall x :: x in m ==> m2[x] == m[x];
  }

  /** The objects stored with proximity bounds other than those of their bounds in the scene. */
  ghost function Stale(ns: seq<TreeNode>, loc: map<ObjectId, nat>, boundsOf: ObjectId -> Rect): (st: set<ObjectId>)
    requires Indexed(ns, loc)
    ensures st <= loc.Keys
  {
    set x | x in loc && Stored(ns, loc)[x] != ProximityBounds(boundsOf(x), ns[0].threshold)
  }

  /** What the first loop of `update()` on node `i` finds: the objects of the node whose proximity
      bounds changed, with their new proximity bounds. */
  function ChangedAt(ns: seq<TreeNode>, i: nat, boundsOf: ObjectId -> Rect): (c: map<ObjectId, Rect>)
    requires i < |ns|
  {
    Changed(ns[i].entries, {}, boundsOf, ns[i].threshold)
  }

  /** Processing node `i` in `update()` and re-inserting what changed there leaves every object
      at a node before `i + 1` with current bounds, provided this held before `i`, and it makes
      the set of stale objects strictly smaller unless nothing changed at node `i`. */
  lemma UpdateNodeProgress(ns: seq<TreeNode>, loc: map<ObjectId, nat>, ns2: seq<TreeNode>,
                           loc2: map<ObjectId, nat>, i: nat, boundsOf: ObjectId -> Rect)
    requires Indexed(ns, loc) && Indexed(ns2, loc2) && i < |ns| && ns2[0].threshold == ns[0].threshold
    requires Stored(ns2, loc2) == Stored(ns, loc) + ChangedAt(ns, i, boundsOf)
    requires StaysOrMovesBeyond(loc - ChangedAt(ns, i, boundsOf).Keys, loc2, |ns|)
    requires forall x :: x in loc && loc[x] < i ==> x !in Stale(ns, loc, boundsOf)
    requires ChangedAt(ns, i, boundsOf) == map[] ==> ns2 == ns && loc2 == loc
    ensures loc2.Keys == loc.Keys
    ensures forall x :: x in loc2 && loc2[x] < i + 1 ==> x !in Stale(ns2, loc2, boundsOf)
    ensures Stale(ns2, loc2, boundsOf) == Stale(ns, loc, boundsOf) - ChangedAt(ns, i, boundsOf).Keys
    ensures ChangedAt(ns, i, boundsOf).Keys <= Stale(ns, loc, boundsOf)
    ensures |Stale(ns2, loc2, boundsOf)| < |Stale(ns, loc, boundsOf)| || (ns2 == ns && loc2 == loc)
  {
    var c := ChangedAt(ns, i, boundsOf);
    var st1, st2 := Stale(ns, loc, boundsOf), Stale(ns2, loc2, boundsOf);
    ChangedAreStale(ns, loc, i, boundsOf);
    StaleAfterMerge(ns, loc, ns2, loc2, c, boundsOf);
    forall x | x in loc2 && loc2[x] < i + 1
      ensures x !in st2
    {
      if x !in c {
        assert loc2[x] == loc[x];
        if loc[x] == i {
          assert x in ns[i].entries && Stored(ns, loc)[x] == ns[i].entries[x];
        }
      }
    }
    if c.Keys != {} {
      FewerAfterRemoval(st1, c.Keys);
    } else {
      assert c == map[];
    }
  }

  /** Giving stored objects their current bounds makes exactly those objects no longer stale. */
  lemma StaleAfterMerge(ns: seq<TreeNode>, loc: map<ObjectId, nat>, ns2: seq<TreeNode>,
                        loc2: map<ObjectId, nat>, c: map<ObjectId, Rect>, boundsOf: ObjectId -> Rect)
    requires Indexed(ns, loc) && Indexed(ns2, loc2) && ns2[0].threshold == ns[0].threshold
    requires Stored(ns2, loc2) == Stored(ns, loc) + c && c.Keys <= loc.Keys
    requires forall x :: x in c ==> c[x] == ProximityBounds(boundsOf(x), ns[0].threshold)
    ensures loc2.Keys == loc.Keys
    ensures Stale(ns2, loc2, boundsOf) == Stale(ns, loc, boundsOf) - c.Keys
  {
    var s1, s2 := Stored(ns, loc), Stored(ns2, loc2);
    var st1, st2 := Stale(ns, loc, boundsOf), Stale(ns2, loc2, boundsOf);
    assert loc2.Keys == s2.Keys == loc.Keys;
    forall x | x in loc
      ensures (x in st2) == (x in st1 && x !in c)
    {
      if x !in c {
        assert s2[x] == s1[x];
      }
    }
    assert st2 == st1 - c.Keys;
  }

  /** The objects that node `i` takes out in `update()` are stored at node `i` and are stale. */
  lemma ChangedAreStale(ns: seq<TreeNode>, loc: map<ObjectId, nat>, i: nat, boundsOf: ObjectId -> Rect)
    requires Indexed(ns, loc) && i < |ns|
    ensures ChangedAt(ns, i, boundsOf).Keys <= Stale(ns, loc, boundsOf) <= loc.Keys
    ensures forall x :: x in ChangedAt(ns, i, boundsOf) ==> x in loc && loc[x] == i
  {
    forall x | x in ChangedAt(ns, i, boundsOf)
      ensures x in loc && loc[x] == i && x in Stale(ns, loc, boundsOf)
    {
      assert x in ns[i].entries;
    }
  }

  /** Taking a non-empty part out of a set makes it strictly smaller. */
  lemma FewerAfterRemoval<T>(a: set<T>, c: set<T>)
    requires c <= a && c != {}
    ensures |a - c| < |a|
  {
    var y := Element(c);
    assert a - c < a;
  }

  /** Before the second loop of `update()` on a node: the changed objects are all still out. */
  lemma MergeStart(a: map<ObjectId, Rect>, p: map<ObjectId, Rect>)
    ensures (a - p.Keys) + (p - p.Keys) == a - p.Keys
  {
    assert p - p.Keys == map[];
  }

  /** One turn of the second loop of `update()` on a node: object `o` is back with its new bounds. */
  lemma MergeStep(a: map<ObjectId, Rect>, p: map<ObjectId, Rect>, rest: set<ObjectId>, o: ObjectId)
    requires o in rest && o in p
    ensures ((a - rest) + (p - rest))[o := p[o]] == (a - (rest - {o})) + (p - (rest - {o}))
  {
  }

  /** After the second loop of `update()` on a node: every changed object is back with its new bounds. */
  lemma MergeEnd(a: map<ObjectId, Rect>, p: map<ObjectId, Rect>)
    ensures (a - {}) + (p - {}) == a + p
  {
    assert a - {} == a;
    assert p - {} == p;
  }

  /** After the first loop of `update()` on node `i`: the arena with the changed objects taken
      out is still indexed, keeps its threshold, and gives back the old contents once the changed
      objects are put back with their new bounds; when nothing changed, nothing was taken out. */
  lemma TakeOutChangedIndexed(ns: seq<TreeNode>, loc: map<ObjectId, nat>, i: nat, boundsOf: ObjectId -> Rect)
    requires Indexed(ns, loc) && i < |ns|
    ensures var p := ChangedAt(ns, i, boundsOf);
      && Indexed(TakeOut(ns, i, p.Keys), loc - p.Keys)
      && TakeOut(ns, i, p.Keys)[0].threshold == ns[0].threshold
      && p.Keys !! (loc - p.Keys).Keys
      && Stored(TakeOut(ns, i, p.Keys), loc - p.Keys) + p == Stored(ns, loc) + p
      && (p == map[] ==> TakeOut(ns, i, p.Keys) == ns && loc - p.Keys == loc && Stored(ns, loc) + p == Stored(ns, loc))
  {
    var p := ChangedAt(ns, i, boundsOf);
    TakeOutIndexed(ns, loc, i, p.Keys);
    var a := Stored(ns, loc);
    assert (a - p.Keys) + p == a + p;
    if p == map[] {
      assert p.Keys == {};
      TakeOutNothing(ns, loc, i);
      assert a + p == a;
    }
  }

  /** Every object of `loc1` is in `loc2`, at the same node or at a node numbered `size` or more. */
  ghost predicate StaysOrMovesBeyond(loc1: map<ObjectId, nat>, loc2: map<ObjectId, nat>, size: nat) {
    forall x :: x in loc1 ==> x in loc2 && (loc2[x] == loc1[x] || size <= loc2[x])
  }

  lemma StaysOrMovesBeyondTransitive(loc1: map<ObjectId, nat>, loc2: map<ObjectId, nat>, loc3: map<ObjectId, nat>,
                                     size1: nat, size2: nat)
    requires StaysOrMovesBeyond(loc1, loc2, size1) && StaysOrMovesBeyond(loc2, loc3, size2) && size1 <= size2
    ensures StaysOrMovesBeyond(loc1, loc3, size1)
  {
  }

  class QuadTree {
    /** The nodes; node 0 is the root the library holds on to. */
    var nodes: seq<TreeNode>
    /** For each stored object, the node whose map holds it. */
    ghost var loc: map<ObjectId, nat>

    ghost predicate Valid()
      reads this
    {
      Indexed(nodes, loc)
    }

    /** The objects in the tree and the proximity bounds each was stored with. */
    ghost function Contents(): (m: map<ObjectId, Rect>)
      reads this
      requires Valid()
      ensures m.Keys == loc.Keys
    {
      Stored(nodes, loc)
    }

    /** `getProximityThreshold()`: the root's threshold, which every node shares. */
    function Threshold(): (v: real)
      reads this
      requires Valid()
      ensures v > 0.0 && forall i :: 0 <= i < |nodes| ==> nodes[i].threshold == v
    {
      nodes[0].threshold
    }

    /** `new QuadTree(bounds)`: an empty root covering `region`, with the default threshold. */
    constructor(region: Rect)
      ensures Valid() && Contents() == map[] && Threshold() == DefaultThreshold
      ensures nodes == [EmptyRoot(region, DefaultThreshold)]
    {
      nodes := [EmptyRoot(region, DefaultThreshold)];
      loc := map[];
      new;
      assert LinkedToChildren(nodes, 0);
      assert EntryPlaced(nodes, 0, 0);
    }

    /** Public `insert(object)`: index `o`, whose bounds in the scene are `bounds`, with its
        proximity bounds under the current threshold. */
    method Insert(o: ObjectId, bounds: Rect)
      requires Valid() && o !in loc
      modifies this
      ensures Valid() && Extends(old(nodes), nodes) && Threshold() == old(Threshold())
      ensures Contents() == old(Contents())[o := ProximityBounds(bounds, old(Threshold()))]
    {
      Put(0, o, ProximityBounds(bounds, nodes[0].threshold));
    }

    /** Private `insert(object, bounds)` called on node `n`: store `o` at the node `getTreeNode`
        leads to from `n` (climbing while a node does not contain `b`, then descending), and split
        that node once it holds `MaxObjects` objects, unless it is at `MaxDepth` or already has
        children. Objects stored elsewhere stay where they are or move to new nodes. */
    method Put(n: nat, o: ObjectId, b: Rect)
      requires Valid() && n < |nodes| && o !in loc
      modifies this
      ensures Valid() && Extends(old(nodes), nodes)
      ensures Contents() == old(Contents())[o := b]
      ensures StaysOrMovesBeyond(old(loc) - {o}, loc, old(|nodes|))
    {
      var t := InsertTarget(nodes, n, b);
      Store(t, o, b);
      if |nodes[t].entries| >= MaxObjects && nodes[t].level < MaxDepth && nodes[t].firstChild.None? {
        Split(t);
      }
    }

    /** `proximityBoundsByObject.put(object, bounds)` on node `t`, where `o` may be stored. */
    method Store(t: nat, o: ObjectId, b: Rect)
      requires Valid() && t < |nodes| && o !in loc && Placed(nodes, t, b)
      modifies this
      ensures nodes == old(nodes)[t := old(nodes)[t].(entries := old(nodes)[t].entries[o := b])]
      ensures loc == old(loc)[o := t]
      ensures Valid() && Extends(old(nodes), nodes) && Contents() == old(Contents())[o := b]
    {
      PutIndexed(nodes, loc, t, o, b);
      nodes := nodes[t := nodes[t].(entries := nodes[t].entries[o := b])];
      loc := loc[o := t];
    }

    /** `split()` of leaf `t`: append its four quadrants as children, then move every entry of
        `t` whose bounds fit a quadrant into the first such child. */
    method Split(t: nat)
      requires Valid() && t < |nodes| && nodes[t].firstChild.None? && nodes[t].level < MaxDepth
      modifies this
      ensures nodes == SplitSpec(old(nodes), t) && loc == SplitLoc(old(nodes), old(loc), t)
      ensures Valid() && Extends(old(nodes), nodes) && Contents() == old(Contents())
    {
      var node := nodes[t];
      var stay := node.entries;
      var moved: seq<map<ObjectId, Rect>> := [map[], map[], map[], map[]];
      var todo := node.entries.Keys;
      SplitEnds(nodes, t);
      while todo != {}
        invariant todo <= node.entries.Keys && nodes == old(nodes) && loc == old(loc)
        invariant stay == StayMap(node, todo)
        invariant moved == MovedSeq(node, todo)
        decreases |todo|
      {
        ghost var some := Element(todo);
        var o :| o in todo;
        var b := node.entries[o];
        SplitStep(node, todo, o);
        match QuadrantFit(node.region, b) {
          case None =>
          case Some(k) =>
            stay := stay - {o};
            moved := moved[k := moved[k][o := b]];
        }
        todo := todo - {o};
      }
      nodes := nodes[t := node.(firstChild := Some(|nodes|), entries := stay)] +
        [SplitChild(node, t, 0).(entries := moved[0]), SplitChild(node, t, 1).(entries := moved[1]),
         SplitChild(node, t, 2).(entries := moved[2]), SplitChild(node, t, 3).(entries := moved[3])];
      SplitShape(old(nodes), t);
      SplitIndexed(old(nodes), old(loc), t);
      loc := SplitLoc(old(nodes), old(loc), t);
    }
  
    /** `remove(object)`, corrected: `o` is dropped from every node, so it is forgotten wherever
        it was stored, whatever its bounds are now. */
    method Remove(o: ObjectId)
      requires Valid()
      modifies this
      ensures nodes == RemoveEverywhere(old(nodes), o) && loc == old(loc) - {o}
      ensures Valid() && Contents() == old(Contents()) - {o} && Threshold() == old(Threshold())
    {
      var i := 0;
      while i < |nodes|
        invariant i <= |nodes| == |old(nodes)| && loc == old(loc)
        invariant forall j :: 0 <= j < |nodes| ==>
          nodes[j] == if j < i then RemoveEverywhere(old(nodes), o)[j] else old(nodes)[j]
      {
        nodes := nodes[i := nodes[i].(entries := nodes[i].entries - {o})];
        i := i + 1;
      }
      assert nodes == RemoveEverywhere(old(nodes), o);
      RemoveEverywhereIndexed(old(nodes), old(loc), o);
      loc := loc - {o};
    }

    /** `retrieve(object)`: the candidates the tree reports as possibly near `o`. In an indexed
        tree these are all of its objects (`o` itself among them when it is stored). */
    method Retrieve(o: ObjectId) returns (near: set<ObjectId>)
      requires Valid()
      ensures near == Contents().Keys
    {
      near := QuadTreeSpec.Retrieve(nodes, 0, o);
      RetrieveAll(nodes, loc, o);
    }

    /** `clear()`, corrected: the root forgets its objects and its children, and keeps its region
        and threshold. */
    method Clear()
      requires Valid()
      modifies this
      ensures nodes == [old(nodes)[0].(firstChild := None, entries := map[])]
      ensures Valid() && Contents() == map[] && Threshold() == old(Threshold())
    {
      nodes := [nodes[0].(firstChild := None, entries := map[])];
      loc := map[];
      assert LinkedToChildren(nodes, 0);
      assert forall o :: EntryPlaced(nodes, 0, o);
    }

    /** `setProximityThreshold(value)`: a value that is not positive is refused with an
        `IllegalArgumentException` and changes nothing; otherwise the root and, through it,
        every node takes the new value. Stored proximity bounds are left as they are. */
    method SetProximityThreshold(v: real) returns (r: Outcome)
      requires Valid()
      modifies this
      ensures Valid() && loc == old(loc) && Contents() == old(Contents())
      ensures r == Pass <==> v > 0.0
      ensures r != Pass ==> r == Fail(IllegalArgument) && nodes == old(nodes)
      ensures r == Pass ==> nodes == Rethreshold(old(nodes), v) && Threshold() == v
    {
      if v <= 0.0 {
        return Fail(IllegalArgument);
      }
      var i := 0;
      while i < |nodes|
        invariant i <= |nodes| == |old(nodes)| && loc == old(loc)
        invariant forall j :: 0 <= j < |nodes| ==>
          nodes[j] == if j < i then Rethreshold(old(nodes), v)[j] else old(nodes)[j]
      {
        nodes := nodes[i := nodes[i].(threshold := v)];
        i := i + 1;
      }
      assert nodes == Rethreshold(old(nodes), v);
      RethresholdIndexed(old(nodes), loc, v);
      return Pass;
    }
  
    /** `update()`: every object whose proximity bounds have changed since it was stored is
        taken out and inserted again, node after node, including nodes created on the way.
        Afterwards every object is stored with the proximity bounds of its bounds in the scene,
        `boundsOf`. */
    method Update(boundsOf: ObjectId -> Rect)
      requires Valid()
      modifies this
      ensures Valid() && loc.Keys == old(loc).Keys && Threshold() == old(Threshold())
      ensures forall x :: x in Contents() ==> Contents()[x] == ProximityBounds(boundsOf(x), Threshold())
    {
      var i := 0;
      while i < |nodes|
        invariant Valid() && i <= |nodes| && loc.Keys == old(loc).Keys && Threshold() == old(Threshold())
        invariant forall x :: x in loc && loc[x] < i ==> x !in Stale(nodes, loc, boundsOf)
        decreases |Stale(nodes, loc, boundsOf)|, |nodes| - i
      {
        ghost var ns, lc := nodes, loc;
        UpdateNode(i, boundsOf);
        UpdateNodeProgress(ns, lc, nodes, loc, i, boundsOf);
        i := i + 1;
      }
    }

    /** The part of `update()` that node `i` does itself: take out every object of the node whose
        proximity bounds changed, then insert each again from this node. The changed objects get
        their new bounds, every other object keeps its bounds and stays where it was or moves to
        a node created on the way, and nothing happens when nothing changed. */
    method UpdateNode(i: nat, boundsOf: ObjectId -> Rect)
      requires Valid() && i < |nodes|
      modifies this
      ensures Valid() && Threshold() == old(Threshold()) && old(|nodes|) <= |nodes|
      ensures Contents() == old(Contents()) + ChangedAt(old(nodes), i, boundsOf)
      ensures StaysOrMovesBeyond(old(loc) - ChangedAt(old(nodes), i, boundsOf).Keys, loc, old(|nodes|))
      ensures ChangedAt(old(nodes), i, boundsOf) == map[] ==> nodes == old(nodes) && loc == old(loc)
    {
      ghost var ns, lc := nodes, loc;
      var pending := TakeOutChanged(i, boundsOf);
      TakeOutChangedIndexed(ns, lc, i, boundsOf);
      loc := loc - pending.Keys;
      if pending != map[] {
        Reinsert(i, pending);
      }
    }

    /** The first loop of `update()` on node `i`: visit the node's objects and take out those
        whose proximity bounds changed, remembering their new bounds. */
    method TakeOutChanged(i: nat, boundsOf: ObjectId -> Rect) returns (pending: map<ObjectId, Rect>)
      requires i < |nodes|
      modifies this`nodes
      ensures pending == ChangedAt(old(nodes), i, boundsOf)
      ensures nodes == TakeOut(old(nodes), i, pending.Keys)
    {
      var th := nodes[i].threshold;
      var e := nodes[i].entries;
      var kept := e;
      var todo := e.Keys;
      pending := map[];
      ChangedNone(e, boundsOf, th);
      while todo != {}
        invariant todo <= e.Keys && nodes == old(nodes)
        invariant pending == Changed(e, todo, boundsOf, th) && kept == e - pending.Keys
        decreases |todo|
      {
        ghost var some := Element(todo);
        var o :| o in todo;
        var b := ProximityBounds(boundsOf(o), th);
        ChangedStep(e, todo, o, boundsOf, th);
        if b != kept[o] {
          kept := kept - {o};
          pending := pending[o := b];
        }
        todo := todo - {o};
      }
      nodes := nodes[i := nodes[i].(entries := kept)];
    }

    /** The second loop of `update()` on node `i`: insert each taken-out object again, from
        node `i`, with its new proximity bounds. */
    method Reinsert(i: nat, pending: map<ObjectId, Rect>)
      requires Valid() && i < |nodes| && pending.Keys !! loc.Keys
      modifies this
      ensures Valid() && Threshold() == old(Threshold()) && old(|nodes|) <= |nodes|
      ensures Contents() == old(Contents()) + pending
      ensures StaysOrMovesBeyond(old(loc), loc, old(|nodes|))
    {
      var rest := pending.Keys;
      ghost var before := old(Contents());
      MergeStart(before, pending);
      while rest != {}
        invariant rest <= pending.Keys && Valid() && Threshold() == old(Threshold()) && i < old(|nodes|) <= |nodes|
        invariant Contents() == (before - rest) + (pending - rest)
        invariant StaysOrMovesBeyond(old(loc), loc, old(|nodes|))
        decreases |rest|
      {
        ghost var some := Element(rest);
        var o :| o in rest;
        ghost var prevLoc, prevSize := loc, |nodes|;
        Put(i, o, pending[o]);
        MergeStep(before, pending, rest, o);
        StaysOrMovesBeyondTransitive(old(loc), prevLoc - {o}, loc, old(|nodes|), prevSize);
        rest := rest - {o};
      }
      MergeEnd(before, pending);
    }
  }
}

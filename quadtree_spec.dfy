/** The region quadtree of the touch library as pure functions over an arena.

    The tree is stored as a sequence of nodes; a node's identity is its index and the root is node 0.
    `firstChild` stands for the array of four child references: when it is `Some(f)`, the children in
    the order top-left, top-right, bottom-right, bottom-left are the nodes `f`, `f + 1`, `f + 2` and
    `f + 3`, appended together by a split. Each node maps the objects it stores to the proximity
    bounds they were indexed with. */
module QuadTreeSpec {
  import opened Geometry
  import opened Outcomes

  /** A node at this depth is never split. */
  const MaxDepth: nat := 5
  /** A node holding this many objects is split (unless it is at `MaxDepth`). */
  const MaxObjects: nat := 10
  /** The proximity threshold of a tree nobody has configured. */
  const DefaultThreshold: real := 25.0

  /** Identity of a scene-graph node stored in the tree. */
  type ObjectId = int

  datatype TreeNode = TreeNode(
    region: Rect,                  // the part of the plane this node covers
    level: nat,                    // depth: 0 for the root
    parent: Option<nat>,           // `None` for the root
    firstChild: Option<nat>,       // `None` while the node has no children
    entries: map<ObjectId, Rect>,  // stored objects and the proximity bounds they were stored with
    threshold: real)               // this node's proximity threshold

  /** Bounds `b` of an object enlarged by half the proximity threshold on each side, so that two
      objects whose gap is at most `threshold` have intersecting proximity bounds. */
  function ProximityBounds(b: Rect, threshold: real): (r: Rect)
    ensures r.minX + threshold / 2.0 == b.minX && r.MaxX() - threshold / 2.0 == b.MaxX()
    ensures r.minY + threshold / 2.0 == b.minY && r.MaxY() - threshold / 2.0 == b.MaxY()
    ensures threshold >= 0.0 && !Empty(b) ==> Contains(r, b)
  {
    Rect(b.minX - threshold / 2.0, b.minY - threshold / 2.0, b.width + threshold, b.height + threshold)
  }

  /** A new, empty root covering `region`. */
  function EmptyRoot(region: Rect, threshold: real): TreeNode {
    TreeNode(region, 0, None, None, map[], threshold)
  }

  function Lookup(m: map<ObjectId, Rect>, o: ObjectId): (r: Option<Rect>)
    ensures r.Some? <==> o in m
    ensures r.Some? ==> r.value == m[o]
  {
    if o in m then Some(m[o]) else None
  }

  // ---------------------------------------------------------------------------------------------
  // Shape of the arena

  /** Child `k` of node `i` points back at `i` and covers quadrant `k` of `i`'s region. */
  ghost predicate ChildLinked(ns: seq<TreeNode>, i: nat, k: nat)
    requires i < |ns| && ns[i].firstChild.Some? && ns[i].firstChild.value + 4 <= |ns| && k < 4
  {
    var c := ns[i].firstChild.value + k;
    ns[c].parent == Some(i) && ns[c].region == Quadrant(ns[i].region, k)
  }

  /** Non-root node `i` has a parent with a smaller index, one level up, which lists `i` as a child. */
  ghost predicate LinkedToParent(ns: seq<TreeNode>, i: nat)
    requires 0 < i < |ns|
  {
    ns[i].parent.Some? &&
    var p := ns[i].parent.value;
    p < i && ns[i].level == ns[p].level + 1 &&
    ns[p].firstChild.Some? && ns[p].firstChild.value <= i < ns[p].firstChild.value + 4
  }

  /** A node with children is above `MaxDepth`, and its four children follow it in the arena. */
  ghost predicate LinkedToChildren(ns: seq<TreeNode>, i: nat)
    requires i < |ns|
  {
    ns[i].firstChild.Some? ==>
      var f := ns[i].firstChild.value;
      i < f && f + 4 <= |ns| && ns[i].level < MaxDepth &&
      forall k :: 0 <= k < 4 ==> ChildLinked(ns, i, k)
  }

  /** The arena is a quadtree rooted at node 0, and every node has the root's positive threshold. */
  ghost predicate WellFormed(ns: seq<TreeNode>) {
    |ns| > 0 && ns[0].parent == None && ns[0].level == 0 && ns[0].threshold > 0.0 &&
    (forall i :: 0 < i < |ns| ==> LinkedToParent(ns, i)) &&
    (forall i :: 0 <= i < |ns| ==> LinkedToChildren(ns, i)) &&
    (forall i :: 0 <= i < |ns| ==> ns[i].threshold == ns[0].threshold)
  }

  /** No node is deeper than `MaxDepth`. */
  lemma DepthBounded(ns: seq<TreeNode>, i: nat)
    requires WellFormed(ns) && i < |ns|
    ensures ns[i].level <= MaxDepth
  {
    if i > 0 {
      assert LinkedToParent(ns, i);
      assert LinkedToChildren(ns, ns[i].parent.value);
    }
  }

  /** `a` is `j` or lies on the parent chain of `j`. */
  ghost predicate Ancestor(ns: seq<TreeNode>, a: nat, j: nat)
    decreases j
  {
    a == j ||
    (0 < j < |ns| && ns[j].parent.Some? && ns[j].parent.value < j && Ancestor(ns, a, ns[j].parent.value))
  }

  lemma {:induction false} AncestorTransitive(ns: seq<TreeNode>, a: nat, b: nat, c: nat)
    requires Ancestor(ns, a, b) && Ancestor(ns, b, c)
    ensures Ancestor(ns, a, c)
    decreases c
  {
    if b != c {
      AncestorTransitive(ns, a, b, ns[c].parent.value);
    }
  }

  /** Ancestors sit at smaller indices and strictly smaller levels. */
  lemma {:induction false} AncestorLevel(ns: seq<TreeNode>, a: nat, c: nat)
    requires WellFormed(ns) && c < |ns| && Ancestor(ns, a, c)
    ensures a <= c && ns[a].level <= ns[c].level
    ensures a != c ==> ns[a].level < ns[c].level
    decreases c
  {
    if a != c {
      var p := ns[c].parent.value;
      assert LinkedToParent(ns, c);
      AncestorLevel(ns, a, p);
    }
  }

  /** Two ancestors of one node are ancestors of one another. */
  lemma {:induction false} AncestorChain(ns: seq<TreeNode>, a: nat, b: nat, c: nat)
    requires Ancestor(ns, a, c) && Ancestor(ns, b, c)
    ensures Ancestor(ns, a, b) || Ancestor(ns, b, a)
    decreases c
  {
    if a != c && b != c {
      AncestorChain(ns, a, b, ns[c].parent.value);
    }
  }

  /** The root is an ancestor of every node. */
  lemma {:induction false} RootAncestor(ns: seq<TreeNode>, j: nat)
    requires WellFormed(ns) && j < |ns|
    ensures Ancestor(ns, 0, j)
    decreases j
  {
    if j > 0 {
      assert LinkedToParent(ns, j);
      RootAncestor(ns, ns[j].parent.value);
    }
  }

  /** The children of a node follow it in the arena, and only nodes above `MaxDepth` have any. */
  lemma ChildrenFollow(ns: seq<TreeNode>, n: nat)
    requires WellFormed(ns) && n < |ns| && ns[n].firstChild.Some?
    ensures n < ns[n].firstChild.value && ns[n].firstChild.value + 4 <= |ns| && ns[n].level < MaxDepth
  {
    assert LinkedToChildren(ns, n);
  }

  /** Every child of a node has the node as an ancestor. */
  lemma ChildAncestor(ns: seq<TreeNode>, i: nat, k: nat)
    requires WellFormed(ns) && i < |ns| && ns[i].firstChild.Some? && k < 4
    ensures ns[i].firstChild.value + k < |ns| && Ancestor(ns, i, ns[i].firstChild.value + k)
  {
    assert LinkedToChildren(ns, i);
    assert ChildLinked(ns, i, k);
  }

  /** A proper ancestor has children, and the path down from it passes through one of them. */
  lemma {:induction false} ChildOnPath(ns: seq<TreeNode>, a: nat, c: nat) returns (k: nat)
    requires WellFormed(ns) && a < |ns| && c < |ns| && Ancestor(ns, a, c) && a != c
    ensures ns[a].firstChild.Some? && k < 4
    ensures Ancestor(ns, ns[a].firstChild.value + k, c)
    decreases c
  {
    var p := ns[c].parent.value;
    assert LinkedToParent(ns, c);
    if p == a {
      k := c - ns[a].firstChild.value;
    } else {
      k := ChildOnPath(ns, a, p);
    }
  }

  /** The subtrees of two different children of one node share no node. */
  lemma SiblingSubtreesDisjoint(ns: seq<TreeNode>, i: nat, j: nat, k: nat, c: nat)
    requires WellFormed(ns) && i < |ns| && ns[i].firstChild.Some? && j < 4 && k < 4 && c < |ns|
    requires Ancestor(ns, ns[i].firstChild.value + j, c) && Ancestor(ns, ns[i].firstChild.value + k, c)
    ensures j == k
  {
    var f := ns[i].firstChild.value;
    assert LinkedToChildren(ns, i);
    assert ChildLinked(ns, i, j) && ChildLinked(ns, i, k);
    assert LinkedToParent(ns, f + j) && LinkedToParent(ns, f + k);
    assert ns[f + j].level == ns[f + k].level;
    AncestorChain(ns, f + j, f + k, c);
    if Ancestor(ns, f + j, f + k) {
      AncestorLevel(ns, f + j, f + k);
    } else {
      AncestorLevel(ns, f + k, f + j);
    }
  }

  // ---------------------------------------------------------------------------------------------
  // Locating the node for a pair of bounds

  /** The first child of node `n`, in child order, whose region contains `b`; `None` when `n` has
      no children or none of them contains `b`. */
  function FirstFit(ns: seq<TreeNode>, n: nat, b: Rect): (r: Option<nat>)
    requires n < |ns|
    ensures r.Some? ==> ns[n].firstChild.Some? && r.value < |ns| && Contains(ns[r.value].region, b)
    ensures r.Some? ==> ns[n].firstChild.value <= r.value < ns[n].firstChild.value + 4
    ensures ns[n].firstChild.Some? && ns[n].firstChild.value + 4 <= |ns| ==>
      var last := if r.Some? then r.value else ns[n].firstChild.value + 4;
      forall c {:trigger Contains(ns[c].region, b)} :: ns[n].firstChild.value <= c < last ==> !Contains(ns[c].region, b)
  {
    match ns[n].firstChild
    case None => None
    case Some(f) =>
      if f + 4 > |ns| then None
      else if Contains(ns[f].region, b) then Some(f)
      else if Contains(ns[f + 1].region, b) then Some(f + 1)
      else if Contains(ns[f + 2].region, b) then Some(f + 2)
      else if Contains(ns[f + 3].region, b) then Some(f + 3)
      else None
  }

  /** The first quadrant of `r` that contains `b`. */
  function QuadrantFit(r: Rect, b: Rect): (k: Option<nat>)
    ensures k.Some? ==> k.value < 4 && Contains(Quadrant(r, k.value), b)
    ensures k.Some? ==> forall j :: 0 <= j < k.value ==> !Contains(Quadrant(r, j), b)
    ensures k.None? ==> forall j :: 0 <= j < 4 ==> !Contains(Quadrant(r, j), b)
  {
    if Contains(Quadrant(r, 0), b) then Some(0)
    else if Contains(Quadrant(r, 1), b) then Some(1)
    else if Contains(Quadrant(r, 2), b) then Some(2)
    else if Contains(Quadrant(r, 3), b) then Some(3)
    else None
  }

  /** In a well-formed tree the children are the quadrants, so the first fitting child is the
      first fitting quadrant. */
  lemma FirstFitIsQuadrantFit(ns: seq<TreeNode>, n: nat, b: Rect)
    requires WellFormed(ns) && n < |ns| && ns[n].firstChild.Some?
    ensures FirstFit(ns, n, b) ==
      (match QuadrantFit(ns[n].region, b)
       case None => None
       case Some(k) => Some(ns[n].firstChild.value + k))
  {
    assert LinkedToChildren(ns, n);
    assert ChildLinked(ns, n, 0) && ChildLinked(ns, n, 1) && ChildLinked(ns, n, 2) && ChildLinked(ns, n, 3);
  }

  /** The node that should store an object with bounds `b`, asked at node `n`: the first child
      containing `b` if `n` contains it, else `n` itself if it contains it, else `n`'s parent
      (`None` at the root). A missing `b` is contained nowhere. */
  function GetTreeNode(ns: seq<TreeNode>, n: nat, b: Option<Rect>): (r: Option<nat>)
    requires n < |ns|
    ensures b.Some? && Contains(ns[n].region, b.value) && FirstFit(ns, n, b.value).Some? ==>
      r == FirstFit(ns, n, b.value)
    ensures b.Some? && Contains(ns[n].region, b.value) && FirstFit(ns, n, b.value).None? ==>
      r == Some(n)
    ensures !(b.Some? && Contains(ns[n].region, b.value)) ==> r == ns[n].parent
  {
    if b.Some? && Contains(ns[n].region, b.value) then
      match FirstFit(ns, n, b.value)
      case Some(c) => Some(c)
      case None => Some(n)
    else
      ns[n].parent
  }

  /** An object with bounds `b` may be stored at node `i`: `i` is the root or contains `b`, and
      no child of `i` contains `b`, so `i` is the deepest node that can hold it. */
  ghost predicate Placed(ns: seq<TreeNode>, i: nat, b: Rect)
    requires i < |ns|
  {
    (i == 0 || Contains(ns[i].region, b)) && FirstFit(ns, i, b).None?
  }

  /** The node an insertion that arrives at `n` (having passed the root test) descends to: the
      first child containing `b`, repeatedly. */
  function Descend(ns: seq<TreeNode>, n: nat, b: Rect): (t: nat)
    requires WellFormed(ns) && n < |ns|
    ensures t < |ns| && Ancestor(ns, n, t) && FirstFit(ns, t, b).None?
    ensures Contains(ns[n].region, b) ==> Contains(ns[t].region, b)
    decreases |ns| - n
  {
    match FirstFit(ns, n, b)
    case None => n
    case Some(c) =>
      assert LinkedToChildren(ns, n);
      ChildAncestor(ns, n, c - ns[n].firstChild.value);
      var t := Descend(ns, c, b);
      AncestorTransitive(ns, n, c, t);
      t
  }

  /** A root that does not contain `b` has no child that contains it. */
  lemma NoChildFitsOutside(ns: seq<TreeNode>, n: nat, b: Rect)
    requires WellFormed(ns) && n < |ns| && !Contains(ns[n].region, b)
    ensures FirstFit(ns, n, b).None?
  {
    if ns[n].firstChild.Some? {
      FirstFitIsQuadrantFit(ns, n, b);
      var k := QuadrantFit(ns[n].region, b);
      if k.Some? {
        QuadrantInside(ns[n].region, k.value, b);
      }
    }
  }

  /** The node where an insertion that starts at node `n` stores an object with bounds `b`
      (the recursion of `insert`): climb while the node does not contain `b`, then descend. */
  function InsertTarget(ns: seq<TreeNode>, n: nat, b: Rect): (t: nat)
    requires WellFormed(ns) && n < |ns|
    ensures t < |ns| && Placed(ns, t, b)
    decreases n
  {
    if Contains(ns[n].region, b) then Descend(ns, n, b)
    else if n == 0 then
      NoChildFitsOutside(ns, n, b);
      n
    else
      assert LinkedToParent(ns, n);
      InsertTarget(ns, ns[n].parent.value, b)
  }

  // ---------------------------------------------------------------------------------------------
  // Where objects are stored

  /** Every stored object sits at a node where it may be stored. */
  ghost predicate AllPlaced(ns: seq<TreeNode>) {
    forall i, o {:trigger EntryPlaced(ns, i, o)} :: 0 <= i < |ns| ==> EntryPlaced(ns, i, o)
  }

  /** If node `i` stores `o`, it may store it. */
  ghost predicate EntryPlaced(ns: seq<TreeNode>, i: nat, o: ObjectId)
    requires i < |ns|
  {
    o in ns[i].entries ==> Placed(ns, i, ns[i].entries[o])
  }

  /** `loc` names, for every stored object, the one node whose map holds it. */
  ghost predicate Located(ns: seq<TreeNode>, loc: map<ObjectId, nat>) {
    (forall o :: o in loc ==> loc[o] < |ns| && o in ns[loc[o]].entries) &&
    (forall i, o :: 0 <= i < |ns| && o in ns[i].entries ==> o in loc && loc[o] == i)
  }

  /** A well-formed tree that stores each object once, at a node where it may be stored. */
  ghost predicate Indexed(ns: seq<TreeNode>, loc: map<ObjectId, nat>) {
    WellFormed(ns) && AllPlaced(ns) && Located(ns, loc)
  }

  /** The proximity bounds each stored object was stored with. */
  ghost function Stored(ns: seq<TreeNode>, loc: map<ObjectId, nat>): (m: map<ObjectId, Rect>)
    requires Located(ns, loc)
    ensures m.Keys == loc.Keys
  {
    map o | o in loc :: ns[loc[o]].entries[o]
  }

  /** `ns2` is `ns` with possibly more nodes appended and leaves turned into parents; every node
      of `ns` keeps its region, level, parent and children. */
  ghost predicate Extends(ns: seq<TreeNode>, ns2: seq<TreeNode>) {
    |ns| <= |ns2| &&
    forall i :: 0 <= i < |ns| ==>
      ns2[i].region == ns[i].region && ns2[i].level == ns[i].level && ns2[i].parent == ns[i].parent &&
      ns2[i].threshold == ns[i].threshold &&
      (ns[i].firstChild.Some? ==> ns2[i].firstChild == ns[i].firstChild)
  }

  lemma ExtendsTransitive(ns1: seq<TreeNode>, ns2: seq<TreeNode>, ns3: seq<TreeNode>)
    requires Extends(ns1, ns2) && Extends(ns2, ns3)
    ensures Extends(ns1, ns3)
  {
  }

  /** Extending the arena changes no ancestry among the nodes it already had. */
  lemma {:induction false} AncestorExtends(ns: seq<TreeNode>, ns2: seq<TreeNode>, a: nat, c: nat)
    requires Extends(ns, ns2) && c < |ns|
    ensures Ancestor(ns, a, c) == Ancestor(ns2, a, c)
    decreases c
  {
    if a != c && 0 < c && ns[c].parent.Some? && ns[c].parent.value < c {
      AncestorExtends(ns, ns2, a, ns[c].parent.value);
    }
  }

  /** Object `o` stayed where it was, or it was at a leaf and moved into that leaf's subtree. */
  ghost predicate MovedDown(ns: seq<TreeNode>, loc: map<ObjectId, nat>, ns2: seq<TreeNode>,
                            loc2: map<ObjectId, nat>, o: ObjectId)
    requires o in loc && o in loc2 && loc[o] < |ns|
  {
    loc2[o] == loc[o] || (ns[loc[o]].firstChild.None? && Ancestor(ns2, loc[o], loc2[o]))
  }

  lemma MovedDownTransitive(ns1: seq<TreeNode>, loc1: map<ObjectId, nat>, ns2: seq<TreeNode>,
                            loc2: map<ObjectId, nat>, ns3: seq<TreeNode>, loc3: map<ObjectId, nat>,
                            o: ObjectId)
    requires Extends(ns1, ns2) && Extends(ns2, ns3)
    requires o in loc1 && o in loc2 && o in loc3 && loc1[o] < |ns1| && loc2[o] < |ns2|
    requires MovedDown(ns1, loc1, ns2, loc2, o) && MovedDown(ns2, loc2, ns3, loc3, o)
    ensures MovedDown(ns1, loc1, ns3, loc3, o)
  {
    if loc2[o] != loc1[o] {
      AncestorExtends(ns2, ns3, loc1[o], loc2[o]);
      if loc3[o] != loc2[o] {
        AncestorTransitive(ns3, loc1[o], loc2[o], loc3[o]);
      }
    }
  }

  // ---------------------------------------------------------------------------------------------
  // Split

  /** The node an entry with bounds `b` of leaf `t` belongs to once `t` is split: the child of the
      first quadrant containing `b`, or `t` itself. The children are appended at `|ns|`. */
  function SplitDest(ns: seq<TreeNode>, t: nat, b: Rect): (d: nat)
    requires t < |ns|
    ensures d == t || |ns| <= d < |ns| + 4
  {
    match QuadrantFit(ns[t].region, b)
    case None => t
    case Some(k) => |ns| + k
  }

  /** Child `k` created by splitting `node` (stored at index `t`): quadrant `k` of the node's
      region one level deeper, holding the node's entries that fit quadrant `k` first, and
      inheriting the node's threshold. */
  function SplitChild(node: TreeNode, t: nat, k: nat): (c: TreeNode)
    requires k < 4
    ensures c.parent == Some(t) && c.firstChild.None? && c.level == node.level + 1
    ensures c.threshold == node.threshold
    ensures forall o :: o in c.entries <==> o in node.entries && QuadrantFit(node.region, node.entries[o]) == Some(k)
  {
    TreeNode(Quadrant(node.region, k), node.level + 1, Some(t), None,
             map o | o in node.entries && QuadrantFit(node.region, node.entries[o]) == Some(k) :: node.entries[o],
             node.threshold)
  }

  /** The arena after `split()` of leaf `t`: four children appended, and every entry of `t` whose
      bounds fit a quadrant moved to that child. */
  function SplitSpec(ns: seq<TreeNode>, t: nat): (ns2: seq<TreeNode>)
    requires t < |ns|
    ensures |ns2| == |ns| + 4
  {
    var node := ns[t];
    var stay := map o | o in node.entries && QuadrantFit(node.region, node.entries[o]).None? :: node.entries[o];
    ns[t := node.(firstChild := Some(|ns|), entries := stay)] +
      [SplitChild(node, t, 0), SplitChild(node, t, 1), SplitChild(node, t, 2), SplitChild(node, t, 3)]
  }

  /** Where each object is stored after splitting `t`. */
  ghost function SplitLoc(ns: seq<TreeNode>, loc: map<ObjectId, nat>, t: nat): (loc2: map<ObjectId, nat>)
    requires Located(ns, loc) && t < |ns|
    ensures loc2.Keys == loc.Keys
    ensures forall o :: o in loc ==> loc2[o] == loc[o] || |ns| <= loc2[o] < |ns| + 4
  {
    map o | o in loc :: if loc[o] == t then SplitDest(ns, t, ns[t].entries[o]) else loc[o]
  }

  /** Entries of the split arena: the split moves each entry of `t` to its destination and leaves
      every other node's entries alone. */
  lemma SplitEntries(ns: seq<TreeNode>, t: nat, i: nat, o: ObjectId)
    requires t < |ns| && i < |ns| + 4
    ensures var ns2 := SplitSpec(ns, t);
      o in ns2[i].entries <==>
        (if i == t || i >= |ns| then o in ns[t].entries && SplitDest(ns, t, ns[t].entries[o]) == i
         else o in ns[i].entries)
    ensures var ns2 := SplitSpec(ns, t);
      o in ns2[i].entries ==> ns2[i].entries[o] == (if i == t || i >= |ns| then ns[t].entries[o] else ns[i].entries[o])
  {
    if i >= |ns| {
      var k := i - |ns|;
      assert SplitSpec(ns, t)[i] == SplitChild(ns[t], t, k);
    }
  }

  /** Splitting a leaf above `MaxDepth` keeps the tree well formed and only appends to it. */
  lemma SplitShape(ns: seq<TreeNode>, t: nat)
    requires WellFormed(ns) && t < |ns| && ns[t].firstChild.None? && ns[t].level < MaxDepth
    ensures WellFormed(SplitSpec(ns, t)) && Extends(ns, SplitSpec(ns, t))
    ensures SplitSpec(ns, t)[t].firstChild == Some(|ns|)
  {
    var ns2 := SplitSpec(ns, t);
    var f := |ns|;
    forall i | 0 < i < |ns2|
      ensures LinkedToParent(ns2, i)
    {
      if i < f {
        assert LinkedToParent(ns, i);
        var p := ns[i].parent.value;
        assert p != t;
      } else {
        assert ns2[i] == SplitChild(ns[t], t, i - f);
      }
    }
    forall i | 0 <= i < |ns2|
      ensures LinkedToChildren(ns2, i)
    {
      if i < f && i != t {
        assert LinkedToChildren(ns, i);
        if ns[i].firstChild.Some? {
          forall k | 0 <= k < 4
            ensures ChildLinked(ns2, i, k)
          {
            assert ChildLinked(ns, i, k);
          }
        }
      } else if i == t {
        forall k | 0 <= k < 4
          ensures ChildLinked(ns2, i, k)
        {
          assert ns2[f + k] == SplitChild(ns[t], t, k);
        }
      } else {
        assert ns2[i] == SplitChild(ns[t], t, i - f);
      }
    }
    forall i | 0 <= i < |ns2|
      ensures ns2[i].threshold == ns2[0].threshold
    {
      if i >= f {
        assert ns2[i] == SplitChild(ns[t], t, i - f);
      }
    }
  }

  /** Extending the arena does not change which child of an existing parent fits some bounds. */
  lemma FirstFitExtends(ns: seq<TreeNode>, ns2: seq<TreeNode>, n: nat, b: Rect)
    requires WellFormed(ns) && Extends(ns, ns2) && n < |ns| && ns[n].firstChild.Some?
    ensures FirstFit(ns2, n, b) == FirstFit(ns, n, b)
  {
    assert LinkedToChildren(ns, n);
  }

  /** After splitting a leaf every entry still sits where it may be stored. */
  lemma SplitPlaced(ns: seq<TreeNode>, t: nat)
    requires WellFormed(ns) && AllPlaced(ns) && t < |ns| && ns[t].firstChild.None? && ns[t].level < MaxDepth
    ensures AllPlaced(SplitSpec(ns, t))
  {
    var ns2 := SplitSpec(ns, t);
    var f := |ns|;
    SplitShape(ns, t);
    forall i, o | 0 <= i < |ns2|
      ensures EntryPlaced(ns2, i, o)
    {
      if o in ns2[i].entries {
        SplitPlacedAt(ns, t, i, o);
      }
    }
  }

  lemma SplitPlacedAt(ns: seq<TreeNode>, t: nat, i: nat, o: ObjectId)
    requires WellFormed(ns) && AllPlaced(ns) && t < |ns| && ns[t].firstChild.None? && ns[t].level < MaxDepth
    requires i < |ns| + 4 && o in SplitSpec(ns, t)[i].entries
    ensures Placed(SplitSpec(ns, t), i, SplitSpec(ns, t)[i].entries[o])
  {
    var ns2 := SplitSpec(ns, t);
    var f := |ns|;
    SplitShape(ns, t);
    SplitEntries(ns, t, i, o);
    var b := ns2[i].entries[o];
    if i < f && i != t {
      assert EntryPlaced(ns, i, o);
      if ns[i].firstChild.Some? {
        FirstFitExtends(ns, ns2, i, b);
      }
    } else if i == t {
      assert EntryPlaced(ns, t, o);
      FirstFitIsQuadrantFit(ns2, t, b);
    } else {
      var k := i - f;
      assert ns2[i] == SplitChild(ns[t], t, k);
    }
  }

  /** After splitting a leaf `SplitLoc` names the one node that holds each object. */
  lemma SplitLocated(ns: seq<TreeNode>, loc: map<ObjectId, nat>, t: nat)
    requires Located(ns, loc) && t < |ns|
    ensures Located(SplitSpec(ns, t), SplitLoc(ns, loc, t))
  {
    var ns2 := SplitSpec(ns, t);
    var loc2 := SplitLoc(ns, loc, t);
    forall o | o in loc2
      ensures loc2[o] < |ns2| && o in ns2[loc2[o]].entries
    {
      SplitEntries(ns, t, loc2[o], o);
    }
    forall i, o | 0 <= i < |ns2| && o in ns2[i].entries
      ensures o in loc2 && loc2[o] == i
    {
      SplitEntries(ns, t, i, o);
    }
  }

  /** Splitting a leaf keeps every object, with the bounds it was stored with, at a node where it
      may be stored; objects of the leaf move into its new children or stay, all others stay. */
  lemma SplitIndexed(ns: seq<TreeNode>, loc: map<ObjectId, nat>, t: nat)
    requires Indexed(ns, loc) && t < |ns| && ns[t].firstChild.None? && ns[t].level < MaxDepth
    ensures Indexed(SplitSpec(ns, t), SplitLoc(ns, loc, t))
    ensures Stored(SplitSpec(ns, t), SplitLoc(ns, loc, t)) == Stored(ns, loc)
    ensures forall o :: o in loc ==> MovedDown(ns, loc, SplitSpec(ns, t), SplitLoc(ns, loc, t), o)
  {
    var ns2 := SplitSpec(ns, t);
    var loc2 := SplitLoc(ns, loc, t);
    var f := |ns|;
    SplitShape(ns, t);
    SplitPlaced(ns, t);
    SplitLocated(ns, loc, t);
    forall o | o in loc
      ensures Stored(ns2, loc2)[o] == Stored(ns, loc)[o]
      ensures MovedDown(ns, loc, ns2, loc2, o)
    {
      SplitEntries(ns, t, loc2[o], o);
      if loc2[o] != loc[o] {
        ChildAncestor(ns2, t, loc2[o] - f);
      }
    }
    var m2, m := Stored(ns2, loc2), Stored(ns, loc);
    assert m2.Keys == m.Keys;
    assert forall o :: o in m ==> m2[o] == m[o];
    assert m2 == m;
  }

  // ---------------------------------------------------------------------------------------------
  // Storing and deleting one entry

  /** `ns2` differs from `ns` at most in what the nodes store. */
  ghost predicate SameShape(ns: seq<TreeNode>, ns2: seq<TreeNode>) {
    |ns2| == |ns| && forall i :: 0 <= i < |ns| ==> ns2[i] == ns[i].(entries := ns2[i].entries)
  }

  /** Changing only what the nodes store keeps the tree well formed, and extends it trivially. */
  lemma SameShapeWellFormed(ns: seq<TreeNode>, ns2: seq<TreeNode>)
    requires WellFormed(ns) && SameShape(ns, ns2)
    ensures WellFormed(ns2) && Extends(ns, ns2)
    ensures forall i, b :: 0 <= i < |ns| ==> FirstFit(ns2, i, b) == FirstFit(ns, i, b)
  {
    forall i | 0 < i < |ns2|
      ensures LinkedToParent(ns2, i)
    {
      assert LinkedToParent(ns, i);
    }
    forall i | 0 <= i < |ns2|
      ensures LinkedToChildren(ns2, i)
    {
      assert LinkedToChildren(ns, i);
      if ns[i].firstChild.Some? {
        forall k | 0 <= k < 4
          ensures ChildLinked(ns2, i, k)
        {
          assert ChildLinked(ns, i, k);
        }
      }
    }
  }

  /** Storing a new object at a node where it may be stored keeps the tree indexed. */
  lemma PutIndexed(ns: seq<TreeNode>, loc: map<ObjectId, nat>, t: nat, o: ObjectId, b: Rect)
    requires Indexed(ns, loc) && t < |ns| && o !in loc && Placed(ns, t, b)
    ensures var ns2 := ns[t := ns[t].(entries := ns[t].entries[o := b])];
      Indexed(ns2, loc[o := t]) && Extends(ns, ns2) && Stored(ns2, loc[o := t]) == Stored(ns, loc)[o := b]
  {
    var ns2 := ns[t := ns[t].(entries := ns[t].entries[o := b])];
    var loc2 := loc[o := t];
    SameShapeWellFormed(ns, ns2);
    forall i, x | 0 <= i < |ns2|
      ensures EntryPlaced(ns2, i, x)
    {
      if i != t || x != o {
        assert EntryPlaced(ns, i, x);
      }
    }
    var m2, m := Stored(ns2, loc2), Stored(ns, loc)[o := b];
    assert m2.Keys == m.Keys;
    assert forall x :: x in m ==> m2[x] == m[x];
  }

  /** Deleting a stored object from the node that holds it keeps the tree indexed and forgets
      exactly that object. */
  lemma DeleteIndexed(ns: seq<TreeNode>, loc: map<ObjectId, nat>, o: ObjectId)
    requires Indexed(ns, loc) && o in loc
    ensures var ns2 := ns[loc[o] := ns[loc[o]].(entries := ns[loc[o]].entries - {o})];
      Indexed(ns2, loc - {o}) && Extends(ns, ns2) && Stored(ns2, loc - {o}) == Stored(ns, loc) - {o}
  {
    var t := loc[o];
    var ns2 := ns[t := ns[t].(entries := ns[t].entries - {o})];
    var loc2 := loc - {o};
    SameShapeWellFormed(ns, ns2);
    forall i, x | 0 <= i < |ns2|
      ensures EntryPlaced(ns2, i, x)
    {
      assert EntryPlaced(ns, i, x);
    }
    var m2, m := Stored(ns2, loc2), Stored(ns, loc) - {o};
    assert m2.Keys == m.Keys;
    assert forall x :: x in m ==> m2[x] == m[x];
  }

  // ---------------------------------------------------------------------------------------------
  // Retrieve

  /** `getTreeNode` returns the node itself, one of its children, its parent or `None`. */
  lemma GetTreeNodeCases(ns: seq<TreeNode>, n: nat, b: Option<Rect>)
    requires WellFormed(ns) && n < |ns|
    ensures var g := GetTreeNode(ns, n, b);
      g.None? || g == Some(n) ||
      (g.value < n && ns[g.value].level < ns[n].level) ||
      (n < g.value < |ns| && ns[g.value].level > ns[n].level)
  {
    if n > 0 {
      assert LinkedToParent(ns, n);
    }
    var g := GetTreeNode(ns, n, b);
    if g.Some? && g.value != n && g != ns[n].parent {
      assert LinkedToChildren(ns, n);
      ChildAncestor(ns, n, g.value - ns[n].firstChild.value);
      AncestorLevel(ns, n, g.value);
    }
  }

  /** The objects `retrieve` reports as candidates near object `o`, asked at node `n`: the node's
      own objects, plus those of all children when the node `getTreeNode` picks for `o`'s stored
      bounds is this node, an ancestor or none, or those of the deeper node it picks. The reported
      list is modelled by the set of its elements; `RetrieveNoDuplicates` shows that the parts a
      node concatenates are disjoint, so in an indexed tree the list repeats nothing. At a
      childless root where `getTreeNode` gives `None` the code as written fails; this definition
      reports the root's own objects there. */
  function Retrieve(ns: seq<TreeNode>, n: nat, o: ObjectId): set<ObjectId>
    requires WellFormed(ns) && n < |ns|
    decreases |ns| - n, 1
  {
    var g := GetTreeNode(ns, n, Lookup(ns[n].entries, o));
    GetTreeNodeCases(ns, n, Lookup(ns[n].entries, o));
    if (g == Some(n) || g.None? || ns[g.value].level < ns[n].level) && ns[n].firstChild.Some? then
      ChildrenFollow(ns, n);
      RetrieveChildren(ns, ns[n].firstChild.value, o) + ns[n].entries.Keys
    else if g.Some? && ns[g.value].level > ns[n].level then
      Retrieve(ns, g.value, o) + ns[n].entries.Keys
    else
      ns[n].entries.Keys
  }

  /** What `retrieve` collects from the four children `f` .. `f + 3` of a node, one after the
      other. */
  function RetrieveChildren(ns: seq<TreeNode>, f: nat, o: ObjectId): set<ObjectId>
    requires WellFormed(ns) && f + 4 <= |ns|
    decreases |ns| - f, 2
  {
    (Retrieve(ns, f, o) + Retrieve(ns, f + 1, o)) + (Retrieve(ns, f + 2, o) + Retrieve(ns, f + 3, o))
  }

  /** For an object stored in the tree, or absent from it, `getTreeNode` on its stored bounds
      never picks a child. */
  lemma StoredBoundsStayPut(ns: seq<TreeNode>, n: nat, o: ObjectId)
    requires WellFormed(ns) && AllPlaced(ns) && n < |ns|
    ensures var g := GetTreeNode(ns, n, Lookup(ns[n].entries, o)); g == Some(n) || g == ns[n].parent
  {
    if o in ns[n].entries {
      assert EntryPlaced(ns, n, o);
    }
  }

  function Indicator(p: bool): nat {
    if p then 1 else 0
  }

  /** A node strictly below `n` lies in the subtree of exactly one child of `n`. */
  lemma ChildSubtreeCount(ns: seq<TreeNode>, n: nat, c: nat)
    requires WellFormed(ns) && n < |ns| && c < |ns| && ns[n].firstChild.Some?
    ensures var f := ns[n].firstChild.value;
      Indicator(Ancestor(ns, n, c) && c != n) ==
        Indicator(Ancestor(ns, f, c)) + Indicator(Ancestor(ns, f + 1, c)) +
        Indicator(Ancestor(ns, f + 2, c)) + Indicator(Ancestor(ns, f + 3, c))
  {
    var f := ns[n].firstChild.value;
    assert LinkedToChildren(ns, n);
    if Ancestor(ns, n, c) && c != n {
      var k := ChildOnPath(ns, n, c);
      if k != 0 && Ancestor(ns, f, c) { SiblingSubtreesDisjoint(ns, n, 0, k, c); }
      if k != 1 && Ancestor(ns, f + 1, c) { SiblingSubtreesDisjoint(ns, n, 1, k, c); }
      if k != 2 && Ancestor(ns, f + 2, c) { SiblingSubtreesDisjoint(ns, n, 2, k, c); }
      if k != 3 && Ancestor(ns, f + 3, c) { SiblingSubtreesDisjoint(ns, n, 3, k, c); }
    } else {
      if Ancestor(ns, f, c) { InChildSubtree(ns, n, 0, c); }
      if Ancestor(ns, f + 1, c) { InChildSubtree(ns, n, 1, c); }
      if Ancestor(ns, f + 2, c) { InChildSubtree(ns, n, 2, c); }
      if Ancestor(ns, f + 3, c) { InChildSubtree(ns, n, 3, c); }
    }
  }

  /** A node in the subtree of a child of `n` lies strictly below `n`. */
  lemma InChildSubtree(ns: seq<TreeNode>, n: nat, k: nat, c: nat)
    requires WellFormed(ns) && n < |ns| && c < |ns| && ns[n].firstChild.Some? && k < 4
    requires Ancestor(ns, ns[n].firstChild.value + k, c)
    ensures Ancestor(ns, n, c) && c != n
  {
    var f := ns[n].firstChild.value;
    ChildAncestor(ns, n, k);
    AncestorTransitive(ns, n, f + k, c);
    AncestorLevel(ns, f + k, c);
    assert LinkedToChildren(ns, n);
  }

  /** In an indexed tree `retrieve` at a node with children collects the node's own objects and
      all of its children's. */
  lemma RetrieveInner(ns: seq<TreeNode>, n: nat, f: nat, o: ObjectId)
    requires WellFormed(ns) && AllPlaced(ns) && n < |ns| && ns[n].firstChild == Some(f)
    ensures n < f && f + 4 <= |ns|
    ensures Retrieve(ns, n, o) == RetrieveChildren(ns, f, o) + ns[n].entries.Keys
  {
    StoredBoundsStayPut(ns, n, o);
    var g := GetTreeNode(ns, n, Lookup(ns[n].entries, o));
    assert g == Some(n) || g == ns[n].parent;
    if n > 0 {
      assert LinkedToParent(ns, n);
    }
    assert g.Some? ==> ns[g.value].level <= ns[n].level;
    ChildrenFollow(ns, n);
  }

  /** In an indexed tree `retrieve` at a leaf reports the leaf's own objects. */
  lemma RetrieveLeaf(ns: seq<TreeNode>, n: nat, o: ObjectId)
    requires WellFormed(ns) && AllPlaced(ns) && n < |ns| && ns[n].firstChild.None?
    ensures Retrieve(ns, n, o) == ns[n].entries.Keys
  {
    StoredBoundsStayPut(ns, n, o);
    var g := GetTreeNode(ns, n, Lookup(ns[n].entries, o));
    assert g == Some(n) || g == ns[n].parent;
    if n > 0 {
      assert LinkedToParent(ns, n);
    }
    assert g.Some? ==> ns[g.value].level <= ns[n].level;
  }

  /** Object `x` is stored in the subtree of node `n`. */
  ghost predicate InSubtree(ns: seq<TreeNode>, loc: map<ObjectId, nat>, n: nat, x: ObjectId) {
    x in loc && Ancestor(ns, n, loc[x])
  }

  lemma {:induction false} RetrieveSubtree(ns: seq<TreeNode>, loc: map<ObjectId, nat>, n: nat, o: ObjectId, x: ObjectId)
    requires Indexed(ns, loc) && n < |ns|
    ensures x in Retrieve(ns, n, o) <==> InSubtree(ns, loc, n, x)
    decreases |ns| - n, 1
  {
    if ns[n].firstChild.Some? {
      var f := ns[n].firstChild.value;
      RetrieveInner(ns, n, f, o);
      RetrievePair(ns, loc, f, f + 1, o, x);
      RetrievePair(ns, loc, f + 2, f + 3, o, x);
      SubtreeSplits(ns, loc, n, x);
    } else {
      RetrieveLeaf(ns, n, o);
      if InSubtree(ns, loc, n, x) && loc[x] != n {
        var k := ChildOnPath(ns, n, loc[x]);
      }
    }
  }

  lemma SubtreeSplits(ns: seq<TreeNode>, loc: map<ObjectId, nat>, n: nat, x: ObjectId)
    requires Located(ns, loc) && WellFormed(ns) && n < |ns| && ns[n].firstChild.Some?
    ensures n < ns[n].firstChild.value && ns[n].firstChild.value + 4 <= |ns|
    ensures var f := ns[n].firstChild.value;
      InSubtree(ns, loc, n, x) <==>
        x in ns[n].entries || InSubtree(ns, loc, f, x) || InSubtree(ns, loc, f + 1, x) ||
        InSubtree(ns, loc, f + 2, x) || InSubtree(ns, loc, f + 3, x)
  {
    ChildrenFollow(ns, n);
    if x in loc {
      ChildSubtreeCount(ns, n, loc[x]);
    }
  }

  lemma {:induction false} RetrievePair(ns: seq<TreeNode>, loc: map<ObjectId, nat>, c: nat, d: nat, o: ObjectId, x: ObjectId)
    requires Indexed(ns, loc) && d == c + 1 && d < |ns|
    ensures x in Retrieve(ns, c, o) + Retrieve(ns, d, o) <==> InSubtree(ns, loc, c, x) || InSubtree(ns, loc, d, x)
    decreases |ns| - c, 2
  {
    RetrieveSubtree(ns, loc, c, o, x);
    RetrieveSubtree(ns, loc, d, o, x);
  }

  /** Retrieving at the root reports every object of the tree and nothing else. */
  lemma RetrieveAll(ns: seq<TreeNode>, loc: map<ObjectId, nat>, o: ObjectId)
    requires Indexed(ns, loc)
    ensures Retrieve(ns, 0, o) == loc.Keys
  {
    forall x
      ensures x in Retrieve(ns, 0, o) <==> x in loc
    {
      RetrieveSubtree(ns, loc, 0, o, x);
      if x in loc {
        RootAncestor(ns, loc[x]);
      }
    }
  }

  /** In an indexed tree the parts a node with children concatenates (the results of its four
      children and its own objects) are pairwise disjoint, so `retrieve` reports no object twice. */
  lemma RetrieveNoDuplicates(ns: seq<TreeNode>, loc: map<ObjectId, nat>, n: nat, o: ObjectId)
    requires Indexed(ns, loc) && n < |ns| && ns[n].firstChild.Some?
    ensures var f := ns[n].firstChild.value;
      f + 4 <= |ns| &&
      (forall c, d :: f <= c < d < f + 4 ==> Retrieve(ns, c, o) !! Retrieve(ns, d, o)) &&
      (forall c :: f <= c < f + 4 ==> Retrieve(ns, c, o) !! ns[n].entries.Keys)
  {
    var f := ns[n].firstChild.value;
    ChildrenFollow(ns, n);
    forall c, d | f <= c < d < f + 4
      ensures Retrieve(ns, c, o) !! Retrieve(ns, d, o)
    {
      forall x | x in Retrieve(ns, c, o) && x in Retrieve(ns, d, o)
        ensures false
      {
        RetrieveSubtree(ns, loc, c, o, x);
        RetrieveSubtree(ns, loc, d, o, x);
        SiblingSubtreesDisjoint(ns, n, c - f, d - f, loc[x]);
      }
    }
    forall c | f <= c < f + 4
      ensures Retrieve(ns, c, o) !! ns[n].entries.Keys
    {
      forall x | x in Retrieve(ns, c, o) && x in ns[n].entries
        ensures false
      {
        RetrieveSubtree(ns, loc, c, o, x);
        ChildAncestor(ns, n, c - f);
        AncestorLevel(ns, n, c);
        AncestorLevel(ns, c, n);
      }
    }
  }
}

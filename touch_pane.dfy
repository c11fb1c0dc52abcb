/** The touch pane of the older API: it keeps a set of registered action groups, indexes them in a
    spatial index covering the pane, and on every animation frame records which pairs of groups
    collide and which are in each other's proximity.

    Each action group owns two sets, the groups it collides with and the groups in its
    proximity. Both are modelled here as relations over group identities held by the pane:
    `(a, b) in colliding` stands for "`b` is in `a`'s set of colliding groups". */
module TouchPane {
  import opened Geometry
  import opened Outcomes
  import opened QuadTreeSpec
  import QuadTree

  /** A relation in which every pair appears in both orders. */
  ghost predicate Symmetric(r: set<(ObjectId, ObjectId)>) {
    forall a, b :: (a, b) in r ==> (b, a) in r
  }

  // ---------------------------------------------------------------------------------------------
  // What one visit of an ordered pair does

  /** How a frame classifies an ordered pair of groups from their bounds in the scene. */
  datatype Kind = Colliding | Near | Apart

  /** The tests of the frame for the pair `(this, other)`: the bounds intersect, or else the bounds
      of `this` grown by the full proximity threshold intersect those of `other`. */
  function Classify(a: Rect, b: Rect, threshold: real): (k: Kind)
    ensures k == Colliding <==> Intersects(a, b)
    ensures k == Apart <==> !Intersects(a, b) && !Intersects(Grow(a, threshold), b)
  {
    if Intersects(a, b) then Colliding
    else if Intersects(Grow(a, threshold), b) then Near
    else Apart
  }

  /** What the two sets of `a` say about `b`. */
  datatype Link = Link(colliding: bool, near: bool)

  function LinkOf(colliding: set<(ObjectId, ObjectId)>, proximity: set<(ObjectId, ObjectId)>,
                  a: ObjectId, b: ObjectId): Link
  {
    Link((a, b) in colliding, (a, b) in proximity)
  }

  /** The effect of one visit on the link of the visited pair: a collision is recorded (and a
      proximity left as it was); nearness ends a collision and records proximity; being apart
      ends proximity and leaves a collision as it was. */
  function Step(s: Link, k: Kind): (t: Link)
    ensures t.colliding <==> k == Colliding || (k == Apart && s.colliding)
    ensures t.near <==> k == Near || (k == Colliding && s.near)
  {
    match k
    case Colliding => s.(colliding := true)
    case Near => Link(false, true)
    case Apart => s.(near := false)
  }

  /** Visiting a pair twice in a row with the same classification changes nothing the second time. */
  lemma StepIdempotent(s: Link, k: Kind)
    ensures Step(Step(s, k), k) == Step(s, k)
  {
  }

  /** The two sets are not kept exclusive: a pair in proximity that starts to collide is in both. */
  lemma StepNotExclusive()
    ensures Step(Link(false, true), Colliding) == Link(true, true)
  {
  }

  /** A visit, if the frame makes one. */
  function Run(s: Link, v: Option<Kind>): Link {
    if v.Some? then Step(s, v.value) else s
  }

  /** The link of a pair after a frame, which visits the pair in each order at most once, in an
      order of its hash sets that the model leaves open. */
  predicate Reached(s0: Link, s: Link, v1: Option<Kind>, v2: Option<Kind>) {
    s == Run(Run(s0, v1), v2) || s == Run(Run(s0, v2), v1)
  }

  /** The visit the frame made of `(a, b)`, if `(a, b)` is among the visited pairs. */
  function VisitOf(visited: set<(ObjectId, ObjectId)>, a: ObjectId, b: ObjectId,
                   boundsOf: ObjectId -> Rect, threshold: real): Option<Kind>
  {
    if (a, b) in visited then Some(Classify(boundsOf(a), boundsOf(b), threshold)) else None
  }

  /** Every pair has gone from its link in `(c0, p0)` to its link in `(c, p)` by visiting the
      pairs in `visited`, each once. */
  ghost predicate Progress(c0: set<(ObjectId, ObjectId)>, p0: set<(ObjectId, ObjectId)>,
                           c: set<(ObjectId, ObjectId)>, p: set<(ObjectId, ObjectId)>,
                           visited: set<(ObjectId, ObjectId)>, boundsOf: ObjectId -> Rect, threshold: real)
  {
    forall a, b :: Reached(LinkOf(c0, p0, a, b), LinkOf(c, p, a, b),
                           VisitOf(visited, a, b, boundsOf, threshold), VisitOf(visited, b, a, boundsOf, threshold))
  }

  /** The ordered pairs a frame visits: each registered group `a`, against each indexed group
      other than itself. */
  function Pairs(groups: set<ObjectId>, indexed: set<ObjectId>): set<(ObjectId, ObjectId)> {
    set a, b | a in groups && b in indexed && a != b :: (a, b)
  }

  /** The pairs visited for one group `a` against the candidates in `candidates`. */
  function Row(a: ObjectId, candidates: set<ObjectId>): set<(ObjectId, ObjectId)> {
    set b | b in candidates && b != a :: (a, b)
  }

  // ---------------------------------------------------------------------------------------------
  // What a frame amounts to

  /** Before a frame nothing has been visited and every pair has its initial link. */
  lemma ProgressStart(c: set<(ObjectId, ObjectId)>, p: set<(ObjectId, ObjectId)>,
                      boundsOf: ObjectId -> Rect, threshold: real)
    ensures Progress(c, p, c, p, {}, boundsOf, threshold)
  {
  }

  /** Visiting `(x, y)` once more, with the effect on both orders that `PairStep` has, keeps the
      account of the frame. */
  lemma {:induction false} StepProgress(c0: set<(ObjectId, ObjectId)>, p0: set<(ObjectId, ObjectId)>,
                                        c: set<(ObjectId, ObjectId)>, p: set<(ObjectId, ObjectId)>,
                                        c2: set<(ObjectId, ObjectId)>, p2: set<(ObjectId, ObjectId)>,
                                        visited: set<(ObjectId, ObjectId)>, boundsOf: ObjectId -> Rect,
                                        threshold: real, x: ObjectId, y: ObjectId)
    requires Progress(c0, p0, c, p, visited, boundsOf, threshold)
    requires x != y && (x, y) !in visited
    requires var k := Classify(boundsOf(x), boundsOf(y), threshold);
      LinkOf(c2, p2, x, y) == Step(LinkOf(c, p, x, y), k) && LinkOf(c2, p2, y, x) == Step(LinkOf(c, p, y, x), k)
    requires forall a, b :: (a, b) != (x, y) && (a, b) != (y, x) ==> LinkOf(c2, p2, a, b) == LinkOf(c, p, a, b)
    ensures Progress(c0, p0, c2, p2, visited + {(x, y)}, boundsOf, threshold)
  {
    var v2 := visited + {(x, y)};
    forall a, b
      ensures Reached(LinkOf(c0, p0, a, b), LinkOf(c2, p2, a, b),
                      VisitOf(v2, a, b, boundsOf, threshold), VisitOf(v2, b, a, boundsOf, threshold))
    {
      assert Reached(LinkOf(c0, p0, a, b), LinkOf(c, p, a, b),
                     VisitOf(visited, a, b, boundsOf, threshold), VisitOf(visited, b, a, boundsOf, threshold));
      if (a, b) == (x, y) {
        assert VisitOf(visited, a, b, boundsOf, threshold) == None;
      } else if (a, b) == (y, x) {
        assert VisitOf(visited, b, a, boundsOf, threshold) == None;
      } else {
        assert VisitOf(v2, a, b, boundsOf, threshold) == VisitOf(visited, a, b, boundsOf, threshold);
        assert VisitOf(v2, b, a, boundsOf, threshold) == VisitOf(visited, b, a, boundsOf, threshold);
      }
    }
  }

  /** The two tests are symmetric between non-empty bounds under a non-negative threshold, so
      both orders of a pair are classified alike. */
  lemma ClassifySymmetric(a: Rect, b: Rect, threshold: real)
    requires threshold >= 0.0 && !Empty(a) && !Empty(b)
    ensures Classify(a, b, threshold) == Classify(b, a, threshold)
  {
    IntersectsSymmetric(a, b);
    GrownIntersectsSymmetric(a, b, threshold);
  }

  /** A frame settles every visited pair of non-empty groups: whatever order the hash sets impose,
      its link afterwards is one step from its link before, by its classification now. */
  lemma {:induction false} FrameSettlesPair(c0: set<(ObjectId, ObjectId)>, p0: set<(ObjectId, ObjectId)>,
                                            c: set<(ObjectId, ObjectId)>, p: set<(ObjectId, ObjectId)>,
                                            visited: set<(ObjectId, ObjectId)>, boundsOf: ObjectId -> Rect,
                                            threshold: real, a: ObjectId, b: ObjectId)
    requires Progress(c0, p0, c, p, visited, boundsOf, threshold)
    requires threshold >= 0.0 && !Empty(boundsOf(a)) && !Empty(boundsOf(b))
    requires (a, b) in visited || (b, a) in visited
    ensures LinkOf(c, p, a, b) == Step(LinkOf(c0, p0, a, b), Classify(boundsOf(a), boundsOf(b), threshold))
  {
    var k := Classify(boundsOf(a), boundsOf(b), threshold);
    ClassifySymmetric(boundsOf(a), boundsOf(b), threshold);
    StepIdempotent(LinkOf(c0, p0, a, b), k);
    assert Reached(LinkOf(c0, p0, a, b), LinkOf(c, p, a, b),
                   VisitOf(visited, a, b, boundsOf, threshold), VisitOf(visited, b, a, boundsOf, threshold));
  }

  /** A pair the frame does not visit in either order, such as a group with itself or two groups
      neither of which is indexed, keeps its link. */
  lemma {:induction false} FrameKeepsUnvisited(c0: set<(ObjectId, ObjectId)>, p0: set<(ObjectId, ObjectId)>,
                                               c: set<(ObjectId, ObjectId)>, p: set<(ObjectId, ObjectId)>,
                                               visited: set<(ObjectId, ObjectId)>, boundsOf: ObjectId -> Rect,
                                               threshold: real, a: ObjectId, b: ObjectId)
    requires Progress(c0, p0, c, p, visited, boundsOf, threshold)
    requires (a, b) !in visited && (b, a) !in visited
    ensures LinkOf(c, p, a, b) == LinkOf(c0, p0, a, b)
  {
    assert Reached(LinkOf(c0, p0, a, b), LinkOf(c, p, a, b),
                   VisitOf(visited, a, b, boundsOf, threshold), VisitOf(visited, b, a, boundsOf, threshold));
  }

  /** The frame's proximity test agrees with the spatial index: between non-empty bounds, the
      bounds of one grown by the threshold meet the other exactly when the proximity bounds the
      index keeps for both (each grown by half the threshold) meet. */
  lemma NearMeansProximityBoundsMeet(a: Rect, b: Rect, threshold: real)
    requires threshold >= 0.0 && !Empty(a) && !Empty(b)
    ensures Intersects(Grow(a, threshold), b) <==>
            Intersects(ProximityBounds(a, threshold), ProximityBounds(b, threshold))
  {
  }

  /** The contents of an index rebuilt from the groups in `done`, each with its bounds now. */
  function IndexedGroups(done: set<ObjectId>, boundsOf: ObjectId -> Rect): map<ObjectId, Rect> {
    map g | g in done :: ProximityBounds(boundsOf(g), DefaultThreshold)
  }

  lemma IndexedGroupsAdd(done: set<ObjectId>, g: ObjectId, boundsOf: ObjectId -> Rect)
    ensures IndexedGroups(done + {g}, boundsOf) == IndexedGroups(done, boundsOf)[g := ProximityBounds(boundsOf(g), DefaultThreshold)]
  {
  }

  lemma PairsAddRow(done: set<ObjectId>, a: ObjectId, indexed: set<ObjectId>)
    ensures Pairs(done + {a}, indexed) == Pairs(done, indexed) + Row(a, indexed)
  {
  }

  lemma RowAdd(a: ObjectId, seen: set<ObjectId>, b: ObjectId)
    ensures Row(a, seen + {b}) == if b == a then Row(a, seen) else Row(a, seen) + {(a, b)}
  {
  }

  // ---------------------------------------------------------------------------------------------
  // The pane

  class TouchPane {
    /** The registered action groups. */
    var groups: set<ObjectId>
    /** The spatial index of the registered groups. */
    var tree: QuadTree.QuadTree
    /** Which groups each group collides with. */
    var colliding: set<(ObjectId, ObjectId)>
    /** Which groups are in each group's proximity. */
    var proximity: set<(ObjectId, ObjectId)>
    /** The pane itself, as it appears among the ancestors of a node. */
    const id: ObjectId

    ghost predicate Valid()
      reads this, tree
    {
      tree.Valid() && tree.loc.Keys <= groups && Symmetric(colliding) && Symmetric(proximity)
    }

    /** A pane with no groups, whose index covers `region`, the pane's bounds in the scene. */
    constructor(id: ObjectId, region: Rect)
      ensures Valid() && this.id == id && groups == {} && colliding == {} && proximity == {}
      ensures fresh(tree) && tree.Contents() == map[] && tree.Threshold() == DefaultThreshold
    {
      this.id := id;
      groups := {};
      tree := new QuadTree.QuadTree(region);
      colliding := {};
      proximity := {};
    }

    /** `register(actionGroup)`: a new group joins the set at once; then the chain of its
        ancestors, nearest first, must reach this pane, or the call fails with the group left in
        the set but not indexed. A group already registered is left alone. */
    method Register(g: ObjectId, ancestors: seq<ObjectId>, bounds: Rect) returns (r: Outcome)
      requires Valid()
      modifies this`groups, tree
      ensures Valid() && groups == old(groups) + {g}
      ensures r == Pass <==> g in old(groups) || id in ancestors
      ensures r != Pass ==> r == Fail(IllegalArgument)
      ensures tree.Contents() ==
        if g !in old(groups) && id in ancestors
        then old(tree.Contents())[g := ProximityBounds(bounds, old(tree.Threshold()))]
        else old(tree.Contents())
      ensures tree.Threshold() == old(tree.Threshold())
    {
      if g in groups {
        return Pass;
      }
      groups := groups + {g};
      var i := 0;
      while i < |ancestors| && ancestors[i] != id
        invariant i <= |ancestors| && id !in ancestors[..i]
      {
        i := i + 1;
      }
      if i == |ancestors| {
        assert ancestors[..i] == ancestors;
        return Fail(IllegalArgument);
      }
      tree.Insert(g, bounds);
      r := Pass;
    }

    /** `deregister(actionGroup)`: the group leaves the set and the index, whatever its bounds
        are now. Its links to other groups stay as they are. */
    method Deregister(g: ObjectId)
      requires Valid()
      modifies this`groups, tree
      ensures Valid() && groups == old(groups) - {g}
      ensures tree.Contents() == old(tree.Contents()) - {g} && tree.Threshold() == old(tree.Threshold())
    {
      groups := groups - {g};
      tree.Remove(g);
    }

    /** The width and height listeners: a fresh index covering the pane's new bounds `region`,
        holding every registered group, each with its bounds now, under the default threshold. */
    method Resize(region: Rect, boundsOf: ObjectId -> Rect)
      requires Valid()
      modifies this`tree
      ensures Valid() && fresh(tree) && tree.Threshold() == DefaultThreshold
      ensures tree.Contents() == IndexedGroups(groups, boundsOf)
    {
      var t := new QuadTree.QuadTree(region);
      var todo := groups;
      while todo != {}
        invariant todo <= groups && fresh(t) && t.Valid() && t.Threshold() == DefaultThreshold
        invariant t.Contents() == IndexedGroups(groups - todo, boundsOf)
        decreases todo
      {
        ghost var some := Element(todo);
        var g :| g in todo;
        t.Insert(g, boundsOf(g));
        IndexedGroupsAdd(groups - todo, g, boundsOf);
        assert groups - todo + {g} == groups - (todo - {g});
        todo := todo - {g};
      }
      assert groups - todo == groups;
      tree := t;
    }

    /** `handle(now)` of the animation timer: bring the index up to date with the bounds of the
        groups now, then visit every registered group against every indexed group other than
        itself. Every pair's link ends where `Progress` says; `FrameSettlesPair` gives it exactly. */
    method Frame(boundsOf: ObjectId -> Rect)
      requires Valid()
      modifies this`colliding, this`proximity, tree
      ensures Valid() && tree.loc.Keys == old(tree.loc.Keys) && tree.Threshold() == old(tree.Threshold())
      ensures forall x :: x in tree.Contents() ==> tree.Contents()[x] == ProximityBounds(boundsOf(x), tree.Threshold())
      ensures Progress(old(colliding), old(proximity), colliding, proximity,
                       Pairs(groups, tree.loc.Keys), boundsOf, tree.Threshold())
    {
      tree.Update(boundsOf);
      VisitAll(boundsOf);
    }

    /** The loop over the registered groups. */
    method VisitAll(boundsOf: ObjectId -> Rect)
      requires Valid()
      modifies this`colliding, this`proximity
      ensures Valid()
      ensures Progress(old(colliding), old(proximity), colliding, proximity,
                       Pairs(groups, tree.loc.Keys), boundsOf, tree.Threshold())
    {
      var threshold := tree.Threshold();
      ghost var visited: set<(ObjectId, ObjectId)> := {};
      ProgressStart(colliding, proximity, boundsOf, threshold);
      var todo := groups;
      while todo != {}
        invariant todo <= groups && tree.Valid() && Symmetric(colliding) && Symmetric(proximity)
        invariant visited == Pairs(groups - todo, tree.loc.Keys)
        invariant Progress(old(colliding), old(proximity), colliding, proximity, visited, boundsOf, threshold)
        decreases todo
      {
        ghost var some := Element(todo);
        var a :| a in todo;
        visited := VisitFrom(a, boundsOf, old(colliding), old(proximity), visited);
        PairsAddRow(groups - todo, a, tree.loc.Keys);
        assert groups - todo + {a} == groups - (todo - {a});
        todo := todo - {a};
      }
      assert groups - todo == groups;
    }

    /** The loop over the neighbours the index reports for group `a`, skipping `a` itself. */
    method VisitFrom(a: ObjectId, boundsOf: ObjectId -> Rect, ghost c0: set<(ObjectId, ObjectId)>,
                     ghost p0: set<(ObjectId, ObjectId)>, ghost visited: set<(ObjectId, ObjectId)>)
      returns (ghost visited': set<(ObjectId, ObjectId)>)
      requires tree.Valid() && Symmetric(colliding) && Symmetric(proximity) && forall b :: (a, b) !in visited
      requires Progress(c0, p0, colliding, proximity, visited, boundsOf, tree.Threshold())
      modifies this`colliding, this`proximity
      ensures Symmetric(colliding) && Symmetric(proximity) && visited' == visited + Row(a, tree.loc.Keys)
      ensures Progress(c0, p0, colliding, proximity, visited', boundsOf, tree.Threshold())
    {
      var threshold := tree.Threshold();
      var near := tree.Retrieve(a);
      var rest := near;
      visited' := visited;
      while rest != {}
        invariant rest <= near && Symmetric(colliding) && Symmetric(proximity)
        invariant visited' == visited + Row(a, near - rest)
        invariant Progress(c0, p0, colliding, proximity, visited', boundsOf, threshold)
        decreases rest
      {
        ghost var some := Element(rest);
        var b :| b in rest;
        RowAdd(a, near - rest, b);
        assert (a, b) !in visited';
        visited' := Visit(a, b, threshold, boundsOf, c0, p0, visited');
        assert near - rest + {b} == near - (rest - {b});
        rest := rest - {b};
      }
      assert near - rest == near;
    }

    /** One pass of the inner loop: a group is not compared with itself; any other pair is
        classified by the groups' bounds now and visited. */
    method Visit(a: ObjectId, b: ObjectId, threshold: real, boundsOf: ObjectId -> Rect,
                 ghost c0: set<(ObjectId, ObjectId)>, ghost p0: set<(ObjectId, ObjectId)>,
                 ghost visited: set<(ObjectId, ObjectId)>)
      returns (ghost visited': set<(ObjectId, ObjectId)>)
      requires Symmetric(colliding) && Symmetric(proximity) && (a, b) !in visited
      requires Progress(c0, p0, colliding, proximity, visited, boundsOf, threshold)
      modifies this`colliding, this`proximity
      ensures Symmetric(colliding) && Symmetric(proximity)
      ensures visited' == if a == b then visited else visited + {(a, b)}
      ensures Progress(c0, p0, colliding, proximity, visited', boundsOf, threshold)
    {
      visited' := visited;
      if a != b {
        ghost var c, p := colliding, proximity;
        PairStep(a, b, Classify(boundsOf(a), boundsOf(b), threshold));
        StepProgress(c0, p0, c, p, colliding, proximity, visited, boundsOf, threshold, a, b);
        visited' := visited + {(a, b)};
      }
    }

    /** One visit of `(a, b)` classified as `k`. Each set's `add` and `remove` reports whether it
        changed the set, and only then is the mirrored entry of the other group's set updated. */
    method PairStep(a: ObjectId, b: ObjectId, k: Kind)
      requires Symmetric(colliding) && Symmetric(proximity) && a != b
      modifies this`colliding, this`proximity
      ensures Symmetric(colliding) && Symmetric(proximity)
      ensures LinkOf(colliding, proximity, a, b) == Step(LinkOf(old(colliding), old(proximity), a, b), k)
      ensures LinkOf(colliding, proximity, b, a) == Step(LinkOf(old(colliding), old(proximity), b, a), k)
      ensures forall x, y :: (x, y) != (a, b) && (x, y) != (b, a) ==>
        LinkOf(colliding, proximity, x, y) == LinkOf(old(colliding), old(proximity), x, y)
    {
      match k
      case Colliding =>
        var added := (a, b) !in colliding;
        colliding := colliding + {(a, b)};
        if added {
          colliding := colliding + {(b, a)};
        }
      case Near =>
        var removed := (a, b) in colliding;
        colliding := colliding - {(a, b)};
        if removed {
          colliding := colliding - {(b, a)};
        }
        var added := (a, b) !in proximity;
        proximity := proximity + {(a, b)};
        if added {
          proximity := proximity + {(b, a)};
        }
      case Apart =>
        var removed := (a, b) in proximity;
        proximity := proximity - {(a, b)};
        if removed {
          proximity := proximity - {(b, a)};
        }
    }
  }
}

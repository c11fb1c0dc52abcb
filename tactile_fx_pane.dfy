/** The drag controller and configuration of the later touch pane control. Drags work as in the
    older control, except that a node that is not draggable ignores events altogether, the mouse
    handler ignores events synthesized from touch, a press records the grab point in the node's
    own coordinates, and a move sets the node's layout position. The pane validates its physics
    settings, keeps at most one bond per target node, cleans up after a node that stops being
    active, and lets another touch point take over a drag. */
module TactileFxPane {
  import opened Geometry
  import opened Outcomes

  type NodeId = int
  type PaneId = int

  const NullId: int := -1
  const MouseId: int := -2

  /** The event types the handlers distinguish, as in the older control. */
  datatype Phase = Pressed | Moved | Released | Other

  /** What the pane makes happen outside the model: `toFront()` calls and the `AREA_LEFT` and
      `PROXIMITY_LEFT` events fired at `target` about `other`. */
  datatype PaneEvent = ToFront(node: NodeId) | AreaLeft(target: NodeId, other: NodeId) | ProximityLeft(target: NodeId, other: NodeId)

  // ---------------------------------------------------------------------------------------------
  // Bonds

  /** A bond of a node to `bondNode`; `id` stands for the identity of the bond object, whose class
      is not part of this model. */
  datatype Bond = Bond(id: int, bondNode: NodeId)

  /** No two bonds of the set have the same target. */
  predicate OnePerTarget(bonds: set<Bond>) {
    forall b1, b2 :: b1 in bonds && b2 in bonds && b1.bondNode == b2.bondNode ==> b1 == b2
  }

  /** The set after adding `bond`: the bond of the same target, if any, is replaced. */
  function AddBond(bonds: set<Bond>, bond: Bond): (r: set<Bond>)
    ensures bond in r && r <= bonds + {bond}
    ensures forall b :: b in bonds && b.bondNode != bond.bondNode ==> b in r
    ensures forall b :: b in r && b.bondNode == bond.bondNode ==> b == bond
    ensures OnePerTarget(bonds) ==> OnePerTarget(r)
  {
    (set b | b in bonds && b.bondNode != bond.bondNode) + {bond}
  }

  /** The bond set attached to a node, whose `add` is overridden. */
  class BondSet {
    var bonds: set<Bond>

    ghost predicate Valid()
      reads this
    {
      OnePerTarget(bonds)
    }

    constructor()
      ensures Valid() && bonds == {}
    {
      bonds := {};
    }

    /** `add(bond)`: find a bond with the same target, remove it, then add `bond`. The set always
        changes, so the call always answers `true`. */
    method Add(bond: Bond) returns (added: bool)
      requires Valid()
      modifies this
      ensures Valid() && bonds == AddBond(old(bonds), bond) && added
    {
      var same := set b | b in bonds && b.bondNode == bond.bondNode;
      if same != {} {
        ghost var some := Element(same);
        var found :| found in same;
        assert same == {found};
        bonds := bonds - {found};
        assert bonds == set b | b in old(bonds) && b.bondNode != bond.bondNode;
      } else {
        forall b | b in bonds
          ensures b.bondNode != bond.bondNode
        {
          assert b in same <==> b.bondNode == bond.bondNode;
        }
        assert bonds == set b | b in old(bonds) && b.bondNode != bond.bondNode;
      }
      added := bond !in bonds;
      bonds := bonds + {bond};
    }
  }

  // ---------------------------------------------------------------------------------------------
  // Handing a drag over

  /** `bind(event)` as written. The walk from the event's target, given as the chain of the target
      and its ancestors, succeeds at the first node whose parent is the draggable, so it never
      accepts the draggable itself as the target. */
  function BindAsWritten(touchId: int, phase: Phase, id: int, chain: seq<NodeId>, draggable: NodeId): Outcome
    requires |chain| > 0
  {
    if id == touchId then Pass
    else if draggable !in chain[1..] then Fail(IllegalArgument)
    else if phase != Pressed then Fail(IllegalArgument)
    else Pass
  }

  /** The outcome of `bind` as documented: the target must be the draggable or have it as an
      ancestor, and the event must be a press. */
  function BindOutcome(touchId: int, phase: Phase, id: int, chain: seq<NodeId>, draggable: NodeId): (r: Outcome)
    requires |chain| > 0
    ensures r == Pass <==> id == touchId || (draggable in chain && phase == Pressed)
    ensures r != Pass ==> r == Fail(IllegalArgument)
  {
    if id == touchId then Pass
    else if draggable !in chain then Fail(IllegalArgument)
    else if phase != Pressed then Fail(IllegalArgument)
    else Pass
  }

  /** A touch point pressing the draggable node itself cannot take over its drag as written,
      although the documentation admits the draggable as the target. */
  lemma BindAsWrittenRejectsDraggable()
    ensures BindAsWritten(NullId, Pressed, 7, [3, 1], 3) == Fail(IllegalArgument)
    ensures BindOutcome(NullId, Pressed, 7, [3, 1], 3) == Pass
  {
    assert [3, 1][1..] == [1];
  }

  /** That is the only difference: when the target is not the draggable, both agree. */
  lemma BindAgreesBelowDraggable(touchId: int, phase: Phase, id: int, chain: seq<NodeId>, draggable: NodeId)
    requires |chain| > 0 && chain[0] != draggable
    ensures BindAsWritten(touchId, phase, id, chain, draggable) == BindOutcome(touchId, phase, id, chain, draggable)
  {
    assert draggable in chain <==> draggable in chain[1..] by {
      assert chain == [chain[0]] + chain[1..];
    }
  }

  // ---------------------------------------------------------------------------------------------
  // Where a drag puts a node

  /** The bounds a move gives a node with bounds `b` whose grab point lies `(ox, oy)` from its
      minimum corner, for the pointer at `(x, y)` in a pane of layout bounds `pane`. */
  function DraggedBounds(b: Rect, ox: real, oy: real, x: real, y: real, pane: Rect, collide: bool): Rect {
    b.(minX := AxisTarget(x, ox, b.width, pane.minX, pane.MaxX(), collide),
       minY := AxisTarget(y, oy, b.height, pane.minY, pane.MaxY(), collide))
  }

  /** With colliding borders a node that fits in the pane is dragged to bounds inside it, and a
      node already inside follows the pointer exactly; without them the grab point stays under
      the pointer. */
  lemma DraggedBoundsInPane(b: Rect, ox: real, oy: real, x: real, y: real, pane: Rect, collide: bool)
    requires !Empty(b) && !Empty(pane)
    ensures var d := DraggedBounds(b, ox, oy, x, y, pane, collide);
      d.width == b.width && d.height == b.height &&
      (collide && b.width <= pane.width && b.height <= pane.height ==> Contains(pane, d)) &&
      (collide && Contains(pane, b.(minX := x - ox, minY := y - oy)) ==> d.minX == x - ox && d.minY == y - oy) &&
      (!collide ==> d.minX + ox == x && d.minY + oy == y)
  {
    var d := DraggedBounds(b, ox, oy, x, y, pane, collide);
    assert Empty(d) == Empty(b);
  }

  // ---------------------------------------------------------------------------------------------
  // The events a node that stops being active causes

  /** The events fired for the partners in `order`: for each, one at the node about the partner and
      one at the partner about the node, `AREA_LEFT` for colliding partners and `PROXIMITY_LEFT`
      for partners in proximity. */
  function LeftEvents(n: NodeId, order: seq<NodeId>, area: bool): (r: seq<PaneEvent>)
    ensures |r| == 2 * |order|
  {
    if order == [] then []
    else LeftEvents(n, order[..|order| - 1], area) + LeftPair(n, order[|order| - 1], area)
  }

  /** The two events about node `n` and its partner `c`. */
  function LeftPair(n: NodeId, c: NodeId, area: bool): seq<PaneEvent> {
    if area then [AreaLeft(n, c), AreaLeft(c, n)] else [ProximityLeft(n, c), ProximityLeft(c, n)]
  }

  lemma LeftEventsAppend(n: NodeId, order: seq<NodeId>, c: NodeId, area: bool)
    ensures LeftEvents(n, order + [c], area) == LeftEvents(n, order, area) + LeftPair(n, c, area)
  {
    assert (order + [c])[..|order|] == order;
  }

  /** Listing one more element of a set. */
  lemma EnumeratesAppend(order: seq<NodeId>, s: set<NodeId>, c: NodeId)
    requires Enumerates(order, s) && c !in s
    ensures Enumerates(order + [c], s + {c})
  {
  }

  /** Every partner hears it has been left and the node hears it has left every partner, and no
      event concerns anything else. */
  lemma {:induction false} LeftEventsExactly(n: NodeId, order: seq<NodeId>, area: bool, e: PaneEvent)
    ensures e in LeftEvents(n, order, area) <==>
      exists c :: c in order && e in LeftPair(n, c, area)
    decreases |order|
  {
    if order != [] {
      var init := order[..|order| - 1];
      var c := order[|order| - 1];
      LeftEventsExactly(n, init, area, e);
      assert order == init + [c];
      if e in LeftEvents(n, order, area) && e !in LeftEvents(n, init, area) {
        assert c in order;
      }
      if exists c' :: c' in order && e in LeftPair(n, c', area) {
        var c' :| c' in order && e in LeftPair(n, c', area);
        if c' != c {
          assert c' in init;
        }
      }
    }
  }

  /** `order` lists the elements of `s`, each once. */
  ghost predicate Enumerates(order: seq<NodeId>, s: set<NodeId>) {
    (forall x :: x in order <==> x in s) && |order| == |s|
  }

  // ---------------------------------------------------------------------------------------------
  // Nodes, drag contexts and the pane

  /** A child of the pane with the attached properties the pane reads and writes. */
  class Node {
    const id: NodeId
    var inUse: bool
    var anchor: Option<NodeId>
    var vector: Vec
    var draggable: bool
    var goToForeground: bool
    var layoutX: real
    var layoutY: real
    var translateX: real
    var translateY: real
    /** `getBoundsInLocal()`. */
    var extent: Rect
    /** The nodes it collides with and the nodes in its proximity. */
    var colliding: set<NodeId>
    var proximity: set<NodeId>
    var tracker: Option<PaneId>

    /** `getBoundsInParent()`, with no transforms besides the translation. */
    function ParentBounds(): Rect
      reads this
    {
      Rect(layoutX + translateX + extent.minX, layoutY + translateY + extent.minY, extent.width, extent.height)
    }

    constructor(id: NodeId, extent: Rect)
      ensures this.id == id && this.extent == extent && layoutX == 0.0 && layoutY == 0.0
      ensures translateX == 0.0 && translateY == 0.0
      ensures !inUse && anchor == None && vector == Zero && draggable && goToForeground
      ensures colliding == {} && proximity == {} && tracker == None
    {
      this.id := id;
      this.extent := extent;
      layoutX, layoutY, translateX, translateY := 0.0, 0.0, 0.0, 0.0;
      inUse := false;
      anchor := None;
      vector := Zero;
      draggable := true;
      goToForeground := true;
      colliding := {};
      proximity := {};
      tracker := None;
    }

    /** The overridden setter of `draggable`: a node that is not draggable is not in use either. */
    method SetDraggable(d: bool)
      modifies this`draggable, this`inUse
      ensures draggable == d && inUse == (old(inUse) && d)
      ensures !draggable ==> !inUse
    {
      if !d {
        inUse := false;
      }
      draggable := d;
    }
  }

  /** The drag state of one node, created by the pane the node is a child of. */
  class DragContext {
    const draggable: Node
    const pane: TactilePane
    var localX: real
    var localY: real
    var touchId: int

    constructor(node: Node, pane: TactilePane)
      ensures draggable == node && this.pane == pane && touchId == NullId
    {
      draggable := node;
      this.pane := pane;
      localX := 0.0;
      localY := 0.0;
      touchId := NullId;
    }

    /** `bind(event)`, corrected: a press by touch point `id` at `(x, y)` in the coordinates of the
        node, whose target and its ancestors form `chain`, takes over the drag. A touch point
        that already holds it changes nothing; a target outside the draggable or an event that is
        not a press fails and changes nothing. */
    method Bind(phase: Phase, id: int, chain: seq<NodeId>, x: real, y: real) returns (r: Outcome)
      requires |chain| > 0
      modifies this`touchId, this`localX, this`localY, draggable, pane`log
      ensures r == BindOutcome(old(touchId), phase, id, chain, draggable.id)
      ensures if r == Pass && id != old(touchId) then touchId == id && pane.PressedNode(this, x, y)
              else touchId == old(touchId) && localX == old(localX) && localY == old(localY) &&
                   unchanged(draggable) && pane.log == old(pane.log)
    {
      if id == touchId {
        return Pass;
      }
      var i := 0;
      while chain[i] != draggable.id
        invariant i < |chain| && draggable.id !in chain[..i]
        decreases |chain| - i
      {
        if i + 1 == |chain| {
          assert chain[..i + 1] == chain;
          return Fail(IllegalArgument);
        }
        i := i + 1;
      }
      if phase != Pressed {
        return Fail(IllegalArgument);
      }
      touchId := id;
      pane.Press(this, x, y);
      r := Pass;
    }
  }

  class TactilePane {
    var bordersCollide: bool
    /** `getLayoutBounds()` of the pane. */
    var layoutBounds: Rect
    /** What the pane made happen, in order. */
    var log: seq<PaneEvent>
    var friction: real
    var bounce: real
    var slide: real
    var vectorThreshold: real

    /** The physics settings lie in their documented ranges. */
    ghost predicate Valid()
      reads this
    {
      0.0 <= friction <= 1.0 && 0.0 <= bounce <= 1.0 && slide >= 0.0 && vectorThreshold >= 0.0
    }

    constructor(layoutBounds: Rect)
      ensures Valid() && !bordersCollide && this.layoutBounds == layoutBounds && log == []
      ensures friction == 0.95 && bounce == 0.70 && slide == 1.6 && vectorThreshold == 1.6
    {
      bordersCollide := false;
      this.layoutBounds := layoutBounds;
      log := [];
      friction := 0.95;
      bounce := 0.70;
      slide := 1.6;
      vectorThreshold := 1.6;
    }

    // -------------------------------------------------------------------------------------------
    // Settings

    /** `setFrictionMultiplier`: a value outside `[0, 1]` is refused and the old value kept. */
    method SetFriction(v: real) returns (r: Outcome)
      requires Valid()
      modifies this`friction
      ensures Valid() && (r == Pass <==> 0.0 <= v <= 1.0) && (r != Pass ==> r == Fail(IllegalArgument))
      ensures friction == if r == Pass then v else old(friction)
    {
      if v < 0.0 || v > 1.0 {
        return Fail(IllegalArgument);
      }
      friction := v;
      r := Pass;
    }

    /** `setBounceMultiplier`: a value outside `[0, 1]` is refused and the old value kept. */
    method SetBounce(v: real) returns (r: Outcome)
      requires Valid()
      modifies this`bounce
      ensures Valid() && (r == Pass <==> 0.0 <= v <= 1.0) && (r != Pass ==> r == Fail(IllegalArgument))
      ensures bounce == if r == Pass then v else old(bounce)
    {
      if v < 0.0 || v > 1.0 {
        return Fail(IllegalArgument);
      }
      bounce := v;
      r := Pass;
    }

    /** `setSlideMultiplier`: a negative value is refused and the old value kept. */
    method SetSlide(v: real) returns (r: Outcome)
      requires Valid()
      modifies this`slide
      ensures Valid() && (r == Pass <==> v >= 0.0) && (r != Pass ==> r == Fail(IllegalArgument))
      ensures slide == if r == Pass then v else old(slide)
    {
      if v < 0.0 {
        return Fail(IllegalArgument);
      }
      slide := v;
      r := Pass;
    }

    /** `setVectorThreshold`: a negative value is refused and the old value kept. */
    method SetVectorThreshold(v: real) returns (r: Outcome)
      requires Valid()
      modifies this`vectorThreshold
      ensures Valid() && (r == Pass <==> v >= 0.0) && (r != Pass ==> r == Fail(IllegalArgument))
      ensures vectorThreshold == if r == Pass then v else old(vectorThreshold)
    {
      if v < 0.0 {
        return Fail(IllegalArgument);
      }
      vectorThreshold := v;
      r := Pass;
    }

    // -------------------------------------------------------------------------------------------
    // Dragging

    /** The touch handler. A node that is not draggable ignores every event. Otherwise a press of
        a free context binds touch point `touchPoint` and runs the press handling at `(x, y)` in
        the node's coordinates; a move by the holder runs the move handling towards `(x, y)` in
        the pane's coordinates; a release by the holder runs the release handling and frees the
        context. Only events acted on are consumed. */
    method HandleTouch(ctx: DragContext, phase: Phase, touchPoint: int, x: real, y: real)
      returns (consumed: bool)
      requires ctx.pane == this
      modifies ctx, ctx.draggable, this`log
      ensures consumed <==> old(ctx.draggable.draggable) && Guard(phase, touchPoint, old(ctx.touchId))
      ensures Acted(ctx, consumed, phase, touchPoint, x, y)
    {
      if !ctx.draggable.draggable {
        return false;
      }
      consumed := HandlePointer(ctx, phase, touchPoint, x, y);
    }

    /** The mouse handler: the same for the pointer `MouseId`, except that events synthesized from
        touch are ignored as well. */
    method HandleMouse(ctx: DragContext, phase: Phase, synthesized: bool, x: real, y: real)
      returns (consumed: bool)
      requires ctx.pane == this
      modifies ctx, ctx.draggable, this`log
      ensures consumed <==> old(ctx.draggable.draggable) && !synthesized && Guard(phase, MouseId, old(ctx.touchId))
      ensures Acted(ctx, consumed, phase, MouseId, x, y)
    {
      if !ctx.draggable.draggable || synthesized {
        return false;
      }
      consumed := HandlePointer(ctx, phase, MouseId, x, y);
    }

    /** Whether an event of `phase` by pointer `id` is for a context held by `bound`. */
    static predicate Guard(phase: Phase, id: int, bound: int) {
      (phase == Pressed && bound == NullId) || (phase != Pressed && phase != Other && bound == id)
    }

    /** The effect of a handler that `acted` or not on an event. */
    twostate predicate Acted(ctx: DragContext, acted: bool, phase: Phase, id: int, x: real, y: real)
      reads this, ctx, ctx.draggable
    {
      var n := ctx.draggable;
      if acted && phase == Pressed then
        ctx.touchId == id && PressedNode(ctx, x, y)
      else if acted && phase == Moved then
        ctx.touchId == old(ctx.touchId) && ctx.localX == old(ctx.localX) && ctx.localY == old(ctx.localY) &&
        MovedNode(ctx, x, y)
      else if acted then
        ctx.touchId == NullId && ctx.localX == old(ctx.localX) && ctx.localY == old(ctx.localY) &&
        !n.inUse && Kept(n) && n.anchor == old(n.anchor) && n.vector == old(n.vector) &&
        n.layoutX == old(n.layoutX) && n.layoutY == old(n.layoutY) && log == old(log)
      else
        ctx.touchId == old(ctx.touchId) && ctx.localX == old(ctx.localX) && ctx.localY == old(ctx.localY) &&
        n.inUse == old(n.inUse) && Kept(n) && n.anchor == old(n.anchor) && n.vector == old(n.vector) &&
        n.layoutX == old(n.layoutX) && n.layoutY == old(n.layoutY) && log == old(log)
    }

    /** The properties of `n` a drag never changes. */
    twostate predicate Kept(n: Node)
      reads n
    {
      n.draggable == old(n.draggable) && n.goToForeground == old(n.goToForeground) &&
      n.translateX == old(n.translateX) && n.translateY == old(n.translateY) && n.extent == old(n.extent) &&
      n.colliding == old(n.colliding) && n.proximity == old(n.proximity) && n.tracker == old(n.tracker)
    }

    /** `handleTouchPressed`: the node loses its anchor, is in use, stops, remembers the grab point
        `(x, y)` in its own coordinates, and comes to the front if it is set to. */
    twostate predicate PressedNode(ctx: DragContext, x: real, y: real)
      reads this, ctx, ctx.draggable
    {
      var n := ctx.draggable;
      Kept(n) && n.layoutX == old(n.layoutX) && n.layoutY == old(n.layoutY) &&
      n.anchor == None && n.inUse && n.vector == Zero && ctx.localX == x && ctx.localY == y &&
      log == old(log) + (if n.goToForeground then [ToFront(n.id)] else [])
    }

    /** `handleTouchMoved` towards `(x, y)` in the pane's coordinates: a node without an anchor
        moves so that its grab point is at `(x, y)`, its bounds clamped to the pane when borders
        collide; an anchored node stays. */
    twostate predicate MovedNode(ctx: DragContext, x: real, y: real)
      reads this, ctx, ctx.draggable
    {
      var n := ctx.draggable;
      var b := old(n.ParentBounds());
      Kept(n) && n.inUse == old(n.inUse) && n.anchor == old(n.anchor) && n.vector == old(n.vector) && log == old(log) &&
      if old(n.anchor).None? then
        n.ParentBounds() == DraggedBounds(b, ctx.localX - n.extent.minX, ctx.localY - n.extent.minY, x, y, layoutBounds, bordersCollide)
      else
        n.layoutX == old(n.layoutX) && n.layoutY == old(n.layoutY)
    }

    method HandlePointer(ctx: DragContext, phase: Phase, id: int, x: real, y: real)
      returns (consumed: bool)
      requires ctx.pane == this
      modifies ctx, ctx.draggable, this`log
      ensures consumed <==> Guard(phase, id, old(ctx.touchId))
      ensures Acted(ctx, consumed, phase, id, x, y)
    {
      consumed := false;
      match phase {
        case Pressed =>
          if ctx.touchId == NullId {
            ctx.touchId := id;
            Press(ctx, x, y);
            consumed := true;
          }
        case Moved =>
          if ctx.touchId == id {
            Move(ctx, x, y);
            consumed := true;
          }
        case Released =>
          if ctx.touchId == id {
            Release(ctx);
            ctx.touchId := NullId;
            consumed := true;
          }
        case Other =>
      }
    }

    method Press(ctx: DragContext, x: real, y: real)
      modifies ctx`localX, ctx`localY, ctx.draggable, this`log
      ensures PressedNode(ctx, x, y)
    {
      var n := ctx.draggable;
      n.anchor := None;
      n.inUse := true;
      n.vector := Zero;
      ctx.localX := x;
      ctx.localY := y;
      if n.goToForeground {
        log := log + [ToFront(n.id)];
      }
    }

    method Move(ctx: DragContext, px: real, py: real)
      modifies ctx.draggable`layoutX, ctx.draggable`layoutY
      ensures MovedNode(ctx, px, py)
    {
      var n := ctx.draggable;
      if n.anchor.None? {
        var x := px - ctx.localX - n.translateX;
        var y := py - ctx.localY - n.translateY;
        if bordersCollide {
          var nodeBounds := n.ParentBounds();
          var deltaX := n.layoutX - nodeBounds.minX;
          var deltaY := n.layoutY - nodeBounds.minY;
          if x - deltaX < layoutBounds.minX {
            x := layoutBounds.minX + deltaX;
          } else if x - deltaX + nodeBounds.width > layoutBounds.MaxX() {
            x := layoutBounds.MaxX() - nodeBounds.width + deltaX;
          }
          if y - deltaY < layoutBounds.minY {
            y := layoutBounds.minY + deltaY;
          } else if y - deltaY + nodeBounds.height > layoutBounds.MaxY() {
            y := layoutBounds.MaxY() - nodeBounds.height + deltaY;
          }
        }
        n.layoutX := x;
        n.layoutY := y;
      }
    }

    /** `handleTouchReleased`: the node is no longer in use. */
    method Release(ctx: DragContext)
      modifies ctx.draggable`inUse
      ensures !ctx.draggable.inUse
    {
      ctx.draggable.inUse := false;
    }

    // -------------------------------------------------------------------------------------------
    // A node stops being active

    /** The listener of the active nodes when `node` is removed: `AREA_LEFT` both ways for every
        colliding partner, then `PROXIMITY_LEFT` both ways for every partner in proximity, each in
        the order of the node's hash set, returned as `collidingOrder` and `proximityOrder`. The
        node's own two sets are emptied and its tracker cleared; the partners' sets are not
        touched. Before any of this the listener calls `insert` on the pane's spatial index with
        the node that is leaving, re-indexing it rather than removing it; the spatial index is
        not part of this model. */
    method Deactivate(node: Node) returns (collidingOrder: seq<NodeId>, proximityOrder: seq<NodeId>)
      modifies this`log, node`colliding, node`proximity, node`tracker
      ensures Enumerates(collidingOrder, old(node.colliding)) && Enumerates(proximityOrder, old(node.proximity))
      ensures log == old(log) + LeftEvents(node.id, collidingOrder, true) + LeftEvents(node.id, proximityOrder, false)
      ensures node.colliding == {} && node.proximity == {} && node.tracker == None
    {
      collidingOrder := FireLeft(node.id, node.colliding, true);
      node.colliding := {};
      proximityOrder := FireLeft(node.id, node.proximity, false);
      node.proximity := {};
      node.tracker := None;
    }

    /** One of the two loops: fire the events about each partner in `partners`, in an order of
        the set's choosing, which is returned. */
    method FireLeft(n: NodeId, partners: set<NodeId>, area: bool) returns (order: seq<NodeId>)
      modifies this`log
      ensures Enumerates(order, partners) && log == old(log) + LeftEvents(n, order, area)
    {
      order := [];
      var fired := [];
      var todo := partners;
      while todo != {}
        invariant todo <= partners && Enumerates(order, partners - todo)
        invariant fired == LeftEvents(n, order, area) && log == old(log)
        decreases todo
      {
        ghost var some := Element(todo);
        var c :| c in todo;
        fired := fired + LeftPair(n, c, area);
        LeftEventsAppend(n, order, c, area);
        EnumeratesAppend(order, partners - todo, c);
        order := order + [c];
        assert partners - todo + {c} == partners - (todo - {c});
        todo := todo - {c};
      }
      assert partners - todo == partners;
      log := log + fired;
    }
  }
}

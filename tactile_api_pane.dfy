/** The drag controller of the older touch pane control: every child gets a drag context whose
    `touchId` records which pointer drags it (`NullId` for none, `MouseId` for the mouse cursor,
    otherwise a touch point), handlers that route press, move and release events to it, and the
    attached properties a drag updates. Nodes are registered with a pane, whose physics then
    tracks them, through the `tracker` attached property. */
module TactileApiPane {
  import opened Geometry
  import opened Outcomes

  type NodeId = int
  type PaneId = int

  /** The `touchId` of a drag context that no pointer holds. */
  const NullId: int := -1
  /** The `touchId` of a drag context the mouse cursor holds. */
  const MouseId: int := -2

  /** The event types the handlers distinguish: `TOUCH_PRESSED`/`MOUSE_PRESSED`,
      `TOUCH_MOVED`/`MOUSE_DRAGGED`, `TOUCH_RELEASED`/`MOUSE_RELEASED`, and any other. */
  datatype Phase = Pressed | Moved | Released | Other

  // ---------------------------------------------------------------------------------------------
  // Which pointer holds a drag

  /** The `touchId` after an event of `phase` from pointer `id` when `bound` held the drag: a press
      claims a free context; a release by the holder frees it. */
  function NextTouchId(phase: Phase, id: int, bound: int): (r: int)
    ensures r != bound ==> (phase == Pressed && bound == NullId && r == id) ||
                           (phase == Released && id == bound && r == NullId)
    ensures phase == Pressed && bound == NullId ==> r == id
    ensures phase == Released && id == bound ==> r == NullId
  {
    if phase == Pressed && bound == NullId then id
    else if phase == Released && id == bound then NullId
    else bound
  }

  /** An event as the context sees it: its phase and the pointer that caused it. */
  datatype PointerEvent = PointerEvent(phase: Phase, id: int)

  /** The `touchId` after a series of events. */
  function Replay(bound: int, events: seq<PointerEvent>): int
    decreases |events|
  {
    if events == [] then bound
    else Replay(NextTouchId(events[0].phase, events[0].id, bound), events[1..])
  }

  /** Once a pointer holds a drag, it keeps it whatever other pointers do, until it is released. */
  lemma {:induction false} HeldUntilReleased(bound: int, events: seq<PointerEvent>)
    requires bound != NullId
    requires forall k :: 0 <= k < |events| ==> events[k] != PointerEvent(Released, bound)
    ensures Replay(bound, events) == bound
  {
    if events != [] {
      assert events[0] != PointerEvent(Released, bound);
      HeldUntilReleased(bound, events[1..]);
    }
  }

  /** A free context pressed by pointer `id` is held by it through any events that are not its
      release, and is free again after that release. */
  lemma {:induction false} PressHoldRelease(id: int, during: seq<PointerEvent>)
    requires id != NullId
    requires forall k :: 0 <= k < |during| ==> during[k] != PointerEvent(Released, id)
    ensures Replay(NullId, [PointerEvent(Pressed, id)] + during) == id
    ensures Replay(NullId, [PointerEvent(Pressed, id)] + during + [PointerEvent(Released, id)]) == NullId
  {
    var evs := [PointerEvent(Pressed, id)] + during;
    assert evs[1..] == during;
    HeldUntilReleased(id, during);
    ReplayAppend(NullId, evs, PointerEvent(Released, id));
  }

  lemma {:induction false} ReplayAppend(bound: int, events: seq<PointerEvent>, e: PointerEvent)
    ensures Replay(bound, events + [e]) == NextTouchId(e.phase, e.id, Replay(bound, events))
    decreases |events|
  {
    if events == [] {
      assert ([] + [e])[1..] == [];
    } else {
      assert (events + [e])[1..] == events[1..] + [e];
      ReplayAppend(NextTouchId(events[0].phase, events[0].id, bound), events[1..], e);
    }
  }

  // ---------------------------------------------------------------------------------------------
  // Where a move puts the node

  /** The layout position a move gives a node whose bounds were at `start` when grabbed at
      `pressedAt` is `start` plus the displacement of the pointer since the press, as long as the
      clamp does not intervene: either borders do not collide, or the node stays inside. The
      bounds in the parent land the node's translation further on (see `MovedNode`), so for an
      untranslated node they follow the pointer exactly. */
  lemma DragFollowsPointer(start: real, size: real, pressedAt: real, pointer: real, lo: real, hi: real, collide: bool)
    requires collide ==> lo <= start + (pointer - pressedAt) && start + (pointer - pressedAt) + size <= hi
    ensures AxisTarget(pointer, pressedAt - start, size, lo, hi, collide) == start + (pointer - pressedAt)
  {
  }

  // ---------------------------------------------------------------------------------------------
  // Nodes, drag contexts and the pane

  /** A child of the pane with the attached properties a drag reads and writes. */
  class Node {
    const id: NodeId
    var inUse: bool
    var anchor: Option<NodeId>
    var vector: Vec
    var draggable: bool
    var goToForeground: bool
    /** `getBoundsInParent()`: the layout bounds, placed at the layout position, shifted by the
        translation. */
    var bounds: Rect
    /** `getTranslateX()` and `getTranslateY()`. */
    var translateX: real
    var translateY: real

    /** A node with every attached property at its default and no translation. */
    constructor(id: NodeId, bounds: Rect)
      ensures this.id == id && this.bounds == bounds && translateX == 0.0 && translateY == 0.0
      ensures !inUse && anchor == None && vector == Zero && draggable && goToForeground
    {
      this.id := id;
      this.bounds := bounds;
      translateX := 0.0;
      translateY := 0.0;
      inUse := false;
      anchor := None;
      vector := Zero;
      draggable := true;
      goToForeground := true;
    }

    /** The overridden setter of `draggable`: a node that is not draggable is not in use either. */
    method SetDraggable(d: bool)
      modifies this`draggable, this`inUse
      ensures draggable == d && inUse == (old(inUse) && d)
      ensures !draggable ==> !inUse
    {
      if !d {
        inUse := false;
      }
      draggable := d;
    }

    /** The mouse event filter consumes a mouse event synthesized from touch and aimed at this
        draggable node, so that only the touch handler drags it. */
    predicate FilterConsumes(synthesized: bool, targetIsThis: bool)
      reads this
    {
      draggable && synthesized && targetIsThis
    }
  }

  /** The drag state of one node. */
  class DragContext {
    const draggable: Node
    var localX: real
    var localY: real
    var touchId: int

    constructor(node: Node)
      ensures draggable == node && touchId == NullId
    {
      draggable := node;
      localX := 0.0;
      localY := 0.0;
      touchId := NullId;
    }
  }

  class TactilePane {
    var bordersCollide: bool
    /** `getBoundsInLocal()` of the pane. */
    var paneBounds: Rect
    /** The nodes brought to the front by `toFront()`, in order. */
    var raised: seq<NodeId>

    constructor(paneBounds: Rect)
      ensures !bordersCollide && this.paneBounds == paneBounds && raised == []
    {
      bordersCollide := false;
      this.paneBounds := paneBounds;
      raised := [];
    }

    /** The touch handler for touch point `touchPoint` at scene point `(sceneX, sceneY)`. It
        consumes every press, move and release, including those it does nothing with. */
    method HandleTouch(ctx: DragContext, phase: Phase, touchPoint: int, sceneX: real, sceneY: real)
      returns (consumed: bool)
      modifies ctx, ctx.draggable, this`raised
      ensures consumed <==> phase != Other
      ensures ctx.touchId == NextTouchId(phase, touchPoint, old(ctx.touchId))
      ensures Acted(ctx, phase, touchPoint, sceneX, sceneY)
    {
      consumed := HandlePointer(ctx, phase, touchPoint, sceneX, sceneY);
    }

    /** A mouse event, `synthesized` from touch or not, aimed at the node itself (`targetIsThis`)
        or at one of its descendants. The node's filter sees it first; when the filter consumes it
        the node's own handler never runs, so the event is consumed and changes nothing. Any
        other event reaches the mouse handler, which is the touch handler for the pointer
        `MouseId`. */
    method HandleMouse(ctx: DragContext, phase: Phase, sceneX: real, sceneY: real, synthesized: bool, targetIsThis: bool)
      returns (consumed: bool)
      modifies ctx, ctx.draggable, this`raised
      ensures var filtered := old(ctx.draggable.FilterConsumes(synthesized, targetIsThis));
        (consumed <==> filtered || phase != Other) &&
        ctx.touchId == (if filtered then old(ctx.touchId) else NextTouchId(phase, MouseId, old(ctx.touchId))) &&
        Acted(ctx, if filtered then Other else phase, MouseId, sceneX, sceneY)
    {
      if ctx.draggable.FilterConsumes(synthesized, targetIsThis) {
        return true;
      }
      consumed := HandlePointer(ctx, phase, MouseId, sceneX, sceneY);
    }

    /** What an event did to the node: a press of a free context ran the press handling, a move by
        the holder the move handling, a release by the holder the release handling, and any other
        event nothing. */
    twostate predicate Acted(ctx: DragContext, phase: Phase, id: int, sceneX: real, sceneY: real)
      reads this, ctx, ctx.draggable
    {
      var n := ctx.draggable;
      if phase == Pressed && old(ctx.touchId) == NullId then
        PressedNode(ctx, sceneX, sceneY)
      else if phase == Moved && old(ctx.touchId) == id then
        MovedNode(ctx, sceneX, sceneY) && ctx.localX == old(ctx.localX) && ctx.localY == old(ctx.localY)
      else if phase == Released && old(ctx.touchId) == id then
        !n.inUse && n.anchor == old(n.anchor) && n.vector == old(n.vector) && n.bounds == old(n.bounds) &&
        Kept(n) && ctx.localX == old(ctx.localX) && ctx.localY == old(ctx.localY) && raised == old(raised)
      else
        n.inUse == old(n.inUse) && n.anchor == old(n.anchor) && n.vector == old(n.vector) &&
        n.bounds == old(n.bounds) && Kept(n) &&
        ctx.localX == old(ctx.localX) && ctx.localY == old(ctx.localY) && raised == old(raised)
    }

    /** The properties of a node that no pointer event changes: whether it is draggable, whether
        it comes to the front, and its translation. */
    twostate predicate Kept(n: Node)
      reads n
    {
      n.draggable == old(n.draggable) && n.goToForeground == old(n.goToForeground) &&
      n.translateX == old(n.translateX) && n.translateY == old(n.translateY)
    }

    /** `handleTouchPressed`: a draggable node loses its anchor, is in use, stops, and remembers
        where it was grabbed; it comes to the front if it is set to. A node that is not draggable is
        left alone, although its context has been claimed. */
    twostate predicate PressedNode(ctx: DragContext, sceneX: real, sceneY: real)
      reads this, ctx, ctx.draggable
    {
      var n := ctx.draggable;
      n.bounds == old(n.bounds) && Kept(n) &&
      if old(n.draggable) then
        n.anchor == None && n.inUse && n.vector == Zero &&
        ctx.localX == sceneX - n.bounds.minX && ctx.localY == sceneY - n.bounds.minY &&
        raised == old(raised) + (if n.goToForeground then [n.id] else [])
      else
        n.inUse == old(n.inUse) && n.anchor == old(n.anchor) && n.vector == old(n.vector) &&
        ctx.localX == old(ctx.localX) && ctx.localY == old(ctx.localY) && raised == old(raised)
    }

    /** `handleTouchMoved`: a draggable node without an anchor is relocated so that its grab
        point follows the pointer, clamped to the pane when borders collide; otherwise nothing
        moves. The relocation places the layout position, so the bounds in the parent land the
        node's translation further on. */
    twostate predicate MovedNode(ctx: DragContext, sceneX: real, sceneY: real)
      reads this, ctx, ctx.draggable
    {
      var n := ctx.draggable;
      var b := old(n.bounds);
      n.inUse == old(n.inUse) && n.anchor == old(n.anchor) && n.vector == old(n.vector) &&
      Kept(n) && raised == old(raised) &&
      n.bounds ==
        if old(n.draggable) && old(n.anchor).None? then
          b.(minX := AxisTarget(sceneX, ctx.localX, b.width, paneBounds.minX, paneBounds.MaxX(), bordersCollide) + n.translateX,
             minY := AxisTarget(sceneY, ctx.localY, b.height, paneBounds.minY, paneBounds.MaxY(), bordersCollide) + n.translateY)
        else b
    }

    method HandlePointer(ctx: DragContext, phase: Phase, id: int, sceneX: real, sceneY: real)
      returns (consumed: bool)
      modifies ctx, ctx.draggable, this`raised
      ensures consumed <==> phase != Other
      ensures ctx.touchId == NextTouchId(phase, id, old(ctx.touchId))
      ensures Acted(ctx, phase, id, sceneX, sceneY)
    {
      match phase {
        case Pressed =>
          if ctx.touchId == NullId {
            ctx.touchId := id;
            Press(ctx, sceneX, sceneY);
          }
        case Moved =>
          if ctx.touchId == id {
            Move(ctx, sceneX, sceneY);
          }
        case Released =>
          if ctx.touchId == id {
            Release(ctx);
            ctx.touchId := NullId;
          }
        case Other =>
          return false;
      }
      consumed := true;
    }

    method Press(ctx: DragContext, sceneX: real, sceneY: real)
      modifies ctx`localX, ctx`localY, ctx.draggable, this`raised
      ensures PressedNode(ctx, sceneX, sceneY)
    {
      var n := ctx.draggable;
      if n.draggable {
        n.anchor := None;
        n.inUse := true;
        n.vector := Zero;
        ctx.localX := sceneX - n.bounds.minX;
        ctx.localY := sceneY - n.bounds.minY;
        if n.goToForeground {
          raised := raised + [n.id];
        }
      }
    }

    method Move(ctx: DragContext, sceneX: real, sceneY: real)
      modifies ctx.draggable`bounds
      ensures MovedNode(ctx, sceneX, sceneY)
    {
      var n := ctx.draggable;
      if n.draggable && n.anchor.None? {
        var x := sceneX - ctx.localX;
        var y := sceneY - ctx.localY;
        if bordersCollide {
          if x < paneBounds.minX {
            x := paneBounds.minX;
          } else if x + n.bounds.width > paneBounds.MaxX() {
            x := paneBounds.MaxX() - n.bounds.width;
          }
          if y < paneBounds.minY {
            y := paneBounds.minY;
          } else if y + n.bounds.height > paneBounds.MaxY() {
            y := paneBounds.MaxY() - n.bounds.height;
          }
        }
        n.bounds := n.bounds.(minX := x + n.translateX, minY := y + n.translateY);
      }
    }

    /** `handleTouchReleased`: the node is no longer in use. */
    method Release(ctx: DragContext)
      modifies ctx.draggable`inUse
      ensures !ctx.draggable.inUse
    {
      ctx.draggable.inUse := false;
    }
  }

  // ---------------------------------------------------------------------------------------------
  // Registration

  /** Each node's `tracker` attached property, and the nodes each pane's physics tracks, as pairs
      `(pane, node)`. */
  function TrackedBy(tracker: map<NodeId, PaneId>): set<(PaneId, NodeId)> {
    set n | n in tracker :: (tracker[n], n)
  }

  /** The registration of the listed nodes with pane `p`, nodes listed later overriding. */
  function Registered(tracker: map<NodeId, PaneId>, p: PaneId, nodes: seq<NodeId>): (t: map<NodeId, PaneId>)
    ensures t.Keys == tracker.Keys + set n | n in nodes
    ensures forall n :: n in nodes ==> t[n] == p
    ensures forall n :: n in tracker && n !in nodes ==> t[n] == tracker[n]
  {
    tracker + map n | n in nodes :: p
  }

  /** The nodes among `nodes` that are registered with pane `p`. */
  function RegisteredWith(tracker: map<NodeId, PaneId>, p: PaneId, nodes: seq<NodeId>): set<NodeId> {
    set n | n in nodes && n in tracker && tracker[n] == p
  }

  lemma TrackedByPut(t: map<NodeId, PaneId>, n: NodeId, p: PaneId)
    requires n !in t
    ensures TrackedBy(t[n := p]) == TrackedBy(t) + {(p, n)}
  {
    var t2 := t[n := p];
    forall x | x in TrackedBy(t2)
      ensures x in TrackedBy(t) + {(p, n)}
    {
      var m :| m in t2 && x == (t2[m], m);
      if m != n {
        assert m in t && x == (t[m], m);
      }
    }
    forall x | x in TrackedBy(t) + {(p, n)}
      ensures x in TrackedBy(t2)
    {
      if x != (p, n) {
        var m :| m in t && x == (t[m], m);
        assert m in t2 && x == (t2[m], m);
      } else {
        assert n in t2 && x == (t2[n], n);
      }
    }
  }

  lemma TrackedByRemove(t: map<NodeId, PaneId>, n: NodeId)
    requires n in t
    ensures TrackedBy(t - {n}) == TrackedBy(t) - {(t[n], n)}
  {
    var t2 := t - {n};
    forall x | x in TrackedBy(t2)
      ensures x in TrackedBy(t) - {(t[n], n)}
    {
      var m :| m in t2 && x == (t2[m], m);
      assert m in t && x == (t[m], m);
    }
    forall x | x in TrackedBy(t) - {(t[n], n)}
      ensures x in TrackedBy(t2)
    {
      var m :| m in t && x == (t[m], m);
      assert m in t2 && x == (t2[m], m);
    }
  }

  lemma RemovePut(t: map<NodeId, PaneId>, n: NodeId, p: PaneId)
    ensures (t - {n})[n := p] == t[n := p]
  {
  }

  lemma RegisteredStep(t: map<NodeId, PaneId>, p: PaneId, nodes: seq<NodeId>, i: nat)
    requires i < |nodes|
    ensures Registered(t, p, nodes[..i + 1]) == Registered(t, p, nodes[..i])[nodes[i] := p]
  {
    assert nodes[..i + 1] == nodes[..i] + [nodes[i]];
  }

  lemma RegisteredWithStep(t: map<NodeId, PaneId>, p: PaneId, nodes: seq<NodeId>, i: nat)
    requires i < |nodes|
    ensures RegisteredWith(t, p, nodes[..i + 1]) ==
      RegisteredWith(t, p, nodes[..i]) + (if nodes[i] in t && t[nodes[i]] == p then {nodes[i]} else {})
  {
    assert nodes[..i + 1] == nodes[..i] + [nodes[i]];
  }

  /** `deregister(nodes...)` on pane `p` as written: every listed node leaves the physics of `p`
      and loses its tracker, whichever pane it is registered with. Gives the new trackers and
      the new tracked pairs. */
  function DeregisterAsWritten(tracker: map<NodeId, PaneId>, tracked: set<(PaneId, NodeId)>, p: PaneId,
                               nodes: seq<NodeId>): (map<NodeId, PaneId>, set<(PaneId, NodeId)>)
  {
    (tracker - (set n | n in nodes), tracked - (set n | n in nodes :: (p, n)))
  }

  /** Node 5 is registered with pane 2. Deregistering it at pane 1, as written, clears its tracker
      while pane 2 goes on tracking it: `getTracker` no longer names the pane the node is
      registered with, and a later `setTracker(node, null)` cannot reach that pane. */
  lemma DeregisterElsewhereLeavesTracked()
    ensures var t := map[5 := 2];
      var r := DeregisterAsWritten(t, TrackedBy(t), 1, [5]);
      5 !in r.0 && (2, 5) in r.1 && r.1 != TrackedBy(r.0)
  {
    var t := map[5 := 2];
    assert 5 in t && (t[5], 5) in TrackedBy(t);
  }

  /** For nodes registered with the pane that deregisters them, the code as written and the
      corrected deregistration agree. */
  lemma DeregisterAgreesAtOwnPane(tracker: map<NodeId, PaneId>, p: PaneId, nodes: seq<NodeId>)
    requires forall n :: n in nodes ==> n in tracker && tracker[n] == p
    ensures DeregisterAsWritten(tracker, TrackedBy(tracker), p, nodes).0 == tracker - RegisteredWith(tracker, p, nodes)
    ensures DeregisterAsWritten(tracker, TrackedBy(tracker), p, nodes).1 == TrackedBy(tracker - RegisteredWith(tracker, p, nodes))
  {
    var gone := RegisteredWith(tracker, p, nodes);
    forall n | n in nodes
      ensures n in gone
    {
    }
    assert gone == set n | n in nodes;
    var t2 := tracker - gone;
    var r := DeregisterAsWritten(tracker, TrackedBy(tracker), p, nodes).1;
    forall x | x in r
      ensures x in TrackedBy(t2)
    {
      var m :| m in tracker && x == (tracker[m], m);
      assert m in t2 && x == (t2[m], m);
    }
    forall x | x in TrackedBy(t2)
      ensures x in r
    {
      var m :| m in t2 && x == (t2[m], m);
      assert m in tracker && x == (tracker[m], m) && m !in nodes;
    }
  }

  /** The tracker properties and the physics of all panes. The physics of a pane tracks exactly the
      nodes whose tracker is that pane. */
  class Registry {
    var tracker: map<NodeId, PaneId>
    var tracked: set<(PaneId, NodeId)>

    ghost predicate Valid()
      reads this
    {
      tracked == TrackedBy(tracker)
    }

    constructor()
      ensures Valid() && tracker == map[]
    {
      tracker := map[];
      tracked := {};
    }

    /** `register(nodes...)` on pane `p`: each node leaves the pane it was registered with, if
        any, and is tracked by `p`. */
    method Register(p: PaneId, nodes: seq<NodeId>)
      requires Valid()
      modifies this
      ensures Valid() && tracker == Registered(old(tracker), p, nodes)
    {
      var i := 0;
      while i < |nodes|
        invariant i <= |nodes| && Valid()
        invariant tracker == Registered(old(tracker), p, nodes[..i])
      {
        RegisteredStep(old(tracker), p, nodes, i);
        Track(p, nodes[i]);
        i := i + 1;
      }
      assert nodes[..i] == nodes;
    }

    /** One pass of the registration loop: deregistration from the old pane, then tracking by `p`. */
    method Track(p: PaneId, n: NodeId)
      requires Valid()
      modifies this
      ensures Valid() && tracker == old(tracker)[n := p]
    {
      if n in tracker {
        Deregister(tracker[n], [n]);
        assert RegisteredWith(old(tracker), old(tracker)[n], [n]) == {n};
      }
      assert tracker == old(tracker) - {n};
      TrackedByPut(tracker, n, p);
      RemovePut(old(tracker), n, p);
      tracked := tracked + {(p, n)};
      tracker := tracker[n := p];
    }

    /** `deregister(nodes...)` on pane `p`, corrected: a node registered with `p` is no longer
        tracked by it and has no tracker; a node registered elsewhere is left alone. */
    method Deregister(p: PaneId, nodes: seq<NodeId>)
      requires Valid()
      modifies this
      ensures Valid() && tracker == old(tracker) - RegisteredWith(old(tracker), p, nodes)
    {
      var i := 0;
      while i < |nodes|
        invariant i <= |nodes| && Valid()
        invariant tracker == old(tracker) - RegisteredWith(old(tracker), p, nodes[..i])
      {
        var n := nodes[i];
        RegisteredWithStep(old(tracker), p, nodes, i);
        if n in tracker && tracker[n] == p {
          TrackedByRemove(tracker, n);
          tracked := tracked - {(p, n)};
          tracker := tracker - {n};
        }
        i := i + 1;
      }
      assert nodes[..i] == nodes;
    }

    /** `setTracker(node, pane)`: registration with `pane`, or, with no pane, deregistration from
        the pane the node is registered with. */
    method SetTracker(n: NodeId, pane: Option<PaneId>)
      requires Valid()
      modifies this
      ensures Valid()
      ensures tracker == if pane.Some? then old(tracker)[n := pane.value] else old(tracker) - {n}
    {
      if pane.None? {
        if n in tracker {
          Deregister(tracker[n], [n]);
          assert RegisteredWith(old(tracker), old(tracker)[n], [n]) == {n};
        }
      } else {
        Register(pane.value, [n]);
        assert Registered(old(tracker), pane.value, [n]) == old(tracker)[n := pane.value];
      }
    }
  }
}

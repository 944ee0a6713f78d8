/**
 * The interactive move grab: while it is set, the grabbed window follows
 * the pointer, pointer events reach clients without focus, and the grab
 * ends when neither the left button nor the left meta key is held.
 */
module MoveGrab {
  import opened Wrappers
  import opened Geometry

  type WindowId = nat
  type SurfaceId = nat

  /** A pointer focus: a surface and its location. */
  type Focus = Option<(SurfaceId, IntPoint)>

  /** Where and with which button the grab started. */
  datatype GrabStartData = GrabStartData(focus: Focus, button: nat, location: Point)

  datatype MotionEvent = MotionEvent(location: Point, serial: nat, time: nat)
  datatype RelativeMotionEvent = RelativeMotionEvent(delta: Point, deltaUnaccel: Point, utime: nat)
  datatype ButtonEvent = ButtonEvent(button: nat, pressed: bool, serial: nat, time: nat)
  datatype AxisFrame = AxisFrame(time: nat, horizontal: real, vertical: real)

  /** What the grab hands on to the pointer's clients. */
  datatype Forwarded =
    | MotionSent(focus: Focus, motion: MotionEvent)
    | RelativeMotionSent(focus: Focus, relative: RelativeMotionEvent)
    | ButtonSent(button: ButtonEvent)
    | AxisSent(frame: AxisFrame)

  /** BTN_LEFT and KEY_LEFTMETA of linux/input-event-codes.h. */
  const BtnLeft: nat := 0x110
  const KeyLeftMeta: nat := 125

  /** `s` without any occurrence of `w`, in the same order. */
  function Remove(s: seq<WindowId>, w: WindowId): (r: seq<WindowId>)
    decreases |s|
    ensures forall x :: x in r <==> x in s && x != w
    ensures |r| <= |s|
  {
    if s == [] then []
    else Remove(s[..|s| - 1], w) + if s[|s| - 1] == w then [] else [s[|s| - 1]]
  }

  /** Raising a window: it moves to the top of the stack (the end). */
  function Raise(s: seq<WindowId>, w: WindowId): seq<WindowId> {
    Remove(s, w) + [w]
  }

  /** Raising keeps every other window, in its order, and puts `w` on top
      exactly once. */
  lemma RaiseStack(s: seq<WindowId>, w: WindowId)
    ensures var r := Raise(s, w);
      && r[|r| - 1] == w
      && (forall x :: x in r <==> x in s || x == w)
      && Remove(r, w) == Remove(s, w)
      && w !in r[..|r| - 1]
  {
    var r := Raise(s, w);
    assert r[..|r| - 1] == Remove(s, w);
    RemoveIdempotent(s, w);
    assert r[..|r| - 1] == Remove(s, w);
  }

  lemma {:induction false} RemoveIdempotent(s: seq<WindowId>, w: WindowId)
    decreases |s|
    ensures Remove(Remove(s, w), w) == Remove(s, w)
  {
    if s != [] {
      var p := s[..|s| - 1];
      RemoveIdempotent(p, w);
      RemoveConcat(Remove(p, w), if s[|s| - 1] == w then [] else [s[|s| - 1]], w);
      if s[|s| - 1] != w {
        assert Remove([s[|s| - 1]], w) == Remove([], w) + [s[|s| - 1]] by {
          assert [s[|s| - 1]][..0] == [];
        }
      }
    }
  }

  lemma {:induction false} RemoveConcat(a: seq<WindowId>, b: seq<WindowId>, w: WindowId)
    decreases |b|
    ensures Remove(a + b, w) == Remove(a, w) + Remove(b, w)
  {
    if b == [] {
      assert a + b == a;
    } else {
      var k := |b| - 1;
      assert (a + b)[..|a + b| - 1] == a + b[..k];
      RemoveConcat(a, b[..k], w);
    }
  }

  /** The space's windows: where each is mapped, and the stacking order
      from bottom to top. */
  class Space {
    var locations: map<WindowId, IntPoint>
    var stack: seq<WindowId>

    constructor ()
      ensures locations == map[] && stack == []
    {
      locations := map[];
      stack := [];
    }

    /** `map_element` with activation: the window is (re)mapped at `loc` and
        raised to the top. */
    method MapElement(w: WindowId, loc: IntPoint)
      modifies this
      ensures locations == old(locations)[w := loc]
      ensures stack == Raise(old(stack), w)
    {
      locations := locations[w := loc];
      stack := Raise(stack, w);
    }
  }

  /** The pointer's inner handle as the grab sees it: the events passed on
      to clients, the buttons held now, and whether this grab is still
      set. */
  class PointerInner {
    var forwarded: seq<Forwarded>
    var pressed: set<nat>
    var grabbed: bool

    constructor (pressed: set<nat>)
      ensures forwarded == [] && this.pressed == pressed && grabbed
    {
      forwarded := [];
      this.pressed := pressed;
      grabbed := true;
    }
  }

  class MoveSurfaceGrab {
    const startData: GrabStartData
    const window: WindowId
    const initialWindowLocation: IntPoint

    constructor (startData: GrabStartData, window: WindowId, initialWindowLocation: IntPoint)
      ensures this.startData == startData && this.window == window
      ensures this.initialWindowLocation == initialWindowLocation
    {
      this.startData := startData;
      this.window := window;
      this.initialWindowLocation := initialWindowLocation;
    }

    /** Where the window goes when the pointer is at `location`: its
        starting location moved by the pointer's travel since the grab
        started, rounded to integers. */
    function Target(location: Point): IntPoint {
      ToI32Round(Add(ToF64(initialWindowLocation), Sub(location, startData.location)))
    }

    /** A pointer that travelled a whole number of pixels moves the window
        by exactly that many; back at the start, the window is back at its
        initial location. */
    lemma FollowsPointer(dx: int, dy: int)
      requires I32Min <= initialWindowLocation.x + dx <= I32Max
      requires I32Min <= initialWindowLocation.y + dy <= I32Max
      ensures Target(Add(startData.location, Point(dx as real, dy as real)))
        == IntPoint(initialWindowLocation.x + dx, initialWindowLocation.y + dy)
      ensures I32Min <= initialWindowLocation.x <= I32Max && I32Min <= initialWindowLocation.y <= I32Max
        ==> Target(startData.location) == initialWindowLocation
    {
      var moved := IntPoint(initialWindowLocation.x + dx, initialWindowLocation.y + dy);
      assert Add(ToF64(initialWindowLocation), Sub(Add(startData.location, Point(dx as real, dy as real)), startData.location))
        == ToF64(moved);
      RoundIntegral(moved);
      if I32Min <= initialWindowLocation.x <= I32Max && I32Min <= initialWindowLocation.y <= I32Max {
        assert Add(ToF64(initialWindowLocation), Sub(startData.location, startData.location)) == ToF64(initialWindowLocation);
        RoundIntegral(initialWindowLocation);
      }
    }

    /** Pointer motion: passed on with no focus, and the window is mapped at
        Target and raised. */
    method Motion(space: Space, handle: PointerInner, focus: Focus, event: MotionEvent)
      modifies space, handle
      ensures handle.forwarded == old(handle.forwarded) + [MotionSent(None, event)]
      ensures handle.pressed == old(handle.pressed) && handle.grabbed == old(handle.grabbed)
      ensures space.locations == old(space.locations)[window := Target(event.location)]
      ensures space.stack == Raise(old(space.stack), window)
    {
      handle.forwarded := handle.forwarded + [MotionSent(None, event)];
      var delta := Sub(event.location, startData.location);
      var newLocation := Add(ToF64(initialWindowLocation), delta);
      space.MapElement(window, ToI32Round(newLocation));
    }

    /** Relative motion is passed on unchanged, with its focus. */
    method RelativeMotion(handle: PointerInner, focus: Focus, event: RelativeMotionEvent)
      modifies handle
      ensures handle.forwarded == old(handle.forwarded) + [RelativeMotionSent(focus, event)]
      ensures handle.pressed == old(handle.pressed) && handle.grabbed == old(handle.grabbed)
    {
      handle.forwarded := handle.forwarded + [RelativeMotionSent(focus, event)];
    }

    /** A button event is passed on; then the grab ends unless BTN_LEFT or
        KEY_LEFTMETA is still held. */
    method Button(handle: PointerInner, event: ButtonEvent)
      modifies handle
      ensures handle.forwarded == old(handle.forwarded) + [ButtonSent(event)]
      ensures handle.pressed == old(handle.pressed)
      ensures handle.grabbed <==> old(handle.grabbed) && (BtnLeft in handle.pressed || KeyLeftMeta in handle.pressed)
    {
      handle.forwarded := handle.forwarded + [ButtonSent(event)];
      if BtnLeft !in handle.pressed && KeyLeftMeta !in handle.pressed {
        handle.grabbed := false;
      }
    }

    /** Axis frames are passed on unchanged. */
    method Axis(handle: PointerInner, details: AxisFrame)
      modifies handle
      ensures handle.forwarded == old(handle.forwarded) + [AxisSent(details)]
      ensures handle.pressed == old(handle.pressed) && handle.grabbed == old(handle.grabbed)
    {
      handle.forwarded := handle.forwarded + [AxisSent(details)];
    }

    /** The data the grab was started with. */
    method StartData() returns (r: GrabStartData)
      ensures r == startData
    {
      return startData;
    }
  }
}

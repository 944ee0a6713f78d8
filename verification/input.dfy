/**
 * Input handling of the udev session: keeping the pointer on the outputs,
 * the compositor's own keyboard shortcuts, and the relative pointer-motion
 * update of the compositor state.
 */
module Input {
  import opened Wrappers
  import opened Geometry
  import Drm

  // ---------------------------------------------------------------------
  // clamp_coords

  /** The summed widths of the outputs' geometries (the fold in
      clamp_coords). */
  function TotalWidth(outputs: seq<Rect>): nat
    decreases |outputs|
  {
    if outputs == [] then 0 else TotalWidth(outputs[..|outputs| - 1]) + outputs[|outputs| - 1].w
  }

  /** `v.max(0.0).min(hi)`: the point of [0, hi] nearest to `v`. */
  function Clamp(v: real, hi: real): (r: real)
    requires 0.0 <= hi
    ensures 0.0 <= r <= hi
    ensures 0.0 <= v <= hi ==> r == v
    ensures v < 0.0 ==> r == 0.0
    ensures v > hi ==> r == hi
  {
    var m := if v < 0.0 then 0.0 else v;
    if m > hi then hi else m
  }

  /** clamp_coords: x is kept within the strip [0, total width]; y is kept
      within [0, h] of the first output containing (x as i32, 0), and left
      alone when there is none. With no output the point is unchanged. */
  function ClampCoords(outputs: seq<Rect>, pos: Point): (r: Point)
    ensures outputs == [] ==> r == pos
    ensures outputs != [] ==> 0.0 <= r.x <= TotalWidth(outputs) as real
    ensures outputs != [] && 0.0 <= pos.x <= TotalWidth(outputs) as real ==> r.x == pos.x
    ensures outputs != [] && pos.x < 0.0 ==> r.x == 0.0
    ensures outputs != [] && pos.x > TotalWidth(outputs) as real ==> r.x == TotalWidth(outputs) as real
    ensures outputs != [] ==>
      match FirstContaining(outputs, IntPoint(TruncI32(r.x), 0))
      case None => r.y == pos.y
      case Some(i) =>
        && 0.0 <= r.y <= outputs[i].h as real
        && (0.0 <= pos.y <= outputs[i].h as real ==> r.y == pos.y)
        && (pos.y < 0.0 ==> r.y == 0.0)
        && (pos.y > outputs[i].h as real ==> r.y == outputs[i].h as real)
  {
    if outputs == [] then pos
    else
      var x := Clamp(pos.x, TotalWidth(outputs) as real);
      match FirstContaining(outputs, IntPoint(TruncI32(x), 0))
      case Some(i) => Point(x, Clamp(pos.y, outputs[i].h as real))
      case None => Point(x, pos.y)
  }

  /** Clamping a clamped point changes nothing. */
  lemma ClampIdempotent(outputs: seq<Rect>, pos: Point)
    ensures ClampCoords(outputs, ClampCoords(outputs, pos)) == ClampCoords(outputs, pos)
  {
  }

  /** The outputs lie side by side along y = 0, each starting where the
      previous ones end, and each at least one row tall: the layout the DRM
      backend builds. */
  predicate StripLayout(outputs: seq<Rect>) {
    forall i :: 0 <= i < |outputs| ==>
      outputs[i].loc == IntPoint(TotalWidth(outputs[..i]), 0) && outputs[i].h > 0
  }

  /** In a strip every column left of the total width lies in some output. */
  lemma {:induction false} StripCovers(outputs: seq<Rect>, n: int)
    requires StripLayout(outputs) && 0 <= n < TotalWidth(outputs)
    decreases |outputs|
    ensures FirstContaining(outputs, IntPoint(n, 0)).Some?
  {
    var k := |outputs| - 1;
    var prefix := outputs[..k];
    assert outputs[..k] == prefix;
    if n < TotalWidth(prefix) {
      forall i | 0 <= i < |prefix|
        ensures prefix[i].loc == IntPoint(TotalWidth(prefix[..i]), 0) && prefix[i].h > 0
      {
        assert prefix[..i] == outputs[..i];
      }
      StripCovers(prefix, n);
      var i := FirstContaining(prefix, IntPoint(n, 0)).value;
      assert Contains(outputs[i], IntPoint(n, 0));
    } else {
      assert Contains(outputs[k], IntPoint(n, 0));
    }
  }

  /** On a strip, a pointer that is not on the right edge always has its y
      clamped to the height of the output under it. */
  lemma ClampedIntoStrip(outputs: seq<Rect>, pos: Point)
    requires StripLayout(outputs) && outputs != []
    ensures var r := ClampCoords(outputs, pos);
      r.x < TotalWidth(outputs) as real ==>
        && FirstContaining(outputs, IntPoint(TruncI32(r.x), 0)).Some?
        && 0.0 <= r.y <= outputs[FirstContaining(outputs, IntPoint(TruncI32(r.x), 0)).value].h as real
  {
    var r := ClampCoords(outputs, pos);
    if r.x < TotalWidth(outputs) as real {
      var n := TruncI32(r.x);
      assert 0 <= n < TotalWidth(outputs) by {
        if r.x < I32Max as real {
          assert n as real <= r.x;
        }
      }
      StripCovers(outputs, n);
    }
  }

  /** An output the DRM backend mapped with a mode of non-negative width and
      positive height. */
  predicate Driven(o: Drm.Output) {
    o.current.Some? && o.current.value.width >= 0 && o.current.value.height > 0
  }

  /** The geometry the space reports for a mapped output: its position and
      the size of its current mode (scale 1, normal transform). */
  function GeometryOf(o: Drm.Output): (r: Rect)
    requires Driven(o)
    ensures r.loc == IntPoint(o.x, o.y) && r.w == Drm.Width(o) && r.h > 0
  {
    Rect(IntPoint(o.x, o.y), o.current.value.width, o.current.value.height)
  }

  /** The geometries clamp_coords reads, for the outputs the DRM backend
      mapped. */
  function Geometries(outputs: seq<Drm.Output>): seq<Rect>
    requires forall k :: 0 <= k < |outputs| ==> Driven(outputs[k])
  {
    seq(|outputs|, k requires 0 <= k < |outputs| => GeometryOf(outputs[k]))
  }

  /** The sum of the geometries' widths is the width of the DRM strip. */
  lemma {:induction false} GeometriesWidth(outputs: seq<Drm.Output>)
    requires forall k :: 0 <= k < |outputs| ==> Driven(outputs[k])
    decreases |outputs|
    ensures TotalWidth(Geometries(outputs)) == Drm.StripWidth(outputs)
  {
    if outputs != [] {
      var k := |outputs| - 1;
      GeometriesWidth(outputs[..k]);
      assert Geometries(outputs)[..k] == Geometries(outputs[..k]);
    }
  }

  /** The strip the DRM backend lays out (each output placed at the summed
      widths of the ones before it) is a strip of rectangles here: the
      placement of connector_connected is what clamp_coords relies on. */
  lemma DrmStrip(outputs: seq<Drm.Output>)
    requires forall k :: 0 <= k < |outputs| ==> Driven(outputs[k])
    requires Drm.StripLayout(outputs)
    ensures StripLayout(Geometries(outputs))
    ensures TotalWidth(Geometries(outputs)) == Drm.StripWidth(outputs)
  {
    var g := Geometries(outputs);
    forall i | 0 <= i < |g|
      ensures g[i].loc == IntPoint(TotalWidth(g[..i]), 0) && g[i].h > 0
    {
      assert g[..i] == Geometries(outputs[..i]);
      GeometriesWidth(outputs[..i]);
    }
    GeometriesWidth(outputs);
  }

  /** The right edge x = total width is inside no output (rectangles exclude
      their right edge), so a pointer pushed past the right of the strip
      keeps whatever y it had, above or below the screen. */
  lemma RightEdgeUnclamped()
    ensures var outputs := [Rect(IntPoint(0, 0), 1920, 1080)];
      ClampCoords(outputs, Point(5000.0, -30.0)) == Point(1920.0, -30.0)
  {
    var outputs := [Rect(IntPoint(0, 0), 1920, 1080)];
    assert TotalWidth(outputs[..0]) == 0;
    assert TruncI32(1920.0) == 1920;
    assert FirstContaining(outputs, IntPoint(1920, 0)) == None;
  }

  // ---------------------------------------------------------------------
  // The keyboard filter of process_input_event

  /** An XKB keysym (u32). */
  type Keysym = bv32

  const KeyLowerH: Keysym := 0x68
  const KeyUpperH: Keysym := 0x48
  const KeyLowerQ: Keysym := 0x71
  const KeyUpperQ: Keysym := 0x51
  const KeyReturn: Keysym := 0xff0d
  const KeyLowerX: Keysym := 0x78
  const KeyUpperX: Keysym := 0x58
  const KeySwitchVT1: Keysym := 0x1008_FE01
  const KeySwitchVT12: Keysym := 0x1008_FE0C

  /** The `[defaults]` table of the configuration file. */
  datatype Defaults = Defaults(terminal: string, launcher: string)

  datatype KeyAction =
    | Launcher(command: string)
    | Quit
    | Spawn(command: string)
    | CloseWindow
    | VTSwitch(vt: int)

  datatype FilterResult = Forward | Intercept(action: KeyAction)

  /** The filter closure: `modHeld` is the result of comparing the modifier
      state with the configured mod key, `pressed` whether the key went
      down, `sym` the modified keysym. Each comparison is against the
      bitwise OR of the lower- and upper-case keysyms, as the source writes
      it. */
  function KeyFilter(modHeld: bool, pressed: bool, sym: Keysym, defaults: Defaults): (r: FilterResult)
    ensures !(modHeld && pressed) ==> r == Forward
    ensures r.Intercept? && r.action.VTSwitch? ==> 1 <= r.action.vt <= 12
  {
    if modHeld && pressed then
      if sym == KeyLowerH | KeyUpperH then Intercept(Launcher(defaults.launcher))
      else if sym == KeyLowerQ | KeyUpperQ then Intercept(Quit)
      else if sym == KeyReturn then Intercept(Spawn(defaults.terminal))
      else if sym == KeyLowerX | KeyUpperX then Intercept(CloseWindow)
      else if KeySwitchVT1 <= sym <= KeySwitchVT12 then Intercept(VTSwitch((sym - KeySwitchVT1 + 1) as int))
      else Forward
    else Forward
  }

  /** The keysyms the filter claims, written as plain numbers: h, q, Return,
      x and the twelve VT switches. */
  predicate Claimed(sym: Keysym) {
    sym == 0x68 || sym == 0x71 || sym == 0xff0d || sym == 0x78 || 0x1008_FE01 <= sym <= 0x1008_FE0C
  }

  /** A key is intercepted exactly when the mod key is held, the key goes
      down, and its keysym is one the filter claims. */
  lemma InterceptedKeys(modHeld: bool, pressed: bool, sym: Keysym, defaults: Defaults)
    ensures KeyFilter(modHeld, pressed, sym, defaults).Intercept? <==> modHeld && pressed && Claimed(sym)
  {
    assert KeyLowerH | KeyUpperH == 0x68;
    assert KeyLowerQ | KeyUpperQ == 0x71;
    assert KeyLowerX | KeyUpperX == 0x78;
  }

  /** Because `KEY_h | KEY_H` is the keysym of lower-case h, the upper-case
      letters (a held Shift) are never intercepted. */
  lemma UpperCaseForwarded(modHeld: bool, pressed: bool, defaults: Defaults)
    ensures KeyFilter(modHeld, pressed, KeyUpperH, defaults) == Forward
    ensures KeyFilter(modHeld, pressed, KeyUpperQ, defaults) == Forward
    ensures KeyFilter(modHeld, pressed, KeyUpperX, defaults) == Forward
  {
    InterceptedKeys(modHeld, pressed, KeyUpperH, defaults);
    InterceptedKeys(modHeld, pressed, KeyUpperQ, defaults);
    InterceptedKeys(modHeld, pressed, KeyUpperX, defaults);
  }

  /** With the mod key held on a key press: h launches the configured
      launcher, q quits, Return spawns the configured terminal, x closes the
      window. */
  lemma ShortcutActions(defaults: Defaults)
    ensures KeyFilter(true, true, KeyLowerH, defaults) == Intercept(Launcher(defaults.launcher))
    ensures KeyFilter(true, true, KeyLowerQ, defaults) == Intercept(Quit)
    ensures KeyFilter(true, true, KeyReturn, defaults) == Intercept(Spawn(defaults.terminal))
    ensures KeyFilter(true, true, KeyLowerX, defaults) == Intercept(CloseWindow)
  {
    assert KeyLowerH | KeyUpperH == KeyLowerH;
    assert KeyLowerQ | KeyUpperQ == KeyLowerQ;
    assert KeyLowerX | KeyUpperX == KeyLowerX;
  }

  /** XF86Switch_VT_n switches to VT n, for n from 1 to 12. */
  lemma VTSwitchNumbers(sym: Keysym, defaults: Defaults)
    requires KeySwitchVT1 <= sym <= KeySwitchVT12
    ensures KeyFilter(true, true, sym, defaults) == Intercept(VTSwitch(sym as int - KeySwitchVT1 as int + 1))
  {
    assert KeyLowerH | KeyUpperH == KeyLowerH;
    assert KeyLowerQ | KeyUpperQ == KeyLowerQ;
    assert KeyLowerX | KeyUpperX == KeyLowerX;
    assert (sym - KeySwitchVT1) as int == sym as int - KeySwitchVT1 as int;
  }

  // ---------------------------------------------------------------------
  // The compositor state's pointer

  /** The part of the compositor state the pointer-motion handler works on:
      the pointer location and the geometries of the mapped outputs. */
  class Corrosion {
    var pointerLocation: Point
    var outputs: seq<Rect>

    /** A new compositor state has its pointer at the origin. */
    constructor (outputs: seq<Rect>)
      ensures pointerLocation == Point(0.0, 0.0) && this.outputs == outputs
    {
      pointerLocation := Point(0.0, 0.0);
      this.outputs := outputs;
    }

    /** A relative pointer motion: add the delta, then clamp. The new
        location is one clamping leaves alone. */
    method PointerMotion(delta: Point)
      modifies this
      ensures outputs == old(outputs)
      ensures pointerLocation == ClampCoords(outputs, Add(old(pointerLocation), delta))
      ensures ClampCoords(outputs, pointerLocation) == pointerLocation
    {
      pointerLocation := Add(pointerLocation, delta);
      ClampIdempotent(outputs, pointerLocation);
      pointerLocation := ClampCoords(outputs, pointerLocation);
    }
  }
}

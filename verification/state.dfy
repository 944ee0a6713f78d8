/**
 * The compositor state's shell queries: which surface is under the pointer,
 * and which surfaces are sent frame callbacks after an output repaints.
 * The layer-shell and space queries themselves (layer_under, element_under,
 * layer_geometry) are answers given to the model.
 */
module Shell {
  import opened Wrappers
  import opened Geometry
  import Input

  type SurfaceId = nat
  type OutputId = nat

  /** The four layer-shell layers. */
  datatype Layer = Background | Bottom | Top | Overlay

  /** A layer surface the layer map finds under the pointer, with its
      geometry in the layer map. */
  datatype LayerHit = LayerHit(surface: SurfaceId, geometry: Rect)

  /** A window the space finds under the pointer: its toplevel surface and
      the window's location. */
  datatype WindowHit = WindowHit(toplevel: SurfaceId, location: IntPoint)

  /** What layer_under answers, on one output's layer map at the pointer
      position, for each layer that has a surface there. */
  type LayerMap = map<Layer, LayerHit>

  /** The result type of surface_under_pointer. */
  type Under = Option<(SurfaceId, IntPoint)>

  /** One level of the hit-test order. */
  datatype Level = OnLayer(layer: Layer) | Windows

  /** The order in which the levels are asked: Overlay, Top, the windows,
      Bottom, Background. */
  const Priority: seq<Level> := [OnLayer(Overlay), OnLayer(Top), Windows, OnLayer(Bottom), OnLayer(Background)]

  /** What one level has under the pointer. A layer surface is reported at
      its layer geometry's origin, a window at its location. */
  function HitAt(level: Level, m: LayerMap, window: Option<WindowHit>): Under {
    match level
    case OnLayer(l) => if l in m then Some((m[l].surface, m[l].geometry.loc)) else None
    case Windows => if window.Some? then Some((window.value.toplevel, window.value.location)) else None
  }

  /** The hit of the first level that has one. */
  function FirstHit(levels: seq<Level>, m: LayerMap, window: Option<WindowHit>): (r: Under)
    ensures r.Some? ==> exists i :: (0 <= i < |levels| && HitAt(levels[i], m, window) == r
      && forall j :: 0 <= j < i ==> HitAt(levels[j], m, window).None?)
    ensures r.None? ==> forall i :: 0 <= i < |levels| ==> HitAt(levels[i], m, window).None?
  {
    if levels == [] then None
    else if HitAt(levels[0], m, window).Some? then
      HitAt(levels[0], m, window)
    else
      var r := FirstHit(levels[1..], m, window);
      if r.Some? then
        var i :| 0 <= i < |levels[1..]| && HitAt(levels[1..][i], m, window) == r
          && forall j :: 0 <= j < i ==> HitAt(levels[1..][j], m, window).None?;
        assert HitAt(levels[i + 1], m, window) == r;
        assert forall j :: 0 <= j < i + 1 ==> HitAt(levels[j], m, window).None? by {
          forall j | 0 <= j < i + 1 ensures HitAt(levels[j], m, window).None? {
            if j > 0 {
              assert levels[j] == levels[1..][j - 1];
            }
          }
        }
        r
      else
        assert forall i :: 0 <= i < |levels| ==> HitAt(levels[i], m, window).None? by {
          forall i | 0 <= i < |levels| ensures HitAt(levels[i], m, window).None? {
            if i > 0 {
              assert levels[i] == levels[1..][i - 1];
            }
          }
        }
        r
  }

  /** surface_under_pointer. `outputs` are the output geometries and `maps`
      the layer_under answers on each output's layer map; the output used is
      the first one containing the rounded pointer position (the source
      panics when there is none). The chain of queries is the result of
      asking the levels in Priority order. */
  function SurfaceUnderPointer(outputs: seq<Rect>, maps: seq<LayerMap>, window: Option<WindowHit>, pos: Point): (r: Under)
    requires |maps| == |outputs|
    requires FirstContaining(outputs, ToI32Round(pos)).Some?
    ensures r == FirstHit(Priority, maps[FirstContaining(outputs, ToI32Round(pos)).value], window)
  {
    var m := maps[FirstContaining(outputs, ToI32Round(pos)).value];
    var under :=
      if Overlay in m then Some((m[Overlay].surface, m[Overlay].geometry.loc))
      else if Top in m then Some((m[Top].surface, m[Top].geometry.loc))
      else if window.Some? then Some((window.value.toplevel, window.value.location))
      else if Bottom in m then Some((m[Bottom].surface, m[Bottom].geometry.loc))
      else if Background in m then Some((m[Background].surface, m[Background].geometry.loc))
      else None;
    var w := window;
    assert FirstHit([OnLayer(Background)], m, w) == HitAt(OnLayer(Background), m, w);
    assert FirstHit([OnLayer(Bottom), OnLayer(Background)], m, w)
      == if Bottom in m then HitAt(OnLayer(Bottom), m, w) else FirstHit([OnLayer(Background)], m, w);
    assert FirstHit([Windows, OnLayer(Bottom), OnLayer(Background)], m, w)
      == if w.Some? then HitAt(Windows, m, w) else FirstHit([OnLayer(Bottom), OnLayer(Background)], m, w);
    assert FirstHit([OnLayer(Top), Windows, OnLayer(Bottom), OnLayer(Background)], m, w)
      == if Top in m then HitAt(OnLayer(Top), m, w) else FirstHit([Windows, OnLayer(Bottom), OnLayer(Background)], m, w);
    assert FirstHit(Priority, m, w)
      == if Overlay in m then HitAt(OnLayer(Overlay), m, w) else FirstHit(Priority[1..], m, w);
    under
  }

  /** The pointer location clamp_coords leaves can lie on no output: the
      right edge x = total width, the bottom edge y = h, and any x that
      rounds up onto the right edge. surface_under_pointer, reading that
      location on the next motion, then has no output to unwrap. */
  lemma ClampedPointerOffOutputs()
    ensures var outputs := [Rect(IntPoint(0, 0), 1920, 1080)];
      && Input.ClampCoords(outputs, Point(5000.0, 10.0)) == Point(1920.0, 10.0)
      && FirstContaining(outputs, ToI32Round(Point(1920.0, 10.0))).None?
      && Input.ClampCoords(outputs, Point(100.0, 5000.0)) == Point(100.0, 1080.0)
      && FirstContaining(outputs, ToI32Round(Point(100.0, 1080.0))).None?
  {
    var outputs := [Rect(IntPoint(0, 0), 1920, 1080)];
    assert Input.TotalWidth(outputs[..0]) == 0;
    assert TruncI32(1920.0) == 1920 && TruncI32(100.0) == 100;
    assert FirstContaining(outputs, IntPoint(1920, 0)) == None;
    assert FirstContaining(outputs, IntPoint(100, 0)) == Some(0);
    assert RoundI32(1920.0) == 1920 && RoundI32(10.0) == 10;
    assert RoundI32(100.0) == 100 && RoundI32(1080.0) == 1080;
  }

  /** A pointer inside the strip can still round onto the right edge. */
  lemma RoundedOffOutputs()
    ensures var outputs := [Rect(IntPoint(0, 0), 1920, 1080)];
      && Input.ClampCoords(outputs, Point(1919.6, 10.0)) == Point(1919.6, 10.0)
      && FirstContaining(outputs, ToI32Round(Point(1919.6, 10.0))).None?
  {
    var outputs := [Rect(IntPoint(0, 0), 1920, 1080)];
    assert Input.TotalWidth(outputs[..0]) == 0;
    assert TruncI32(1919.6) == 1919;
    assert FirstContaining(outputs, IntPoint(1919, 0)) == Some(0);
    assert RoundI32(1919.6) == 1920 && RoundI32(10.0) == 10;
  }

  /** surface_under_pointer as evidently intended: a pointer on no output
      has nothing under it, instead of a panic. Wherever the source's query
      is defined, the two agree. */
  function SurfaceUnderPointerOrNone(outputs: seq<Rect>, maps: seq<LayerMap>, window: Option<WindowHit>, pos: Point): (r: Under)
    requires |maps| == |outputs|
    ensures FirstContaining(outputs, ToI32Round(pos)).None? ==> r.None?
    ensures FirstContaining(outputs, ToI32Round(pos)).Some? ==>
      r == FirstHit(Priority, maps[FirstContaining(outputs, ToI32Round(pos)).value], window)
  {
    match FirstContaining(outputs, ToI32Round(pos))
    case None => None
    case Some(_) => SurfaceUnderPointer(outputs, maps, window, pos)
  }

  /** An Overlay surface under the pointer wins over everything; a Top
      surface wins over every window and the lower layers. */
  lemma UpperLayersWin(outputs: seq<Rect>, maps: seq<LayerMap>, window: Option<WindowHit>, pos: Point)
    requires |maps| == |outputs|
    requires FirstContaining(outputs, ToI32Round(pos)).Some?
    ensures var m := maps[FirstContaining(outputs, ToI32Round(pos)).value];
      var r := SurfaceUnderPointer(outputs, maps, window, pos);
      && (Overlay in m ==> r == Some((m[Overlay].surface, m[Overlay].geometry.loc)))
      && (Overlay !in m && Top in m ==> r == Some((m[Top].surface, m[Top].geometry.loc)))
  {
    var m := maps[FirstContaining(outputs, ToI32Round(pos)).value];
    var r := SurfaceUnderPointer(outputs, maps, window, pos);
    if r.Some? {
      var i :| 0 <= i < |Priority| && HitAt(Priority[i], m, window) == r
        && forall j :: 0 <= j < i ==> HitAt(Priority[j], m, window).None?;
      assert HitAt(Priority[0], m, window).Some? ==> i == 0;
      assert HitAt(Priority[0], m, window).None? && HitAt(Priority[1], m, window).Some? ==> i == 1;
    } else {
      assert HitAt(Priority[0], m, window).None? && HitAt(Priority[1], m, window).None?;
    }
  }

  /** A window is reported only when no Overlay or Top surface is under the
      pointer, and then it is reported as its toplevel surface at its
      location. */
  lemma WindowsBelowUpperLayers(outputs: seq<Rect>, maps: seq<LayerMap>, window: Option<WindowHit>, pos: Point)
    requires |maps| == |outputs|
    requires FirstContaining(outputs, ToI32Round(pos)).Some?
    ensures var m := maps[FirstContaining(outputs, ToI32Round(pos)).value];
      Overlay !in m && Top !in m && window.Some? ==>
        SurfaceUnderPointer(outputs, maps, window, pos) == Some((window.value.toplevel, window.value.location))
  {
    var m := maps[FirstContaining(outputs, ToI32Round(pos)).value];
    if Overlay !in m && Top !in m && window.Some? {
      var r := SurfaceUnderPointer(outputs, maps, window, pos);
      var i :| 0 <= i < |Priority| && HitAt(Priority[i], m, window) == r
        && forall j :: 0 <= j < i ==> HitAt(Priority[j], m, window).None?;
      assert i >= 2;
      assert HitAt(Priority[2], m, window).Some?;
    }
  }

  /** Bottom, then Background, is reported only when nothing above is under
      the pointer; when nothing at all is, the result is None. */
  lemma LowerLayersLast(outputs: seq<Rect>, maps: seq<LayerMap>, window: Option<WindowHit>, pos: Point)
    requires |maps| == |outputs|
    requires FirstContaining(outputs, ToI32Round(pos)).Some?
    ensures var m := maps[FirstContaining(outputs, ToI32Round(pos)).value];
      var r := SurfaceUnderPointer(outputs, maps, window, pos);
      && (r == None <==> m == map[] && window.None?)
      && (Overlay !in m && Top !in m && window.None? && Bottom in m ==>
            r == Some((m[Bottom].surface, m[Bottom].geometry.loc)))
      && (m.Keys == {Background} && window.None? ==>
            r == Some((m[Background].surface, m[Background].geometry.loc)))
  {
    var m := maps[FirstContaining(outputs, ToI32Round(pos)).value];
    var r := SurfaceUnderPointer(outputs, maps, window, pos);
    if r.None? {
      assert HitAt(Priority[0], m, window).None? && HitAt(Priority[1], m, window).None?;
      assert HitAt(Priority[2], m, window).None? && HitAt(Priority[3], m, window).None?;
      assert HitAt(Priority[4], m, window).None?;
      assert Overlay !in m && Top !in m && Bottom !in m && Background !in m;
      forall l: Layer ensures l !in m {
        match l
        case Overlay =>
        case Top =>
        case Bottom =>
        case Background =>
      }
      assert m == map[];
    }
    if m == map[] && window.None? {
      assert forall i :: 0 <= i < |Priority| ==> HitAt(Priority[i], m, window).None?;
    }
    if Overlay !in m && Top !in m && window.None? && Bottom in m {
      var i :| 0 <= i < |Priority| && HitAt(Priority[i], m, window) == r
        && forall j :: 0 <= j < i ==> HitAt(Priority[j], m, window).None?;
      assert i >= 3;
      assert HitAt(Priority[3], m, window).Some?;
    }
    if m.Keys == {Background} && window.None? {
      assert Overlay !in m && Top !in m && Bottom !in m;
      var i :| 0 <= i < |Priority| && HitAt(Priority[i], m, window) == r
        && forall j :: 0 <= j < i ==> HitAt(Priority[j], m, window).None?;
      assert i >= 4;
      assert HitAt(Priority[4], m, window).Some?;
    }
  }

  // ---------------------------------------------------------------------
  // post_repaint

  /** A window of the space, with the outputs it overlaps. */
  datatype Window = Window(surface: SurfaceId, outputs: set<OutputId>)

  /** What post_repaint sends: a frame callback with its time and throttle,
      or dmabuf feedback. */
  datatype Message =
    | Frame(surface: SurfaceId, time: nat, throttle: nat)
    | DmabufFeedback(surface: SurfaceId)

  /** The frame throttle, one second, in milliseconds. */
  const ThrottleMs: nat := 1000

  /** The messages for one surface: a frame, then feedback when the backend
      has some. */
  function SendTo(surface: SurfaceId, time: nat, feedback: bool): seq<Message> {
    [Frame(surface, time, ThrottleMs)] + if feedback then [DmabufFeedback(surface)] else []
  }

  /** Every frame carries the repaint time and the one-second throttle,
      and feedback appears only when the backend gave some. */
  predicate Stamped(msgs: seq<Message>, time: nat, feedback: bool) {
    && (forall i :: 0 <= i < |msgs| && msgs[i].Frame? ==> msgs[i].time == time && msgs[i].throttle == ThrottleMs)
    && (!feedback ==> forall i :: 0 <= i < |msgs| ==> msgs[i].Frame?)
  }

  lemma StampedConcat(a: seq<Message>, b: seq<Message>, time: nat, feedback: bool)
    requires Stamped(a, time, feedback) && Stamped(b, time, feedback)
    ensures Stamped(a + b, time, feedback)
  {
    forall i | 0 <= i < |a + b|
      ensures (a + b)[i] == if i < |a| then a[i] else b[i - |a|]
    {
    }
  }

  /** The windows' part: only windows overlapping `output` are sent to. */
  function WindowMessages(output: OutputId, windows: seq<Window>, time: nat, feedback: bool): (r: seq<Message>)
    decreases |windows|
    ensures Stamped(r, time, feedback)
  {
    if windows == [] then []
    else
      var w := windows[|windows| - 1];
      var before := WindowMessages(output, windows[..|windows| - 1], time, feedback);
      var last := if output in w.outputs then SendTo(w.surface, time, feedback) else [];
      StampedConcat(before, last, time, feedback);
      before + last
  }

  /** The layer surfaces' part: every layer surface of the output is sent
      to. */
  function LayerMessages(layers: seq<SurfaceId>, time: nat, feedback: bool): (r: seq<Message>)
    decreases |layers|
    ensures Stamped(r, time, feedback)
  {
    if layers == [] then []
    else
      var before := LayerMessages(layers[..|layers| - 1], time, feedback);
      StampedConcat(before, SendTo(layers[|layers| - 1], time, feedback), time, feedback);
      before + SendTo(layers[|layers| - 1], time, feedback)
  }

  /** post_repaint for `output`: `windows` are the space's windows in order,
      `layers` the surfaces of the output's layer map, `feedback` whether
      dmabuf feedback was given. Every frame it sends carries the repaint
      time and the one-second throttle. */
  function PostRepaint(output: OutputId, windows: seq<Window>, layers: seq<SurfaceId>, time: nat, feedback: bool): (msgs: seq<Message>)
    ensures Stamped(msgs, time, feedback)
  {
    var a := WindowMessages(output, windows, time, feedback);
    var b := LayerMessages(layers, time, feedback);
    StampedConcat(a, b, time, feedback);
    a + b
  }

  /** A window gets a frame exactly when it overlaps the output, and dmabuf
      feedback exactly when it also overlaps it and the backend has some. */
  lemma {:induction false} WindowFrames(output: OutputId, windows: seq<Window>, time: nat, feedback: bool, s: SurfaceId)
    decreases |windows|
    ensures Frame(s, time, ThrottleMs) in WindowMessages(output, windows, time, feedback)
      <==> exists i :: 0 <= i < |windows| && windows[i].surface == s && output in windows[i].outputs
    ensures DmabufFeedback(s) in WindowMessages(output, windows, time, feedback)
      <==> feedback && exists i :: 0 <= i < |windows| && windows[i].surface == s && output in windows[i].outputs
  {
    if windows != [] {
      var k := |windows| - 1;
      WindowFrames(output, windows[..k], time, feedback, s);
      if exists i :: 0 <= i < k && windows[..k][i].surface == s && output in windows[..k][i].outputs {
        var i :| 0 <= i < k && windows[..k][i].surface == s && output in windows[..k][i].outputs;
        assert windows[i] == windows[..k][i];
      }
      if exists i :: 0 <= i < |windows| && windows[i].surface == s && output in windows[i].outputs {
        var i :| 0 <= i < |windows| && windows[i].surface == s && output in windows[i].outputs;
        if i < k {
          assert windows[..k][i] == windows[i];
        } else {
          assert Frame(s, time, ThrottleMs) in SendTo(s, time, feedback);
          assert feedback ==> DmabufFeedback(s) in SendTo(s, time, feedback);
        }
      }
    }
  }

  /** Every layer surface of the output gets a frame, and dmabuf feedback
      when the backend has some. */
  lemma {:induction false} LayerFrames(layers: seq<SurfaceId>, time: nat, feedback: bool, s: SurfaceId)
    decreases |layers|
    ensures Frame(s, time, ThrottleMs) in LayerMessages(layers, time, feedback) <==> s in layers
    ensures DmabufFeedback(s) in LayerMessages(layers, time, feedback) <==> feedback && s in layers
  {
    if layers != [] {
      var k := |layers| - 1;
      LayerFrames(layers[..k], time, feedback, s);
      assert layers == layers[..k] + [layers[k]];
      assert Frame(layers[k], time, ThrottleMs) in SendTo(layers[k], time, feedback);
      assert feedback ==> DmabufFeedback(layers[k]) in SendTo(layers[k], time, feedback);
    }
  }

  /** post_repaint frames exactly the windows on the output and every layer
      surface of it, and sends dmabuf feedback to the same surfaces exactly
      when the backend has some. */
  lemma PostRepaintFrames(output: OutputId, windows: seq<Window>, layers: seq<SurfaceId>, time: nat, feedback: bool, s: SurfaceId)
    ensures Frame(s, time, ThrottleMs) in PostRepaint(output, windows, layers, time, feedback)
      <==> ((exists i :: 0 <= i < |windows| && windows[i].surface == s && output in windows[i].outputs)
            || s in layers)
    ensures DmabufFeedback(s) in PostRepaint(output, windows, layers, time, feedback)
      <==> feedback && ((exists i :: 0 <= i < |windows| && windows[i].surface == s && output in windows[i].outputs)
            || s in layers)
  {
    WindowFrames(output, windows, time, feedback, s);
    LayerFrames(layers, time, feedback, s);
  }
}

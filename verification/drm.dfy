/**
 * The udev/DRM output backend (src/backend/drm.rs) as values: the rules it
 * applies when a connector appears, disappears or finishes a frame, and the
 * registry of devices, surfaces, mapped outputs and protocol globals that those
 * rules update. The class in module DrmBackend performs the same updates in
 * place and is proved against the transition functions defined here.
 *
 * Every call into DRM, GBM, EGL, the connector scanner or the renderer is an
 * input that either succeeds or fails (ConnectHw, SubmitResult, the scanner's
 * event list); nothing here looks inside those libraries.
 */
module Drm {
  import opened Wrappers
  import opened Ascii

  type Node = nat             // a DRM device node
  type Crtc = nat             // a CRTC handle
  type ConnectorHandle = nat
  type GlobalId = nat         // a wl_output global
  type Token = nat            // an event-loop registration token
  type Plane = nat
  type Texture = nat
  type Feedback = nat         // dmabuf feedback, computed outside this model

  // ---------------------------------------------------------------------
  // Preferred mode

  datatype Mode = Mode(width: int, height: int, refresh: int, preferred: bool)

  datatype ConnectorInfo = ConnectorInfo(handle: ConnectorHandle, modes: seq<Mode>)

  /** `iter().position(PREFERRED)`: the first mode flagged preferred. */
  function FirstPreferred(modes: seq<Mode>): (r: Option<nat>)
    ensures r.Some? ==> r.value < |modes| && modes[r.value].preferred
    ensures r.Some? ==> forall k :: 0 <= k < r.value ==> !modes[k].preferred
    ensures r.None? ==> forall k :: 0 <= k < |modes| ==> !modes[k].preferred
  {
    if modes == [] then None
    else if modes[0].preferred then Some(0)
    else match FirstPreferred(modes[1..])
      case Some(k) => Some(k + 1)
      case None => None
  }

  /** The index of the mode an output is driven with: the first preferred
      mode, else index 0. The list is indexed afterwards, so it must not be
      empty. */
  function PreferredModeIndex(modes: seq<Mode>): (i: nat)
    requires |modes| > 0
    ensures i < |modes|
    ensures modes[i].preferred ==> forall k :: 0 <= k < i ==> !modes[k].preferred
    ensures !modes[i].preferred ==> i == 0 && forall k :: 0 <= k < |modes| ==> !modes[k].preferred
  {
    FirstPreferred(modes).GetOr(0)
  }

  // ---------------------------------------------------------------------
  // Mapped outputs and the horizontal strip

  /** The tag an output carries in its user data. */
  datatype UdevOutputId = UdevOutputId(crtc: Crtc, deviceId: Node)

  /** A mapped output: its tag, its position in the space and its modes. */
  datatype Output = Output(tag: UdevOutputId, x: int, y: int, preferred: Mode, current: Option<Mode>)

  /** The width of an output's geometry (scale 1, normal transform). */
  function Width(o: Output): int {
    match o.current
    case Some(m) => m.width
    case None => 0
  }

  /** The fold over the mapped outputs that sums their widths. */
  function StripWidth(outputs: seq<Output>): int
    decreases |outputs|
  {
    if outputs == [] then 0
    else StripWidth(outputs[..|outputs| - 1]) + Width(outputs[|outputs| - 1])
  }

  /** Every output starts where the ones before it end, on the line y = 0. */
  ghost predicate StripLayout(outputs: seq<Output>) {
    forall k :: 0 <= k < |outputs| ==> outputs[k].x == StripWidth(outputs[..k]) && outputs[k].y == 0
  }

  /** `space.outputs().find(...)` on the UdevOutputId tag. */
  function FindTagged(outputs: seq<Output>, tag: UdevOutputId): (r: Option<nat>)
    ensures r.Some? ==> r.value < |outputs| && outputs[r.value].tag == tag
    ensures r.Some? ==> forall j :: 0 <= j < r.value ==> outputs[j].tag != tag
    ensures r.None? ==> forall j :: 0 <= j < |outputs| ==> outputs[j].tag != tag
  {
    if outputs == [] then None
    else if outputs[0].tag == tag then Some(0)
    else match FindTagged(outputs[1..], tag)
      case Some(k) => Some(k + 1)
      case None => None
  }

  /** `space.unmap_output` of the first output carrying `tag`, if any. */
  function UnmapFirst(outputs: seq<Output>, tag: UdevOutputId): seq<Output> {
    match FindTagged(outputs, tag)
    case None => outputs
    case Some(i) => outputs[..i] + outputs[i + 1..]
  }

  /** Which outputs a filter keeps. */
  datatype Selector = ExceptTag(tag: UdevOutputId) | ExceptDevice(node: Node)

  predicate Selects(sel: Selector, o: Output) {
    match sel
    case ExceptTag(t) => o.tag != t
    case ExceptDevice(n) => o.tag.deviceId != n
  }

  function Keep(outputs: seq<Output>, sel: Selector): seq<Output>
    decreases |outputs|
  {
    if outputs == [] then []
    else (if Selects(sel, outputs[0]) then [outputs[0]] else []) + Keep(outputs[1..], sel)
  }

  // ---------------------------------------------------------------------
  // Surface composition

  datatype Fourcc = Abgr8888 | Argb8888

  /** SUPPORTED_FORMATS. */
  const SupportedFormats: seq<Fourcc> := [Abgr8888, Argb8888]

  datatype Planes = Planes(primary: Plane, cursor: Option<Plane>, overlay: seq<Plane>)

  datatype DriverInfo = DriverInfo(name: string, description: string)

  /** The two SurfaceComposition variants. */
  datatype Composition =
    | Surface(formats: seq<Fourcc>)   // GbmBufferedSurface + damage tracker
    | Compositor(planes: Planes)      // DrmCompositor over these planes

  /** The answers of the hardware calls made while setting up one connector. */
  datatype ConnectHw = ConnectHw(
    surfaceCreated: bool,        // DrmDevice::create_surface
    gbmSurfaceCreated: bool,     // GbmBufferedSurface::new
    driver: Option<DriverInfo>,  // DrmDevice::get_driver
    planes: Option<Planes>,      // DrmSurface::planes
    compositorCreated: bool,     // DrmCompositor::new
    feedback: Option<Feedback>)  // get_surface_dmabuf_feedback

  predicate StartsWith(s: string, p: string) {
    |p| <= |s| && s[..|p|] == p
  }

  /** `str::contains`. */
  predicate Contains(s: string, p: string)
    decreases |s|
  {
    StartsWith(s, p) || (|s| > 0 && Contains(s[1..], p))
  }

  /** The driver whose overlay planes are not used. */
  predicate NvidiaQuirk(d: DriverInfo) {
    Contains(ToLower(d.name), "nvidia") || Contains(ToLower(d.description), "nvidia")
  }

  function QuirkedPlanes(d: DriverInfo, p: Planes): Planes {
    if NvidiaQuirk(d) then p.(overlay := []) else p
  }

  /** The composition built for a new output, or None when a step fails. */
  function BuildComposition(disableHw: bool, hw: ConnectHw): (r: Option<Composition>)
    ensures disableHw ==> (r.Some? <==> hw.gbmSurfaceCreated)
    ensures disableHw && r.Some? ==> r.value == Surface(SupportedFormats)
    ensures !disableHw ==> (r.Some? <==> hw.driver.Some? && hw.planes.Some? && hw.compositorCreated)
    ensures !disableHw && r.Some? ==>
      && r.value.Compositor?
      && r.value.planes.primary == hw.planes.value.primary
      && r.value.planes.cursor == hw.planes.value.cursor
      && (NvidiaQuirk(hw.driver.value) ==> r.value.planes.overlay == [])
      && (!NvidiaQuirk(hw.driver.value) ==> r.value.planes.overlay == hw.planes.value.overlay)
  {
    if disableHw then
      if hw.gbmSurfaceCreated then Some(Surface(SupportedFormats)) else None
    else if hw.driver.None? || hw.planes.None? || !hw.compositorCreated then None
    else Some(Compositor(QuirkedPlanes(hw.driver.value, hw.planes.value)))
  }

  // ---------------------------------------------------------------------
  // Frame completion: the reschedule decision and the timer

  datatype SystemError = PermissionDenied | OtherSystemError

  datatype DrmError = DeviceInactive | Access(source: SystemError) | OtherDrmError

  /** The result of `frame_submitted`; a temporary failure may or may not
      carry a DrmError. */
  datatype SubmitResult =
    | Submitted
    | AlreadySwapped
    | TemporaryFailure(cause: Option<DrmError>)
    | ContextLost

  datatype Decision = Reschedule(again: bool) | Fatal

  /** Whether to keep the repaint loop going after a completion event. */
  function Classify(r: SubmitResult): (d: Decision)
    ensures d == Fatal <==> r == ContextLost
    ensures d == Reschedule(true) <==>
      r == Submitted || r == AlreadySwapped || r == TemporaryFailure(Some(Access(PermissionDenied)))
  {
    match r
    case Submitted => Reschedule(true)
    case AlreadySwapped => Reschedule(true)
    case TemporaryFailure(cause) =>
      if cause == Some(DeviceInactive) then Reschedule(false)
      else Reschedule(cause == Some(Access(PermissionDenied)))
    case ContextLost => Fatal
  }

  /** The delays are kept abstract: only which of them is chosen matters. */
  datatype Delay = RepaintDelay(refresh: int) | FrameInterval(refresh: int)

  datatype Timer = Immediate | After(delay: Delay)

  /** The timer armed after a completed frame. */
  function RepaintTimer(primaryGpu: Node, renderNode: Node, refresh: int): (t: Timer)
    ensures t == Immediate <==> primaryGpu != renderNode
    ensures t != Immediate ==> t == After(RepaintDelay(refresh))
  {
    if primaryGpu != renderNode then Immediate else After(RepaintDelay(refresh))
  }

  // ---------------------------------------------------------------------
  // The cursor-texture cache

  datatype CursorFrame = CursorFrame(width: nat, height: nat, xhot: nat, yhot: nat, delay: nat, pixelsRgba: seq<int>)

  type CursorCache = seq<(CursorFrame, Texture)>

  /** The first cache entry whose frame equals `frame`. */
  function CacheIndex(cache: CursorCache, frame: CursorFrame): (r: Option<nat>)
    ensures r.Some? ==> r.value < |cache| && cache[r.value].0 == frame
    ensures r.Some? ==> forall j :: 0 <= j < r.value ==> cache[j].0 != frame
    ensures r.None? ==> forall j :: 0 <= j < |cache| ==> cache[j].0 != frame
  {
    if cache == [] then None
    else if cache[0].0 == frame then Some(0)
    else match CacheIndex(cache[1..], frame)
      case Some(k) => Some(k + 1)
      case None => None
  }

  /** The cursor texture for `frame` and the cache afterwards; `uploaded` is
      the texture a miss imports from memory. */
  function CursorTexture(cache: CursorCache, frame: CursorFrame, uploaded: Texture): (r: (Texture, CursorCache))
    ensures |cache| <= |r.1| <= |cache| + 1 && r.1[..|cache|] == cache
    ensures (exists k :: 0 <= k < |cache| && cache[k].0 == frame) ==> r.1 == cache
    ensures (forall k :: 0 <= k < |cache| ==> cache[k].0 != frame) ==> r == (uploaded, cache + [(frame, uploaded)])
    ensures exists k :: 0 <= k < |r.1| && r.1[k] == (frame, r.0) && forall j :: 0 <= j < k ==> r.1[j].0 != frame
  {
    match CacheIndex(cache, frame)
    case Some(k) => (cache[k].1, cache)
    case None =>
      var c := cache + [(frame, uploaded)];
      assert c[|cache|] == (frame, uploaded);
      (uploaded, c)
  }

  // ---------------------------------------------------------------------
  // The registry

  /** SurfaceData: what the backend keeps per driven CRTC. */
  datatype SurfaceData = SurfaceData(
    composition: Composition,
    id: Option<GlobalId>,
    renderNode: Node,
    deviceNode: Node,
    feedback: Option<Feedback>)

  /** BackendData: what the backend keeps per device node. */
  datatype BackendData = BackendData(token: Token, renderNode: Node, surfaces: map<Crtc, SurfaceData>)

  /** A render of (node, crtc) armed on the event loop. */
  datatype Scheduled = Scheduled(node: Node, crtc: Crtc, timer: Timer)

  /** One event of the connector scanner. */
  datatype ScanEvent =
    | Connected(connector: ConnectorInfo, crtc: Option<Crtc>, hw: ConnectHw)
    | Disconnected(connector: ConnectorInfo, crtc: Option<Crtc>)

  /** The state the handlers read and write. `revoked` records every
      `remove_global` call; `globals` are the output globals still alive. */
  datatype Registry = Registry(
    backends: map<Node, BackendData>,
    outputs: seq<Output>,
    globals: set<GlobalId>,
    revoked: multiset<GlobalId>,
    nextGlobal: GlobalId,
    gpuNodes: set<Node>,
    sources: set<Token>,
    nextToken: Token,
    cursorImages: CursorCache,
    pending: seq<Scheduled>,
    queued: seq<(Node, Crtc)>,
    primaryGpu: Node,
    disableHw: bool)

  /** The state before the first device is added. */
  function Initial(primaryGpu: Node, disableHw: bool): Registry {
    Registry(map[], [], {}, multiset{}, 0, {}, {}, 0, [], [], [], primaryGpu, disableHw)
  }

  ghost predicate Owns(backends: map<Node, BackendData>, n: Node, c: Crtc, g: GlobalId) {
    n in backends && c in backends[n].surfaces && backends[n].surfaces[c].id == Some(g)
  }

  /** Every surface's global is alive. */
  ghost predicate OwnedLive(st: Registry) {
    forall n, c, g :: Owns(st.backends, n, c, g) ==> g in st.globals
  }

  /** No two surfaces share a global. */
  ghost predicate OwnedUnique(backends: map<Node, BackendData>) {
    forall n1, c1, n2, c2, g :: Owns(backends, n1, c1, g) && Owns(backends, n2, c2, g) ==> n1 == n2 && c1 == c2
  }

  /** Every global handed out came from the counter. */
  ghost predicate Bounded(st: Registry) {
    forall g :: g in st.globals ==> g < st.nextGlobal
  }

  /** Every global removed so far was removed exactly once and is gone. */
  ghost predicate RevokedOnce(st: Registry) {
    forall g :: g in st.revoked ==> g !in st.globals && g < st.nextGlobal && st.revoked[g] == 1
  }

  /** The registry invariant every handler preserves. */
  ghost predicate Valid(st: Registry) {
    OwnedLive(st) && OwnedUnique(st.backends) && Bounded(st) && RevokedOnce(st)
  }

  function IdOf(sd: SurfaceData): set<GlobalId> {
    if sd.id.Some? then {sd.id.value} else {}
  }

  function SurfaceIds(surfaces: map<Crtc, SurfaceData>): set<GlobalId> {
    set c | c in surfaces && surfaces[c].id.Some? :: surfaces[c].id.value
  }

  /** The globals of the surfaces at the listed CRTCs. */
  function IdsOn(surfaces: map<Crtc, SurfaceData>, crtcs: seq<Crtc>): set<GlobalId> {
    set c | c in surfaces && c in crtcs && surfaces[c].id.Some? :: surfaces[c].id.value
  }

  /** Dropping SurfaceData values: each removes its global. */
  function Revoke(st: Registry, ids: set<GlobalId>): Registry {
    st.(globals := st.globals - ids, revoked := st.revoked + multiset(ids))
  }

  /** `surfaces.remove(&crtc)`, dropping the removed value. */
  function RemoveSurface(st: Registry, node: Node, crtc: Crtc): Registry
    requires node in st.backends
  {
    var b := st.backends[node];
    if crtc in b.surfaces then
      Revoke(st, IdOf(b.surfaces[crtc])).(backends := st.backends[node := b.(surfaces := b.surfaces - {crtc})])
    else st
  }

  /** `surfaces.insert(crtc, sd)`, dropping a value it replaces. */
  function InsertSurface(st: Registry, node: Node, crtc: Crtc, sd: SurfaceData): Registry
    requires node in st.backends
  {
    var b := st.backends[node];
    var st1 := if crtc in b.surfaces then Revoke(st, IdOf(b.surfaces[crtc])) else st;
    st1.(backends := st.backends[node := b.(surfaces := b.surfaces[crtc := sd])])
  }

  // ---------------------------------------------------------------------
  // The handlers as transitions

  /** connector_disconnected: the surface at `crtc` is dropped and the
      first output tagged (crtc, node) is unmapped. */
  function Disconnect(st: Registry, node: Node, crtc: Crtc): Registry
  {
    if node !in st.backends then st
    else
      var st1 := RemoveSurface(st, node, crtc);
      st1.(outputs := UnmapFirst(st1.outputs, UdevOutputId(crtc, node)))
  }

  /** What connector_disconnected changes, and that nothing else changes. */
  lemma DisconnectEffect(st: Registry, node: Node, crtc: Crtc)
    ensures var r := Disconnect(st, node, crtc);
      && (node !in st.backends ==> r == st)
      && r.backends.Keys == st.backends.Keys
      && (forall n :: n in st.backends && n != node ==> r.backends[n] == st.backends[n])
      && (node in st.backends ==>
            r.backends[node] == st.backends[node].(surfaces := st.backends[node].surfaces - {crtc}))
      && (node in st.backends && crtc in st.backends[node].surfaces ==>
            r == Revoke(st, IdOf(st.backends[node].surfaces[crtc])).(backends := r.backends, outputs := r.outputs))
      && (!(node in st.backends && crtc in st.backends[node].surfaces) ==>
            r.globals == st.globals && r.revoked == st.revoked)
      && (node in st.backends ==> r.outputs == UnmapFirst(st.outputs, UdevOutputId(crtc, node)))
      && r.(backends := st.backends, outputs := st.outputs, globals := st.globals, revoked := st.revoked) == st
  {
  }

  /** connector_connected. */
  function Connect(st: Registry, node: Node, crtc: Crtc, conn: ConnectorInfo, hw: ConnectHw): Registry
    requires node in st.backends ==> |conn.modes| > 0
  {
    if node !in st.backends || !hw.surfaceCreated then st
    else
      var mode := conn.modes[PreferredModeIndex(conn.modes)];
      var g := st.nextGlobal;
      var out := Output(UdevOutputId(crtc, node), StripWidth(st.outputs), 0, mode, Some(mode));
      var st1 := st.(globals := st.globals + {g}, nextGlobal := g + 1, outputs := st.outputs + [out]);
      match BuildComposition(st.disableHw, hw)
      case None => st1
      case Some(comp) =>
        var b := st.backends[node];
        var st2 := InsertSurface(st1, node, crtc, SurfaceData(comp, Some(g), b.renderNode, node, hw.feedback));
        st2.(queued := st2.queued + [(node, crtc)])
  }

  /** What connector_connected adds: an output at the right of the strip
      and a fresh global and, when a composition could be built, the
      surface (dropping any it replaces) and a queued first render; nothing
      else changes. */
  lemma ConnectEffect(st: Registry, node: Node, crtc: Crtc, conn: ConnectorInfo, hw: ConnectHw)
    requires node in st.backends ==> |conn.modes| > 0
    ensures var r := Connect(st, node, crtc, conn, hw);
      && (node !in st.backends || !hw.surfaceCreated ==> r == st)
      && (node in st.backends && hw.surfaceCreated ==>
         var mode := conn.modes[PreferredModeIndex(conn.modes)];
         && r.outputs == st.outputs + [Output(UdevOutputId(crtc, node), StripWidth(st.outputs), 0, mode, Some(mode))]
         && r.nextGlobal == st.nextGlobal + 1)
      && (node in st.backends && hw.surfaceCreated && BuildComposition(st.disableHw, hw).None? ==>
         r == st.(outputs := r.outputs, globals := st.globals + {st.nextGlobal}, nextGlobal := st.nextGlobal + 1))
      && (node in st.backends && hw.surfaceCreated && BuildComposition(st.disableHw, hw).Some? ==>
         var b := st.backends[node];
         var sd := SurfaceData(BuildComposition(st.disableHw, hw).value, Some(st.nextGlobal), b.renderNode, node, hw.feedback);
         var replaced := if crtc in b.surfaces then IdOf(b.surfaces[crtc]) else {};
         && r.backends == st.backends[node := b.(surfaces := b.surfaces[crtc := sd])]
         && r.globals == (st.globals + {st.nextGlobal}) - replaced
         && r.revoked == st.revoked + multiset(replaced)
         && r.queued == st.queued + [(node, crtc)])
      && (r.pending == st.pending && r.cursorImages == st.cursorImages && r.gpuNodes == st.gpuNodes)
      && (r.sources == st.sources && r.nextToken == st.nextToken)
      && (r.primaryGpu == st.primaryGpu && r.disableHw == st.disableHw)
  {
  }

  /** Connected events whose connector is set up need a non-empty mode list. */
  predicate ModesPresent(events: seq<ScanEvent>) {
    forall k :: 0 <= k < |events| ==>
      (events[k].Connected? && events[k].crtc.Some? ==> |events[k].connector.modes| > 0)
  }

  /** One iteration of device_changed's loop: events without a CRTC are
      ignored. */
  function Step(st: Registry, node: Node, e: ScanEvent): (r: Registry)
    requires e.Connected? && e.crtc.Some? ==> |e.connector.modes| > 0
    ensures e.crtc.None? ==> r == st
  {
    match e
    case Connected(conn, Some(crtc), hw) => Connect(st, node, crtc, conn, hw)
    case Disconnected(_, Some(crtc)) => Disconnect(st, node, crtc)
    case _ => st
  }

  /** The loop of device_changed over the scanner's events, in order. */
  function ApplyEvents(st: Registry, node: Node, events: seq<ScanEvent>): (r: Registry)
    requires ModesPresent(events)
    decreases |events|
  {
    if events == [] then st
    else
      assert ModesPresent(events[..|events| - 1]);
      Step(ApplyEvents(st, node, events[..|events| - 1]), node, events[|events| - 1])
  }

  /** device_changed's loop keeps the device entries, their tokens and
      render nodes, and leaves other devices and the event loop alone. */
  lemma {:induction false} ApplyEventsFrame(st: Registry, node: Node, events: seq<ScanEvent>)
    requires ModesPresent(events)
    decreases |events|
    ensures var r := ApplyEvents(st, node, events);
      && r.backends.Keys == st.backends.Keys
      && (forall n :: n in st.backends && n != node ==> r.backends[n] == st.backends[n])
      && (node in st.backends ==>
            r.backends[node].token == st.backends[node].token && r.backends[node].renderNode == st.backends[node].renderNode)
      && r.sources == st.sources && r.nextToken == st.nextToken && r.gpuNodes == st.gpuNodes
      && r.pending == st.pending && r.cursorImages == st.cursorImages
      && r.primaryGpu == st.primaryGpu && r.disableHw == st.disableHw
  {
    if events != [] {
      var pre := events[..|events| - 1];
      assert ModesPresent(pre);
      ApplyEventsFrame(st, node, pre);
      var q := ApplyEvents(st, node, pre);
      match events[|events| - 1]
      case Connected(conn, Some(crtc), hw) => ConnectEffect(q, node, crtc, conn, hw);
      case Disconnected(_, Some(crtc)) => DisconnectEffect(q, node, crtc);
      case _ =>
    }
  }

  /** Applying one more event is one more Step. */
  lemma ApplyEventsSnoc(st: Registry, node: Node, events: seq<ScanEvent>, i: nat)
    requires ModesPresent(events) && i < |events|
    ensures ModesPresent(events[..i]) && ModesPresent(events[..i + 1])
    ensures ApplyEvents(st, node, events[..i + 1]) == Step(ApplyEvents(st, node, events[..i]), node, events[i])
  {
    assert events[..i + 1][..i] == events[..i];
  }

  /** device_changed: nothing happens for an unknown node. */
  function Changed(st: Registry, node: Node, events: seq<ScanEvent>): Registry
    requires ModesPresent(events)
  {
    if node !in st.backends then st else ApplyEvents(st, node, events)
  }

  /** The first half of device_added: register the device's event source
      and render node and store a fresh device entry. `renderLookup` is the
      render node EGL reports, if any. Inserting over an existing entry drops
      it, and with it its surfaces. */
  function Attach(st: Registry, node: Node, renderLookup: Option<Node>): (r: Registry)
    ensures r.backends == st.backends[node := BackendData(st.nextToken, renderLookup.GetOr(node), map[])]
    ensures r.sources == st.sources + {st.nextToken} && r.nextToken == st.nextToken + 1
    ensures r.gpuNodes == st.gpuNodes + {renderLookup.GetOr(node)}
    ensures node !in st.backends ==> r.globals == st.globals && r.revoked == st.revoked
    ensures node in st.backends ==>
      r.globals == st.globals - SurfaceIds(st.backends[node].surfaces)
      && r.revoked == st.revoked + multiset(SurfaceIds(st.backends[node].surfaces))
    ensures r.(backends := st.backends, sources := st.sources, nextToken := st.nextToken, gpuNodes := st.gpuNodes,
               globals := st.globals, revoked := st.revoked) == st
  {
    var renderNode := renderLookup.GetOr(node);
    var token := st.nextToken;
    var st1 := st.(sources := st.sources + {token}, nextToken := token + 1, gpuNodes := st.gpuNodes + {renderNode});
    var st2 := if node in st1.backends then Revoke(st1, SurfaceIds(st1.backends[node].surfaces)) else st1;
    st2.(backends := st2.backends[node := BackendData(token, renderNode, map[])])
  }

  /** device_added: attach the device, then run device_changed on the
      scanner's first scan. */
  function Added(st: Registry, node: Node, renderLookup: Option<Node>, events: seq<ScanEvent>): (r: Registry)
    requires ModesPresent(events)
    ensures r.backends.Keys == st.backends.Keys + {node}
    ensures forall n :: n in st.backends && n != node ==> r.backends[n] == st.backends[n]
    ensures r.backends[node].token == st.nextToken && r.backends[node].renderNode == renderLookup.GetOr(node)
    ensures r.sources == st.sources + {st.nextToken} && r.nextToken == st.nextToken + 1
    ensures r.gpuNodes == st.gpuNodes + {renderLookup.GetOr(node)}
  {
    ApplyEventsFrame(Attach(st, node, renderLookup), node, events);
    Changed(Attach(st, node, renderLookup), node, events)
  }

  /** The loop of device_removed over the CRTCs the scanner tracks. */
  function DisconnectAll(st: Registry, node: Node, crtcs: seq<Crtc>): Registry
    decreases |crtcs|
  {
    if crtcs == [] then st
    else Disconnect(DisconnectAll(st, node, crtcs[..|crtcs| - 1]), node, crtcs[|crtcs| - 1])
  }

  /** device_removed's loop keeps every device entry and its token, leaves
      other devices alone and touches nothing outside the device entries,
      outputs and globals. */
  lemma {:induction false} DisconnectAllFrame(st: Registry, node: Node, crtcs: seq<Crtc>)
    requires node in st.backends
    decreases |crtcs|
    ensures var r := DisconnectAll(st, node, crtcs);
      && r.backends.Keys == st.backends.Keys
      && (forall n :: n in st.backends && n != node ==> r.backends[n] == st.backends[n])
      && r.backends[node].token == st.backends[node].token
      && r.(backends := st.backends, outputs := st.outputs, globals := st.globals, revoked := st.revoked) == st
  {
    if crtcs != [] {
      DisconnectAllFrame(st, node, crtcs[..|crtcs| - 1]);
    }
  }

  /** device_removed: disconnect every tracked CRTC, then drop the device
      entry (and the surfaces still in it), deregister the node from the GPU
      manager and remove the device's event source. */
  function Removed(st: Registry, node: Node, crtcs: seq<Crtc>): (r: Registry)
    ensures node !in st.backends ==> r == st
    ensures node in st.backends ==>
      && r.backends == st.backends - {node}
      && r.gpuNodes == st.gpuNodes - {node}
      && r.sources == st.sources - {st.backends[node].token}
      && r.globals == st.globals - SurfaceIds(st.backends[node].surfaces)
      && st.revoked <= r.revoked
      && Keep(r.outputs, ExceptDevice(node)) == Keep(st.outputs, ExceptDevice(node))
    ensures r.(backends := st.backends, outputs := st.outputs, globals := st.globals, revoked := st.revoked,
               gpuNodes := st.gpuNodes, sources := st.sources) == st
  {
    if node !in st.backends then st
    else
      DisconnectAllFrame(st, node, crtcs);
      DisconnectAllEffect(st, node, crtcs);
      DisconnectAllRevoked(st, node, crtcs);
      DisconnectAllSurfaces(st, node, crtcs);
      DisconnectAllOutputs(st, node, crtcs);
      IdsSplit(st.backends[node].surfaces, crtcs);
      DropDevice(DisconnectAll(st, node, crtcs), node)
  }

  /** The end of device_removed: the device entry goes (dropping the
      surfaces still in it), the node leaves the GPU manager and the
      device's event source is removed. */
  function DropDevice(st: Registry, node: Node): (r: Registry)
    requires node in st.backends
    ensures r.backends == st.backends - {node}
    ensures r.gpuNodes == st.gpuNodes - {node} && r.sources == st.sources - {st.backends[node].token}
    ensures r.globals == st.globals - SurfaceIds(st.backends[node].surfaces)
    ensures r.revoked == st.revoked + multiset(SurfaceIds(st.backends[node].surfaces))
    ensures r.(backends := st.backends, globals := st.globals, revoked := st.revoked,
               gpuNodes := st.gpuNodes, sources := st.sources) == st
  {
    var b := st.backends[node];
    Revoke(st, SurfaceIds(b.surfaces)).(
      backends := st.backends - {node},
      gpuNodes := st.gpuNodes - {node},
      sources := st.sources - {b.token})
  }

  /** The surface and the mapped output a completion event or a timer for
      (node, crtc) works on, when both exist. */
  function FrameTarget(st: Registry, node: Node, crtc: Crtc): Option<(SurfaceData, Output)> {
    if node in st.backends && crtc in st.backends[node].surfaces then
      var s := st.backends[node].surfaces[crtc];
      match FindTagged(st.outputs, UdevOutputId(crtc, s.deviceNode))
      case Some(i) => Some((s, st.outputs[i]))
      case None => None
    else None
  }

  /** frame_finish. A lost rendering context panics, so it may only arrive
      for a (node, crtc) that has no surface or no mapped output. */
  function FrameFinish(st: Registry, node: Node, crtc: Crtc, result: SubmitResult): (r: Registry)
    requires result == ContextLost ==> FrameTarget(st, node, crtc).None?
    ensures r.(pending := st.pending) == st
    ensures |st.pending| <= |r.pending| <= |st.pending| + 1 && r.pending[..|st.pending|] == st.pending
    ensures |r.pending| > |st.pending| <==>
      && FrameTarget(st, node, crtc).Some?
      && Classify(result) == Reschedule(true)
      && FrameTarget(st, node, crtc).value.1.current.Some?
    ensures |r.pending| > |st.pending| ==>
      var (s, o) := FrameTarget(st, node, crtc).value;
      r.pending[|st.pending|] == Scheduled(node, crtc, RepaintTimer(st.primaryGpu, s.renderNode, o.current.value.refresh))
  {
    match FrameTarget(st, node, crtc)
    case None => st
    case Some((s, o)) =>
      if Classify(result) == Reschedule(true) && o.current.Some? then
        st.(pending := st.pending + [Scheduled(node, crtc, RepaintTimer(st.primaryGpu, s.renderNode, o.current.value.refresh))])
      else st
  }

  /** render_surface. `frame` is the cursor image of the moment, `uploaded`
      the texture importing it would give, and `rendered` whether the render
      produced damage. */
  function RenderSurface(st: Registry, node: Node, crtc: Crtc, frame: CursorFrame, uploaded: Texture, rendered: bool): (r: Registry)
    ensures node !in st.backends || crtc !in st.backends[node].surfaces ==> r == st
    ensures node in st.backends && crtc in st.backends[node].surfaces ==>
      r.cursorImages == CursorTexture(st.cursorImages, frame, uploaded).1
    ensures r.(cursorImages := st.cursorImages, pending := st.pending, queued := st.queued) == st
    ensures |st.queued| <= |r.queued| <= |st.queued| + 1 && r.queued[..|st.queued|] == st.queued
    ensures |r.queued| > |st.queued| <==> FrameTarget(st, node, crtc).Some? && rendered
    ensures |r.queued| > |st.queued| ==> r.queued[|st.queued|] == (node, crtc)
    ensures |st.pending| <= |r.pending| <= |st.pending| + 1 && r.pending[..|st.pending|] == st.pending
    ensures |r.pending| > |st.pending| <==>
      FrameTarget(st, node, crtc).Some? && !rendered && FrameTarget(st, node, crtc).value.1.current.Some?
    ensures |r.pending| > |st.pending| ==>
      r.pending[|st.pending|] == Scheduled(node, crtc, After(FrameInterval(FrameTarget(st, node, crtc).value.1.current.value.refresh)))
  {
    if node !in st.backends || crtc !in st.backends[node].surfaces then st
    else
      var s := st.backends[node].surfaces[crtc];
      var st1 := st.(cursorImages := CursorTexture(st.cursorImages, frame, uploaded).1);
      match FindTagged(st.outputs, UdevOutputId(crtc, s.deviceNode))
      case None => st1
      case Some(i) =>
        if rendered then st1.(queued := st1.queued + [(node, crtc)])
        else match st.outputs[i].current
          case None => st1
          case Some(m) => st1.(pending := st1.pending + [Scheduled(node, crtc, After(FrameInterval(m.refresh)))])
  }

  // ---------------------------------------------------------------------
  // Lemmas about the output list

  lemma {:induction false} KeepConcat(a: seq<Output>, b: seq<Output>, sel: Selector)
    decreases |a|
    ensures Keep(a + b, sel) == Keep(a, sel) + Keep(b, sel)
  {
    if a == [] {
      assert a + b == b;
    } else {
      var head := if Selects(sel, a[0]) then [a[0]] else [];
      assert (a + b)[0] == a[0] && (a + b)[1..] == a[1..] + b;
      KeepConcat(a[1..], b, sel);
      calc {
        Keep(a + b, sel);
        head + Keep(a[1..] + b, sel);
        head + (Keep(a[1..], sel) + Keep(b, sel));
        (head + Keep(a[1..], sel)) + Keep(b, sel);
      }
    }
  }

  /** Unmapping the first output tagged `tag` keeps, in order, every output
      of another tag (and, a fortiori, of another device). */
  lemma KeepUnmapFirst(outputs: seq<Output>, tag: UdevOutputId, sel: Selector)
    requires sel == ExceptTag(tag) || sel == ExceptDevice(tag.deviceId)
    ensures Keep(UnmapFirst(outputs, tag), sel) == Keep(outputs, sel)
  {
    match FindTagged(outputs, tag)
    case None =>
    case Some(i) =>
      var o := outputs[i];
      assert outputs == outputs[..i] + ([o] + outputs[i + 1..]);
      KeepConcat(outputs[..i], [o] + outputs[i + 1..], sel);
      KeepConcat([o], outputs[i + 1..], sel);
      KeepConcat(outputs[..i], outputs[i + 1..], sel);
      assert [o][1..] == [];
  }

  /** device_removed's loop removes exactly the node's surfaces at the
      listed CRTCs. */
  lemma {:induction false} DisconnectAllSurfaces(st: Registry, node: Node, crtcs: seq<Crtc>)
    requires node in st.backends
    decreases |crtcs|
    ensures node in DisconnectAll(st, node, crtcs).backends
    ensures DisconnectAll(st, node, crtcs).backends[node].surfaces == st.backends[node].surfaces - set c | c in crtcs
  {
    DisconnectAllFrame(st, node, crtcs);
    if crtcs != [] {
      var pre := crtcs[..|crtcs| - 1];
      var c := crtcs[|crtcs| - 1];
      DisconnectAllSurfaces(st, node, pre);
      assert crtcs == pre + [c];
      RemoveOneMore(st.backends[node].surfaces, pre, c);
    }
  }

  lemma RemoveOneMore(m: map<Crtc, SurfaceData>, pre: seq<Crtc>, c: Crtc)
    ensures (m - set x | x in pre) - {c} == m - set x | x in pre + [c]
  {
    assert (set x | x in pre + [c]) == (set x | x in pre) + {c};
  }

  /** What device_removed's loop does to the globals. */
  lemma {:induction false} DisconnectAllEffect(st: Registry, node: Node, crtcs: seq<Crtc>)
    requires node in st.backends
    decreases |crtcs|
    ensures DisconnectAll(st, node, crtcs).globals == st.globals - IdsOn(st.backends[node].surfaces, crtcs)
  {
    var m0 := st.backends[node].surfaces;
    if crtcs == [] {
      assert IdsOn(m0, crtcs) == {};
    } else {
      var pre := crtcs[..|crtcs| - 1];
      var c := crtcs[|crtcs| - 1];
      assert crtcs == pre + [c];
      DisconnectAllEffect(st, node, pre);
      DisconnectAllFrame(st, node, pre);
      DisconnectAllSurfaces(st, node, pre);
      var q := DisconnectAll(st, node, pre);
      IdsOnSnoc(m0, pre, c);
      if c in m0 && c !in pre {
        assert c in q.backends[node].surfaces && q.backends[node].surfaces[c] == m0[c];
      } else {
        assert c !in q.backends[node].surfaces;
      }
    }
  }

  /** device_removed's loop never takes back a removal. */
  lemma {:induction false} DisconnectAllRevoked(st: Registry, node: Node, crtcs: seq<Crtc>)
    requires node in st.backends
    decreases |crtcs|
    ensures st.revoked <= DisconnectAll(st, node, crtcs).revoked
  {
    if crtcs != [] {
      DisconnectAllRevoked(st, node, crtcs[..|crtcs| - 1]);
    }
  }

  lemma IdsOnSnoc(m: map<Crtc, SurfaceData>, pre: seq<Crtc>, c: Crtc)
    ensures c in m && c !in pre ==> IdsOn(m, pre + [c]) == IdsOn(m, pre) + IdOf(m[c])
    ensures !(c in m && c !in pre) ==> IdsOn(m, pre + [c]) == IdsOn(m, pre)
  {
    assert forall x :: x in pre + [c] <==> x in pre || x == c;
  }

  /** device_removed's loop keeps, in order, every output of other
      devices. */
  lemma {:induction false} DisconnectAllOutputs(st: Registry, node: Node, crtcs: seq<Crtc>)
    requires node in st.backends
    decreases |crtcs|
    ensures Keep(DisconnectAll(st, node, crtcs).outputs, ExceptDevice(node)) == Keep(st.outputs, ExceptDevice(node))
  {
    if crtcs != [] {
      var pre := crtcs[..|crtcs| - 1];
      DisconnectAllOutputs(st, node, pre);
      KeepUnmapFirst(DisconnectAll(st, node, pre).outputs, UdevOutputId(crtcs[|crtcs| - 1], node), ExceptDevice(node));
    }
  }

  /** The surfaces at the listed CRTCs and the rest hold all the globals. */
  lemma IdsSplit(m: map<Crtc, SurfaceData>, crtcs: seq<Crtc>)
    ensures IdsOn(m, crtcs) + SurfaceIds(m - set c | c in crtcs) == SurfaceIds(m)
  {
    var rest := m - set c | c in crtcs;
    forall g | g in SurfaceIds(m) ensures g in IdsOn(m, crtcs) + SurfaceIds(rest) {
      var c :| c in m && m[c].id.Some? && m[c].id.value == g;
      if c !in crtcs {
        assert c in rest && rest[c] == m[c];
      }
    }
  }

  // ---------------------------------------------------------------------
  // The registry invariant

  lemma InitialValid(primaryGpu: Node, disableHw: bool)
    ensures Valid(Initial(primaryGpu, disableHw))
  {
  }

  /** Removing globals that are alive keeps each removal unique. */
  lemma RevokeOnce(st: Registry, ids: set<GlobalId>)
    requires Bounded(st) && RevokedOnce(st) && ids <= st.globals
    ensures Bounded(Revoke(st, ids)) && RevokedOnce(Revoke(st, ids))
  {
    var r := Revoke(st, ids);
    forall g | g in r.revoked ensures g !in r.globals && g < r.nextGlobal && r.revoked[g] == 1 {
      if g in ids {
        assert g !in st.revoked;
      } else {
        assert g in st.revoked;
      }
    }
  }

  /** Dropping device entries or surfaces keeps the owners unique. */
  lemma OwnersShrink(a: map<Node, BackendData>, b: map<Node, BackendData>)
    requires OwnedUnique(a)
    requires forall n :: n in b ==> n in a && b[n].surfaces.Keys <= a[n].surfaces.Keys
    requires forall n, c :: n in b && c in b[n].surfaces ==> b[n].surfaces[c] == a[n].surfaces[c]
    ensures OwnedUnique(b)
  {
    forall n1: Node, c1: Crtc, n2: Node, c2: Crtc, g: GlobalId | Owns(b, n1, c1, g) && Owns(b, n2, c2, g)
      ensures n1 == n2 && c1 == c2
    {
      assert Owns(a, n1, c1, g) && Owns(a, n2, c2, g);
    }
  }

  lemma {:induction false} DisconnectValid(st: Registry, node: Node, crtc: Crtc)
    requires Valid(st)
    ensures Valid(Disconnect(st, node, crtc))
  {
    DisconnectEffect(st, node, crtc);
    var r := Disconnect(st, node, crtc);
    if node in st.backends {
      var m := st.backends[node].surfaces;
      forall n: Node, c: Crtc, g: GlobalId | Owns(r.backends, n, c, g) ensures Owns(st.backends, n, c, g) {
        if n == node {
          assert c in r.backends[node].surfaces && r.backends[node].surfaces[c] == m[c];
        }
      }
      if crtc in m {
        var ids := IdOf(m[crtc]);
        assert ids <= st.globals by {
          if m[crtc].id.Some? {
            assert Owns(st.backends, node, crtc, m[crtc].id.value);
          }
        }
        RevokeOnce(st, ids);
        forall n: Node, c: Crtc, g: GlobalId | Owns(r.backends, n, c, g) ensures g in r.globals {
          assert Owns(st.backends, n, c, g) && (n != node || c != crtc);
          assert !Owns(st.backends, node, crtc, g);
        }
      }
    }
  }

  lemma {:induction false} ConnectValid(st: Registry, node: Node, crtc: Crtc, conn: ConnectorInfo, hw: ConnectHw)
    requires Valid(st)
    requires node in st.backends ==> |conn.modes| > 0
    ensures Valid(Connect(st, node, crtc, conn, hw))
  {
    if node in st.backends && hw.surfaceCreated {
      if BuildComposition(st.disableHw, hw).Some? {
        ConnectSurfaceValid(st, node, crtc, conn, hw);
      } else {
        ConnectEffect(st, node, crtc, conn, hw);
        var g := st.nextGlobal;
        assert Valid(st.(globals := st.globals + {g}, nextGlobal := g + 1));
      }
    }
  }

  /** A connector with a composition: the new surface owns the fresh
      global, and the global of a surface it replaces is revoked. */
  lemma ConnectSurfaceValid(st: Registry, node: Node, crtc: Crtc, conn: ConnectorInfo, hw: ConnectHw)
    requires Valid(st) && node in st.backends && |conn.modes| > 0
    requires hw.surfaceCreated && BuildComposition(st.disableHw, hw).Some?
    ensures Valid(Connect(st, node, crtc, conn, hw))
  {
    ConnectEffect(st, node, crtc, conn, hw);
    var r := Connect(st, node, crtc, conn, hw);
    var g := st.nextGlobal;
    var st1 := st.(globals := st.globals + {g}, nextGlobal := g + 1);
    var m := st.backends[node].surfaces;
    var replaced := if crtc in m then IdOf(m[crtc]) else {};
    assert replaced <= st.globals by {
      if crtc in m && m[crtc].id.Some? {
        assert Owns(st.backends, node, crtc, m[crtc].id.value);
      }
    }
    RevokeOnce(st1, replaced);
    assert r.globals == Revoke(st1, replaced).globals && r.revoked == Revoke(st1, replaced).revoked;
    // every other owner is an owner in st, whose global predates g
    forall n: Node, c: Crtc, x: GlobalId | Owns(r.backends, n, c, x) && (n != node || c != crtc)
      ensures Owns(st.backends, n, c, x) && x != g && x !in replaced
    {
      if n == node {
        assert c in m && m[c] == r.backends[node].surfaces[c];
      }
      assert Owns(st.backends, n, c, x) && x in st.globals;
      assert !Owns(st.backends, node, crtc, x);
    }
    assert Owns(r.backends, node, crtc, g);
    assert g !in replaced;
  }

  lemma {:induction false} ApplyEventsValid(st: Registry, node: Node, events: seq<ScanEvent>)
    requires Valid(st) && ModesPresent(events)
    decreases |events|
    ensures Valid(ApplyEvents(st, node, events))
  {
    if events != [] {
      var pre := events[..|events| - 1];
      assert ModesPresent(pre);
      ApplyEventsValid(st, node, pre);
      var q := ApplyEvents(st, node, pre);
      match events[|events| - 1]
      case Connected(conn, Some(crtc), hw) => ConnectValid(q, node, crtc, conn, hw);
      case Disconnected(_, Some(crtc)) => DisconnectValid(q, node, crtc);
      case _ =>
    }
  }

  lemma AttachValid(st: Registry, node: Node, renderLookup: Option<Node>)
    requires Valid(st)
    ensures Valid(Attach(st, node, renderLookup))
  {
    var r := Attach(st, node, renderLookup);
    if node in st.backends {
      var ids := SurfaceIds(st.backends[node].surfaces);
      assert ids <= st.globals by {
        forall x | x in ids ensures x in st.globals {
          var c :| c in st.backends[node].surfaces && st.backends[node].surfaces[c].id == Some(x);
          assert Owns(st.backends, node, c, x);
        }
      }
      RevokeOnce(st, ids);
      assert Bounded(r) && RevokedOnce(r);
    }
    forall n: Node, c: Crtc, x: GlobalId | Owns(r.backends, n, c, x) ensures Owns(st.backends, n, c, x) && x in r.globals {
      assert n != node && Owns(st.backends, n, c, x) && x in st.globals;
      if node in st.backends && x in SurfaceIds(st.backends[node].surfaces) {
        var c' :| c' in st.backends[node].surfaces && st.backends[node].surfaces[c'].id == Some(x);
        assert Owns(st.backends, node, c', x);
      }
    }
  }

  lemma AddedValid(st: Registry, node: Node, renderLookup: Option<Node>, events: seq<ScanEvent>)
    requires Valid(st) && ModesPresent(events)
    ensures Valid(Added(st, node, renderLookup, events))
  {
    AttachValid(st, node, renderLookup);
    ApplyEventsValid(Attach(st, node, renderLookup), node, events);
  }

  lemma {:induction false} DisconnectAllValid(st: Registry, node: Node, crtcs: seq<Crtc>)
    requires Valid(st) && node in st.backends
    decreases |crtcs|
    ensures Valid(DisconnectAll(st, node, crtcs))
  {
    if crtcs != [] {
      DisconnectAllValid(st, node, crtcs[..|crtcs| - 1]);
      DisconnectValid(DisconnectAll(st, node, crtcs[..|crtcs| - 1]), node, crtcs[|crtcs| - 1]);
    }
  }

  lemma RemovedValid(st: Registry, node: Node, crtcs: seq<Crtc>)
    requires Valid(st)
    ensures Valid(Removed(st, node, crtcs))
  {
    if node in st.backends {
      DisconnectAllValid(st, node, crtcs);
      DisconnectAllFrame(st, node, crtcs);
      var st1 := DisconnectAll(st, node, crtcs);
      var m := st1.backends[node].surfaces;
      assert SurfaceIds(m) <= st1.globals by {
        forall x | x in SurfaceIds(m) ensures x in st1.globals {
          var c :| c in m && m[c].id == Some(x);
          assert Owns(st1.backends, node, c, x);
        }
      }
      RevokeOnce(st1, SurfaceIds(m));
      var r := Removed(st, node, crtcs);
      OwnersShrink(st1.backends, r.backends);
      forall n: Node, c: Crtc, x: GlobalId | Owns(r.backends, n, c, x) ensures x in r.globals {
        assert Owns(st1.backends, n, c, x);
        if x in SurfaceIds(m) {
          var c' :| c' in m && m[c'].id == Some(x);
          assert Owns(st1.backends, node, c', x);
        }
      }
    }
  }

  // ---------------------------------------------------------------------
  // connector_disconnected

  /** No two mapped outputs carry the same tag. */
  predicate AtMostOneTagged(outputs: seq<Output>, tag: UdevOutputId) {
    forall i, j :: 0 <= i < j < |outputs| ==> outputs[i].tag != tag || outputs[j].tag != tag
  }

  /** A disconnect removes its surface's global, and that global has then
      been removed exactly once. */
  lemma DisconnectRevokesOnce(st: Registry, node: Node, crtc: Crtc)
    requires Valid(st)
    requires node in st.backends && crtc in st.backends[node].surfaces
    requires st.backends[node].surfaces[crtc].id.Some?
    ensures var g := st.backends[node].surfaces[crtc].id.value;
      g in st.globals && g !in Disconnect(st, node, crtc).globals && Disconnect(st, node, crtc).revoked[g] == 1
  {
    var g := st.backends[node].surfaces[crtc].id.value;
    assert Owns(st.backends, node, crtc, g);
    assert g !in st.revoked;
  }

  /** Disconnecting leaves every output of another tag mapped, in order, and
      unmaps one output at most. */
  lemma DisconnectKeepsOtherOutputs(st: Registry, node: Node, crtc: Crtc)
    requires node in st.backends
    ensures var r := Disconnect(st, node, crtc);
      && Keep(r.outputs, ExceptTag(UdevOutputId(crtc, node))) == Keep(st.outputs, ExceptTag(UdevOutputId(crtc, node)))
      && |r.outputs| == |st.outputs| - (if FindTagged(st.outputs, UdevOutputId(crtc, node)).Some? then 1 else 0)
  {
    KeepUnmapFirst(st.outputs, UdevOutputId(crtc, node), ExceptTag(UdevOutputId(crtc, node)));
  }

  /** A second disconnect of the same CRTC drops no surface and revokes
      nothing; when only one output carried the tag it changes nothing at
      all. */
  lemma DisconnectIdempotent(st: Registry, node: Node, crtc: Crtc)
    ensures var r1 := Disconnect(st, node, crtc);
      var r2 := Disconnect(r1, node, crtc);
      r2.backends == r1.backends && r2.globals == r1.globals && r2.revoked == r1.revoked
    ensures AtMostOneTagged(st.outputs, UdevOutputId(crtc, node)) ==>
      Disconnect(Disconnect(st, node, crtc), node, crtc) == Disconnect(st, node, crtc)
  {
    if node in st.backends {
      var tag := UdevOutputId(crtc, node);
      var r1 := Disconnect(st, node, crtc);
      var m := r1.backends[node].surfaces;
      assert crtc !in m;
      assert m - {crtc} == m;
      if AtMostOneTagged(st.outputs, tag) {
        match FindTagged(st.outputs, tag)
        case None =>
        case Some(i) =>
          forall j | 0 <= j < |r1.outputs| ensures r1.outputs[j].tag != tag {
            if j >= i {
              assert r1.outputs[j] == st.outputs[j + 1];
            }
          }
          assert FindTagged(r1.outputs, tag).None?;
      }
    }
  }

  // ---------------------------------------------------------------------
  // connector_connected: placement

  /** A connect keeps the outputs laid out as a strip. */
  lemma ConnectKeepsStrip(st: Registry, node: Node, crtc: Crtc, conn: ConnectorInfo, hw: ConnectHw)
    requires node in st.backends ==> |conn.modes| > 0
    requires StripLayout(st.outputs)
    ensures StripLayout(Connect(st, node, crtc, conn, hw).outputs)
  {
    var r := Connect(st, node, crtc, conn, hw);
    if node in st.backends && hw.surfaceCreated {
      forall k | 0 <= k < |r.outputs| ensures r.outputs[k].x == StripWidth(r.outputs[..k]) && r.outputs[k].y == 0 {
        if k < |st.outputs| {
          assert r.outputs[..k] == st.outputs[..k];
        } else {
          assert r.outputs[..k] == st.outputs;
        }
      }
    }
  }

  /** Two monitors connected one after the other end up side by side. */
  lemma SideBySide(st: Registry, node: Node, c1: Crtc, c2: Crtc, a: ConnectorInfo, b: ConnectorInfo, hw: ConnectHw)
    requires st.outputs == [] && node in st.backends && hw.surfaceCreated
    requires a.modes == [Mode(1280, 1024, 60000, false), Mode(1920, 1080, 60000, true)]
    requires b.modes == [Mode(2560, 1440, 75000, false)]
    ensures var r := Connect(Connect(st, node, c1, a, hw), node, c2, b, hw);
      && |r.outputs| == 2
      && r.outputs[0].x == 0 && r.outputs[0].current == Some(Mode(1920, 1080, 60000, true))
      && r.outputs[1].x == 1920 && r.outputs[1].current == Some(Mode(2560, 1440, 75000, false))
  {
    var s1 := Connect(st, node, c1, a, hw);
    assert FirstPreferred(a.modes[1..]) == Some(0);
    assert StripWidth(s1.outputs) == StripWidth([]) + 1920;
  }

  /** Positions are never recomputed: after a middle output is unplugged,
      the next output is placed at the sum of the remaining widths, which
      lies inside the last output. */
  lemma ReplugOverlaps(st: Registry, node: Node, oa: Output, ob: Output, oc: Output, d: ConnectorInfo, hw: ConnectHw)
    requires node in st.backends && hw.surfaceCreated
    requires oa.current == Some(Mode(1920, 1080, 60000, true)) && oa.x == 0
    requires ob.current == Some(Mode(1280, 1024, 60000, true)) && ob.x == 1920 && ob.tag == UdevOutputId(2, node)
    requires oc.current == Some(Mode(1920, 1080, 60000, true)) && oc.x == 3200
    requires oa.tag != ob.tag && st.outputs == [oa, ob, oc]
    requires d.modes == [Mode(1920, 1080, 60000, true)]
    ensures var r := Connect(Disconnect(st, node, 2), node, 4, d, hw);
      && r.outputs[..2] == [oa, oc]
      && r.outputs[2].x == 3840 && oc.x < r.outputs[2].x < oc.x + Width(oc)
  {
    var s1 := Disconnect(st, node, 2);
    assert FindTagged(st.outputs, ob.tag) == Some(1);
    assert s1.outputs == [oa, oc];
    assert StripWidth(s1.outputs) == StripWidth([oa]) + 1920;
    assert StripWidth([oa]) == StripWidth([]) + 1920;
  }

  // ---------------------------------------------------------------------
  // The cursor cache and the driver quirk

  /** Looking the same frame up again returns the same texture and leaves
      the cache as the first lookup left it. */
  lemma CursorTextureIdempotent(cache: CursorCache, frame: CursorFrame, u1: Texture, u2: Texture)
    ensures var (t, c1) := CursorTexture(cache, frame, u1);
      CursorTexture(c1, frame, u2) == (t, c1)
  {
    var (t, c1) := CursorTexture(cache, frame, u1);
    match CacheIndex(cache, frame)
    case Some(k) =>
    case None =>
      assert c1 == cache + [(frame, u1)];
      assert c1[|cache|].0 == frame;
      match CacheIndex(c1, frame)
      case None =>
      case Some(k) =>
        assert k == |cache|;
  }

  /** The quirk ignores the case of the driver's name and description. */
  lemma QuirkIgnoresCase(d: DriverInfo)
    ensures NvidiaQuirk(DriverInfo(ToUpper(d.name), ToUpper(d.description))) == NvidiaQuirk(d)
  {
    CaseIdempotent(d.name);
    CaseIdempotent(d.description);
  }

  lemma {:induction false} ContainsFits(s: string, p: string)
    decreases |s|
    ensures Contains(s, p) ==> |p| <= |s|
  {
    if |s| > 0 {
      ContainsFits(s[1..], p);
    }
  }

  /** The proprietary driver loses its overlay planes; a driver whose name
      and description are too short to mention it keeps them. */
  lemma QuirkExamples(p: Planes)
    ensures NvidiaQuirk(DriverInfo("NVIDIA", ""))
    ensures QuirkedPlanes(DriverInfo("NVIDIA", ""), p) == p.(overlay := [])
    ensures QuirkedPlanes(DriverInfo("i915", "Intel"), p) == p
  {
    assert ToLower("NVIDIA") == "nvidia";
    assert StartsWith(ToLower("NVIDIA"), "nvidia");
    ContainsFits(ToLower("i915"), "nvidia");
    ContainsFits(ToLower("Intel"), "nvidia");
  }
}

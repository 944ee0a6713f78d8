/**
 * The udev/DRM backend's handlers as they run: one object whose maps, output
 * list, cursor cache and timer list are updated in place. Each handler is
 * proved to perform exactly the transition module Drm defines for it, and to
 * keep the registry invariant Drm.Valid.
 */
module DrmBackend {
  import opened Wrappers
  import opened Drm

  class Udev {
    var backends: map<Node, BackendData>
    var outputs: seq<Output>
    var globals: set<GlobalId>
    ghost var revoked: multiset<GlobalId>   // every remove_global call so far
    var nextGlobal: GlobalId
    var gpuNodes: set<Node>
    var sources: set<Token>
    var nextToken: Token
    var cursorImages: CursorCache
    var pending: seq<Scheduled>
    var queued: seq<(Node, Crtc)>
    const primaryGpu: Node
    const disableHw: bool

    /** The registry this object holds. */
    ghost function Abs(): Registry
      reads this
    {
      Registry(backends, outputs, globals, revoked, nextGlobal, gpuNodes, sources, nextToken,
               cursorImages, pending, queued, primaryGpu, disableHw)
    }

    ghost predicate Valid()
      reads this
    {
      Drm.Valid(Abs())
    }

    constructor (primaryGpu: Node, disableHw: bool)
      ensures Abs() == Initial(primaryGpu, disableHw) && Valid()
    {
      backends := map[];
      outputs := [];
      globals := {};
      revoked := multiset{};
      nextGlobal := 0;
      gpuNodes := {};
      sources := {};
      nextToken := 0;
      cursorImages := [];
      pending := [];
      queued := [];
      this.primaryGpu := primaryGpu;
      this.disableHw := disableHw;
      InitialValid(primaryGpu, disableHw);
    }

    /** Dropping SurfaceData values: each one still holding a global removes
        it from the display. */
    method Drop(ids: set<GlobalId>)
      modifies this
      ensures Abs() == Revoke(old(Abs()), ids)
    {
      globals := globals - ids;
      revoked := revoked + multiset(ids);
    }

    /** The first mapped output carrying `tag`. */
    method FindOutput(tag: UdevOutputId) returns (r: Option<nat>)
      ensures r == FindTagged(outputs, tag)
    {
      var i := 0;
      while i < |outputs|
        invariant 0 <= i <= |outputs|
        invariant forall j :: 0 <= j < i ==> outputs[j].tag != tag
      {
        if outputs[i].tag == tag {
          return Some(i);
        }
        i := i + 1;
      }
      return None;
    }

    /** The x at which the next output is mapped: the summed widths of the
        mapped outputs. */
    method NextOutputX() returns (x: int)
      ensures x == StripWidth(outputs)
    {
      x := 0;
      var i := 0;
      while i < |outputs|
        invariant 0 <= i <= |outputs|
        invariant x == StripWidth(outputs[..i])
      {
        assert outputs[..i + 1][..i] == outputs[..i];
        x := x + Width(outputs[i]);
        i := i + 1;
      }
      assert outputs[..i] == outputs;
    }

    /** The cursor texture for `frame`, importing `uploaded` and caching it
        on a miss. */
    method CursorTexture(frame: CursorFrame, uploaded: Texture) returns (t: Texture)
      modifies this
      ensures (t, cursorImages) == Drm.CursorTexture(old(cursorImages), frame, uploaded)
      ensures Abs() == old(Abs()).(cursorImages := cursorImages)
    {
      var i := 0;
      while i < |cursorImages|
        invariant 0 <= i <= |cursorImages|
        invariant forall j :: 0 <= j < i ==> cursorImages[j].0 != frame
      {
        if cursorImages[i].0 == frame {
          assert CacheIndex(cursorImages, frame) == Some(i);
          return cursorImages[i].1;
        }
        i := i + 1;
      }
      cursorImages := cursorImages + [(frame, uploaded)];
      t := uploaded;
    }

    /** connector_disconnected. */
    method ConnectorDisconnected(node: Node, crtc: Crtc)
      modifies this
      ensures Abs() == Disconnect(old(Abs()), node, crtc)
    {
      if node !in backends {
        return;
      }
      var b := backends[node];
      if crtc in b.surfaces {
        var sd := b.surfaces[crtc];
        backends := backends[node := b.(surfaces := b.surfaces - {crtc})];
        Drop(IdOf(sd));
      } else {
        assert b.surfaces - {crtc} == b.surfaces;
      }
      var found := FindOutput(UdevOutputId(crtc, node));
      if found.Some? {
        outputs := outputs[..found.value] + outputs[found.value + 1..];
      }
    }

    /** connector_connected. `hw` gives the answers of the DRM, GBM and EGL
        calls made on the way. */
    method ConnectorConnected(node: Node, crtc: Crtc, conn: ConnectorInfo, hw: ConnectHw)
      requires node in backends ==> |conn.modes| > 0
      modifies this
      ensures Abs() == Connect(old(Abs()), node, crtc, conn, hw)
    {
      ghost var st := Abs();
      if node !in backends || !hw.surfaceCreated {
        return;
      }
      var mode := conn.modes[PreferredModeIndex(conn.modes)];
      var g := nextGlobal;
      globals := globals + {g};
      nextGlobal := g + 1;
      var x := NextOutputX();
      var out := Output(UdevOutputId(crtc, node), x, 0, mode, Some(mode));
      outputs := outputs + [out];
      ghost var st1 := Abs();
      assert st1 == st.(globals := st.globals + {g}, nextGlobal := g + 1, outputs := st.outputs + [out]);
      var comp := BuildComposition(disableHw, hw);
      if comp.None? {
        return;
      }
      var sd := SurfaceData(comp.value, Some(g), backends[node].renderNode, node, hw.feedback);
      InsertSurface(node, crtc, sd);
      queued := queued + [(node, crtc)];
    }

    /** `surfaces.insert(crtc, sd)` on the device's entry; a value it
        replaces is dropped. */
    method InsertSurface(node: Node, crtc: Crtc, sd: SurfaceData)
      requires node in backends
      modifies this
      ensures Abs() == Drm.InsertSurface(old(Abs()), node, crtc, sd)
    {
      var b := backends[node];
      backends := backends[node := b.(surfaces := b.surfaces[crtc := sd])];
      if crtc in b.surfaces {
        Drop(IdOf(b.surfaces[crtc]));
      }
    }

    /** device_changed: apply the scanner's events in order. */
    method DeviceChanged(node: Node, events: seq<ScanEvent>)
      requires Valid() && ModesPresent(events)
      modifies this
      ensures Abs() == Changed(old(Abs()), node, events) && Valid()
    {
      if node !in backends {
        return;
      }
      ghost var st := Abs();
      var i := 0;
      while i < |events|
        invariant 0 <= i <= |events|
        invariant Abs() == ApplyEvents(st, node, events[..i])
        invariant Valid()
      {
        ApplyEventsSnoc(st, node, events, i);
        ghost var before := Abs();
        match events[i] {
          case Connected(conn, Some(crtc), hw) =>
            ConnectValid(before, node, crtc, conn, hw);
            ConnectorConnected(node, crtc, conn, hw);
          case Disconnected(_, Some(crtc)) =>
            DisconnectValid(before, node, crtc);
            ConnectorDisconnected(node, crtc);
          case _ =>
        }
        assert Abs() == Step(before, node, events[i]);
        i := i + 1;
      }
      assert events[..i] == events;
    }

    /** device_added. `renderLookup` is the render node EGL reports for the
        device, `events` the scanner's first scan. */
    method DeviceAdded(node: Node, renderLookup: Option<Node>, events: seq<ScanEvent>)
      requires Valid() && ModesPresent(events)
      modifies this
      ensures Abs() == Added(old(Abs()), node, renderLookup, events) && Valid()
    {
      ghost var attached := Attach(Abs(), node, renderLookup);
      AttachValid(Abs(), node, renderLookup);
      var renderNode := renderLookup.GetOr(node);
      var token := nextToken;
      sources := sources + {token};
      nextToken := token + 1;
      gpuNodes := gpuNodes + {renderNode};
      if node in backends {
        Drop(SurfaceIds(backends[node].surfaces));
      }
      backends := backends[node := BackendData(token, renderNode, map[])];
      assert Abs() == attached;
      DeviceChanged(node, events);
    }

    /** device_removed. `crtcs` are the CRTCs the device's scanner tracks. */
    method DeviceRemoved(node: Node, crtcs: seq<Crtc>)
      requires Valid()
      modifies this
      ensures Abs() == Removed(old(Abs()), node, crtcs) && Valid()
    {
      ghost var st := Abs();
      RemovedValid(st, node, crtcs);
      if node !in backends {
        return;
      }
      DisconnectTracked(node, crtcs);
      DisconnectAllFrame(st, node, crtcs);
      DropBackend(node);
    }

    /** The loop of device_removed over the tracked CRTCs. */
    method DisconnectTracked(node: Node, crtcs: seq<Crtc>)
      requires node in backends
      modifies this
      ensures Abs() == DisconnectAll(old(Abs()), node, crtcs)
    {
      ghost var st := Abs();
      var i := 0;
      while i < |crtcs|
        invariant 0 <= i <= |crtcs|
        invariant Abs() == DisconnectAll(st, node, crtcs[..i])
      {
        assert crtcs[..i + 1][..i] == crtcs[..i];
        ConnectorDisconnected(node, crtcs[i]);
        i := i + 1;
      }
      assert crtcs[..i] == crtcs;
    }

    /** The end of device_removed, after its loop. */
    method DropBackend(node: Node)
      requires node in backends
      modifies this
      ensures Abs() == DropDevice(old(Abs()), node)
    {
      var b := backends[node];
      backends := backends - {node};
      Drop(SurfaceIds(b.surfaces));
      gpuNodes := gpuNodes - {node};
      sources := sources - {b.token};
    }

    /** frame_finish for a completion event of (node, crtc). */
    method FrameFinish(node: Node, crtc: Crtc, result: SubmitResult)
      requires Valid()
      requires result == ContextLost ==> FrameTarget(Abs(), node, crtc).None?
      modifies this
      ensures Abs() == Drm.FrameFinish(old(Abs()), node, crtc, result) && Valid()
    {
      if node !in backends || crtc !in backends[node].surfaces {
        return;
      }
      var surface := backends[node].surfaces[crtc];
      var found := FindOutput(UdevOutputId(crtc, surface.deviceNode));
      if found.None? {
        return;
      }
      var output := outputs[found.value];
      var schedule := Classify(result);
      if schedule == Reschedule(true) {
        if output.current.None? {
          return;
        }
        var timer := RepaintTimer(primaryGpu, surface.renderNode, output.current.value.refresh);
        pending := pending + [Scheduled(node, crtc, timer)];
      }
    }

    /** render_surface for (node, crtc). `frame` is the current cursor image,
        `uploaded` what importing it gives, `rendered` whether the render
        produced damage. */
    method RenderSurface(node: Node, crtc: Crtc, frame: CursorFrame, uploaded: Texture, rendered: bool)
      requires Valid()
      modifies this
      ensures Abs() == Drm.RenderSurface(old(Abs()), node, crtc, frame, uploaded, rendered) && Valid()
    {
      if node !in backends || crtc !in backends[node].surfaces {
        return;
      }
      var surface := backends[node].surfaces[crtc];
      var _ := CursorTexture(frame, uploaded);
      var found := FindOutput(UdevOutputId(crtc, surface.deviceNode));
      if found.None? {
        return;
      }
      var output := outputs[found.value];
      if rendered {
        queued := queued + [(node, crtc)];
      } else {
        if output.current.None? {
          return;
        }
        pending := pending + [Scheduled(node, crtc, After(FrameInterval(output.current.value.refresh)))];
      }
    }
  }
}

/**
 * The prototype GBM scanout: collect the connected connectors and the free
 * CRTCs of a device, fill a 1920x1080 test-pattern buffer, and put it on
 * the first free CRTC driving every connected connector. What the DRM
 * device answers about each connector and CRTC is given to the model.
 */
module Gbm {
  import opened Wrappers

  type ConnectorHandle = nat
  type CrtcHandle = nat
  type FramebufferId = nat
  type Byte = b: int | 0 <= b < 0x100

  datatype ConnectorState = Connected | Disconnected | Unknown

  /** The answer of get_connector (a state) or get_crtc (the framebuffer
      attached, if any), or an error. */
  datatype Answer<T> = Ok(value: T) | Err

  /** The connectors whose state is Connected, in enumeration order. */
  function ConnectedOf(conns: seq<(ConnectorHandle, Answer<ConnectorState>)>): (r: seq<ConnectorHandle>)
    decreases |conns|
    ensures |r| <= |conns|
  {
    if conns == [] then []
    else
      var (h, a) := conns[|conns| - 1];
      ConnectedOf(conns[..|conns| - 1]) + if a == Ok(Connected) then [h] else []
  }

  /** The CRTCs with no framebuffer attached, in enumeration order. */
  function FreeOf(crtcs: seq<(CrtcHandle, Answer<Option<FramebufferId>>)>): (r: seq<CrtcHandle>)
    decreases |crtcs|
    ensures |r| <= |crtcs|
  {
    if crtcs == [] then []
    else
      var (h, a) := crtcs[|crtcs| - 1];
      FreeOf(crtcs[..|crtcs| - 1]) + if a == Ok(None) then [h] else []
  }

  /** A connector is listed exactly when some enumeration entry reports it
      Connected; disconnected, unknown and unreadable ones are skipped. */
  lemma {:induction false} ConnectedMembers(conns: seq<(ConnectorHandle, Answer<ConnectorState>)>, h: ConnectorHandle)
    decreases |conns|
    ensures h in ConnectedOf(conns) <==> exists i :: 0 <= i < |conns| && conns[i] == (h, Ok(Connected))
  {
    if conns != [] {
      var k := |conns| - 1;
      ConnectedMembers(conns[..k], h);
      if exists i :: 0 <= i < k && conns[..k][i] == (h, Ok(Connected)) {
        var i :| 0 <= i < k && conns[..k][i] == (h, Ok(Connected));
        assert conns[i] == conns[..k][i];
      }
      if exists i :: 0 <= i < |conns| && conns[i] == (h, Ok(Connected)) {
        var i :| 0 <= i < |conns| && conns[i] == (h, Ok(Connected));
        if i < k {
          assert conns[..k][i] == conns[i];
        }
      }
    }
  }

  /** Filtering distributes over concatenation: the order of enumeration is
      kept. */
  lemma {:induction false} ConnectedConcat(a: seq<(ConnectorHandle, Answer<ConnectorState>)>, b: seq<(ConnectorHandle, Answer<ConnectorState>)>)
    decreases |b|
    ensures ConnectedOf(a + b) == ConnectedOf(a) + ConnectedOf(b)
  {
    if b == [] {
      assert a + b == a;
    } else {
      var k := |b| - 1;
      assert (a + b)[..|a + b| - 1] == a + b[..k];
      ConnectedConcat(a, b[..k]);
    }
  }

  /** A CRTC is listed exactly when some enumeration entry reports it
      without a framebuffer; busy and unreadable ones are skipped. */
  lemma {:induction false} FreeMembers(crtcs: seq<(CrtcHandle, Answer<Option<FramebufferId>>)>, h: CrtcHandle)
    decreases |crtcs|
    ensures h in FreeOf(crtcs) <==> exists i :: 0 <= i < |crtcs| && crtcs[i] == (h, Ok(None))
  {
    if crtcs != [] {
      var k := |crtcs| - 1;
      FreeMembers(crtcs[..k], h);
      if exists i :: 0 <= i < k && crtcs[..k][i] == (h, Ok(None)) {
        var i :| 0 <= i < k && crtcs[..k][i] == (h, Ok(None));
        assert crtcs[i] == crtcs[..k][i];
      }
      if exists i :: 0 <= i < |crtcs| && crtcs[i] == (h, Ok(None)) {
        var i :| 0 <= i < |crtcs| && crtcs[i] == (h, Ok(None));
        if i < k {
          assert crtcs[..k][i] == crtcs[i];
        }
      }
    }
  }

  /** The first free CRTC is the first entry reporting no framebuffer. */
  lemma {:induction false} FirstFree(crtcs: seq<(CrtcHandle, Answer<Option<FramebufferId>>)>, i: nat)
    requires i < |crtcs| && crtcs[i].1 == Ok(None)
    requires forall j :: 0 <= j < i ==> crtcs[j].1 != Ok(None)
    decreases |crtcs|
    ensures FreeOf(crtcs) != [] && FreeOf(crtcs)[0] == crtcs[i].0
  {
    var k := |crtcs| - 1;
    if i < k {
      FirstFree(crtcs[..k], i);
    } else {
      assert FreeOf(crtcs[..k]) == [] by {
        if FreeOf(crtcs[..k]) != [] {
          FreeMembers(crtcs[..k], FreeOf(crtcs[..k])[0]);
        }
      }
    }
  }

  /** The loop over the connector handles. */
  method ConnectedConnectors(conns: seq<(ConnectorHandle, Answer<ConnectorState>)>) returns (connectors: seq<ConnectorHandle>)
    ensures connectors == ConnectedOf(conns)
  {
    connectors := [];
    for i := 0 to |conns|
      invariant connectors == ConnectedOf(conns[..i])
    {
      assert conns[..i + 1][..i] == conns[..i];
      match conns[i].1 {
        case Ok(Connected) =>
          connectors := connectors + [conns[i].0];
        case _ =>
      }
    }
    assert conns[..|conns|] == conns;
  }

  /** The loop over the CRTC handles. */
  method FreeCrtcs(crtcs: seq<(CrtcHandle, Answer<Option<FramebufferId>>)>) returns (validCrtcs: seq<CrtcHandle>)
    ensures validCrtcs == FreeOf(crtcs)
  {
    validCrtcs := [];
    for i := 0 to |crtcs|
      invariant validCrtcs == FreeOf(crtcs[..i])
    {
      assert crtcs[..i + 1][..i] == crtcs[..i];
      match crtcs[i].1 {
        case Ok(None) =>
          validCrtcs := validCrtcs + [crtcs[i].0];
        case _ =>
      }
    }
    assert crtcs[..|crtcs|] == crtcs;
  }

  const Columns: nat := 1920
  const Rows: nat := 1080

  /** Byte k of the test pattern: runs of 1080 bytes, alternately 0 and
      255, starting with 0. */
  function PatternByte(k: nat): Byte {
    if (k / Rows) % 2 == 0 then 0 else 255
  }

  /** Consecutive runs differ, and a run is constant. */
  lemma PatternStripes(i: nat, j: nat)
    requires j < Rows
    ensures PatternByte(i * Rows + j) == if i % 2 == 0 then 0 else 255
    ensures PatternByte(i * Rows + j) != PatternByte((i + 1) * Rows + j)
  {
    RunIndex(i, j);
    RunIndex(i + 1, j);
  }

  lemma RunIndex(i: nat, j: nat)
    requires j < Rows
    ensures (i * Rows + j) / Rows == i
  {
  }

  /** The pixel data: an outer loop over 1920 runs, an inner loop pushing
      1080 equal bytes. */
  method TestPattern() returns (data: seq<Byte>)
    ensures |data| == Columns * Rows
    ensures forall k :: 0 <= k < |data| ==> data[k] == PatternByte(k)
  {
    data := [];
    for i := 0 to Columns
      invariant |data| == i * Rows
      invariant forall k :: 0 <= k < |data| ==> data[k] == PatternByte(k)
    {
      for j := 0 to Rows
        invariant |data| == i * Rows + j
        invariant forall k :: 0 <= k < |data| ==> data[k] == PatternByte(k)
      {
        RunIndex(i, j);
        data := data + [if i % 2 == 0 then 0 else 255];
      }
    }
  }

  /** The set_crtc call render makes. */
  datatype SetCrtc = SetCrtc(crtc: CrtcHandle, framebuffer: FramebufferId, position: (int, int), connectors: seq<ConnectorHandle>)

  /** render: `fb` is the framebuffer add_framebuffer creates. Without a
      free CRTC the source panics, so one is required. */
  method Render(conns: seq<(ConnectorHandle, Answer<ConnectorState>)>, crtcs: seq<(CrtcHandle, Answer<Option<FramebufferId>>)>, fb: FramebufferId)
    returns (call: SetCrtc, pixels: seq<Byte>)
    requires FreeOf(crtcs) != []
    ensures call == SetCrtc(FreeOf(crtcs)[0], fb, (0, 0), ConnectedOf(conns))
    ensures |pixels| == Columns * Rows && forall k :: 0 <= k < |pixels| ==> pixels[k] == PatternByte(k)
  {
    var connectors := ConnectedConnectors(conns);
    var validCrtcs := FreeCrtcs(crtcs);
    pixels := TestPattern();
    call := SetCrtc(validCrtcs[0], fb, (0, 0), connectors);
  }
}

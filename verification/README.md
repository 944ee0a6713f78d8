# corrosionwm, modelled in Dafny

corrosionwm is a small Wayland compositor built on smithay. The compositor's own logic is modelled here. Everything smithay, DRM, GBM or EGL decides is modelled as an input.

- **DRM backend bookkeeping** (`drm.dfy`, `drm_backend.dfy`). This is a per-device table (`node → BackendData`) of per-CRTC tables (`crtc → SurfaceData`).
  - Each surface owns an `wl_output` global that is removed when its `SurfaceData` is dropped.
  - The space keeps a list of mapped outputs, tagged with `UdevOutputId`.
  - A cursor texture cache is only ever appended to.
  - Handlers covered: `device_added`, `device_changed`, `device_removed`, `connector_connected`, `connector_disconnected`, `frame_finish` and `render_surface`.
  - The pure rules inside them are modelled as functions: the preferred mode, the horizontal strip of outputs, the composition variant and the NVIDIA overlay-plane quirk, the classification of submit results, the repaint timer, and the cursor-cache lookup.
  - Each handler is a function on a `Registry` value, together with the registry invariant it preserves. The class `DrmBackend.Udev` holds the same state in fields; each of its methods is proved to perform that function's transition.
- **Keybind parsing and keycodes** (`config.dfy`, `ascii.dfy`). `"M-x-y | kitty"` splits into a special key, keys and a command. Each key maps to the wrapping u32 sum of the UTF-8 bytes of the key, trimmed and upper-cased.
- **Input** (`input.dfy`, `geometry.dfy`). This covers three pieces:
  - pointer clamping onto the outputs;
  - the keyboard shortcut filter;
  - the relative pointer-motion update of the compositor state.
- **Shell** (`state.dfy`). This covers two pieces:
  - the hit-test priority of `surface_under_pointer`;
  - the choice of frame callback recipients in `post_repaint`.
- **Move grab** (`move_grab.dfy`). The window follows the pointer. The grab ends when neither the left button nor the left meta key is held.
- **GBM test scanout** (`gbm.dfy`). This covers connector and CRTC filtering and the 1920×1080 test pattern.

Coordinates are `real`. The float-to-`i32` casts are modelled explicitly:
- `as i32` truncates toward zero and saturates;
- `to_i32_round` rounds halves away from zero and saturates.

Keysyms are `bv32`, so the source's `KEY_h | KEY_H` is computed as the source writes it.

The model keeps these behaviours of the code as written:
- **Other `TemporaryFailure`s.** In `frame_finish` a `TemporaryFailure` other than `DeviceInactive` or a permission-denied access error does not reschedule the frame. It is not rescheduled as a transient error (`src/backend/drm.rs:567-629`).
- **`device_added` failures.** `device_added` panics when opening the device, or creating its DRM or GBM device, fails. It does not skip the device (`src/backend/drm.rs:231-290`). The model assumes these calls succeed.
- **EDID.** The EDID read in `connector_connected` is unwrapped. It does not fall back to defaults (`src/backend/drm.rs:350-352`).
- **Timers.** `device_removed` does not cancel timers already scheduled for the device's surfaces (`src/backend/drm.rs:505-531`). The model keeps them as pending entries.
- **GPU manager node.** `device_removed` removes `node` from the GPU manager, although `device_added` added `render_node` (`src/backend/drm.rs:273, 525`). The model removes `node`.
- **Re-inserting a key.** Inserting a device or a surface under a key that is already present drops the old value. Dropping it removes its global (`src/backend/drm.rs:278, 462`).
- **Unmapping.** `connector_disconnected` unmaps only the first output with the matching tag (`src/backend/drm.rs:677-695`).

## Model

| member | source | states |
|---|---|---|
| Drm.FirstPreferred | src/backend/drm.rs:324-330 | the index of the first mode flagged preferred, or None exactly when no mode is flagged |
| Drm.PreferredModeIndex | src/backend/drm.rs:324-330 | for a non-empty mode list: the first preferred mode's index, or 0 when no mode is preferred |
| Drm.FindTagged | src/backend/drm.rs:676-691 | the first mapped output carrying the tag, or None when no output carries it |
| Drm.BuildComposition | src/backend/drm.rs:384-453 | with the hardware compositor disabled, the Surface variant with the supported formats exactly when the GBM surface is created. Otherwise the Compositor variant exactly when driver, planes and compositor are all available. Its primary and cursor planes are kept, and its overlay planes are emptied exactly when the driver matches the NVIDIA quirk |
| Drm.Classify | src/backend/drm.rs:567-629 | a lost context is fatal and nothing else is. The frame is rescheduled exactly on success, already-swapped, or a permission-denied access error |
| Drm.RepaintTimer | src/backend/drm.rs:631-651 | the timer is immediate exactly when the surface renders on another GPU than the primary one. Otherwise it fires after the repaint delay |
| Drm.CacheIndex | src/backend/drm.rs:734-743 | the first cache entry holding an equal cursor frame, or None when none does |
| Drm.CursorTexture | src/backend/drm.rs:734-758 | the cache keeps its old entries as a prefix and grows by at most one. A hit leaves it unchanged; a miss appends exactly (frame, uploaded texture). The texture returned is the one stored for the first entry with that frame |
| Drm.DisconnectEffect | src/backend/drm.rs:662-696 | an unknown node changes nothing. Otherwise only `surfaces[crtc]` is removed and its global revoked, the first output tagged (crtc, node) is unmapped, and every other device and field is unchanged |
| Drm.ConnectEffect | src/backend/drm.rs:293-475 | an unknown node or a failed surface creation changes nothing. Otherwise the output is mapped at (strip width, 0) with the preferred mode as both preferred and current mode, and one global is created. When the composition is built, exactly `surfaces[crtc]` is inserted (a replaced surface's global is revoked) and an initial render is queued |
| Drm.Step | src/backend/drm.rs:486-502 | a scanner event without a CRTC changes nothing |
| Drm.ApplyEventsFrame | src/backend/drm.rs:478-503 | the scanner events touch only the surfaces of this node. The device set, each device's token and render node, the event sources, the GPU manager, the timers and the cursor cache are unchanged |
| Drm.Attach | src/backend/drm.rs:231-290 | the device is stored with a fresh event-source token and its render node (the node itself when no render node is found). That render node joins the GPU manager. A device already present is replaced, and its surfaces' globals are revoked |
| Drm.Added | src/backend/drm.rs:231-290 | after the device is attached and scanned, the device set gains the node, other devices are unchanged, and the new entry has the fresh token and the render node |
| Drm.DisconnectAllFrame | src/backend/drm.rs:512-520 | disconnecting every tracked CRTC keeps the device set and the node's token, leaves other devices alone, and touches nothing outside the backends, outputs and globals |
| Drm.DisconnectAllSurfaces | src/backend/drm.rs:512-520 | disconnecting every tracked CRTC removes exactly the node's surfaces at those CRTCs |
| Drm.Removed | src/backend/drm.rs:505-531 | an unknown node changes nothing. Otherwise the node leaves the backends, the GPU manager and the event sources, and all its surfaces' globals are removed. Outputs of other devices stay mapped |
| Drm.DropDevice | src/backend/drm.rs:524-530 | the device entry, its GPU-manager node and its event source go, and the globals of the surfaces still in the entry are revoked; nothing else changes |
| Drm.FrameFinish | src/backend/drm.rs:533-660 | only the pending timers change, and they grow by at most one. A timer is added exactly when the backend, surface, output and current mode exist and the submit result reschedules. It is the timer RepaintTimer chooses for that (node, crtc) |
| Drm.RenderSurface | src/backend/drm.rs:697-883 | only the cursor cache, the queue and the timers change. An unknown surface changes nothing. The cursor cache is looked up or extended as CursorTexture says. A frame is queued exactly when the output is mapped and rendering produced damage. A one-frame repaint timer is scheduled exactly when the output is mapped, nothing was rendered, and the output has a current mode |
| Drm.KeepConcat | src/backend/drm.rs:677-695 | filtering the output list distributes over concatenation |
| Drm.KeepUnmapFirst | src/backend/drm.rs:677-695 | unmapping the first tagged output leaves every output with another tag, and every output of another device, in place and in order |
| Drm.DisconnectAllEffect | src/backend/drm.rs:512-520 | disconnecting a list of CRTCs removes exactly the globals of their surfaces |
| Drm.DisconnectAllRevoked | src/backend/drm.rs:512-520 | disconnecting a list of CRTCs never takes back a removal |
| Drm.DisconnectAllOutputs | src/backend/drm.rs:512-520 | disconnecting a list of CRTCs keeps every output of other devices, in order |
| Drm.IdsSplit | src/backend/drm.rs:108-114 | the globals of a surface table are those of the removed CRTCs plus those of the rest |
| Drm.InitialValid | src/backend/drm.rs:99-106 | the empty registry satisfies the registry invariant |
| Drm.RevokeOnce | src/backend/drm.rs:108-114 | dropping surface data for live globals keeps every global removed exactly once |
| Drm.OwnersShrink | src/backend/drm.rs:90-97 | removing surfaces cannot make two surfaces share a global |
| Drm.DisconnectValid | src/backend/drm.rs:662-696 | connector_disconnected preserves the registry invariant (globals live, unique, from the counter, each revoked once) |
| Drm.ConnectValid | src/backend/drm.rs:293-475 | connector_connected preserves the registry invariant |
| Drm.ApplyEventsValid | src/backend/drm.rs:486-502 | the scanner loop preserves the registry invariant |
| Drm.AttachValid | src/backend/drm.rs:278-288 | storing the device preserves the registry invariant |
| Drm.AddedValid | src/backend/drm.rs:231-290 | device_added preserves the registry invariant |
| Drm.DisconnectAllValid | src/backend/drm.rs:512-520 | the disconnect loop of device_removed preserves the registry invariant |
| Drm.RemovedValid | src/backend/drm.rs:505-531 | device_removed preserves the registry invariant |
| Drm.DisconnectRevokesOnce | src/backend/drm.rs:108-114 | after a disconnect, the surface's global is gone and appears exactly once among the revoked globals |
| Drm.DisconnectKeepsOtherOutputs | src/backend/drm.rs:677-695 | a disconnect keeps every output with another tag in order and unmaps exactly one output when one is tagged |
| Drm.DisconnectIdempotent | src/backend/drm.rs:662-696 | disconnecting the same CRTC twice leaves the surfaces and globals as once. It leaves everything as once when at most one output carries the tag |
| Drm.ConnectKeepsStrip | src/backend/drm.rs:363-372 | connecting keeps the outputs side by side, each starting where the previous ones end |
| Drm.SideBySide | src/backend/drm.rs:324-372 | two monitors connected in turn sit at x = 0 and x = 1920, each in its preferred or first mode |
| Drm.ReplugOverlaps | src/backend/drm.rs:363-372 | after unplugging a middle output and plugging one in, the new output is placed at the sum of the widths, inside the last output. The strip is not re-packed |
| Drm.CursorTextureIdempotent | src/backend/drm.rs:734-758 | looking up the same cursor frame again finds the stored texture and leaves the cache unchanged |
| Drm.QuirkIgnoresCase | src/backend/drm.rs:419-433 | the NVIDIA quirk does not depend on the letter case of the driver name or description |
| Drm.ContainsFits | src/backend/drm.rs:419-433 | a string contains only substrings no longer than itself |
| Drm.QuirkExamples | src/backend/drm.rs:419-433 | a driver named "NVIDIA" loses its overlay planes, and an Intel driver keeps them |
| DrmBackend.Udev.constructor | src/backend/drm.rs:99-106 | the backend starts empty and satisfies the registry invariant |
| DrmBackend.Udev.Drop | src/backend/drm.rs:108-114 | dropping surface data removes its globals and logs each as revoked |
| DrmBackend.Udev.FindOutput | src/backend/drm.rs:676-691 | the loop finds the first output with the tag, as FindTagged specifies |
| DrmBackend.Udev.NextOutputX | src/backend/drm.rs:363-368 | the loop sums the widths of the mapped outputs |
| DrmBackend.Udev.CursorTexture | src/backend/drm.rs:734-758 | the cache loop performs the lookup-or-append CursorTexture specifies and changes nothing else |
| DrmBackend.Udev.ConnectorDisconnected | src/backend/drm.rs:662-696 | the handler performs Disconnect: the surface and its global go, the first output with its tag is unmapped, nothing else changes (DisconnectValid states the invariant it keeps) |
| DrmBackend.Udev.InsertSurface | src/backend/drm.rs:462-473 | inserting a surface performs InsertSurface: a surface it replaces is dropped with its global |
| DrmBackend.Udev.ConnectorConnected | src/backend/drm.rs:293-475 | the handler performs Connect: a new output at the right end of the strip, a fresh global, and with a composition the surface and its queued first render (ConnectValid states the invariant it keeps) |
| DrmBackend.Udev.DeviceChanged | src/backend/drm.rs:478-503 | the scanner loop performs Changed and keeps the registry invariant |
| DrmBackend.Udev.DeviceAdded | src/backend/drm.rs:231-290 | the handler performs Added and keeps the registry invariant |
| DrmBackend.Udev.DeviceRemoved | src/backend/drm.rs:505-531 | the handler performs Removed and keeps the registry invariant |
| DrmBackend.Udev.DisconnectTracked | src/backend/drm.rs:512-520 | the loop performs DisconnectAll over the tracked CRTCs |
| DrmBackend.Udev.DropBackend | src/backend/drm.rs:524-530 | the tail of device_removed performs DropDevice |
| DrmBackend.Udev.FrameFinish | src/backend/drm.rs:533-660 | the handler performs FrameFinish and keeps the registry invariant |
| DrmBackend.Udev.RenderSurface | src/backend/drm.rs:697-883 | the handler performs RenderSurface and keeps the registry invariant |
| Ascii.ToLower | src/backend/drm.rs:419-428 | each character is lower-cased if it is an ASCII capital letter and kept otherwise |
| Ascii.ToUpper | src/config.rs:132 | each character is upper-cased if it is an ASCII small letter and kept otherwise |
| Ascii.CaseIdempotent | src/config.rs:132 | changing case after changing case to the other one is the same as changing case once |
| Config.Find | src/config.rs:85-93 | the first position where the separator occurs, or None when it occurs nowhere |
| Config.Split | src/config.rs:85-93 | splitting always yields at least one piece |
| Config.JoinSplit | src/config.rs:85-93 | joining the pieces of a split with its separator gives back the string |
| Config.SplitPiecesFree | src/config.rs:85-93 | no piece of a split contains the separator |
| Config.SplitSingle | src/config.rs:85-93 | a string without the separator splits into itself |
| Config.SplitFirst | src/config.rs:85-93 | a separator-free prefix followed by the separator is split off as the first piece |
| Config.NoEarlyOccurrence | src/config.rs:85-93 | a prefix lacking one of the separator's characters holds no occurrence of it |
| Config.NoOccurrence | src/config.rs:85-93 | a string lacking one of the separator's characters holds no occurrence of it |
| Config.CharNotInJoin | src/config.rs:85-93 | a character absent from the pieces and the separator is absent from their join |
| Config.SplitJoin | src/config.rs:85-93 | splitting a join of pieces free of a one-character separator gives back the pieces |
| Config.SpecialKeyOf | src/config.rs:95-101 | a special key exactly for "M", "S", "C" and "A", and the key's letter is the name |
| Config.SpecialKeyOfLetter | src/config.rs:70-75 | each special key is recovered from its letter |
| Config.HasCommandIff | src/config.rs:87-89 | the " \| " split has a second piece exactly when the separator occurs |
| Config.ParseKeybind | src/config.rs:85-108 | the special key comes from the first "-" segment. The keys contain no "-", and the keys with the first name reassemble the key part. The command is the second " \| " segment and contains no " \| " |
| Config.ParsePieces | src/config.rs:85-108 | for any number of " \| " segments past the first, the keybind is the special key of the first "-" segment, the remaining segments, and the second " \| " segment |
| Config.ExtraSegmentsIgnored | src/config.rs:87-89 | text after a second " \| " is dropped: the command is only the text between the first and the second " \| " |
| Config.ParseFormat | src/config.rs:85-108 | formatting a well-formed keybind and parsing it gives it back |
| Config.FirstSegmentConsumed | src/config.rs:91-101 | a key part with no "-" is consumed as the special key and leaves no keys. An unknown name gives no special key |
| Config.KeybindModX | src/config.rs:16-22 | "M-x \| kitty" parses to ModKey, ["x"], "kitty" |
| Config.KeybindMultiKey | src/config.rs:24-30 | "M-x-y \| kitty" keeps the keys in input order |
| Config.KeybindSpecialKeys | src/config.rs:32-42 | each letter M, S, C, A selects its special key |
| Config.Utf8 | src/config.rs:133 | a character encodes to one to four bytes, and to itself alone exactly when it is ASCII |
| Config.Utf8RoundTrip | src/config.rs:133 | decoding a character's UTF-8 bytes gives back its code point |
| Config.Bytes | src/config.rs:133 | a string has at least as many bytes as characters |
| Config.TrimStart | src/config.rs:132 | the result is a suffix, everything cut is whitespace, and the result does not begin with whitespace |
| Config.TrimEnd | src/config.rs:132 | the result is a prefix, everything cut is whitespace, and the result does not end with whitespace |
| Config.Trim | src/config.rs:132 | a non-empty trimmed key neither begins nor ends with whitespace |
| Config.TrimSlice | src/config.rs:132 | trimming both ends yields the contiguous slice of the key between its leading and trailing whitespace |
| Config.WrappingAdd | src/config.rs:134-138 | wrapping after each byte is the same as wrapping the whole sum once |
| Config.KeyCodesAt | src/config.rs:125-144 | one code per key, and code i is the code of key i |
| Config.SumBytes | src/config.rs:134-138 | the accumulator loop gives the byte sum modulo 2^32 |
| Config.KeysToKeycodes | src/config.rs:125-144 | the nested loops compute the code of each key, in order |
| Config.CaseKeepsWhitespace | src/config.rs:132 | lower-casing keeps whether a character is whitespace |
| Config.TrimStartLower | src/config.rs:132 | trimming commutes with lower-casing at the start |
| Config.TrimEndLower | src/config.rs:132 | trimming commutes with lower-casing at the end |
| Config.KeyCodeIgnoresCase | src/config.rs:132 | a key and its lower-cased form have the same code |
| Config.KeyCodeOfAscii | src/config.rs:132-138 | a single printable ASCII key's code is its upper-case character code |
| Config.KeyCodeOfLetter | src/config.rs:132-138 | the code of a small letter is its capital's character code, the same as the capital's own code |
| Config.KeycodeExamples | src/config.rs:44-52 | "x" gives KEY_X, and "x", "y" give KEY_X, KEY_Y |
| Config.ParsedKeycodes | src/config.rs:54-56 | the keys of "M-x \| kitty" encode to [KEY_X] |
| Geometry.FirstContaining | src/input.rs:268-275 | the first rectangle containing the point, or None when none contains it |
| Geometry.SaturateI32 | src/input.rs:273 | the result is an i32, and an in-range value is kept |
| Geometry.TruncI32 | src/input.rs:273 | an i32 within one of the value, on zero's side of it, for values in range |
| Geometry.RoundI32 | src/state.rs:225 | an i32 within one half of the value, for values in range |
| Geometry.RoundIntegral | src/grabs/move_grab.rs:31-34 | rounding a widened i32 point gives it back |
| Input.Clamp | src/input.rs:263-282 | the nearest point of [0, hi]: the value inside, 0 below, hi above |
| Input.ClampCoords | src/input.rs:258-283 | with no output, the point is unchanged. Otherwise x is clamped to [0, total width], and y is clamped to [0, h] of the first output containing (x as i32, 0): below 0 it becomes 0, above h it becomes h. It is left alone when no output contains that point |
| Input.ClampIdempotent | src/input.rs:258-283 | clamping a clamped point changes nothing |
| Input.StripCovers | src/input.rs:268-275 | in a side-by-side strip every column left of the total width lies in some output |
| Input.ClampedIntoStrip | src/input.rs:258-283 | on a strip, a clamped point left of the right edge has its y within the height of the output under it |
| Input.GeometriesWidth | src/input.rs:263-265 | the widths clamp_coords sums are the widths the DRM backend sums when placing an output |
| Input.DrmStrip | src/backend/drm.rs:364-372 | the outputs the DRM backend places side by side form the strip of rectangles that clamp_coords works on, with the same total width |
| Input.RightEdgeUnclamped | src/input.rs:263-282 | a pointer pushed past the right edge of a 1920x1080 output lands at x = 1920 and keeps y = -30, because no output contains the right edge |
| Input.KeyFilter | src/input.rs:35-71 | a key is forwarded unless the mod key is held and the key goes down, and a VT switch is to a VT from 1 to 12 |
| Input.InterceptedKeys | src/input.rs:35-71 | a key is intercepted exactly when mod is held, the key goes down, and the keysym is h, q, Return, x or a VT switch key |
| Input.UpperCaseForwarded | src/input.rs:44-57 | H, Q and X are never intercepted, because `KEY_h \| KEY_H` equals the keysym of h |
| Input.ShortcutActions | src/input.rs:44-57 | mod+h launches the configured launcher, mod+q quits, mod+Return spawns the configured terminal, mod+x closes the window |
| Input.VTSwitchNumbers | src/input.rs:58-67 | XF86Switch_VT_n switches to VT n |
| Input.Corrosion.constructor | src/state.rs:165 | the pointer starts at the origin |
| Input.Corrosion.PointerMotion | src/input.rs:78-82 | the new location is the clamped sum of the old one and the delta, and clamping leaves it where it is |
| Shell.FirstHit | src/state.rs:229-250 | the hit of the first level in the list that has one, or None when no level has one |
| Shell.SurfaceUnderPointer | src/state.rs:214-251 | on the first output containing the rounded pointer, the hit of the first level among Overlay, Top, windows, Bottom and Background that has one |
| Shell.ClampedPointerOffOutputs | src/state.rs:219-227 | with one 1920x1080 output, clamp_coords leaves a pointer pushed right at (1920, 10) and one pushed down at (100, 1080), and neither rounded point lies on an output, so the output lookup has nothing to unwrap |
| Shell.RoundedOffOutputs | src/state.rs:219-227 | with one 1920x1080 output, (1919.6, 10) is left as it is by clamp_coords but rounds to x = 1920, on no output |
| Shell.SurfaceUnderPointerOrNone | src/state.rs:214-251 | a pointer on no output has nothing under it; on an output, the answer is the first hit in priority order, the same as SurfaceUnderPointer |
| Shell.UpperLayersWin | src/state.rs:231-237 | an Overlay hit wins over everything, then a Top hit, and a layer hit answers with its geometry's origin |
| Shell.WindowsBelowUpperLayers | src/state.rs:237-243 | a window is chosen exactly when there is no Overlay or Top hit, and answers with its toplevel surface and location |
| Shell.LowerLayersLast | src/state.rs:243-250 | nothing is found exactly when no layer and no window is hit. Bottom answers before Background, and Background only when it alone is hit |
| Shell.StampedConcat | src/state.rs:267-323 | message lists stamped with the repaint time and throttle stay stamped when concatenated |
| Shell.WindowMessages | src/state.rs:269-294 | every window frame carries the repaint time and the one-second throttle, and there is no dmabuf feedback without feedback |
| Shell.LayerMessages | src/state.rs:296-323 | every layer frame carries the repaint time and the one-second throttle |
| Shell.PostRepaint | src/state.rs:259-324 | every message is stamped with the repaint time and the one-second throttle |
| Shell.WindowFrames | src/state.rs:269-294 | a window surface gets a frame exactly when some window with that surface is on this output. It gets dmabuf feedback exactly when, in addition, the backend has feedback |
| Shell.LayerFrames | src/state.rs:296-323 | every layer surface of the output gets a frame, and nothing else does. Every layer surface, and nothing else, gets dmabuf feedback exactly when the backend has some |
| Shell.PostRepaintFrames | src/state.rs:259-324 | a surface gets a frame exactly when it is a window on this output or a layer surface of the output. The same surfaces, and only they, get dmabuf feedback when the backend has some; none do otherwise |
| MoveGrab.Remove | src/grabs/move_grab.rs:31-34 | the stack without the window, keeping every other window |
| MoveGrab.RaiseStack | src/grabs/move_grab.rs:31-34 | raising puts the window on top exactly once and keeps the other windows in order |
| MoveGrab.RemoveIdempotent | src/grabs/move_grab.rs:31-34 | removing a window twice is removing it once |
| MoveGrab.RemoveConcat | src/grabs/move_grab.rs:31-34 | removal distributes over concatenation |
| MoveGrab.Space.MapElement | src/grabs/move_grab.rs:31-34 | the window is mapped at the location and raised to the top |
| MoveGrab.MoveSurfaceGrab.constructor | src/grabs/move_grab.rs:12-16 | the grab stores its start data, window and initial location |
| MoveGrab.MoveSurfaceGrab.FollowsPointer | src/grabs/move_grab.rs:31-34 | a whole-pixel pointer travel moves the window by exactly that travel, and a pointer back at the start puts the window back |
| MoveGrab.MoveSurfaceGrab.Motion | src/grabs/move_grab.rs:21-35 | motion is forwarded with no focus, and the window is mapped at its initial location plus the pointer travel, rounded, and raised |
| MoveGrab.MoveSurfaceGrab.RelativeMotion | src/grabs/move_grab.rs:37-45 | relative motion is forwarded unchanged with its focus |
| MoveGrab.MoveSurfaceGrab.Button | src/grabs/move_grab.rs:47-66 | the button is forwarded. The grab stays exactly when it was set and BTN_LEFT or KEY_LEFTMETA is still held |
| MoveGrab.MoveSurfaceGrab.Axis | src/grabs/move_grab.rs:68-75 | axis frames are forwarded unchanged |
| MoveGrab.MoveSurfaceGrab.StartData | src/grabs/move_grab.rs:77-79 | the stored start data is returned |
| Gbm.ConnectedOf | src/backend/gbm.rs:32-54 | at most one entry per enumerated connector |
| Gbm.FreeOf | src/backend/gbm.rs:55-72 | at most one entry per enumerated CRTC |
| Gbm.ConnectedMembers | src/backend/gbm.rs:32-54 | a connector is listed exactly when it was reported Connected. Disconnected, unknown and unreadable ones are skipped |
| Gbm.ConnectedConcat | src/backend/gbm.rs:32-54 | the connector list keeps enumeration order |
| Gbm.FreeMembers | src/backend/gbm.rs:55-72 | a CRTC is listed exactly when it was reported without a framebuffer. Busy and unreadable ones are skipped |
| Gbm.FirstFree | src/backend/gbm.rs:93-101 | the chosen CRTC is the first one reported without a framebuffer |
| Gbm.ConnectedConnectors | src/backend/gbm.rs:32-54 | the loop collects exactly the connected connectors, in order |
| Gbm.FreeCrtcs | src/backend/gbm.rs:55-72 | the loop collects exactly the free CRTCs, in order |
| Gbm.PatternStripes | src/backend/gbm.rs:77-85 | each run of 1080 bytes is constant, runs alternate 0 and 255, and the pattern starts with 0 |
| Gbm.TestPattern | src/backend/gbm.rs:77-85 | the buffer has 1920·1080 bytes, and byte k is 0 when k div 1080 is even and 255 otherwise |
| Gbm.Render | src/backend/gbm.rs:26-102 | set_crtc drives every connected connector from the first free CRTC, at (0, 0), with the new framebuffer, showing the test pattern |

## Left out

- **Hardware and library calls.** Every DRM, GBM, EGL, libseat and udev call (opening a device, creating surfaces and compositors, plane and driver queries, rendering, queueing frames, importing the cursor bitmap) is an input that either succeeded or failed. The panics these calls raise through `expect`/`unwrap` are left out: each call is assumed to succeed where the source unwraps it.
- **EDID.** EDID parsing and the output name, make, model and physical size are not modelled. The panic on a missing EDID is left out with the other unwraps.
- **Drm.QuirkIgnoresCase:** the quirk lower-cases ASCII letters only. Rust's Unicode `to_lowercase` on non-ASCII driver names is not modelled.
- **Config.KeysToKeycodes:** the sum wraps at 2^32, which is release-build behaviour. The overflow panic of a debug build is not modelled. Upper-casing is ASCII-only, as `to_ascii_uppercase` is.
- **Repaint delay and timers.** The repaint-delay arithmetic (f32 and `Duration`) is an abstract value. calloop timers and event sources are pending entries and token sets; the callbacks they run are not modelled.
- **Dmabuf feedback.** It is opaque: only whether a surface has any is kept.
- **Presentation feedback.** `take_presentation_feedback` and `update_surface_primary_scanout_output` are smithay calls and are not modelled.
- **Rendering details.** The cursor hotspot, cursor image status, render elements and damage tracking are not modelled. Only the cursor cache and whether a frame was rendered are kept.
- **Initial render.** `schedule_initial_render` and `initial_render` (src/backend/drm.rs:885-920) are recorded as a queued (node, crtc) entry. The rendering they do is not modelled.
- **`SurfaceComposition` accessors.** The accessors `format`, `surface`, `frame_submitted`, `queue_frame`, `render_frame` and `reset_buffers` (src/backend/drm.rs:116-228) dispatch to smithay. Only the variant built is kept.
- **Other input paths.** Absolute motion, button and axis events (src/input.rs:105-254) delegate to smithay and are not modelled. Neither is the keyboard focus and spawning that the filter's actions trigger.
- **Drm.FrameFinish:** the explicit panic on `ContextLost` (src/backend/drm.rs:623-625) is a precondition, as is the same panic in `DrmBackend.Udev.FrameFinish`. The model does not follow the compositor past it.
- **Shell.SurfaceUnderPointer:** the `unwrap` of the output lookup (src/state.rs:220-227) is a precondition. The location clamp_coords leaves can break it, and so can a session with no output (see Findings). SurfaceUnderPointerOrNone is the total version.
- **Drm.PreferredModeIndex:** indexing the mode list (src/backend/drm.rs:330) panics when a connector reports no mode. That case is a precondition, and so is the matching requires of `Drm.Connect`, `Drm.ConnectEffect`, `Drm.ConnectValid` and `DrmBackend.Udev.ConnectorConnected`.
- **Config.ParseKeybind:** the second `unwrap` (src/config.rs:89) panics on a keybind with no " | ". That case is the precondition HasCommand; HasCommandIff says when it holds.
- **Gbm.Render:** `valid_crtcs.get(0).unwrap()` (src/backend/gbm.rs:95) panics when no CRTC is free. That case is a precondition.
- **Input.ClampCoords:** the i32 sum of output widths is taken not to overflow. NaN and infinite coordinates are not modelled.
- **Layer and element queries.** In `surface_under_pointer`, the smithay `layer_under` and `element_under` queries are given answers per output.
- **Output membership.** In `post_repaint`, the output membership of windows is a given set.
- **Grab release.** The refocusing that `unset_grab` performs inside smithay is not modelled; only whether the grab is still set is kept.
- **Configuration loading.** `CorrosionConfig::new` (src/config.rs:155-192) reads files and environment variables. Its `Defaults` and the hardware-compositor flag are parameters.
- **GBM session setup.** `run_gbm` and `allocate_buffer` (src/backend/gbm.rs:104-135) open the session and allocate the buffer. The buffer is ABGR8888, four bytes per pixel. The pattern fills 1920·1080 bytes, a quarter of it; the write into the buffer is not modelled.
- **Process and setup code.** `src/main.rs`, `src/udev.rs`, `src/backend/mod.rs`, `src/winit.rs`, `src/handlers/*`, `src/backend/utils.rs` and `build.rs` are setup and glue and are not part of this model.
- **Concurrency.** The cursor status mutex is not modelled.

## Findings

| source | as written | input that shows it | evidently intended | confidence | as-written member | corrected member |
|---|---|---|---|---|---|---|
| src/state.rs:219-227 with src/input.rs:258-283 | the output under the pointer is found with `.unwrap()`. clamp_coords lets x reach the total width and y reach the output's height, and both edges lie outside every output (`contains` excludes them). An x just below the right edge also rounds onto it. The next motion reads that location and panics | one 1920x1080 output; relative motion to (5000, 10), clamped to (1920, 10); or to (100, 5000), clamped to (100, 1080); or to (1919.6, 10), which rounds to x = 1920 | a pointer on no output has no surface under it (None), so pointer motion continues | medium, not executed | Shell.ClampedPointerOffOutputs, Shell.RoundedOffOutputs | Shell.SurfaceUnderPointerOrNone |

# Wayland surface commit protocol and client input device, in Dafny

This project models two pieces of a Qt Wayland stack and proves properties of
them.

**The compositor's `wl_surface`** (`QWaylandSurfacePrivate`, module
`CompositorSurface` in `surface.dfy`). The surface state is double-buffered.
`attach`, `damage`, `frame` and `set_input_region` only change the pending
state. `commit` then publishes it:

- the attached buffer becomes the committed buffer;
- the size follows that buffer;
- the damage is the accumulated region clipped to the new surface rectangle;
- every view is told about the new buffer;
- the pending frame callbacks join the active queue;
- the input region is clipped to the surface.

A later frame-start tick marks active callbacks sendable. Sending then notifies
and removes exactly those. Buffers come from a per-surface pool of wrappers:
the first unregistered wrapper is reused, otherwise a new one is appended, with
a warning once the pool has more than 3 entries. Views and the compositor hold
references to the surface, and the count reaching zero asks the compositor to
destroy it.

**The client's `wl_input_device`** (`QWaylandInputDevice`, module
`ClientInput` in `input_device.dfy`):

- Pointer focus changes emit leave, then enter.
- Motion and button events are dropped without pointer focus, and key events
  without keyboard focus.
- Evdev button codes become toolkit buttons.
- XKB modifier state becomes toolkit modifiers. Keyboard focus rebuilds the
  modifier mask from the keys held at focus-in.
- X keysyms become toolkit keys and text.
- Touch points are gathered per frame. At each frame boundary, live points
  from the previous frame are carried forward as stationary and the merged set
  is delivered. After a frame in which every point was released, an extra
  empty event follows.

Shared pieces:

- `geometry.dfy` (module `Geometry`) holds integer points, sizes, rectangles
  and regions.
- `option.dfy` (module `Optional`) holds an `Option` type.

Both state machines are classes whose fields the handlers update. Everything
they hand to the toolkit, the compositor or the display is appended to a `log`
field.

Collaborators the code calls but which are not shown are parameters or
constant fields:

- the compositor clock is the `time` argument of `SendFrameCallback`;
- the primary screen's orientation is the `isPortrait` argument;
- a client region object is a `Region` value;
- the wl_buffer's size and content are fields of `WlBuffer`;
- the xkb keymap is the `Keymap` datatype of functions;
- `QWindow::mapToGlobal` and whether a window still has its `QWindow` are
  function-valued constants of `InputDevice`;
- whether the display has a touch extension is a boolean constant of
  `InputDevice`.

Several behaviours are easy to expect otherwise. In each case the model
follows the code:

- The opaque region takes effect as soon as it is set, not at the next commit
  (`surface_set_opaque_region`, qwaylandsurface.cpp:228-231).
- Commit does not reset the pending input region. A later commit reuses it.
- The buffer transform is applied immediately, not at commit.
- A released touch point whose id is not in the previous frame's list gets no
  empty area. Its area is the 8x8 square around the mapped position (0, 0) of
  the fallback window, or the point is dropped when no window is available
  (`ReleaseWithoutHistory`). That case covers a touch-down followed by a
  touch-up within the same frame: the release is not placed at the down
  position, because only the previous frame's list is searched.
- A released touch point takes the area of the FIRST record with its id in
  the previous frame (the search loop at qwaylandinputdevice.cpp:429-434
  breaks there). A down followed by a motion of the same id within one frame
  leaves two records, so a release in the next frame is placed at the down
  position, not the moved one (`NewTouchPoint`).
- The carry-forward loop (qwaylandinputdevice.cpp:469-484) also keeps only the
  first live record of an id. After a down and a motion of one id in a frame,
  a next frame without that id delivers the point stationary at the down
  position and drops the moved one (`CarryFirstLiveRecord`).
- A pointer-focus change to the window that already has focus still emits a
  leave and then an enter (`FocusChange`).
- A touch-up clears touch focus before placing the point. The fallback window
  is therefore pointer focus, then keyboard focus.
- Destroying a window clears pointer and keyboard focus without a leave event,
  and leaves touch focus alone.

## Model

Paths are relative to the repository root. "surface" is
`src/compositor/compositor_api/qwaylandsurface.cpp` and "input" is
`src/plugins/platforms/wayland/qwaylandinputdevice.cpp`; the table gives full
paths.

| member | source | states |
|---|---|---|
| `Geometry.SurfaceRect` | src/compositor/compositor_api/qwaylandsurface.cpp:302 | `QRect(QPoint(), size)` covers exactly the points with 0 <= x < width and 0 <= y < height |
| `Geometry.IntersectRect` | src/compositor/compositor_api/qwaylandsurface.cpp:302 | the intersection rectangle covers exactly the points in both rectangles |
| `Geometry.United` | src/compositor/compositor_api/qwaylandsurface.cpp:216-219 | `QRegion::united(QRect)` covers the region's points plus the rectangle's |
| `Geometry.Intersected` | src/compositor/compositor_api/qwaylandsurface.cpp:261 | `QRegion::intersected(QRect)` covers exactly the region's points that lie in the rectangle |
| `Geometry.InfiniteRegion` | src/compositor/compositor_api/qwaylandsurface.cpp:111-114 | the infinite region covers every point whose coordinates are 32-bit ints |
| `Geometry.UnitedAll` | src/compositor/compositor_api/qwaylandsurface.cpp:216-219 | a run of damage requests never loses damage already pending |
| `Geometry.UnitedAllContains` | src/compositor/compositor_api/qwaylandsurface.cpp:216-219 | after N damage requests the pending damage covers exactly the union of the N rectangles and what it held before |
| `CompositorSurface.FirstUnregisteredFrom` | src/compositor/compositor_api/qwaylandsurface.cpp:322-328 | the pool scan finds the first wrapper not registered with a buffer, or reports that every wrapper is registered |
| `CompositorSurface.AllocatedIndex` | src/compositor/compositor_api/qwaylandsurface.cpp:319-340 | the allocator reuses the first unregistered wrapper, and appends only when every wrapper is registered |
| `CompositorSurface.AfterAllocation` | src/compositor/compositor_api/qwaylandsurface.cpp:322-334 | the chosen wrapper is initialised with the buffer, the pool grows by one exactly when none was free, and no other wrapper changes |
| `CompositorSurface.Disowned` | src/compositor/compositor_api/qwaylandsurface.cpp:209-210 | attaching over a pending buffer disowns that wrapper and no other |
| `CompositorSurface.HasContent` | src/compositor/compositor_api/qwaylandsurface.cpp:313 | a null reference, or a wrapper without a wl_buffer, has no content; otherwise the wl_buffer's own hasContent decides |
| `CompositorSurface.BackBufferSize` | src/compositor/compositor_api/qwaylandsurface.cpp:297-304 | a null buffer makes the size invalid; a buffer with a wl_buffer sets its size; a wrapper without one keeps the old size |
| `CompositorSurface.BackBufferDamage` | src/compositor/compositor_api/qwaylandsurface.cpp:302-305 | committed damage covers the pending damage inside the new surface rectangle, and nothing for a null buffer |
| `CompositorSurface.ViewAttaches` | src/compositor/compositor_api/qwaylandsurface.cpp:308-310 | one attach per view, in view-list order, each with the new buffer and damage |
| `CompositorSurface.BackBufferEvents` | src/compositor/compositor_api/qwaylandsurface.cpp:290-317 | setBackBuffer emits one attach per view, one damaged, and sizeChanged, mappedChanged and offsetForNextFrame each at most once, nothing else; a non-null offset is announced last |
| `CompositorSurface.MappedChangedIff` | src/compositor/compositor_api/qwaylandsurface.cpp:313-314 | mappedChanged is emitted if and only if hasContent differs between the old and the new buffer |
| `CompositorSurface.SizeChangedIff` | src/compositor/compositor_api/qwaylandsurface.cpp:151-159 | sizeChanged is emitted if and only if the size changes, and then before everything else setBackBuffer emits |
| `CompositorSurface.BackBufferNotifiesEveryView` | src/compositor/compositor_api/qwaylandsurface.cpp:308-312 | every view gets its attach, in order, before `damaged` is emitted |
| `CompositorSurface.ChainDistinct` | src/compositor/compositor_api/qwaylandsurface.cpp:221-226 | callbacks created one per frame request never occur twice in a queue, and keep request order |
| `CompositorSurface.ChainSerialsDistinct` | src/compositor/compositor_api/qwaylandsurface.cpp:221-226 | no two entries of a valid queue are the same callback object |
| `CompositorSurface.FirstSerial` | src/compositor/compositor_api/qwaylandsurface.cpp:172-176 | the position of the first queue entry that is the given callback object |
| `CompositorSurface.RemoveOne` | src/compositor/compositor_api/qwaylandsurface.cpp:172-176 | `removeOne` on a list of callback pointers removes the first entry that is the given object, by identity and whatever its sendable flag, keeps every other entry in order, and leaves a list without it unchanged |
| `CompositorSurface.RemoveOneStep` | src/compositor/compositor_api/qwaylandsurface.cpp:172-176 | an entry that is not the object is kept in front, and the search goes on in the rest |
| `CompositorSurface.RemoveOneGone` | src/compositor/compositor_api/qwaylandsurface.cpp:172-176 | since no object occurs twice in a queue, after the removal the object is in it no more |
| `CompositorSurface.RemoveOneAfter` | src/compositor/compositor_api/qwaylandsurface.cpp:165-168 | removing the callback being visited, when no earlier kept entry is the same object, drops exactly that entry and keeps the others in order |
| `CompositorSurface.Kept` | src/compositor/compositor_api/qwaylandsurface.cpp:161-170 | after sending, the active queue holds exactly the callbacks not yet sendable |
| `CompositorSurface.Sent` | src/compositor/compositor_api/qwaylandsurface.cpp:161-170 | every active callback is either sent or kept, never both |
| `CompositorSurface.KeptAppend` | src/compositor/compositor_api/qwaylandsurface.cpp:163-169 | the callbacks kept keep their relative order |
| `CompositorSurface.SentAppend` | src/compositor/compositor_api/qwaylandsurface.cpp:163-169 | frame-done notices go out in queue order |
| `CompositorSurface.MarkedSendable` | src/compositor/compositor_api/qwaylandsurface.cpp:178-182 | a frame start sets canSend on every active callback and changes nothing else |
| `CompositorSurface.SendAfterFrameStart` | src/compositor/compositor_api/qwaylandsurface.cpp:161-182 | after a frame start, sending notifies every active callback once, in order, and empties the queue |
| `CompositorSurface.UnmarkedStay` | src/compositor/compositor_api/qwaylandsurface.cpp:161-170 | callbacks without a frame start since their commit are never sent, and all stay queued in order |
| `CompositorSurface.ContentOrientationFor` | src/compositor/compositor_api/qwaylandsurface.cpp:270-285 | 90, 180 and 270 degree transforms map to the listed orientations; every other value maps to the primary orientation |
| `CompositorSurface.RotationsDistinct` | src/compositor/compositor_api/qwaylandsurface.cpp:270-282 | on either kind of screen the three rotations give three different orientations |
| `CompositorSurface.Count` | src/compositor/compositor_api/qwaylandsurface.cpp:533 | the count `removeAll` reports is the number of occurrences of the view, zero exactly when it is absent |
| `CompositorSurface.RemoveAll` | src/compositor/compositor_api/qwaylandsurface.cpp:533 | `removeAll` removes every occurrence of the view and keeps every other view with its multiplicity |
| `CompositorSurface.RemoveAllAppend` | src/compositor/compositor_api/qwaylandsurface.cpp:533 | `removeAll` keeps the remaining views in their order: it acts on each part of a split list separately |
| `CompositorSurface.DerefCount` | src/compositor/compositor_api/qwaylandsurface.cpp:535-537 | derefView dereferences once per removed occurrence, stopping when the count reaches zero |
| `CompositorSurface.DerefViewReachesZero` | src/compositor/compositor_api/qwaylandsurface.cpp:531-539 | a non-negative count never goes negative, and derefView triggers destruction if and only if it drives a positive count to zero |
| `CompositorSurface.IndexOf` | src/compositor/compositor_api/qwaylandsurface.cpp:485 | `indexOf` finds the first occurrence |
| `CompositorSurface.MoveToFront` | src/compositor/compositor_api/qwaylandsurface.cpp:493 | `move(index, 0)` puts that view first, keeps the others in order and is a permutation |
| `CompositorSurface.ViewsNotified` | src/compositor/compositor_api/qwaylandsurface.cpp:184-190 | every view is told the surface is gone, in order |
| `CompositorSurface.QueuedCallbacksDistinct` | src/compositor/compositor_api/qwaylandsurface.cpp:221-226 | across the active and the pending queue together, no callback object occurs twice, and request order is kept |
| `CompositorSurface.KeptKeepsCallbacksValid` | src/compositor/compositor_api/qwaylandsurface.cpp:161-170 | sending keeps the queue invariant |
| `CompositorSurface.RemoveKeepsCallbacksValid` | src/compositor/compositor_api/qwaylandsurface.cpp:172-176 | removing a destroyed callback from both queues keeps the queue invariant |
| `CompositorSurface.MarkKeepsCallbacksValid` | src/compositor/compositor_api/qwaylandsurface.cpp:178-182 | a frame start keeps the queue invariant |
| `CompositorSurface.FrameKeepsCallbacksValid` | src/compositor/compositor_api/qwaylandsurface.cpp:221-226 | a new callback with a fresh identity, not sendable, keeps the queue invariant |
| `CompositorSurface.CommitKeepsCallbacksValid` | src/compositor/compositor_api/qwaylandsurface.cpp:258-259 | moving the pending callbacks behind the active ones keeps the queue invariant |
| `CompositorSurface.Surface.constructor` | src/compositor/compositor_api/qwaylandsurface.cpp:116-131 | a new surface has refCount 1, no buffer, an invalid size, primary orientation, an infinite input region both pending and committed, and empty queues |
| `CompositorSurface.Surface.SetSize` | src/compositor/compositor_api/qwaylandsurface.cpp:151-159 | a real size change clears the opaque region and emits sizeChanged; setting the same size does nothing |
| `CompositorSurface.Surface.SendFrameCallback` | src/compositor/compositor_api/qwaylandsurface.cpp:161-170 | exactly the sendable callbacks are notified, in order, and removed; the others stay in order; the queue invariant is kept |
| `CompositorSurface.Surface.SendQueued` | src/compositor/compositor_api/qwaylandsurface.cpp:163-169 | the loop over a snapshot of the queue, removing each sent callback, leaves `Kept` and emits `Sent` |
| `CompositorSurface.Surface.RemoveFrameCallback` | src/compositor/compositor_api/qwaylandsurface.cpp:172-176 | the callback object leaves both queues, whatever its sendable flag, the other callbacks keep their order, and the queue invariant is kept |
| `CompositorSurface.Surface.FrameStarted` | src/compositor/compositor_api/qwaylandsurface.cpp:178-182 | every active callback becomes sendable; pending ones do not |
| `CompositorSurface.Surface.DestroyResource` | src/compositor/compositor_api/qwaylandsurface.cpp:192-200 | views are told first, then the surface is marked destroyed and releases one reference, then surfaceDestroyed is emitted |
| `CompositorSurface.Surface.Attach` | src/compositor/compositor_api/qwaylandsurface.cpp:207-214 | a previously pending buffer is disowned, a pool wrapper is allocated, the offset is recorded and `newlyAttached` set; committed state is untouched |
| `CompositorSurface.Surface.Damage` | src/compositor/compositor_api/qwaylandsurface.cpp:216-219 | only the pending damage changes, by uniting the rectangle in |
| `CompositorSurface.Surface.Frame` | src/compositor/compositor_api/qwaylandsurface.cpp:221-226 | a new, not-yet-sendable callback joins the end of the pending queue |
| `CompositorSurface.Surface.SetOpaqueRegion` | src/compositor/compositor_api/qwaylandsurface.cpp:228-231 | the opaque region becomes the given region, or empty for null, at once |
| `CompositorSurface.Surface.SetInputRegion` | src/compositor/compositor_api/qwaylandsurface.cpp:233-240 | the pending input region becomes the given region, or the infinite region for null |
| `CompositorSurface.Surface.Commit` | src/compositor/compositor_api/qwaylandsurface.cpp:242-264 | the buffer is published when one was attached, and the pending buffer, offset, damage and `newlyAttached` are cleared while the input region stays; the committed buffer is marked committed; the pending callbacks join the active queue; the input region is clipped to the size; redraw is emitted last |
| `CompositorSurface.Surface.PublishPending` | src/compositor/compositor_api/qwaylandsurface.cpp:246-253 | setBackBuffer runs only if a buffer is pending or `newlyAttached` is set, then the pending state is reset |
| `CompositorSurface.Surface.FinishCommit` | src/compositor/compositor_api/qwaylandsurface.cpp:255-263 | the committed wrapper is marked committed, callbacks move, the input region is clipped and redraw is emitted |
| `CompositorSurface.Surface.SetBufferTransform` | src/compositor/compositor_api/qwaylandsurface.cpp:266-288 | the content orientation follows the transform, and contentOrientationChanged is emitted only on a change |
| `CompositorSurface.Surface.SetBackBuffer` | src/compositor/compositor_api/qwaylandsurface.cpp:290-317 | the new buffer with its size and clipped damage is published; sizeChanged, the view attaches, damaged, mappedChanged and offsetForNextFrame are emitted in that order |
| `CompositorSurface.Surface.ResizeAndClip` | src/compositor/compositor_api/qwaylandsurface.cpp:297-306 | the size and damage branches of setBackBuffer |
| `CompositorSurface.Surface.EmitBufferSignals` | src/compositor/compositor_api/qwaylandsurface.cpp:312-316 | damaged is emitted, then mappedChanged if hasContent flipped, then offsetForNextFrame for a non-null offset |
| `CompositorSurface.Surface.AttachToViews` | src/compositor/compositor_api/qwaylandsurface.cpp:308-310 | the view loop attaches every view in order |
| `CompositorSurface.Surface.CreateSurfaceBuffer` | src/compositor/compositor_api/qwaylandsurface.cpp:319-340 | the scan returns `AllocatedIndex`, leaves the pool as `AfterAllocation`, and warns when the pool grows past 3 |
| `CompositorSurface.Surface.Ref` | src/compositor/compositor_api/qwaylandsurface.cpp:458-462 | the count goes up by one |
| `CompositorSurface.Surface.Deref` | src/compositor/compositor_api/qwaylandsurface.cpp:464-469 | the count goes down by one, and reaching zero asks the compositor to destroy the surface |
| `CompositorSurface.Surface.ThrottlingView` | src/compositor/compositor_api/qwaylandsurface.cpp:471-477 | the throttling view is the first view, or none without views |
| `CompositorSurface.Surface.SetThrottlingView` | src/compositor/compositor_api/qwaylandsurface.cpp:479-494 | a null view does nothing; otherwise the view is attached if new and moved to the front, so it becomes the throttling view |
| `CompositorSurface.Surface.RefView` | src/compositor/compositor_api/qwaylandsurface.cpp:521-529 | a new view is appended and takes a reference; a known view changes nothing |
| `CompositorSurface.Surface.DerefView` | src/compositor/compositor_api/qwaylandsurface.cpp:531-539 | every occurrence of the view is removed, one reference is dropped per occurrence while the count is positive, and destruction is requested when the count reaches zero |
| `ClientInput.ButtonFor` | src/plugins/platforms/wayland/qwaylandinputdevice.cpp:162-174 | BTN_LEFT (272), BTN_RIGHT (273) and BTN_MIDDLE (274) give the left, right and middle button; every other code is ignored |
| `ClientInput.ButtonsDistinct` | src/plugins/platforms/wayland/qwaylandinputdevice.cpp:162-174 | different understood codes give different buttons |
| `ClientInput.ApplyButton` | src/plugins/platforms/wayland/qwaylandinputdevice.cpp:176-179 | a press sets the button's flag and a release clears it; no other flag changes |
| `ClientInput.PressThenRelease` | src/plugins/platforms/wayland/qwaylandinputdevice.cpp:176-179 | a press then a release of one button clears it and restores every other flag |
| `ClientInput.TranslateModifiers` | src/plugins/platforms/wayland/qwaylandinputdevice.cpp:190-206 | Shift, Control, Mod1 and Mod4 map to Shift, Control, Alt and Meta, each if and only if its bit is set |
| `ClientInput.TranslateModifiersUnion` | src/plugins/platforms/wayland/qwaylandinputdevice.cpp:190-206 | translating OR-ed states gives the union of their translations |
| `ClientInput.TranslateModifiersIgnoresOtherBits` | src/plugins/platforms/wayland/qwaylandinputdevice.cpp:190-206 | Lock, Mod2, Mod3 and Mod5 are ignored |
| `ClientInput.KeyModifiers` | src/plugins/platforms/wayland/qwaylandinputdevice.cpp:286 | a key carries Shift, Control, Alt or Meta exactly when the keymap's modmap at key + min_key_code has the matching xkb bit |
| `ClientInput.ToUpper` | src/plugins/platforms/wayland/qwaylandinputdevice.cpp:253 | `toupper` changes exactly the lower-case letters, each to its upper-case letter |
| `ClientInput.LowByteText` | src/plugins/platforms/wayland/qwaylandinputdevice.cpp:251-252 | the text is the keysym's low byte as one character, or empty when that byte is zero |
| `ClientInput.TranslateKey` | src/plugins/platforms/wayland/qwaylandinputdevice.cpp:208-255 | each listed keysym gives its table key with empty text; every other keysym gives `toupper` of itself as the key and its low byte as text, so lower-case letters give the upper-case key and other Latin-1 keysyms give themselves |
| `ClientInput.KeyTableIsFunctionKeys` | src/plugins/platforms/wayland/qwaylandinputdevice.cpp:213-247 | every listed keysym is in the X function-key range, so none is a Latin-1 keysym, and every key it yields is a toolkit special key |
| `ClientInput.KeyLevel` | src/plugins/platforms/wayland/qwaylandinputdevice.cpp:279-282 | level 1 is used exactly when Shift is held and the key's group has more than one level |
| `ClientInput.SomeKeyCarriesUncons` | src/plugins/platforms/wayland/qwaylandinputdevice.cpp:360-365 | a modifier is carried by some held key exactly when the first key or one of the rest carries it |
| `ClientInput.OrModifiers` | src/plugins/platforms/wayland/qwaylandinputdevice.cpp:360-365 | the focus-in loop's mask holds a modifier exactly when the start mask or some key contributed it |
| `ClientInput.HeldModifiers` | src/plugins/platforms/wayland/qwaylandinputdevice.cpp:354-365 | after focus-in a modifier is set exactly when some held key carries it, whatever the mask was before |
| `ClientInput.FocusChange` | src/plugins/platforms/wayland/qwaylandinputdevice.cpp:328-338 | a pointer-focus change emits only leaves and enters: a leave for the old focus whenever there is one, first, and an enter for the new focus whenever there is one, last, even when both are the same window |
| `ClientInput.FocusChangeBracketed` | src/plugins/platforms/wayland/qwaylandinputdevice.cpp:328-338 | the leave names the focused window and comes before the enter, which comes when nothing is focused |
| `ClientInput.FocusTraceBracketed` | src/plugins/platforms/wayland/qwaylandinputdevice.cpp:315-341 | over any run of pointer-focus changes, including through no focus, every leave names the focused window and no enter comes while a window is focused |
| `ClientInput.AreaAround` | src/plugins/platforms/wayland/qwaylandinputdevice.cpp:449-450 | the touch area is 8 by 8 and centred on the mapped position |
| `ClientInput.FirstIndex` | src/plugins/platforms/wayland/qwaylandinputdevice.cpp:429-434 | the search finds the first previous point with the id |
| `ClientInput.TouchWindow` | src/plugins/platforms/wayland/qwaylandinputdevice.cpp:440-447 | the window is touch focus, else pointer focus, else keyboard focus, and none exactly when all are unset |
| `ClientInput.NewTouchPoint` | src/plugins/platforms/wayland/qwaylandinputdevice.cpp:422-457 | no point is added exactly when a release has no previous record and there is no window to map through; an added point has the id and state, pressure 0 exactly when released, for a release the area of the first previous-frame record with its id, and otherwise the area around the mapped position |
| `ClientInput.ReleaseWithoutHistory` | src/plugins/platforms/wayland/qwaylandinputdevice.cpp:436-450 | a release with no previous-frame record is placed around the window's mapped origin |
| `ClientInput.AsStationary` | src/plugins/platforms/wayland/qwaylandinputdevice.cpp:480-481 | a carried point keeps its id, area and pressure, and becomes stationary |
| `ClientInput.CarryStep` | src/plugins/platforms/wayland/qwaylandinputdevice.cpp:470-482 | one carry step appends the stationary copy of a previous point exactly when it was not released and its id is not yet present, and otherwise changes nothing |
| `ClientInput.Merged` | src/plugins/platforms/wayland/qwaylandinputdevice.cpp:469-484 | carrying forward only appends, at most one point per previous point, and the current points stay first and unchanged |
| `ClientInput.HasIdPrefix` | src/plugins/platforms/wayland/qwaylandinputdevice.cpp:474-478 | an id found in a list is still found after appending |
| `ClientInput.MergedCarried` | src/plugins/platforms/wayland/qwaylandinputdevice.cpp:469-484 | every added point is a stationary copy of a previous point that was not released and whose id the current points lack |
| `ClientInput.MergedCovers` | src/plugins/platforms/wayland/qwaylandinputdevice.cpp:469-484 | every previous point not released has its id in the delivered set |
| `ClientInput.MergedStationary` | src/plugins/platforms/wayland/qwaylandinputdevice.cpp:469-484 | the first live record of an id that the current frame lacks (every earlier record of that id being a release) is delivered as stationary with its area unchanged |
| `ClientInput.MergedDistinct` | src/plugins/platforms/wayland/qwaylandinputdevice.cpp:469-484 | when the current points have distinct ids, carrying forward never duplicates an id |
| `ClientInput.CarryFirstLiveRecord` | src/plugins/platforms/wayland/qwaylandinputdevice.cpp:469-484 | with two live records of one id (a down, then a motion) and no current points, exactly the stationary copy of the first is delivered and the moved one is not |
| `ClientInput.MergedEmpty` | src/plugins/platforms/wayland/qwaylandinputdevice.cpp:486-489 | nothing is delivered exactly when no current point exists and every previous point was released |
| `ClientInput.InputDevice.constructor` | src/plugins/platforms/wayland/qwaylandinputdevice.cpp:64-100 | a new device has no focus, no button down, zero positions and empty touch lists; the modifier mask and time stay unset |
| `ClientInput.InputDevice.HandleWindowDestroyed` | src/plugins/platforms/wayland/qwaylandinputdevice.cpp:102-108 | pointer and keyboard focus on that window are cleared, each independently; touch focus is not touched |
| `ClientInput.InputDevice.Motion` | src/plugins/platforms/wayland/qwaylandinputdevice.cpp:121-145 | without pointer focus nothing changes; otherwise both positions and the time are recorded and one mouse event with the current buttons is emitted |
| `ClientInput.InputDevice.Button` | src/plugins/platforms/wayland/qwaylandinputdevice.cpp:147-187 | without pointer focus or for an unknown code nothing changes; otherwise that button's bit is set or cleared, the time is recorded and one mouse event is emitted |
| `ClientInput.InputDevice.Key` | src/plugins/platforms/wayland/qwaylandinputdevice.cpp:258-313 | without keyboard focus nothing changes; otherwise the key's modifiers are added on press or removed on release; the event carries the translated keysym at the level the earlier modifiers select, and the updated mask |
| `ClientInput.InputDevice.PointerFocus` | src/plugins/platforms/wayland/qwaylandinputdevice.cpp:315-341 | a leave for the old focus, then an enter for the new one; focus becomes the new window or none; the time is recorded |
| `ClientInput.InputDevice.KeyboardFocus` | src/plugins/platforms/wayland/qwaylandinputdevice.cpp:343-380 | the modifier mask is rebuilt from the held keys; focus becomes the window or none; the display records this device or none, then the window or none is activated |
| `ClientInput.InputDevice.FindId` | src/plugins/platforms/wayland/qwaylandinputdevice.cpp:474-478 | the inner search reports whether a current point has the id |
| `ClientInput.InputDevice.FindFirst` | src/plugins/platforms/wayland/qwaylandinputdevice.cpp:429-434 | the search for a released point's previous record finds the first one |
| `ClientInput.InputDevice.HandleTouchPoint` | src/plugins/platforms/wayland/qwaylandinputdevice.cpp:422-457 | exactly the point `NewTouchPoint` describes is appended, or nothing when it bails out |
| `ClientInput.InputDevice.TouchDown` | src/plugins/platforms/wayland/qwaylandinputdevice.cpp:382-395 | touch focus becomes the surface's window, then a pressed point is handled |
| `ClientInput.InputDevice.TouchUp` | src/plugins/platforms/wayland/qwaylandinputdevice.cpp:397-407 | touch focus is cleared, then a released point at (0, 0) is handled |
| `ClientInput.InputDevice.TouchMotion` | src/plugins/platforms/wayland/qwaylandinputdevice.cpp:409-420 | a moved point is handled |
| `ClientInput.InputDevice.CarryForward` | src/plugins/platforms/wayland/qwaylandinputdevice.cpp:469-484 | the carry loop leaves the current list as `Merged` of the current and previous lists |
| `ClientInput.InputDevice.AllReleasedIn` | src/plugins/platforms/wayland/qwaylandinputdevice.cpp:493-498 | the scan reports whether every delivered point is released |
| `ClientInput.InputDevice.HandleTouchFrame` | src/plugins/platforms/wayland/qwaylandinputdevice.cpp:466-507 | for an empty merged set there is no delivery and the history is cleared; otherwise one event has the merged set; then either that set becomes the history, or, when all are released, one empty event follows and the history is cleared; the current list ends empty |
| `ClientInput.InputDevice.TouchCancel` | src/plugins/platforms/wayland/qwaylandinputdevice.cpp:509-522 | both point lists are emptied, the touch extension is told if there is one, and the cancel is reported |

## Left out

- Wire-protocol resource plumbing is not modelled: `wl_resource_create`, the
  callback's destroy hook that deletes it, and `wl_callback.done`. A callback
  is a value with an identity. Its resource being destroyed is
  `RemoveFrameCallback`, and sending is a `FrameDone` entry followed by
  removal.
- The buffer wrapper's own code (`initialize`, `disown`, `setCommitted`,
  `isRegisteredWithBuffer`, `hasContent`, `size`) is not part of this model.
  Each is a flag or field of `PoolEntry`/`WlBuffer`. `QWaylandBufferRef` is
  the pool index itself, and its own reference counting is not modelled.
- `updateSelection`, `client()`, the compositor registry (`destroySurface`)
  and `QWaylandView` are cross-object calls into code not shown. Destruction
  requests and view notifications are log entries.
- `setThrottlingView` attaches a new view through `view->setSurface(this)`,
  whose code is not shown. It is modelled as `refView(view)`.
- The destructors are not modelled. `~QWaylandSurfacePrivate`
  (qwaylandsurface.cpp:133-149) tells every view that the surface is
  destroyed, clears the views, drops the buffer reference, sets every pool
  wrapper to destroy itself once unused and destroys every queued frame
  callback. `~QWaylandSurface` (352-357) unregisters the surface from the
  compositor and notifies the views again. Object lifetime is outside this
  model.
- The trivial accessors of `QWaylandSurface` (`isMapped`, `size`, `origin`,
  `views`, `fromResource` and the like) only read fields, so they have no
  model.
- The cursor flag `isCursorSurface` and its setter `markAsCursorSurface`
  (qwaylandsurface.cpp:428-432) are not modelled. The setter only stores the
  flag, and no modelled operation reads it.
- A pool wrapper stops being registered when its wl_buffer is destroyed.
  That happens in the wrapper's own code, which is not part of this model, so
  no operation here clears `PoolEntry.registered`. Starting from a new
  surface, `CreateSurfaceBuffer` therefore always appends. Its contract and
  `AllocatedIndex` still cover pools that hold unregistered wrappers.
- Integer widths are not modelled. Rectangle corners are unbounded, so
  `x + width` cannot overflow. Frame times, keysyms and key codes are `nat`,
  not `uint32`.
- The xkb keymap is not modelled: `XkbKeySymEntry`, `XkbKeyGroupWidth`,
  `modmap` and `min_key_code` are the functions and fields of `Keymap`.
- The build without xkb, which forwards `key + 8` as the key, is not
  modelled.
- `TranslateKey`: `toupper` is modelled for the C and UTF-8 locales, where
  only 'a' to 'z' change. A Latin-1 locale would also upper-case 0xe0 to 0xfe.
- `InputDevice.buttons` is the set of pressed buttons: the three flags of
  `Qt::MouseButtons` the device sets are its members, not bits of an int.
- `InputDevice.modifiers` is a set of the four modifiers that
  `translateModifiers` can produce. The constructor leaves the mask unset, as
  the code does, but stray bits outside those four cannot be represented.
- Touch areas are `QRectF` values of doubles. Their corners are whole numbers
  here, so they are integer rectangles. The toolkit's `TouchPoint` fields not
  set by the code are not modelled, nor is pressure beyond 0 and 1.
- The device constructor does not bind the wl_input_device. The listener
  table, keymap compilation, data-device lookup and touch-device
  registration are not modelled. `setTransferDevice`, `transferDevice` and
  `attach` are plain forwarding calls.
- The window argument of a touch event (always 0) and the touch device are
  not modelled.
- `CompositorSurface.Sent`: its own contract states only that every callback
  is sent or kept. What it emits is stated by `SendAfterFrameStart`,
  `UnmarkedStay` and `SentAppend`.

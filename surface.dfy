/**
 * The compositor side of a wl_surface: the double-buffered pending and
 * committed state, the two-stage frame-callback queue, the per-surface pool
 * of buffer wrappers, the view list and the reference count.
 *
 * Everything the surface tells the toolkit or the compositor (signals,
 * calls to views, frame-done notices, the pool-size warning, the request to
 * destroy the surface) is appended to the surface's `log`.
 */
module CompositorSurface {
  import opened Optional
  import opened Geometry

  /** Opaque identity of a view (QWaylandView *). */
  type ViewId = nat

  /** The client's wl_callback object id given in a `frame` request. */
  type CallbackResource = nat

  /**
   * A client wl_buffer as the pool sees it. Its pixel size and whether it holds
   * content are reported by the buffer backend, which is not part of this model.
   */
  datatype WlBuffer = WlBuffer(id: nat, size: Size, hasContent: bool)

  /**
   * One buffer wrapper of the pool. `handle` is the wl_buffer it wraps (its
   * waylandBufferHandle); `registered`, `disowned` and `committed` stand for the
   * wrapper's own bookkeeping.
   */
  datatype PoolEntry = PoolEntry(handle: Option<WlBuffer>, registered: bool, disowned: bool, committed: bool)

  /** A wrapper (re)initialised with a wl_buffer, as the allocator leaves it. */
  function Initialized(b: Option<WlBuffer>): PoolEntry {
    PoolEntry(b, true, false, false)
  }

  /** A frame callback; `serial` is its identity (the heap object), `resource` the client's callback id. */
  datatype FrameCallback = FrameCallback(serial: nat, resource: CallbackResource, canSend: bool)

  /** The surface's `pending` record. A buffer reference is an index into the buffer pool. */
  datatype PendingState = PendingState(
    buffer: Option<nat>,
    offset: Point,
    newlyAttached: bool,
    damage: Region,
    inputRegion: Region)

  datatype ScreenOrientation =
    | PrimaryOrientation
    | PortraitOrientation
    | LandscapeOrientation
    | InvertedPortraitOrientation
    | InvertedLandscapeOrientation

  datatype SurfaceEvent =
    | SizeChanged
    | Damaged(region: Region)
    | MappedChanged
    | OffsetForNextFrame(offset: Point)
    | ViewAttached(view: ViewId, buffer: Option<nat>, damage: Region)
    | Redraw
    | ContentOrientationChanged
    | FrameDone(callback: CallbackResource, time: nat)
    | PoolSizeWarning(poolSize: nat)
    | DestroySurface
    | ViewSurfaceDestroyed(view: ViewId)
    | SurfaceDestroyed

  // ---------------------------------------------------------------------------
  // Buffer pool

  /** The first pool entry at or after `k` that is not registered with a buffer. */
  function FirstUnregisteredFrom(pool: seq<PoolEntry>, k: nat): (r: Option<nat>)
    requires k <= |pool|
    ensures r.Some? ==> k <= r.value < |pool| && !pool[r.value].registered
    ensures r.Some? ==> forall j :: k <= j < r.value ==> pool[j].registered
    ensures r.None? <==> forall j :: k <= j < |pool| ==> pool[j].registered
    decreases |pool| - k
  {
    if k == |pool| then None
    else if !pool[k].registered then Some(k)
    else FirstUnregisteredFrom(pool, k + 1)
  }

  function FirstUnregistered(pool: seq<PoolEntry>): Option<nat> {
    FirstUnregisteredFrom(pool, 0)
  }

  /** The entry the allocator hands out for the next attach. */
  function AllocatedIndex(pool: seq<PoolEntry>): (i: nat)
    ensures i <= |pool|
    ensures i < |pool| ==> !pool[i].registered && forall j :: 0 <= j < i ==> pool[j].registered
    ensures i == |pool| <==> forall j :: 0 <= j < |pool| ==> pool[j].registered
  {
    match FirstUnregistered(pool)
    case Some(i) => i
    case None => |pool|
  }

  /** The pool after the allocator has served `b`. */
  function AfterAllocation(pool: seq<PoolEntry>, b: Option<WlBuffer>): (r: seq<PoolEntry>)
    ensures var i := AllocatedIndex(pool);
      && |r| == (if i < |pool| then |pool| else |pool| + 1)
      && r[i] == Initialized(b)
      && forall j :: 0 <= j < |pool| && j != i ==> r[j] == pool[j]
  {
    var i := AllocatedIndex(pool);
    if i < |pool| then pool[i := Initialized(b)] else pool + [Initialized(b)]
  }

  /** The pool after a reference's entry has been disowned. */
  function Disowned(pool: seq<PoolEntry>, ref: Option<nat>): (r: seq<PoolEntry>)
    requires ref.Some? ==> ref.value < |pool|
    ensures |r| == |pool|
    ensures forall j :: 0 <= j < |pool| ==>
      r[j] == if ref == Some(j) then pool[j].(disowned := true) else pool[j]
  {
    if ref.Some? then pool[ref.value := pool[ref.value].(disowned := true)] else pool
  }

  /** hasContent of a buffer reference: that of the wl_buffer it wraps; a null reference, or a wrapper without a wl_buffer, has none. */
  function HasContent(pool: seq<PoolEntry>, ref: Option<nat>): (h: bool)
    ensures ref.None? ==> !h
    ensures ref.Some? && ref.value < |pool| && pool[ref.value].handle.None? ==> !h
    ensures ref.Some? && ref.value < |pool| && pool[ref.value].handle.Some? ==> (h <==> pool[ref.value].handle.value.hasContent)
  {
    ref.Some? && ref.value < |pool| && pool[ref.value].handle.Some? && pool[ref.value].handle.value.hasContent
  }

  // ---------------------------------------------------------------------------
  // Publishing a buffer (setBackBuffer)

  /** The size after `ref` becomes the committed buffer. */
  function BackBufferSize(pool: seq<PoolEntry>, ref: Option<nat>, oldSize: Size): (s: Size)
    requires ref.Some? ==> ref.value < |pool|
    ensures ref.None? ==> s == InvalidSize
    ensures ref.Some? && pool[ref.value].handle.Some? ==> s == pool[ref.value].handle.value.size
    ensures ref.Some? && pool[ref.value].handle.None? ==> s == oldSize
  {
    match ref
    case None => InvalidSize
    case Some(i) => if pool[i].handle.Some? then pool[i].handle.value.size else oldSize
  }

  /** The committed damage: the pending damage clipped to the new surface rectangle, nothing for a null buffer. */
  function BackBufferDamage(d: Region, ref: Option<nat>, newSize: Size): (r: Region)
    ensures forall p :: Contains(r, p) <==> ref.Some? && Contains(d, p) && InRect(SurfaceRect(newSize), p)
  {
    if ref.Some? then Intersected(d, SurfaceRect(newSize)) else EmptyRegion
  }

  /** One attach notification per view, in view-list order. */
  function ViewAttaches(views: seq<ViewId>, ref: Option<nat>, d: Region): (r: seq<SurfaceEvent>)
    ensures |r| == |views|
    ensures forall i :: 0 <= i < |r| ==> r[i] == ViewAttached(views[i], ref, d)
  {
    seq(|views|, i requires 0 <= i < |views| => ViewAttached(views[i], ref, d))
  }

  /** What setBackBuffer emits, in order. */
  function BackBufferEvents(oldSize: Size, newSize: Size, views: seq<ViewId>, ref: Option<nat>, d: Region,
                            hadContent: bool, hasContent: bool, offset: Point): (ev: seq<SurfaceEvent>)
    ensures |ev| == |views| + 1 + (if oldSize != newSize then 1 else 0) + (if hadContent != hasContent then 1 else 0)
                    + (if IsNull(offset) then 0 else 1)
    ensures forall e :: e in ev ==> e.SizeChanged? || e.ViewAttached? || e.Damaged? || e.MappedChanged? || e.OffsetForNextFrame?
    ensures !IsNull(offset) ==> ev[|ev| - 1] == OffsetForNextFrame(offset)
  {
    (if oldSize != newSize then [SizeChanged] else [])
    + ViewAttaches(views, ref, d)
    + [Damaged(d)]
    + (if hadContent != hasContent then [MappedChanged] else [])
    + (if !IsNull(offset) then [OffsetForNextFrame(offset)] else [])
  }

  /** mappedChanged is emitted exactly when hasContent differs between the old and the new buffer. */
  lemma MappedChangedIff(oldSize: Size, newSize: Size, views: seq<ViewId>, ref: Option<nat>, d: Region,
                         hadContent: bool, hasContent: bool, offset: Point)
    ensures MappedChanged in BackBufferEvents(oldSize, newSize, views, ref, d, hadContent, hasContent, offset)
            <==> hadContent != hasContent
  {
    var va := ViewAttaches(views, ref, d);
    assert forall e :: e in va ==> e.ViewAttached?;
  }

  /** sizeChanged is emitted exactly when the size actually changes, and then first. */
  lemma SizeChangedIff(oldSize: Size, newSize: Size, views: seq<ViewId>, ref: Option<nat>, d: Region,
                       hadContent: bool, hasContent: bool, offset: Point)
    ensures var ev := BackBufferEvents(oldSize, newSize, views, ref, d, hadContent, hasContent, offset);
      && (SizeChanged in ev <==> oldSize != newSize)
      && (oldSize != newSize ==> ev[0] == SizeChanged)
  {
    var va := ViewAttaches(views, ref, d);
    assert forall e :: e in va ==> e.ViewAttached?;
  }

  /** Every view is told about the new buffer with the clipped damage, before `damaged` is emitted. */
  lemma BackBufferNotifiesEveryView(oldSize: Size, newSize: Size, views: seq<ViewId>, ref: Option<nat>, d: Region,
                                    hadContent: bool, hasContent: bool, offset: Point, i: nat)
    requires i < |views|
    ensures var ev := BackBufferEvents(oldSize, newSize, views, ref, d, hadContent, hasContent, offset);
      var base := if oldSize != newSize then 1 else 0;
      && base + |views| < |ev|
      && ev[base + i] == ViewAttached(views[i], ref, d)
      && ev[base + |views|] == Damaged(d)
  {
    var va := ViewAttaches(views, ref, d);
    var head: seq<SurfaceEvent> := if oldSize != newSize then [SizeChanged] else [];
    var ev := BackBufferEvents(oldSize, newSize, views, ref, d, hadContent, hasContent, offset);
    var tail := (if hadContent != hasContent then [MappedChanged] else [])
      + (if !IsNull(offset) then [OffsetForNextFrame(offset)] else []);
    assert ev == head + va + [Damaged(d)] + tail;
    assert (head + va + [Damaged(d)])[|head| + i] == va[i];
  }

  /** Concatenation of six sequences is associative: the last five may be grouped together. */
  lemma AppendAssoc5<T>(l: seq<T>, a: seq<T>, b: seq<T>, c: seq<T>, d: seq<T>, e: seq<T>)
    ensures l + a + b + c + d + e == l + (a + b + c + d + e)
  {
  }

  lemma AppendAssoc<T>(a: seq<T>, b: seq<T>, c: seq<T>)
    ensures a + b + c == a + (b + c)
  {
  }

  lemma Uncons<T>(s: seq<T>)
    requires s != []
    ensures s == [s[0]] + s[1..]
  {
  }

  // ---------------------------------------------------------------------------
  // Frame callbacks

  /**
   * Identities handed out by a counter: the serials of `cs` rise strictly, all
   * within [lo, hi). In particular no callback object appears twice.
   */
  ghost predicate Chain(cs: seq<FrameCallback>, lo: nat, hi: nat)
    decreases |cs|
  {
    cs == [] || (lo <= cs[0].serial < hi && Chain(cs[1..], cs[0].serial + 1, hi))
  }

  lemma {:induction false} ChainWeaken(cs: seq<FrameCallback>, lo: nat, hi: nat, lo': nat, hi': nat)
    requires Chain(cs, lo, hi) && lo' <= lo && hi <= hi'
    ensures Chain(cs, lo', hi')
    decreases |cs|
  {
    if cs != [] {
      ChainWeaken(cs[1..], cs[0].serial + 1, hi, cs[0].serial + 1, hi');
    }
  }

  /** No identity occurs twice in a chain: distinct positions hold distinct callback objects. */
  lemma {:induction false} ChainDistinct(cs: seq<FrameCallback>, lo: nat, hi: nat, i: nat, j: nat)
    requires Chain(cs, lo, hi) && i < j < |cs|
    ensures lo <= cs[i].serial < cs[j].serial < hi
    decreases |cs|
  {
    ChainBounds(cs, lo, hi, j);
    if i == 0 {
      ChainBounds(cs[1..], cs[0].serial + 1, hi, j - 1);
    } else {
      ChainDistinct(cs[1..], cs[0].serial + 1, hi, i - 1, j - 1);
    }
  }

  lemma {:induction false} ChainBounds(cs: seq<FrameCallback>, lo: nat, hi: nat, i: nat)
    requires Chain(cs, lo, hi) && i < |cs|
    ensures lo <= cs[i].serial < hi
    decreases |cs|
  {
    if i > 0 {
      ChainBounds(cs[1..], cs[0].serial + 1, hi, i - 1);
    }
  }

  /** A callback with an identity above every earlier one extends the chain. */
  lemma {:induction false} ChainSnoc(cs: seq<FrameCallback>, lo: nat, hi: nat, c: FrameCallback)
    requires Chain(cs, lo, hi) && lo <= hi <= c.serial
    ensures Chain(cs + [c], lo, c.serial + 1)
    decreases |cs|
  {
    if cs == [] {
      assert cs + [c] == [c];
      assert [c][1..] == [];
    } else {
      assert (cs + [c])[1..] == cs[1..] + [c];
      ChainSnoc(cs[1..], cs[0].serial + 1, hi, c);
    }
  }

  /** Two chains over adjacent ranges make one chain. */
  lemma {:induction false} ChainAppend(a: seq<FrameCallback>, b: seq<FrameCallback>, lo: nat, mid: nat, hi: nat)
    requires lo <= mid <= hi && Chain(a, lo, mid) && Chain(b, mid, hi)
    ensures Chain(a + b, lo, hi)
    decreases |a|
  {
    if a == [] {
      assert a + b == b;
      ChainWeaken(b, mid, hi, lo, hi);
    } else {
      assert (a + b)[0] == a[0] && (a + b)[1..] == a[1..] + b;
      ChainAppend(a[1..], b, a[0].serial + 1, mid, hi);
    }
  }

  /** Whether some queued callback is the object with identity `serial`. */
  predicate HasSerial(cs: seq<FrameCallback>, serial: nat) {
    exists i :: 0 <= i < |cs| && cs[i].serial == serial
  }

  /** The position of the first entry that is the object `serial`. */
  function FirstSerial(cs: seq<FrameCallback>, serial: nat): (k: nat)
    requires HasSerial(cs, serial)
    ensures k < |cs| && cs[k].serial == serial
    ensures forall j :: 0 <= j < k ==> cs[j].serial != serial
    decreases |cs|
  {
    if cs[0].serial == serial then 0
    else
      assert HasSerial(cs[1..], serial) by {
        var i :| 0 <= i < |cs| && cs[i].serial == serial;
        assert cs[1..][i - 1] == cs[i];
      }
      1 + FirstSerial(cs[1..], serial)
  }

  /**
   * QList::removeOne on a list of callback pointers: the first entry that is
   * the object `serial` is removed, the others are kept in order; a list
   * without it is left alone.
   */
  function RemoveOne(cs: seq<FrameCallback>, serial: nat): (r: seq<FrameCallback>)
    ensures !HasSerial(cs, serial) ==> r == cs
    ensures HasSerial(cs, serial) ==> r == cs[..FirstSerial(cs, serial)] + cs[FirstSerial(cs, serial) + 1..]
    decreases |cs|
  {
    if cs == [] then []
    else if cs[0].serial == serial then cs[1..]
    else
      RemoveOneStep(cs, serial);
      [cs[0]] + RemoveOne(cs[1..], serial)
  }

  /** The recursive case of RemoveOne: an entry that is not the object leaves the search where it was. */
  lemma RemoveOneStep(cs: seq<FrameCallback>, serial: nat)
    requires cs != [] && cs[0].serial != serial
    ensures HasSerial(cs, serial) <==> HasSerial(cs[1..], serial)
    ensures HasSerial(cs[1..], serial) ==>
      var k := FirstSerial(cs[1..], serial);
      && FirstSerial(cs, serial) == k + 1
      && [cs[0]] + (cs[1..][..k] + cs[1..][k + 1..]) == cs[..k + 1] + cs[k + 2..]
  {
    var tl := cs[1..];
    if HasSerial(cs, serial) {
      var i :| 0 <= i < |cs| && cs[i].serial == serial;
      assert tl[i - 1] == cs[i];
    }
    if HasSerial(tl, serial) {
      SpliceCons(cs, FirstSerial(tl, serial));
    }
  }

  /** Cutting entry k out of the tail of `cs` and putting the head back cuts entry k + 1 out of `cs`. */
  lemma SpliceCons<T>(cs: seq<T>, k: nat)
    requires k + 1 < |cs|
    ensures [cs[0]] + (cs[1..][..k] + cs[1..][k + 1..]) == cs[..k + 1] + cs[k + 2..]
  {
    assert cs[..k + 1] == [cs[0]] + cs[1..][..k];
    assert cs[k + 2..] == cs[1..][k + 1..];
  }

  lemma {:induction false} RemoveOneChain(b: seq<FrameCallback>, serial: nat, lo: nat, hi: nat)
    requires Chain(b, lo, hi)
    ensures Chain(RemoveOne(b, serial), lo, hi)
    decreases |b|
  {
    if b != [] {
      if b[0].serial == serial {
        ChainWeaken(b[1..], b[0].serial + 1, hi, lo, hi);
      } else {
        RemoveOneChain(b[1..], serial, b[0].serial + 1, hi);
        assert RemoveOne(b, serial)[1..] == RemoveOne(b[1..], serial);
      }
    }
  }

  /** In a chain every identity occurs at most once, so after removing one the object is gone. */
  lemma {:induction false} RemoveOneGone(b: seq<FrameCallback>, serial: nat, lo: nat, hi: nat)
    requires Chain(b, lo, hi)
    ensures !HasSerial(RemoveOne(b, serial), serial)
    decreases |b|
  {
    if b != [] {
      if b[0].serial == serial {
        forall i | 0 <= i < |b[1..]| ensures b[1..][i].serial != serial {
          ChainBounds(b[1..], b[0].serial + 1, hi, i);
        }
      } else {
        RemoveOneGone(b[1..], serial, b[0].serial + 1, hi);
        var r := RemoveOne(b, serial);
        assert r == [b[0]] + RemoveOne(b[1..], serial);
        forall i | 0 <= i < |r| ensures r[i].serial != serial {
          if i > 0 { assert r[i] == RemoveOne(b[1..], serial)[i - 1]; }
        }
      }
    }
  }

  /** Removing a callback that the prefix `a` does not hold takes it from where `b` starts. */
  lemma {:induction false} RemoveOneAfter(a: seq<FrameCallback>, b: seq<FrameCallback>)
    requires b != [] && forall i :: 0 <= i < |a| ==> a[i].serial != b[0].serial
    ensures RemoveOne(a + b, b[0].serial) == a + b[1..]
  {
    if a != [] {
      assert (a + b)[0] == a[0];
      assert (a + b)[1..] == a[1..] + b;
      RemoveOneAfter(a[1..], b);
    } else {
      assert a + b == b;
    }
  }

  /** The callbacks that stay queued after sending: those not yet sendable, in their original order. */
  function Kept(cs: seq<FrameCallback>): (r: seq<FrameCallback>)
    ensures |r| <= |cs|
    ensures forall c :: c in r <==> c in cs && !c.canSend
  {
    if cs == [] then []
    else
      assert forall c :: c in cs <==> c == cs[0] || c in cs[1..];
      (if cs[0].canSend then [] else [cs[0]]) + Kept(cs[1..])
  }

  /** Sending keeps the chain: the callbacks kept are a subsequence. */
  lemma {:induction false} KeptChain(cs: seq<FrameCallback>, lo: nat, hi: nat)
    requires Chain(cs, lo, hi)
    ensures Chain(Kept(cs), lo, hi)
    decreases |cs|
  {
    if cs != [] {
      KeptChain(cs[1..], cs[0].serial + 1, hi);
      if cs[0].canSend {
        assert Kept(cs) == Kept(cs[1..]);
        ChainWeaken(Kept(cs[1..]), cs[0].serial + 1, hi, lo, hi);
      } else {
        assert Kept(cs) == [cs[0]] + Kept(cs[1..]);
        assert Kept(cs)[1..] == Kept(cs[1..]);
      }
    }
  }

  /** The frame-done notices sent, one per sendable callback, in queue order. */
  function Sent(cs: seq<FrameCallback>, time: nat): (r: seq<SurfaceEvent>)
    ensures |r| + |Kept(cs)| == |cs|
  {
    if cs == [] then []
    else (if cs[0].canSend then [FrameDone(cs[0].resource, time)] else []) + Sent(cs[1..], time)
  }

  /** Filtering distributes over concatenation: the kept callbacks keep their relative order. */
  lemma {:induction false} KeptAppend(a: seq<FrameCallback>, b: seq<FrameCallback>)
    ensures Kept(a + b) == Kept(a) + Kept(b)
  {
    if a == [] {
      assert a + b == b;
    } else {
      ConsAppend(a, b);
      KeptAppend(a[1..], b);
      AppendAssoc(if a[0].canSend then [] else [a[0]], Kept(a[1..]), Kept(b));
    }
  }

  /** The head of `a + b` is the head of `a`, and its tail is the tail of `a` followed by `b`. */
  lemma ConsAppend<T>(a: seq<T>, b: seq<T>)
    requires a != []
    ensures (a + b)[0] == a[0] && (a + b)[1..] == a[1..] + b
  {
  }

  lemma {:induction false} SentAppend(a: seq<FrameCallback>, b: seq<FrameCallback>, time: nat)
    ensures Sent(a + b, time) == Sent(a, time) + Sent(b, time)
  {
    if a == [] {
      assert a + b == b;
    } else {
      ConsAppend(a, b);
      SentAppend(a[1..], b, time);
      AppendAssoc(if a[0].canSend then [FrameDone(a[0].resource, time)] else [], Sent(a[1..], time), Sent(b, time));
    }
  }

  /** Every active callback once the frame has started. */
  function MarkedSendable(cs: seq<FrameCallback>): (r: seq<FrameCallback>)
    ensures |r| == |cs|
    ensures forall i :: 0 <= i < |cs| ==> r[i] == cs[i].(canSend := true)
  {
    seq(|cs|, i requires 0 <= i < |cs| => cs[i].(canSend := true))
  }

  /** Marking callbacks sendable leaves their identities alone. */
  lemma {:induction false} MarkedSendableChain(cs: seq<FrameCallback>, lo: nat, hi: nat)
    requires Chain(cs, lo, hi)
    ensures Chain(MarkedSendable(cs), lo, hi)
    decreases |cs|
  {
    if cs != [] {
      assert MarkedSendable(cs)[1..] == MarkedSendable(cs[1..]);
      MarkedSendableChain(cs[1..], cs[0].serial + 1, hi);
    }
  }

  /** After a frame start, sending empties the active queue and notifies each callback in order. */
  lemma {:induction false} SendAfterFrameStart(cs: seq<FrameCallback>, time: nat)
    ensures Kept(MarkedSendable(cs)) == []
    ensures Sent(MarkedSendable(cs), time) == seq(|cs|, i requires 0 <= i < |cs| => FrameDone(cs[i].resource, time))
  {
    if cs != [] {
      var m := MarkedSendable(cs);
      assert m[1..] == MarkedSendable(cs[1..]);
      SendAfterFrameStart(cs[1..], time);
    }
  }

  /** Callbacks not yet marked by a frame start are never sent: they all stay queued, in order. */
  lemma {:induction false} UnmarkedStay(cs: seq<FrameCallback>, time: nat)
    requires forall c :: c in cs ==> !c.canSend
    ensures Kept(cs) == cs && Sent(cs, time) == []
  {
    if cs != [] {
      assert cs[0] in cs;
      assert forall c :: c in cs[1..] ==> c in cs;
      UnmarkedStay(cs[1..], time);
      assert Kept(cs) == [cs[0]] + Kept(cs[1..]);
      assert Sent(cs, time) == [] + Sent(cs[1..], time);
      Uncons(cs);
    }
  }

  // ---------------------------------------------------------------------------
  // Content orientation

  /** WL_OUTPUT_TRANSFORM_90, _180 and _270 of the Wayland core protocol. */
  const Transform90: int := 1
  const Transform180: int := 2
  const Transform270: int := 3

  function ContentOrientationFor(transform: int, isPortrait: bool): (o: ScreenOrientation)
    ensures o == PrimaryOrientation <==> transform !in {Transform90, Transform180, Transform270}
    ensures transform == Transform90 ==> o == (if isPortrait then InvertedLandscapeOrientation else PortraitOrientation)
    ensures transform == Transform180 ==> o == (if isPortrait then InvertedPortraitOrientation else InvertedLandscapeOrientation)
    ensures transform == Transform270 ==> o == (if isPortrait then LandscapeOrientation else InvertedPortraitOrientation)
  {
    if transform == Transform90 then
      if isPortrait then InvertedLandscapeOrientation else PortraitOrientation
    else if transform == Transform180 then
      if isPortrait then InvertedPortraitOrientation else InvertedLandscapeOrientation
    else if transform == Transform270 then
      if isPortrait then LandscapeOrientation else InvertedPortraitOrientation
    else PrimaryOrientation
  }

  /** The three rotations give three different orientations on either kind of screen. */
  lemma RotationsDistinct(t: int, u: int, isPortrait: bool)
    requires t in {Transform90, Transform180, Transform270} && u in {Transform90, Transform180, Transform270}
    requires ContentOrientationFor(t, isPortrait) == ContentOrientationFor(u, isPortrait)
    ensures t == u
  {
  }

  // ---------------------------------------------------------------------------
  // Views and reference counting

  /** The number of occurrences of `v`, the count QList::removeAll reports. */
  function Count(s: seq<ViewId>, v: ViewId): (n: nat)
    ensures n == multiset(s)[v]
    ensures n <= |s|
    ensures n == 0 <==> v !in s
  {
    if s == [] then 0
    else
      assert s == [s[0]] + s[1..];
      (if s[0] == v then 1 else 0) + Count(s[1..], v)
  }

  /** QList::removeAll: every occurrence of `v` removed, the others kept with their multiplicities. */
  function RemoveAll(s: seq<ViewId>, v: ViewId): (r: seq<ViewId>)
    ensures multiset(r) == multiset(s)[v := 0]
    ensures v !in r
    ensures |r| == |s| - Count(s, v)
    ensures forall w :: w != v ==> (w in r <==> w in s)
  {
    if s == [] then []
    else
      assert s == [s[0]] + s[1..];
      (if s[0] == v then [] else [s[0]]) + RemoveAll(s[1..], v)
  }

  /** removeAll keeps the order of the views it keeps: it works piecewise on a split list. */
  lemma {:induction false} RemoveAllAppend(a: seq<ViewId>, b: seq<ViewId>, v: ViewId)
    ensures RemoveAll(a + b, v) == RemoveAll(a, v) + RemoveAll(b, v)
  {
    if a == [] {
      assert a + b == b;
    } else {
      ConsAppend(a, b);
      RemoveAllAppend(a[1..], b, v);
      AppendAssoc(if a[0] == v then [] else [a[0]], RemoveAll(a[1..], v), RemoveAll(b, v));
    }
  }

  /** How many times derefView's loop dereferences: once per removed occurrence while the count is positive. */
  function DerefCount(refCount: int, occurrences: nat): (k: nat)
    ensures k <= occurrences
    ensures refCount >= 0 ==> k <= refCount
    ensures refCount > 0 ==> k == (if occurrences < refCount then occurrences else refCount)
    ensures refCount <= 0 ==> k == 0
  {
    if refCount <= 0 || occurrences == 0 then 0
    else 1 + DerefCount(refCount - 1, occurrences - 1)
  }

  /** derefView never drives a non-negative count below zero, and triggers destruction at most once, exactly when it reaches zero. */
  lemma DerefViewReachesZero(refCount: int, occurrences: nat)
    ensures refCount >= 0 ==> refCount - DerefCount(refCount, occurrences) >= 0
    ensures DerefCount(refCount, occurrences) > 0 && refCount - DerefCount(refCount, occurrences) == 0
            <==> refCount > 0 && occurrences >= refCount
  {
  }

  /** The first index of `v` in `s`. */
  function IndexOf(s: seq<ViewId>, v: ViewId): (i: nat)
    requires v in s
    ensures i < |s| && s[i] == v
    ensures forall j :: 0 <= j < i ==> s[j] != v
  {
    if s[0] == v then 0 else 1 + IndexOf(s[1..], v)
  }

  /** QList::move(i, 0). */
  function MoveToFront(s: seq<ViewId>, i: nat): (r: seq<ViewId>)
    requires i < |s|
    ensures |r| == |s| && r[0] == s[i]
    ensures multiset(r) == multiset(s)
    ensures r[1..] == s[..i] + s[i + 1..]
  {
    assert s == s[..i] + [s[i]] + s[i + 1..];
    [s[i]] + s[..i] + s[i + 1..]
  }

  function ViewsNotified(views: seq<ViewId>): (r: seq<SurfaceEvent>)
    ensures |r| == |views|
    ensures forall i :: 0 <= i < |views| ==> r[i] == ViewSurfaceDestroyed(views[i])
  {
    seq(|views|, i requires 0 <= i < |views| => ViewSurfaceDestroyed(views[i]))
  }

  /** Both buffer references of a surface point into its pool. */
  predicate RefsValid(pendingBuffer: Option<nat>, buffer: Option<nat>, poolSize: nat) {
    && (pendingBuffer.Some? ==> pendingBuffer.value < poolSize)
    && (buffer.Some? ==> buffer.value < poolSize)
  }

  /** Where the pending queue's identities start. */
  function PendingFloor(pfc: seq<FrameCallback>, nextSerial: nat): nat {
    if pfc == [] then nextSerial else pfc[0].serial
  }

  /**
   * The callback queues are valid when the active queue's identities rise
   * strictly and stay below the pending queue's, which rise strictly below the
   * next fresh identity, and no pending callback is sendable yet.
   */
  ghost predicate CallbacksValid(fc: seq<FrameCallback>, pfc: seq<FrameCallback>, nextSerial: nat) {
    && Chain(fc, 0, PendingFloor(pfc, nextSerial))
    && Chain(pfc, PendingFloor(pfc, nextSerial), nextSerial)
    && (forall c :: c in pfc ==> !c.canSend)
  }

  /** No two entries of a queue are the same callback object. */
  predicate DistinctSerials(cs: seq<FrameCallback>) {
    forall i, j :: 0 <= i < j < |cs| ==> cs[i].serial != cs[j].serial
  }

  lemma ChainSerialsDistinct(cs: seq<FrameCallback>, lo: nat, hi: nat)
    requires Chain(cs, lo, hi)
    ensures DistinctSerials(cs)
  {
    forall i, j | 0 <= i < j < |cs| ensures cs[i].serial != cs[j].serial {
      ChainDistinct(cs, lo, hi, i, j);
    }
  }

  /** The two queues together never hold the same callback object twice, and keep frame-request order. */
  lemma QueuedCallbacksDistinct(fc: seq<FrameCallback>, pfc: seq<FrameCallback>, nextSerial: nat, i: nat, j: nat)
    requires CallbacksValid(fc, pfc, nextSerial)
    requires i < j < |fc + pfc|
    ensures (fc + pfc)[i].serial < (fc + pfc)[j].serial < nextSerial
  {
    ChainAppend(fc, pfc, 0, PendingFloor(pfc, nextSerial), nextSerial);
    ChainDistinct(fc + pfc, 0, nextSerial, i, j);
  }

  /** Sending keeps the queues valid. */
  lemma KeptKeepsCallbacksValid(fc: seq<FrameCallback>, pfc: seq<FrameCallback>, nextSerial: nat)
    requires CallbacksValid(fc, pfc, nextSerial)
    ensures CallbacksValid(Kept(fc), pfc, nextSerial)
  {
    KeptChain(fc, 0, PendingFloor(pfc, nextSerial));
  }

  /** Destroying a callback's resource keeps the queues valid. */
  lemma RemoveKeepsCallbacksValid(fc: seq<FrameCallback>, pfc: seq<FrameCallback>, nextSerial: nat, c: nat)
    requires CallbacksValid(fc, pfc, nextSerial)
    ensures CallbacksValid(RemoveOne(fc, c), RemoveOne(pfc, c), nextSerial)
  {
    var floor, rp := PendingFloor(pfc, nextSerial), RemoveOne(pfc, c);
    var floor' := PendingFloor(rp, nextSerial);
    RemoveOneChain(fc, c, 0, floor);
    if pfc != [] && pfc[0].serial == c {
      assert rp == pfc[1..];
      if rp != [] {
        assert Chain(rp, pfc[0].serial + 1, nextSerial);
        assert Chain(rp[1..], rp[0].serial + 1, nextSerial);
      }
      ChainWeaken(RemoveOne(fc, c), 0, floor, 0, floor');
    } else {
      assert pfc != [] ==> rp[0] == pfc[0];
      assert floor' == floor;
      RemoveOneChain(pfc, c, floor, nextSerial);
    }
  }

  /** Marking the active queue sendable keeps the queues valid. */
  lemma MarkKeepsCallbacksValid(fc: seq<FrameCallback>, pfc: seq<FrameCallback>, nextSerial: nat)
    requires CallbacksValid(fc, pfc, nextSerial)
    ensures CallbacksValid(MarkedSendable(fc), pfc, nextSerial)
  {
    MarkedSendableChain(fc, 0, PendingFloor(pfc, nextSerial));
  }

  /** A frame request queues a callback with a fresh identity, keeping the queues valid. */
  lemma FrameKeepsCallbacksValid(fc: seq<FrameCallback>, pfc: seq<FrameCallback>, nextSerial: nat, resource: CallbackResource)
    requires CallbacksValid(fc, pfc, nextSerial)
    ensures CallbacksValid(fc, pfc + [FrameCallback(nextSerial, resource, false)], nextSerial + 1)
  {
    var c := FrameCallback(nextSerial, resource, false);
    ChainSnoc(pfc, PendingFloor(pfc, nextSerial), nextSerial, c);
    if pfc == [] {
      assert pfc + [c] == [c];
      ChainWeaken(fc, 0, nextSerial, 0, nextSerial);
    } else {
      assert (pfc + [c])[0] == pfc[0];
    }
  }

  /** A commit moves the pending callbacks behind the active ones, keeping the queues valid. */
  lemma CommitKeepsCallbacksValid(fc: seq<FrameCallback>, pfc: seq<FrameCallback>, nextSerial: nat)
    requires CallbacksValid(fc, pfc, nextSerial)
    ensures CallbacksValid(fc + pfc, [], nextSerial)
  {
    ChainAppend(fc, pfc, 0, PendingFloor(pfc, nextSerial), nextSerial);
  }

  // ---------------------------------------------------------------------------
  // The surface

  class Surface {
    var pending: PendingState
    var buffer: Option<nat>
    var size: Size
    var damage: Region
    var inputRegion: Region
    var opaqueRegion: Region
    var contentOrientation: ScreenOrientation
    var refCount: int
    var destroyed: bool
    var bufferPool: seq<PoolEntry>
    var pendingFrameCallbacks: seq<FrameCallback>
    var frameCallbacks: seq<FrameCallback>
    var views: seq<ViewId>
    var log: seq<SurfaceEvent>
    /** The next fresh callback identity. */
    var nextSerial: nat

    ghost predicate Valid()
      reads this`pending, this`buffer, this`bufferPool, this`frameCallbacks, this`pendingFrameCallbacks, this`nextSerial
    {
      && RefsValid(pending.buffer, buffer, |bufferPool|)
      && CallbacksValid(frameCallbacks, pendingFrameCallbacks, nextSerial)
    }

    constructor ()
      ensures Valid()
      ensures pending == PendingState(None, Origin, false, EmptyRegion, InfiniteRegion())
      ensures buffer == None && size == InvalidSize && damage == EmptyRegion && opaqueRegion == EmptyRegion
      ensures inputRegion == InfiniteRegion() && contentOrientation == PrimaryOrientation
      ensures refCount == 1 && !destroyed
      ensures bufferPool == [] && pendingFrameCallbacks == [] && frameCallbacks == [] && views == [] && log == []
    {
      pending := PendingState(None, Origin, false, EmptyRegion, InfiniteRegion());
      buffer := None;
      size := InvalidSize;
      damage := EmptyRegion;
      inputRegion := InfiniteRegion();
      opaqueRegion := EmptyRegion;
      contentOrientation := PrimaryOrientation;
      refCount := 1;
      destroyed := false;
      bufferPool := [];
      pendingFrameCallbacks := [];
      frameCallbacks := [];
      views := [];
      log := [];
      nextSerial := 0;
    }

    method SetSize(s: Size)
      modifies this`size, this`opaqueRegion, this`log
      ensures size == s
      ensures opaqueRegion == if s != old(size) then EmptyRegion else old(opaqueRegion)
      ensures log == old(log) + (if s != old(size) then [SizeChanged] else [])
    {
      if size != s {
        opaqueRegion := EmptyRegion;
        size := s;
        log := log + [SizeChanged];
      }
    }

    method SendFrameCallback(time: nat)
      requires Valid()
      modifies this`frameCallbacks, this`log
      ensures Valid()
      ensures frameCallbacks == Kept(old(frameCallbacks))
      ensures log == old(log) + Sent(old(frameCallbacks), time)
    {
      KeptKeepsCallbacksValid(frameCallbacks, pendingFrameCallbacks, nextSerial);
      ChainSerialsDistinct(frameCallbacks, 0, PendingFloor(pendingFrameCallbacks, nextSerial));
      SendQueued(time);
    }

    /** The loop of sendFrameCallback over a snapshot of the active queue. */
    method SendQueued(time: nat)
      requires DistinctSerials(frameCallbacks)
      modifies this`frameCallbacks, this`log
      ensures frameCallbacks == Kept(old(frameCallbacks))
      ensures log == old(log) + Sent(old(frameCallbacks), time)
    {
      var done: seq<FrameCallback> := [];
      var rest := frameCallbacks;
      while rest != []
        invariant old(frameCallbacks) == done + rest
        invariant frameCallbacks == Kept(done) + rest
        invariant log == old(log) + Sent(done, time)
        decreases |rest|
      {
        var callback := rest[0];
        ghost var kept, sent := Kept(done), Sent(done, time);
        KeptAppend(done, [callback]);
        SentAppend(done, [callback], time);
        Uncons(rest);
        AppendAssoc(done, [callback], rest[1..]);
        if callback.canSend {
          assert Kept([callback]) == [] && Sent([callback], time) == [FrameDone(callback.resource, time)];
          assert kept + [] == kept;
          forall i | 0 <= i < |kept| ensures kept[i].serial != callback.serial {
            assert kept[i] in done;
            var j :| 0 <= j < |done| && done[j] == kept[i];
            assert old(frameCallbacks)[j] == kept[i] && old(frameCallbacks)[|done|] == callback;
          }
          RemoveOneAfter(kept, rest);
          AppendAssoc(old(log), sent, [FrameDone(callback.resource, time)]);
          log := log + [FrameDone(callback.resource, time)];
          frameCallbacks := RemoveOne(frameCallbacks, callback.serial);
        } else {
          assert Kept([callback]) == [callback] && Sent([callback], time) == [];
          assert sent + [] == sent;
          AppendAssoc(kept, [callback], rest[1..]);
        }
        done := done + [callback];
        rest := rest[1..];
      }
      assert done + [] == done;
    }

    /** The resource of the callback object `serial` was destroyed: it leaves both queues. */
    method RemoveFrameCallback(serial: nat)
      requires Valid()
      modifies this`pendingFrameCallbacks, this`frameCallbacks
      ensures Valid()
      ensures pendingFrameCallbacks == RemoveOne(old(pendingFrameCallbacks), serial)
      ensures frameCallbacks == RemoveOne(old(frameCallbacks), serial)
      ensures forall c :: c in frameCallbacks + pendingFrameCallbacks ==> c.serial != serial
    {
      RemoveKeepsCallbacksValid(frameCallbacks, pendingFrameCallbacks, nextSerial, serial);
      RemoveOneGone(frameCallbacks, serial, 0, PendingFloor(pendingFrameCallbacks, nextSerial));
      RemoveOneGone(pendingFrameCallbacks, serial, PendingFloor(pendingFrameCallbacks, nextSerial), nextSerial);
      pendingFrameCallbacks := RemoveOne(pendingFrameCallbacks, serial);
      frameCallbacks := RemoveOne(frameCallbacks, serial);
      forall c | c in frameCallbacks + pendingFrameCallbacks ensures c.serial != serial {
        var i :| 0 <= i < |frameCallbacks + pendingFrameCallbacks| && (frameCallbacks + pendingFrameCallbacks)[i] == c;
        if i < |frameCallbacks| {
          assert frameCallbacks[i] == c;
        } else {
          assert pendingFrameCallbacks[i - |frameCallbacks|] == c;
        }
      }
    }

    method FrameStarted()
      requires Valid()
      modifies this`frameCallbacks
      ensures Valid()
      ensures frameCallbacks == MarkedSendable(old(frameCallbacks))
    {
      var i := 0;
      while i < |frameCallbacks|
        invariant 0 <= i <= |frameCallbacks| == |old(frameCallbacks)|
        invariant forall k :: 0 <= k < i ==> frameCallbacks[k] == old(frameCallbacks)[k].(canSend := true)
        invariant forall k :: i <= k < |frameCallbacks| ==> frameCallbacks[k] == old(frameCallbacks)[k]
      {
        frameCallbacks := frameCallbacks[i := frameCallbacks[i].(canSend := true)];
        i := i + 1;
      }
      assert frameCallbacks == MarkedSendable(old(frameCallbacks));
      MarkKeepsCallbacksValid(old(frameCallbacks), pendingFrameCallbacks, nextSerial);
    }

    /** destroy_resource: views are told first, then the surface is marked destroyed and releases its hold. */
    method DestroyResource()
      modifies this`destroyed, this`refCount, this`log
      ensures destroyed
      ensures refCount == old(refCount) - 1
      ensures log == old(log) + ViewsNotified(views)
                     + (if refCount == 0 then [DestroySurface] else [])
                     + [SurfaceDestroyed]
    {
      var i := 0;
      while i < |views|
        invariant 0 <= i <= |views|
        invariant log == old(log) + ViewsNotified(views[..i])
        modifies this`log
      {
        assert ViewsNotified(views[..i + 1]) == ViewsNotified(views[..i]) + [ViewSurfaceDestroyed(views[i])];
        log := log + [ViewSurfaceDestroyed(views[i])];
        i := i + 1;
      }
      assert views[..i] == views;
      destroyed := true;
      Deref();
      log := log + [SurfaceDestroyed];
    }

    method Attach(wlBuffer: Option<WlBuffer>, x: int, y: int)
      requires Valid()
      modifies this`pending, this`bufferPool, this`log
      ensures Valid()
      ensures var pool := Disowned(old(bufferPool), old(pending.buffer));
        && bufferPool == AfterAllocation(pool, wlBuffer)
        && pending == old(pending).(buffer := Some(AllocatedIndex(pool)), offset := Point(x, y), newlyAttached := true)
        && log == old(log) + (if AllocatedIndex(pool) == |pool| && |pool| + 1 > 3 then [PoolSizeWarning(|pool| + 1)] else [])
    {
      if pending.buffer.Some? {
        var i := pending.buffer.value;
        bufferPool := bufferPool[i := bufferPool[i].(disowned := true)];
      }
      var entry := CreateSurfaceBuffer(wlBuffer);
      pending := pending.(buffer := Some(entry), offset := Point(x, y), newlyAttached := true);
    }

    method Damage(x: int, y: int, width: int, height: int)
      modifies this`pending
      ensures pending == old(pending).(damage := United(old(pending.damage), Rect(x, y, width, height)))
    {
      pending := pending.(damage := United(pending.damage, Rect(x, y, width, height)));
    }

    method Frame(resource: CallbackResource)
      requires Valid()
      modifies this`pendingFrameCallbacks, this`nextSerial
      ensures Valid()
      ensures pendingFrameCallbacks == old(pendingFrameCallbacks) + [FrameCallback(old(nextSerial), resource, false)]
      ensures nextSerial == old(nextSerial) + 1
    {
      FrameKeepsCallbacksValid(frameCallbacks, pendingFrameCallbacks, nextSerial, resource);
      pendingFrameCallbacks := pendingFrameCallbacks + [FrameCallback(nextSerial, resource, false)];
      nextSerial := nextSerial + 1;
    }

    /** The opaque region takes effect at once; it is not part of the pending state. */
    method SetOpaqueRegion(region: Option<Region>)
      modifies this`opaqueRegion
      ensures opaqueRegion == region.GetOr(EmptyRegion)
    {
      opaqueRegion := if region.Some? then region.value else EmptyRegion;
    }

    method SetInputRegion(region: Option<Region>)
      modifies this`pending
      ensures pending == old(pending).(inputRegion := region.GetOr(InfiniteRegion()))
    {
      if region.Some? {
        pending := pending.(inputRegion := region.value);
      } else {
        pending := pending.(inputRegion := InfiniteRegion());
      }
    }

    method Commit()
      requires Valid()
      modifies this`pending, this`buffer, this`size, this`damage, this`opaqueRegion, this`bufferPool,
               this`frameCallbacks, this`pendingFrameCallbacks, this`inputRegion, this`log
      ensures Valid()
      ensures pending == PendingState(None, Origin, false, EmptyRegion, old(pending.inputRegion))
      ensures var attached := old(pending.buffer).Some? || old(pending.newlyAttached);
        && buffer == (if attached then old(pending.buffer) else old(buffer))
        && size == (if attached then BackBufferSize(old(bufferPool), old(pending.buffer), old(size)) else old(size))
        && damage == (if attached then BackBufferDamage(old(pending.damage), old(pending.buffer), size) else old(damage))
        && opaqueRegion == (if size != old(size) then EmptyRegion else old(opaqueRegion))
        && log == old(log)
                  + (if attached
                     then BackBufferEvents(old(size), size, views, buffer, damage,
                                           HasContent(old(bufferPool), old(buffer)), HasContent(old(bufferPool), buffer),
                                           old(pending.offset))
                     else [])
                  + [Redraw]
      ensures bufferPool == if buffer.Some? then old(bufferPool)[buffer.value := old(bufferPool)[buffer.value].(committed := true)]
                            else old(bufferPool)
      ensures frameCallbacks == old(frameCallbacks) + old(pendingFrameCallbacks)
      ensures pendingFrameCallbacks == []
      ensures inputRegion == Intersected(old(pending.inputRegion), SurfaceRect(size))
    {
      PublishPending();
      FinishCommit();
    }

    /** The first half of a commit: an attached buffer (or a null attach) is published and the pending state is reset. */
    method PublishPending()
      requires RefsValid(pending.buffer, buffer, |bufferPool|)
      modifies this`pending, this`buffer, this`size, this`damage, this`opaqueRegion, this`log
      ensures RefsValid(pending.buffer, buffer, |bufferPool|)
      ensures pending == PendingState(None, Origin, false, EmptyRegion, old(pending.inputRegion))
      ensures var attached := old(pending.buffer).Some? || old(pending.newlyAttached);
        && buffer == (if attached then old(pending.buffer) else old(buffer))
        && size == (if attached then BackBufferSize(bufferPool, old(pending.buffer), old(size)) else old(size))
        && damage == (if attached then BackBufferDamage(old(pending.damage), old(pending.buffer), size) else old(damage))
        && opaqueRegion == (if size != old(size) then EmptyRegion else old(opaqueRegion))
        && log == old(log)
                  + (if attached
                     then BackBufferEvents(old(size), size, views, buffer, damage,
                                           HasContent(bufferPool, old(buffer)), HasContent(bufferPool, buffer),
                                           old(pending.offset))
                     else [])
    {
      if pending.buffer.Some? || pending.newlyAttached {
        SetBackBuffer(pending.buffer, pending.damage);
      } else {
        assert log + [] == log;
      }
      pending := PendingState(None, Origin, false, EmptyRegion, pending.inputRegion);
    }

    /** The second half of a commit: the buffer is marked committed, the callbacks become active, the input region is clipped. */
    method FinishCommit()
      requires buffer.Some? ==> buffer.value < |bufferPool|
      requires CallbacksValid(frameCallbacks, pendingFrameCallbacks, nextSerial)
      modifies this`bufferPool, this`frameCallbacks, this`pendingFrameCallbacks, this`inputRegion, this`log
      ensures CallbacksValid(frameCallbacks, pendingFrameCallbacks, nextSerial)
      ensures bufferPool == if buffer.Some? then old(bufferPool)[buffer.value := old(bufferPool)[buffer.value].(committed := true)]
                            else old(bufferPool)
      ensures frameCallbacks == old(frameCallbacks) + old(pendingFrameCallbacks)
      ensures pendingFrameCallbacks == []
      ensures inputRegion == Intersected(pending.inputRegion, SurfaceRect(size))
      ensures log == old(log) + [Redraw]
    {
      if buffer.Some? {
        bufferPool := bufferPool[buffer.value := bufferPool[buffer.value].(committed := true)];
      }
      CommitKeepsCallbacksValid(frameCallbacks, pendingFrameCallbacks, nextSerial);
      frameCallbacks := frameCallbacks + pendingFrameCallbacks;
      pendingFrameCallbacks := [];
      inputRegion := Intersected(pending.inputRegion, SurfaceRect(size));
      log := log + [Redraw];
    }

    method SetBufferTransform(transform: int, isPortrait: bool)
      modifies this`contentOrientation, this`log
      ensures contentOrientation == ContentOrientationFor(transform, isPortrait)
      ensures log == old(log) + (if contentOrientation != old(contentOrientation) then [ContentOrientationChanged] else [])
    {
      var oldOrientation := contentOrientation;
      if transform == Transform90 {
        contentOrientation := if isPortrait then InvertedLandscapeOrientation else PortraitOrientation;
      } else if transform == Transform180 {
        contentOrientation := if isPortrait then InvertedPortraitOrientation else InvertedLandscapeOrientation;
      } else if transform == Transform270 {
        contentOrientation := if isPortrait then LandscapeOrientation else InvertedPortraitOrientation;
      } else {
        contentOrientation := PrimaryOrientation;
      }
      if contentOrientation != oldOrientation {
        log := log + [ContentOrientationChanged];
      }
    }

    method SetBackBuffer(b: Option<nat>, d: Region)
      requires b.Some? ==> b.value < |bufferPool|
      modifies this`buffer, this`size, this`opaqueRegion, this`damage, this`log
      ensures buffer == b
      ensures size == BackBufferSize(bufferPool, b, old(size))
      ensures opaqueRegion == if size != old(size) then EmptyRegion else old(opaqueRegion)
      ensures damage == BackBufferDamage(d, b, size)
      ensures log == old(log) + BackBufferEvents(old(size), size, views, b, damage,
                                                HasContent(bufferPool, old(buffer)), HasContent(bufferPool, b),
                                                pending.offset)
    {
      var hadContent := HasContent(bufferPool, buffer);
      buffer := b;
      ResizeAndClip(b, d);
      ghost var head: seq<SurfaceEvent> := if old(size) != size then [SizeChanged] else [];
      AttachToViews(b, damage);
      var mapped := hadContent != HasContent(bufferPool, b);
      EmitBufferSignals(damage, mapped, pending.offset);
      AppendAssoc5(old(log), head, ViewAttaches(views, b, damage), [Damaged(damage)],
                   if mapped then [MappedChanged] else [],
                   if !IsNull(pending.offset) then [OffsetForNextFrame(pending.offset)] else []);
    }

    /** The size follows the new buffer (an invalid size for none) and the damage is clipped to it. */
    method ResizeAndClip(b: Option<nat>, d: Region)
      requires b.Some? ==> b.value < |bufferPool|
      modifies this`size, this`opaqueRegion, this`damage, this`log
      ensures size == BackBufferSize(bufferPool, b, old(size))
      ensures opaqueRegion == if size != old(size) then EmptyRegion else old(opaqueRegion)
      ensures damage == BackBufferDamage(d, b, size)
      ensures log == old(log) + (if old(size) != size then [SizeChanged] else [])
    {
      if b.Some? {
        if bufferPool[b.value].handle.Some? {
          SetSize(bufferPool[b.value].handle.value.size);
        }
        damage := Intersected(d, SurfaceRect(size));
      } else {
        SetSize(InvalidSize);
        damage := EmptyRegion;
      }
    }

    /** damaged, then mappedChanged when hasContent flipped, then offsetForNextFrame for a non-null offset. */
    method EmitBufferSignals(d: Region, mapped: bool, offset: Point)
      modifies this`log
      ensures log == old(log) + [Damaged(d)] + (if mapped then [MappedChanged] else [])
                    + (if !IsNull(offset) then [OffsetForNextFrame(offset)] else [])
    {
      log := log + [Damaged(d)];
      if mapped {
        log := log + [MappedChanged];
      }
      if !IsNull(offset) {
        log := log + [OffsetForNextFrame(offset)];
      }
    }

    /** Every view is handed the new buffer reference and the committed damage, in view-list order. */
    method AttachToViews(ref: Option<nat>, d: Region)
      modifies this`log
      ensures log == old(log) + ViewAttaches(views, ref, d)
    {
      var i := 0;
      while i < |views|
        invariant 0 <= i <= |views|
        invariant log == old(log) + ViewAttaches(views[..i], ref, d)
      {
        assert ViewAttaches(views[..i + 1], ref, d) == ViewAttaches(views[..i], ref, d) + [ViewAttached(views[i], ref, d)];
        log := log + [ViewAttached(views[i], ref, d)];
        i := i + 1;
      }
      assert views[..i] == views;
    }

    method CreateSurfaceBuffer(wlBuffer: Option<WlBuffer>) returns (entry: nat)
      modifies this`bufferPool, this`log
      ensures entry == AllocatedIndex(old(bufferPool))
      ensures bufferPool == AfterAllocation(old(bufferPool), wlBuffer)
      ensures log == old(log) + (if entry == |old(bufferPool)| && |bufferPool| > 3 then [PoolSizeWarning(|bufferPool|)] else [])
    {
      var i := 0;
      while i < |bufferPool| && bufferPool[i].registered
        invariant 0 <= i <= |bufferPool|
        invariant forall j :: 0 <= j < i ==> bufferPool[j].registered
      {
        i := i + 1;
      }
      if i < |bufferPool| {
        entry := i;
        bufferPool := bufferPool[entry := Initialized(wlBuffer)];
      } else {
        entry := |bufferPool|;
        bufferPool := bufferPool + [Initialized(wlBuffer)];
        if |bufferPool| > 3 {
          log := log + [PoolSizeWarning(|bufferPool|)];
        }
      }
    }

    method Ref()
      modifies this`refCount
      ensures refCount == old(refCount) + 1
    {
      refCount := refCount + 1;
    }

    method Deref()
      modifies this`refCount, this`log
      ensures refCount == old(refCount) - 1
      ensures log == old(log) + (if refCount == 0 then [DestroySurface] else [])
    {
      refCount := refCount - 1;
      if refCount == 0 {
        log := log + [DestroySurface];
      }
    }

    function ThrottlingView(): (v: Option<ViewId>)
      reads this
      ensures v.None? <==> views == []
      ensures v.Some? ==> v.value in views && views[0] == v.value
    {
      if views == [] then None else Some(views[0])
    }

    /** A view becomes the throttling view; one not yet showing this surface is attached first. */
    method SetThrottlingView(view: Option<ViewId>)
      modifies this`views, this`refCount
      ensures view.None? ==> views == old(views) && refCount == old(refCount)
      ensures view.Some? ==>
        var attached := if view.value in old(views) then old(views) else old(views) + [view.value];
        && views == MoveToFront(attached, IndexOf(attached, view.value))
        && refCount == old(refCount) + (if view.value in old(views) then 0 else 1)
        && ThrottlingView() == view
    {
      if view.None? {
        return;
      }
      var v := view.value;
      if v !in views {
        RefView(v);
      }
      var index := IndexOf(views, v);
      views := MoveToFront(views, index);
    }

    method RefView(view: ViewId)
      modifies this`views, this`refCount
      ensures views == if view in old(views) then old(views) else old(views) + [view]
      ensures refCount == old(refCount) + (if view in old(views) then 0 else 1)
    {
      if view in views {
        return;
      }
      views := views + [view];
      Ref();
    }

    method DerefView(view: ViewId)
      modifies this`views, this`refCount, this`log
      ensures views == RemoveAll(old(views), view)
      ensures refCount == old(refCount) - DerefCount(old(refCount), Count(old(views), view))
      ensures log == old(log) + (if DerefCount(old(refCount), Count(old(views), view)) > 0 && refCount == 0
                                 then [DestroySurface] else [])
    {
      var nViews := Count(views, view);
      views := RemoveAll(views, view);
      var i := 0;
      while i < nViews && refCount > 0
        invariant 0 <= i <= nViews
        invariant i == DerefCount(old(refCount), nViews) - DerefCount(refCount, nViews - i)
        invariant refCount == old(refCount) - i
        invariant old(refCount) > 0 ==> refCount >= 0
        invariant log == old(log) + (if i > 0 && refCount == 0 then [DestroySurface] else [])
        modifies this`refCount, this`log
      {
        Deref();
        i := i + 1;
      }
    }
  }
}

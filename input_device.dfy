/**
 * The client side of a wl_input_device: pointer, keyboard and touch focus,
 * the pressed-button and modifier masks, key translation and the per-frame
 * touch-point lists.
 *
 * Everything the device hands to the toolkit's window-system interface
 * (mouse, key, enter, leave, activation and touch events), and the two calls
 * it makes into the display (recording the last keyboard-focus device,
 * telling the touch extension about a cancel), is appended to the device's
 * `log`.
 */
module ClientInput {
  import opened Optional
  import opened Geometry

  /** Opaque identity of a client window (QWaylandWindow *). */
  type WindowId = nat

  // ---------------------------------------------------------------------------
  // Buttons and modifiers (Qt::MouseButtons, Qt::KeyboardModifiers)
  // ---------------------------------------------------------------------------

  /** The toolkit buttons the device reports (Qt::LeftButton, Qt::RightButton, Qt::MiddleButton). */
  datatype MouseButton = LeftButton | RightButton | MiddleButton

  /** The evdev button codes the device understands. */
  const BtnLeft: nat := 272
  const BtnRight: nat := 273
  const BtnMiddle: nat := 274

  /**
   * The keyboard modifiers the device ever reports. The toolkit's modifier
   * mask is the set of those present.
   */
  datatype Modifier = ShiftModifier | ControlModifier | AltModifier | MetaModifier

  /** The xkbcommon modifier-state bits, as a keymap's modmap reports them. */
  const XkbShiftMask: bv8 := 0x01
  const XkbControlMask: bv8 := 0x04
  const XkbMod1Mask: bv8 := 0x08
  const XkbMod4Mask: bv8 := 0x40

  /** The toolkit button for an evdev button code, or None for a code the device ignores. */
  function ButtonFor(code: nat): (b: Option<MouseButton>)
    ensures b.Some? <==> code == BtnLeft || code == BtnRight || code == BtnMiddle
    ensures code == BtnLeft ==> b == Some(LeftButton)
    ensures code == BtnRight ==> b == Some(RightButton)
    ensures code == BtnMiddle ==> b == Some(MiddleButton)
  {
    if code == BtnLeft then Some(LeftButton)
    else if code == BtnRight then Some(RightButton)
    else if code == BtnMiddle then Some(MiddleButton)
    else None
  }

  /** The three understood codes name three different buttons. */
  lemma ButtonsDistinct(c: nat, d: nat)
    requires ButtonFor(c).Some? && c != d
    ensures ButtonFor(c) != ButtonFor(d)
  {
  }

  /**
   * The pressed-button mask after `b` goes down (`down`) or up: the mask has
   * the button's flag set or cleared, and every other flag is kept.
   */
  function ApplyButton(pressed: set<MouseButton>, b: MouseButton, down: bool): (r: set<MouseButton>)
    ensures b in r <==> down
    ensures forall c :: c != b ==> (c in r <==> c in pressed)
  {
    if down then pressed + {b} else pressed - {b}
  }

  /** A press followed by the matching release clears that button and restores every other one. */
  lemma PressThenRelease(pressed: set<MouseButton>, b: MouseButton)
    ensures ApplyButton(ApplyButton(pressed, b, true), b, false) == pressed - {b}
  {
  }

  /** translateModifiers: Shift, Control, Mod1 and Mod4 become Shift, Control, Alt and Meta. */
  function TranslateModifiers(s: bv8): (r: set<Modifier>)
    ensures ShiftModifier in r <==> s & XkbShiftMask != 0
    ensures ControlModifier in r <==> s & XkbControlMask != 0
    ensures AltModifier in r <==> s & XkbMod1Mask != 0
    ensures MetaModifier in r <==> s & XkbMod4Mask != 0
  {
    (if s & XkbShiftMask != 0 then {ShiftModifier} else {})
    + (if s & XkbControlMask != 0 then {ControlModifier} else {})
    + (if s & XkbMod1Mask != 0 then {AltModifier} else {})
    + (if s & XkbMod4Mask != 0 then {MetaModifier} else {})
  }

  lemma OrHasBit(a: bv8, b: bv8, k: bv8)
    ensures ((a | b) & k != 0) <==> (a & k != 0) || (b & k != 0)
  {
  }

  /** The translation of several modifier states OR-ed together is the union of their translations. */
  lemma TranslateModifiersUnion(a: bv8, b: bv8)
    ensures TranslateModifiers(a | b) == TranslateModifiers(a) + TranslateModifiers(b)
  {
    OrHasBit(a, b, XkbShiftMask);
    OrHasBit(a, b, XkbControlMask);
    OrHasBit(a, b, XkbMod1Mask);
    OrHasBit(a, b, XkbMod4Mask);
    var l, r := TranslateModifiers(a | b), TranslateModifiers(a) + TranslateModifiers(b);
    assert ShiftModifier in l <==> ShiftModifier in r;
    assert ControlModifier in l <==> ControlModifier in r;
    assert AltModifier in l <==> AltModifier in r;
    assert MetaModifier in l <==> MetaModifier in r;
    assert forall m :: m in l <==> m in r;
  }

  /** Lock, Mod2, Mod3 and Mod5 have no toolkit modifier. */
  lemma TranslateModifiersIgnoresOtherBits(s: bv8)
    ensures TranslateModifiers(s) == TranslateModifiers(s & 0x4d)
  {
    assert forall m :: m in TranslateModifiers(s) <==> m in TranslateModifiers(s & 0x4d) by {
      assert s & 0x4d & XkbShiftMask == s & XkbShiftMask;
      assert s & 0x4d & XkbControlMask == s & XkbControlMask;
      assert s & 0x4d & XkbMod1Mask == s & XkbMod1Mask;
      assert s & 0x4d & XkbMod4Mask == s & XkbMod4Mask;
    }
  }

  // ---------------------------------------------------------------------------
  // Key translation (translateKey)
  // ---------------------------------------------------------------------------

  const Key_Escape: nat := 0x0100_0000
  const Key_Tab: nat := 0x0100_0001
  const Key_Backtab: nat := 0x0100_0002
  const Key_Backspace: nat := 0x0100_0003
  const Key_Return: nat := 0x0100_0004
  const Key_Insert: nat := 0x0100_0006
  const Key_Delete: nat := 0x0100_0007
  const Key_Pause: nat := 0x0100_0008
  const Key_Print: nat := 0x0100_0009
  const Key_Home: nat := 0x0100_0010
  const Key_End: nat := 0x0100_0011
  const Key_Left: nat := 0x0100_0012
  const Key_Up: nat := 0x0100_0013
  const Key_Right: nat := 0x0100_0014
  const Key_Down: nat := 0x0100_0015
  const Key_PageUp: nat := 0x0100_0016
  const Key_PageDown: nat := 0x0100_0017
  const Key_Shift: nat := 0x0100_0020
  const Key_Control: nat := 0x0100_0021
  const Key_Meta: nat := 0x0100_0022
  const Key_Alt: nat := 0x0100_0023
  const Key_CapsLock: nat := 0x0100_0024
  const Key_NumLock: nat := 0x0100_0025
  const Key_ScrollLock: nat := 0x0100_0026
  const Key_Super_L: nat := 0x0100_0053
  const Key_Super_R: nat := 0x0100_0054
  const Key_Menu: nat := 0x0100_0055

  /** The X keysyms translateKey lists by name, each with its toolkit key. */
  const KeyTable: map<nat, nat> := map[
    0xff1b := Key_Escape,      // XK_Escape
    0xff09 := Key_Tab,         // XK_Tab
    0xfe20 := Key_Backtab,     // XK_ISO_Left_Tab
    0xff08 := Key_Backspace,   // XK_BackSpace
    0xff0d := Key_Return,      // XK_Return
    0xff63 := Key_Insert,      // XK_Insert
    0xffff := Key_Delete,      // XK_Delete
    0xff0b := Key_Delete,      // XK_Clear
    0xff13 := Key_Pause,       // XK_Pause
    0xff61 := Key_Print,       // XK_Print
    0xff50 := Key_Home,        // XK_Home
    0xff57 := Key_End,         // XK_End
    0xff51 := Key_Left,        // XK_Left
    0xff52 := Key_Up,          // XK_Up
    0xff53 := Key_Right,       // XK_Right
    0xff54 := Key_Down,        // XK_Down
    0xff55 := Key_PageUp,      // XK_Prior
    0xff56 := Key_PageDown,    // XK_Next
    0xffe1 := Key_Shift,       // XK_Shift_L
    0xffe2 := Key_Shift,       // XK_Shift_R
    0xffe6 := Key_Shift,       // XK_Shift_Lock
    0xffe3 := Key_Control,     // XK_Control_L
    0xffe4 := Key_Control,     // XK_Control_R
    0xffe7 := Key_Meta,        // XK_Meta_L
    0xffe8 := Key_Meta,        // XK_Meta_R
    0xffe9 := Key_Alt,         // XK_Alt_L
    0xffea := Key_Alt,         // XK_Alt_R
    0xffe5 := Key_CapsLock,    // XK_Caps_Lock
    0xff7f := Key_NumLock,     // XK_Num_Lock
    0xff14 := Key_ScrollLock,  // XK_Scroll_Lock
    0xffeb := Key_Super_L,     // XK_Super_L
    0xffec := Key_Super_R,     // XK_Super_R
    0xff67 := Key_Menu         // XK_Menu
  ]

  /** The toolkit key code and the text a key event carries. */
  datatype KeyTranslation = KeyTranslation(key: nat, text: string)

  /** toupper in the C (or a UTF-8) locale: only 'a'..'z' change. */
  function ToUpper(c: nat): (u: nat)
    ensures u != c <==> 0x61 <= c <= 0x7a
    ensures u != c ==> 0x41 <= u <= 0x5a && u + 0x20 == c
  {
    if 0x61 <= c <= 0x7a then c - 0x20 else c
  }

  /**
   * The two-byte buffer read back as Latin-1: the keysym's low byte, or
   * nothing when that byte is the terminating zero.
   */
  function LowByteText(sym: nat): (t: string)
    ensures |t| <= 1
    ensures |t| == 1 <==> sym % 0x100 != 0
    ensures |t| == 1 ==> t[0] as nat == sym % 0x100
  {
    if sym % 0x100 == 0 then "" else [(sym % 0x100) as char]
  }

  /** translateKey: named keysyms map through the table with no text; any other keysym is its own key, upper-cased, with its low byte as text. */
  function TranslateKey(sym: nat): (r: KeyTranslation)
    ensures sym in KeyTable ==> r.key == KeyTable[sym] && r.text == "" && r.key >= Key_Escape
    ensures sym !in KeyTable ==> r.key == ToUpper(sym) && r.text == LowByteText(sym)
    ensures 0x61 <= sym <= 0x7a ==> r.key == sym - 0x20 && r.text == [sym as char]
    ensures 0x20 <= sym <= 0xff && !(0x61 <= sym <= 0x7a) ==> r.key == sym && r.text == [sym as char]
    ensures |r.text| <= 1
  {
    if sym in KeyTable then KeyTranslation(KeyTable[sym], "")
    else KeyTranslation(ToUpper(sym), LowByteText(sym))
  }

  /** A keysym the table names never collides with a Latin-1 keysym, and the keys it yields are never character codes. */
  lemma KeyTableIsFunctionKeys(sym: nat)
    requires sym in KeyTable
    ensures 0xfe00 <= sym <= 0xffff
    ensures Key_Escape <= KeyTable[sym] <= Key_Menu
  {
  }

  // ---------------------------------------------------------------------------
  // The keymap (xkb) as the device consults it
  // ---------------------------------------------------------------------------

  /**
   * The parts of the compiled xkb keymap the device reads: the minimum key
   * code, the modifier map per key code, the width of group 0 per key code,
   * and the keysym at (key code, shift level) in group 0.
   */
  datatype Keymap = Keymap(
    minKeyCode: nat,
    modmap: nat -> bv8,
    groupWidth: nat -> nat,
    symEntry: (nat, nat) -> nat)

  /** The toolkit modifiers attached to the evdev key number `key`. */
  function KeyModifiers(km: Keymap, key: nat): (r: set<Modifier>)
    ensures ShiftModifier in r <==> km.modmap(key + km.minKeyCode) & XkbShiftMask != 0
    ensures ControlModifier in r <==> km.modmap(key + km.minKeyCode) & XkbControlMask != 0
    ensures AltModifier in r <==> km.modmap(key + km.minKeyCode) & XkbMod1Mask != 0
    ensures MetaModifier in r <==> km.modmap(key + km.minKeyCode) & XkbMod4Mask != 0
  {
    TranslateModifiers(km.modmap(key + km.minKeyCode))
  }

  /** The shift level used for a key code: 1 exactly when Shift is held and the key has a second level. */
  function KeyLevel(km: Keymap, code: nat, modifiers: set<Modifier>): (level: nat)
    ensures level <= 1
    ensures level == 1 <==> ShiftModifier in modifiers && km.groupWidth(code) > 1
  {
    if ShiftModifier in modifiers && km.groupWidth(code) > 1 then 1 else 0
  }

  /** The modifier mask after OR-ing the modifiers of every key of `keys` into `acc`, first to last. */
  function OrModifiers(acc: set<Modifier>, km: Keymap, keys: seq<nat>): (r: set<Modifier>)
    ensures forall m :: m in r <==> m in acc || SomeKeyCarries(km, keys, m)
    decreases |keys|
  {
    if keys == [] then acc
    else
      SomeKeyCarriesUncons(km, keys);
      OrModifiers(acc + KeyModifiers(km, keys[0]), km, keys[1..])
  }

  /** The modifier mask of keys held down when focus arrives: a modifier is set exactly when some held key carries it. */
  function HeldModifiers(km: Keymap, keys: seq<nat>): (r: set<Modifier>)
    ensures forall m :: m in r <==> exists i :: 0 <= i < |keys| && m in KeyModifiers(km, keys[i])
  {
    OrModifiers({}, km, keys)
  }

  predicate SomeKeyCarries(km: Keymap, keys: seq<nat>, m: Modifier) {
    exists i :: 0 <= i < |keys| && m in KeyModifiers(km, keys[i])
  }

  lemma SomeKeyCarriesUncons(km: Keymap, keys: seq<nat>)
    requires keys != []
    ensures forall m :: SomeKeyCarries(km, keys, m) <==> m in KeyModifiers(km, keys[0]) || SomeKeyCarries(km, keys[1..], m)
  {
    forall m ensures SomeKeyCarries(km, keys, m) <==> m in KeyModifiers(km, keys[0]) || SomeKeyCarries(km, keys[1..], m) {
      if SomeKeyCarries(km, keys, m) {
        var i :| 0 <= i < |keys| && m in KeyModifiers(km, keys[i]);
        if i > 0 {
          assert keys[1..][i - 1] == keys[i];
        }
      }
      if SomeKeyCarries(km, keys[1..], m) {
        var i :| 0 <= i < |keys[1..]| && m in KeyModifiers(km, keys[1..][i]);
        assert keys[i + 1] == keys[1..][i];
      }
    }
  }

  // ---------------------------------------------------------------------------
  // Pointer focus
  // ---------------------------------------------------------------------------

  datatype TouchState = TouchPointPressed | TouchPointMoved | TouchPointStationary | TouchPointReleased

  /**
   * A touch point as handed to the toolkit. `area` is the point's QRectF; all
   * its corners are whole numbers here, so it is kept as a rectangle of ints.
   */
  datatype TouchPoint = TouchPoint(id: int, area: Rect, state: TouchState, pressure: nat)

  datatype InputEvent =
    | MouseEvent(window: WindowId, time: nat, local: Point, global: Point, buttons: set<MouseButton>)
    | KeyEvent(window: WindowId, time: nat, press: bool, key: nat, modifiers: set<Modifier>, text: string)
    | LeaveEvent(window: WindowId)
    | EnterEvent(window: WindowId)
      /** The display records this device (true) or no device (false) as the last to get keyboard focus. */
    | LastKeyboardFocusDevice(isThis: bool)
    | WindowActivated(target: Option<WindowId>)
    | TouchEvent(points: seq<TouchPoint>)
    | TouchExtensionCanceled
    | TouchCancelEvent

  /** The events a pointer-focus change hands out: a leave for the old focus, then an enter for the new one. */
  function FocusChange(from: Option<WindowId>, to: Option<WindowId>): (evs: seq<InputEvent>)
    ensures |evs| == (if from.Some? then 1 else 0) + (if to.Some? then 1 else 0)
    ensures forall i :: 0 <= i < |evs| ==> evs[i].LeaveEvent? || evs[i].EnterEvent?
    ensures from.Some? ==> evs[0] == LeaveEvent(from.value)
    ensures to.Some? ==> evs[|evs| - 1] == EnterEvent(to.value)
  {
    (if from.Some? then [LeaveEvent(from.value)] else []) + (if to.Some? then [EnterEvent(to.value)] else [])
  }

  /** The events of a whole run of pointer-focus changes starting from `focus`. */
  function FocusTrace(focus: Option<WindowId>, targets: seq<Option<WindowId>>): seq<InputEvent>
    decreases |targets|
  {
    if targets == [] then [] else FocusChange(focus, targets[0]) + FocusTrace(targets[0], targets[1..])
  }

  /**
   * A well-bracketed run of enter and leave events starting with `focus`
   * focused: every leave names the window that has focus, and every enter
   * comes when no window has it.
   */
  ghost predicate Bracketed(evs: seq<InputEvent>, focus: Option<WindowId>)
    decreases |evs|
  {
    evs == [] ||
    match evs[0]
    case LeaveEvent(w) => focus == Some(w) && Bracketed(evs[1..], None)
    case EnterEvent(w) => focus == None && Bracketed(evs[1..], Some(w))
    case _ => false
  }

  lemma FocusChangeBracketed(from: Option<WindowId>, to: Option<WindowId>, rest: seq<InputEvent>)
    requires Bracketed(rest, to)
    ensures Bracketed(FocusChange(from, to) + rest, from)
  {
    var enter := if to.Some? then [EnterEvent(to.value)] else [];
    assert Bracketed(enter + rest, None) by {
      if to.Some? {
        assert (enter + rest)[1..] == rest;
      } else {
        assert enter + rest == rest;
      }
    }
    if from.Some? {
      assert FocusChange(from, to) + rest == [LeaveEvent(from.value)] + (enter + rest);
      assert ([LeaveEvent(from.value)] + (enter + rest))[1..] == enter + rest;
    } else {
      assert FocusChange(from, to) + rest == enter + rest;
    }
  }

  /** Any run of pointer-focus changes, including through no focus, emits leave before enter and never two enters in a row. */
  lemma {:induction false} FocusTraceBracketed(focus: Option<WindowId>, targets: seq<Option<WindowId>>)
    ensures Bracketed(FocusTrace(focus, targets), focus)
    decreases |targets|
  {
    if targets != [] {
      FocusTraceBracketed(targets[0], targets[1..]);
      FocusChangeBracketed(focus, targets[0], FocusTrace(targets[0], targets[1..]));
    }
  }

  // ---------------------------------------------------------------------------
  // Touch points
  // ---------------------------------------------------------------------------

  /** The 8x8 area QRectF(0, 0, 8, 8) moved so that its centre is `center`. */
  function AreaAround(center: Point): (r: Rect)
    ensures r.width == 8 && r.height == 8
    ensures r.x + r.width / 2 == center.x && r.y + r.height / 2 == center.y
  {
    Rect(center.x - 4, center.y - 4, 8, 8)
  }

  predicate HasId(s: seq<TouchPoint>, id: int) {
    exists i :: 0 <= i < |s| && s[i].id == id
  }

  /** The index of the first point of `s` with this id. */
  function FirstIndex(s: seq<TouchPoint>, id: int): (k: nat)
    requires HasId(s, id)
    ensures k < |s| && s[k].id == id
    ensures forall j :: 0 <= j < k ==> s[j].id != id
    decreases |s|
  {
    if s[0].id == id then 0
    else
      assert HasId(s[1..], id) by {
        var i :| 0 <= i < |s| && s[i].id == id;
        assert s[1..][i - 1] == s[i];
      }
      1 + FirstIndex(s[1..], id)
  }

  /** The window a touch position is mapped through: touch focus, else pointer focus, else keyboard focus. */
  function TouchWindow(touch: Option<WindowId>, pointer: Option<WindowId>, keyboard: Option<WindowId>): (w: Option<WindowId>)
    ensures w.None? <==> touch.None? && pointer.None? && keyboard.None?
    ensures w.Some? ==> w == touch || (touch.None? && (w == pointer || (pointer.None? && w == keyboard)))
  {
    if touch.Some? then touch else if pointer.Some? then pointer else keyboard
  }

  /**
   * The point handleTouchPoint appends, or None when it bails out. A released
   * point reuses the area of the first previous-frame point with its id;
   * otherwise the position (x, y), relative to the window `target`, is mapped
   * to the screen, which needs a window with a platform window.
   */
  function NewTouchPoint(prev: seq<TouchPoint>, target: Option<WindowId>, hasWindow: WindowId -> bool,
                         toGlobal: (WindowId, Point) -> Point, id: int, x: int, y: int, state: TouchState): (r: Option<TouchPoint>)
    ensures r.None? <==> !(state == TouchPointReleased && HasId(prev, id)) && (target.None? || !hasWindow(target.value))
    ensures r.Some? ==> r.value.id == id && r.value.state == state && (r.value.pressure == 0 <==> state == TouchPointReleased)
    ensures r.Some? && state == TouchPointReleased && HasId(prev, id) ==>
              r.value.area == prev[FirstIndex(prev, id)].area
    ensures r.Some? && !(state == TouchPointReleased && HasId(prev, id)) ==>
              r.value.area == AreaAround(toGlobal(target.value, Point(x, y)))
  {
    var pressure := if state == TouchPointReleased then 0 else 1;
    if state == TouchPointReleased && HasId(prev, id) then
      var k := FirstIndex(prev, id);
      assert prev[k].id == id;
      Some(TouchPoint(id, prev[k].area, state, pressure))
    else if target.None? || !hasWindow(target.value) then
      None
    else
      Some(TouchPoint(id, AreaAround(toGlobal(target.value, Point(x, y))), state, pressure))
  }

  /** A released point with no previous-frame record (a down and an up in the same frame) is placed at the window's mapped origin. */
  lemma ReleaseWithoutHistory(prev: seq<TouchPoint>, target: Option<WindowId>, hasWindow: WindowId -> bool,
                              toGlobal: (WindowId, Point) -> Point, id: int)
    requires !HasId(prev, id) && target.Some? && hasWindow(target.value)
    ensures NewTouchPoint(prev, target, hasWindow, toGlobal, id, 0, 0, TouchPointReleased)
         == Some(TouchPoint(id, AreaAround(toGlobal(target.value, Origin)), TouchPointReleased, 0))
  {
  }

  /** A previous-frame point carried into the current frame. */
  function AsStationary(p: TouchPoint): (q: TouchPoint)
    ensures q.state == TouchPointStationary
    ensures q.id == p.id && q.area == p.area && q.pressure == p.pressure
  {
    p.(state := TouchPointStationary)
  }

  /** One step of the carry loop: keep `p` as stationary unless it was released or its id is already present. */
  function CarryStep(acc: seq<TouchPoint>, p: TouchPoint): (r: seq<TouchPoint>)
    ensures r == acc || r == acc + [AsStationary(p)]
    ensures r != acc <==> p.state != TouchPointReleased && !HasId(acc, p.id)
  {
    if p.state != TouchPointReleased && !HasId(acc, p.id) then acc + [AsStationary(p)] else acc
  }

  /**
   * The current frame's points after the previous frame's points have been
   * carried forward, in order. Carrying forward only appends, at most one
   * point per previous point: the current points come first, unchanged.
   */
  function Merged(acc: seq<TouchPoint>, prev: seq<TouchPoint>): (r: seq<TouchPoint>)
    ensures |acc| <= |r| <= |acc| + |prev|
    ensures forall i :: 0 <= i < |acc| ==> r[i] == acc[i]
    decreases |prev|
  {
    if prev == [] then acc
    else
      var acc' := CarryStep(acc, prev[0]);
      assert forall i :: 0 <= i < |acc| ==> acc'[i] == acc[i];
      Merged(acc', prev[1..])
  }

  lemma HasIdPrefix(a: seq<TouchPoint>, b: seq<TouchPoint>, id: int)
    requires |a| <= |b| && (forall i :: 0 <= i < |a| ==> b[i] == a[i])
    ensures HasId(a, id) ==> HasId(b, id)
  {
    if HasId(a, id) {
      var i :| 0 <= i < |a| && a[i].id == id;
      assert b[i].id == id;
    }
  }

  /** Everything added is a stationary copy of a previous point that was not released and whose id the current points lack. */
  lemma {:induction false} MergedCarried(acc: seq<TouchPoint>, prev: seq<TouchPoint>, i: nat)
    requires |acc| <= i < |Merged(acc, prev)|
    ensures exists k :: 0 <= k < |prev| && prev[k].state != TouchPointReleased && !HasId(acc, prev[k].id)
                        && Merged(acc, prev)[i] == AsStationary(prev[k])
    decreases |prev|
  {
    var acc' := CarryStep(acc, prev[0]);
    if i < |acc'| {
      assert prev[0].state != TouchPointReleased && !HasId(acc, prev[0].id);
      assert Merged(acc, prev)[i] == acc'[i] == AsStationary(prev[0]);
    } else {
      MergedCarried(acc', prev[1..], i);
      var k :| 0 <= k < |prev[1..]| && prev[1..][k].state != TouchPointReleased && !HasId(acc', prev[1..][k].id)
               && Merged(acc', prev[1..])[i] == AsStationary(prev[1..][k]);
      assert prev[k + 1] == prev[1..][k];
      HasIdPrefix(acc, acc', prev[k + 1].id);
    }
  }

  /** Every previous point that was not released has its id in the merged list. */
  lemma {:induction false} MergedCovers(acc: seq<TouchPoint>, prev: seq<TouchPoint>, k: nat)
    requires k < |prev| && prev[k].state != TouchPointReleased
    ensures HasId(Merged(acc, prev), prev[k].id)
    decreases |prev|
  {
    var acc' := CarryStep(acc, prev[0]);
    if k == 0 {
      if !HasId(acc, prev[0].id) {
        assert acc'[|acc|].id == prev[0].id;
      }
      HasIdPrefix(acc', Merged(acc, prev), prev[0].id);
    } else {
      assert prev[1..][k - 1] == prev[k];
      MergedCovers(acc', prev[1..], k - 1);
    }
  }

  /** No two points share an id. */
  predicate DistinctIds(s: seq<TouchPoint>) {
    forall i, j :: 0 <= i < j < |s| ==> s[i].id != s[j].id
  }

  /**
   * A previous point that was not released, whose id the current points lack
   * and which is the first live record of its id in the previous frame, is
   * delivered as a stationary copy with its area unchanged. Earlier records
   * with the same id must all be releases; a later live duplicate is not
   * carried (see `CarryFirstLiveRecord`).
   */
  lemma {:induction false} MergedStationary(acc: seq<TouchPoint>, prev: seq<TouchPoint>, k: nat)
    requires k < |prev| && prev[k].state != TouchPointReleased && !HasId(acc, prev[k].id)
    requires forall j :: 0 <= j < k && prev[j].id == prev[k].id ==> prev[j].state == TouchPointReleased
    ensures AsStationary(prev[k]) in Merged(acc, prev)
    decreases |prev|
  {
    var acc' := CarryStep(acc, prev[0]);
    if k == 0 {
      assert acc'[|acc|] == AsStationary(prev[0]);
      assert Merged(acc, prev)[|acc|] == acc'[|acc|];
    } else {
      assert prev[1..][k - 1] == prev[k];
      assert !HasId(acc', prev[k].id) by {
        if acc' != acc {
          assert acc' == acc + [AsStationary(prev[0])];
          assert prev[0].id != prev[k].id;
          forall i | 0 <= i < |acc'| ensures acc'[i].id != prev[k].id {
            if i < |acc| {
              assert acc'[i] == acc[i];
            }
          }
        }
      }
      forall j | 0 <= j < k - 1 && prev[1..][j].id == prev[1..][k - 1].id
        ensures prev[1..][j].state == TouchPointReleased
      {
        assert prev[1..][j] == prev[j + 1];
      }
      MergedStationary(acc', prev[1..], k - 1);
    }
  }

  /**
   * A down and a motion of one id in the same frame leave two live records;
   * when the next frame lacks the id, only the first (the down position) is
   * carried forward and the moved one is dropped.
   */
  lemma CarryFirstLiveRecord(id: int, down: Rect, moved: Rect)
    requires down != moved
    ensures var prev := [TouchPoint(id, down, TouchPointPressed, 1), TouchPoint(id, moved, TouchPointMoved, 1)];
            Merged([], prev) == [AsStationary(prev[0])] && AsStationary(prev[1]) !in Merged([], prev)
  {
    var prev := [TouchPoint(id, down, TouchPointPressed, 1), TouchPoint(id, moved, TouchPointMoved, 1)];
    var acc := CarryStep([], prev[0]);
    assert acc == [AsStationary(prev[0])];
    assert HasId(acc, id) by { assert acc[0].id == id; }
    assert CarryStep(acc, prev[1]) == acc;
    assert prev[1..] == [prev[1]];
    assert Merged(acc, prev[1..]) == Merged(CarryStep(acc, prev[1]), []);
  }

  /** Carrying forward never duplicates an id the current points kept distinct. */
  lemma {:induction false} MergedDistinct(acc: seq<TouchPoint>, prev: seq<TouchPoint>)
    requires DistinctIds(acc)
    ensures DistinctIds(Merged(acc, prev))
    decreases |prev|
  {
    if prev != [] {
      var acc' := CarryStep(acc, prev[0]);
      assert DistinctIds(acc') by {
        if acc' != acc {
          forall i, j | 0 <= i < j < |acc'| ensures acc'[i].id != acc'[j].id {
            if j == |acc| {
              assert acc'[i] == acc[i];
            }
          }
        }
      }
      MergedDistinct(acc', prev[1..]);
    }
  }

  predicate AllReleased(s: seq<TouchPoint>) {
    forall i :: 0 <= i < |s| ==> s[i].state == TouchPointReleased
  }

  /** The merged list is empty exactly when there are no current points and every previous point was released. */
  lemma MergedEmpty(acc: seq<TouchPoint>, prev: seq<TouchPoint>)
    ensures Merged(acc, prev) == [] <==> acc == [] && AllReleased(prev)
  {
    if acc == [] && AllReleased(prev) && Merged(acc, prev) != [] {
      MergedCarried(acc, prev, 0);
    }
    if Merged(acc, prev) == [] && !AllReleased(prev) {
      var k :| 0 <= k < |prev| && prev[k].state != TouchPointReleased;
      MergedCovers(acc, prev, k);
    }
  }

  // ---------------------------------------------------------------------------
  // The device
  // ---------------------------------------------------------------------------

  class InputDevice {
    var pointerFocus: Option<WindowId>
    var keyboardFocus: Option<WindowId>
    var touchFocus: Option<WindowId>
    var buttons: set<MouseButton>
    var modifiers: set<Modifier>
    var surfacePos: Point
    var globalPos: Point
    var time: nat
    var touchPoints: seq<TouchPoint>
    var prevTouchPoints: seq<TouchPoint>
    var log: seq<InputEvent>

    /** The compiled keymap. */
    const keymap: Keymap
    /** QWindow::mapToGlobal of a window's top-level QWindow. */
    const mapToGlobal: (WindowId, Point) -> Point
    /** Whether a window still has its QWindow (window() is non-null). */
    const hasWindow: WindowId -> bool
    /** Whether the display offers the touch extension. */
    const hasTouchExtension: bool

    /** A fresh device: nothing focused and no button down. The modifier mask and the time are left unset, as the device leaves them. */
    constructor (km: Keymap, toGlobal: (WindowId, Point) -> Point, hasWin: WindowId -> bool, touchExtension: bool)
      ensures keymap == km && mapToGlobal == toGlobal && hasWindow == hasWin && hasTouchExtension == touchExtension
      ensures pointerFocus == None && keyboardFocus == None && touchFocus == None && buttons == {}
      ensures surfacePos == Origin && globalPos == Origin
      ensures touchPoints == [] && prevTouchPoints == [] && log == []
    {
      keymap := km;
      mapToGlobal := toGlobal;
      hasWindow := hasWin;
      hasTouchExtension := touchExtension;
      pointerFocus := None;
      keyboardFocus := None;
      touchFocus := None;
      buttons := {};
      surfacePos := Origin;
      globalPos := Origin;
      touchPoints := [];
      prevTouchPoints := [];
      log := [];
    }

    /** A window is gone: pointer and keyboard focus forget it; touch focus is left alone. */
    method HandleWindowDestroyed(w: WindowId)
      modifies this`pointerFocus, this`keyboardFocus
      ensures pointerFocus == (if old(pointerFocus) == Some(w) then None else old(pointerFocus))
      ensures keyboardFocus == (if old(keyboardFocus) == Some(w) then None else old(keyboardFocus))
      ensures pointerFocus != Some(w) && keyboardFocus != Some(w)
    {
      if pointerFocus == Some(w) {
        pointerFocus := None;
      }
      if keyboardFocus == Some(w) {
        keyboardFocus := None;
      }
    }

    /** Pointer motion to global (x, y), surface-relative (sx, sy); dropped without pointer focus. */
    method Motion(t: nat, x: int, y: int, sx: int, sy: int)
      modifies this`surfacePos, this`globalPos, this`time, this`log
      ensures pointerFocus.None? ==>
        surfacePos == old(surfacePos) && globalPos == old(globalPos) && time == old(time) && log == old(log)
      ensures pointerFocus.Some? ==>
        && surfacePos == Point(sx, sy) && globalPos == Point(x, y) && time == t
        && log == old(log) + [MouseEvent(pointerFocus.value, t, Point(sx, sy), Point(x, y), buttons)]
    {
      if pointerFocus.None? {
        return;
      }
      surfacePos := Point(sx, sy);
      globalPos := Point(x, y);
      time := t;
      log := log + [MouseEvent(pointerFocus.value, t, surfacePos, globalPos, buttons)];
    }

    /** A button press (state != 0) or release; dropped without pointer focus or for an unknown code. */
    method Button(t: nat, code: nat, state: nat)
      modifies this`buttons, this`time, this`log
      ensures pointerFocus.None? || ButtonFor(code).None? ==>
        buttons == old(buttons) && time == old(time) && log == old(log)
      ensures pointerFocus.Some? && ButtonFor(code).Some? ==>
        && buttons == ApplyButton(old(buttons), ButtonFor(code).value, state != 0)
        && time == t
        && log == old(log) + [MouseEvent(pointerFocus.value, t, surfacePos, globalPos, buttons)]
    {
      if pointerFocus.None? {
        return;
      }
      var b := ButtonFor(code);
      if b.None? {
        return;
      }
      buttons := ApplyButton(buttons, b.value, state != 0);
      time := t;
      log := log + [MouseEvent(pointerFocus.value, t, surfacePos, globalPos, buttons)];
    }

    /**
     * A key press (state != 0) or release of evdev key `key`: the key's
     * modifiers are set or cleared, and the key event carries the translated
     * keysym at the shift level the modifiers before the event select.
     * Dropped without keyboard focus.
     */
    method Key(t: nat, key: nat, state: nat)
      modifies this`modifiers, this`log
      ensures keyboardFocus.None? ==> modifiers == old(modifiers) && log == old(log)
      ensures keyboardFocus.Some? ==>
        var code := key + keymap.minKeyCode;
        var tr := TranslateKey(keymap.symEntry(code, KeyLevel(keymap, code, old(modifiers))));
        && modifiers == (if state != 0 then old(modifiers) + KeyModifiers(keymap, key) else old(modifiers) - KeyModifiers(keymap, key))
        && log == old(log) + [KeyEvent(keyboardFocus.value, t, state != 0, tr.key, modifiers, tr.text)]
    {
      if keyboardFocus.None? {
        return;
      }
      var code := key + keymap.minKeyCode;
      var level := KeyLevel(keymap, code, modifiers);
      var sym := keymap.symEntry(code, level);
      var mods := KeyModifiers(keymap, key);
      if state != 0 {
        modifiers := modifiers + mods;
      } else {
        modifiers := modifiers - mods;
      }
      var tr := TranslateKey(sym);
      log := log + [KeyEvent(keyboardFocus.value, t, state != 0, tr.key, modifiers, tr.text)];
    }

    /** Pointer focus moves to `surface`'s window (or to none): leave the old focus, then enter the new one. */
    method PointerFocus(t: nat, surface: Option<WindowId>)
      modifies this`pointerFocus, this`time, this`log
      ensures pointerFocus == surface && time == t
      ensures log == old(log) + FocusChange(old(pointerFocus), surface)
    {
      var leave: seq<InputEvent> := [];
      if pointerFocus.Some? {
        leave := [LeaveEvent(pointerFocus.value)];
        log := log + leave;
        pointerFocus := None;
      }
      var enter: seq<InputEvent> := [];
      if surface.Some? {
        enter := [EnterEvent(surface.value)];
        log := log + enter;
        pointerFocus := surface;
      }
      time := t;
      assert log == old(log) + leave + enter;
    }

    /** Keyboard focus moves to `surface`'s window (or none); the modifier mask is rebuilt from the held `keys`. */
    method KeyboardFocus(t: nat, surface: Option<WindowId>, keys: seq<nat>)
      modifies this`modifiers, this`keyboardFocus, this`log
      ensures modifiers == HeldModifiers(keymap, keys)
      ensures keyboardFocus == surface
      ensures log == old(log) + [LastKeyboardFocusDevice(surface.Some?), WindowActivated(surface)]
    {
      modifiers := {};
      var rest := keys;
      while rest != []
        modifies this`modifiers
        invariant OrModifiers(modifiers, keymap, rest) == HeldModifiers(keymap, keys)
        decreases |rest|
      {
        modifiers := modifiers + KeyModifiers(keymap, rest[0]);
        rest := rest[1..];
      }
      keyboardFocus := surface;
      log := log + [LastKeyboardFocusDevice(surface.Some?), WindowActivated(surface)];
    }

    /** Whether some point of `s` has this id, by the device's linear search. */
    method FindId(s: seq<TouchPoint>, id: int) returns (found: bool)
      ensures found <==> HasId(s, id)
    {
      var j := 0;
      while j < |s|
        invariant 0 <= j <= |s|
        invariant forall i :: 0 <= i < j ==> s[i].id != id
      {
        if s[j].id == id {
          return true;
        }
        j := j + 1;
      }
      return false;
    }

    /** The first index of a point with this id, or None. */
    method FindFirst(s: seq<TouchPoint>, id: int) returns (k: Option<nat>)
      ensures k.Some? <==> HasId(s, id)
      ensures k.Some? ==> k.value == FirstIndex(s, id)
    {
      var j := 0;
      while j < |s|
        invariant 0 <= j <= |s|
        invariant forall i :: 0 <= i < j ==> s[i].id != id
      {
        if s[j].id == id {
          return Some(j);
        }
        j := j + 1;
      }
      return None;
    }

    /** handleTouchPoint: append the point for this id, position and state, unless no window can place it. */
    method HandleTouchPoint(id: int, x: int, y: int, state: TouchState)
      modifies this`touchPoints
      ensures var r := NewTouchPoint(prevTouchPoints, TouchWindow(touchFocus, pointerFocus, keyboardFocus),
                                     hasWindow, mapToGlobal, id, x, y, state);
              touchPoints == old(touchPoints) + (if r.Some? then [r.value] else [])
    {
      var area: Rect := AreaAround(Origin);
      var coordsOk := false;
      if state == TouchPointReleased {
        var k := FindFirst(prevTouchPoints, id);
        if k.Some? {
          area := prevTouchPoints[k.value].area;
          coordsOk := true;
        }
      }
      if !coordsOk {
        var win := TouchWindow(touchFocus, pointerFocus, keyboardFocus);
        if win.None? || !hasWindow(win.value) {
          return;
        }
        area := AreaAround(mapToGlobal(win.value, Point(x, y)));
      }
      var pressure := if state == TouchPointReleased then 0 else 1;
      touchPoints := touchPoints + [TouchPoint(id, area, state, pressure)];
    }

    method TouchDown(t: nat, surface: WindowId, id: int, x: int, y: int)
      modifies this`touchFocus, this`touchPoints
      ensures touchFocus == Some(surface)
      ensures var r := NewTouchPoint(prevTouchPoints, Some(surface), hasWindow, mapToGlobal, id, x, y, TouchPointPressed);
              touchPoints == old(touchPoints) + (if r.Some? then [r.value] else [])
    {
      touchFocus := Some(surface);
      HandleTouchPoint(id, x, y, TouchPointPressed);
    }

    /** A touch-up clears touch focus first, so a point with no history is placed through pointer or keyboard focus. */
    method TouchUp(t: nat, id: int)
      modifies this`touchFocus, this`touchPoints
      ensures touchFocus == None
      ensures var r := NewTouchPoint(prevTouchPoints, TouchWindow(None, pointerFocus, keyboardFocus),
                                     hasWindow, mapToGlobal, id, 0, 0, TouchPointReleased);
              touchPoints == old(touchPoints) + (if r.Some? then [r.value] else [])
    {
      touchFocus := None;
      HandleTouchPoint(id, 0, 0, TouchPointReleased);
    }

    method TouchMotion(t: nat, id: int, x: int, y: int)
      modifies this`touchPoints
      ensures var r := NewTouchPoint(prevTouchPoints, TouchWindow(touchFocus, pointerFocus, keyboardFocus),
                                     hasWindow, mapToGlobal, id, x, y, TouchPointMoved);
              touchPoints == old(touchPoints) + (if r.Some? then [r.value] else [])
    {
      HandleTouchPoint(id, x, y, TouchPointMoved);
    }

    /** The carry loop of handleTouchFrame. */
    method CarryForward()
      modifies this`touchPoints
      ensures touchPoints == Merged(old(touchPoints), prevTouchPoints)
    {
      var rest := prevTouchPoints;
      while rest != []
        invariant Merged(touchPoints, rest) == Merged(old(touchPoints), prevTouchPoints)
        decreases |rest|
      {
        var p := rest[0];
        if p.state != TouchPointReleased {
          var found := FindId(touchPoints, p.id);
          if !found {
            touchPoints := touchPoints + [AsStationary(p)];
          }
        }
        rest := rest[1..];
      }
    }

    /** Whether every point of `s` is released, by the device's linear scan. */
    method AllReleasedIn(s: seq<TouchPoint>) returns (all: bool)
      ensures all <==> AllReleased(s)
    {
      var i := 0;
      while i < |s|
        invariant 0 <= i <= |s|
        invariant forall j :: 0 <= j < i ==> s[j].state == TouchPointReleased
      {
        if s[i].state != TouchPointReleased {
          return false;
        }
        i := i + 1;
      }
      return true;
    }

    /**
     * handleTouchFrame: deliver the current points with the previous frame's
     * live points carried forward; after a frame in which every point was
     * released, an extra empty event follows and the history is dropped.
     */
    method HandleTouchFrame()
      modifies this`touchPoints, this`prevTouchPoints, this`log
      ensures touchPoints == []
      ensures var m := Merged(old(touchPoints), old(prevTouchPoints));
        && (m == [] ==> prevTouchPoints == [] && log == old(log))
        && (m != [] && AllReleased(m) ==> prevTouchPoints == [] && log == old(log) + [TouchEvent(m), TouchEvent([])])
        && (m != [] && !AllReleased(m) ==> prevTouchPoints == m && log == old(log) + [TouchEvent(m)])
    {
      CarryForward();
      if touchPoints == [] {
        prevTouchPoints := [];
        return;
      }
      log := log + [TouchEvent(touchPoints)];
      var allReleased := AllReleasedIn(touchPoints);
      prevTouchPoints := touchPoints;
      touchPoints := [];
      if allReleased {
        log := log + [TouchEvent(touchPoints)];
        prevTouchPoints := [];
      }
    }

    /** Touch cancel drops both point lists, tells the touch extension if there is one, and reports the cancel. */
    method TouchCancel()
      modifies this`touchPoints, this`prevTouchPoints, this`log
      ensures touchPoints == [] && prevTouchPoints == []
      ensures log == old(log) + (if hasTouchExtension then [TouchExtensionCanceled] else []) + [TouchCancelEvent]
    {
      prevTouchPoints := [];
      touchPoints := [];
      var ext: seq<InputEvent> := [];
      if hasTouchExtension {
        ext := [TouchExtensionCanceled];
        log := log + ext;
      }
      log := log + [TouchCancelEvent];
      assert log == old(log) + ext + [TouchCancelEvent];
    }
  }
}

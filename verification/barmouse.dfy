/**
 * The bar-on-mouse helper: i3bar is configured to show while Num Lock is
 * held, and this helper fakes Num Lock presses to show the bar when the
 * pointer reaches the screen edge or Alt+Shift+arrow switches workspaces,
 * and to hide it again when the pointer leaves the bar's safe area or the
 * modifiers are released.
 *
 * The X RECORD context that delivers the events, the parsing of the raw
 * reply into events and the XTEST calls are left out: the events arrive as
 * a sequence and the faked key events are returned as a sequence.
 */
module BarMouse {

  /** The bar position setting; the helper ships with "bottom". */
  const BarPosition: string := "bottom"

  /** How many bar heights the safe area spans, as a fraction 5/2. */
  const SafeAreaNumerator: nat := 5
  const SafeAreaDenominator: nat := 2

  /** Keysyms the helper resolves to keycodes at start-up. */
  const NumLockKeysym: nat := 0xff7f
  const LeftKeysym: nat := 0xff51
  const RightKeysym: nat := 0xff53
  const AltLKeysym: nat := 0xffe9
  const ShiftLKeysym: nat := 0xffe1

  /** X11 core event codes. */
  const KeyPress: nat := 2
  const KeyRelease: nat := 3
  const MotionNotify: nat := 6

  /** X11 modifier bits: Shift and Mod1 (Alt). */
  const ShiftMask: bv16 := 1
  const Mod1Mask: bv16 := 8
  const ModifierMask: bv16 := Mod1Mask | ShiftMask

  /** Both Alt and Shift are among the held modifiers. */
  predicate AltShiftHeld(state: bv16)
  {
    state & Mod1Mask != 0 && state & ShiftMask != 0
  }

  /** The two mask tests of the handler say "both held" and "not both held". */
  lemma ModifierTests(state: bv16)
    ensures (state & ModifierMask == ModifierMask) <==> AltShiftHeld(state)
    ensures (state & ModifierMask < ModifierMask) <==> !AltShiftHeld(state)
  {
  }

  /** Start-up values: where the edge row is and which rows lie beyond the safe area. */
  datatype Config = Config(position: string, barHeight: nat, barlessHeight: int, edge: int)

  /**
   * The start-up computation for a screen `screenHeight` rows high whose
   * bar is `geometryHeight` rows high: the safe area is the bar height
   * times 2.5, truncated.
   */
  function Setup(position: string, screenHeight: nat, geometryHeight: nat): (c: Config)
    ensures c.position == position
    ensures c.barHeight as real <= geometryHeight as real * 2.5 < c.barHeight as real + 1.0
    ensures c.barHeight + c.barlessHeight == screenHeight
    ensures position == "bottom" ==> c.edge == screenHeight - 1
    ensures position != "bottom" ==> c.edge == 0
  {
    var barHeight := geometryHeight * SafeAreaNumerator / SafeAreaDenominator;
    Config(position, barHeight, screenHeight - barHeight,
           if position == "bottom" then screenHeight - 1 else 0)
  }

  /** `bar_test`: the row lies beyond the safe area around the bar. */
  predicate BarTest(c: Config, y: int)
  {
    if c.position == "top" then y > c.barHeight else y < c.barlessHeight
  }

  /**
   * With the bar at the bottom, the rows beyond the safe area are those
   * more than the safe height above the bottom of the screen; with the bar
   * at the top, those below the safe height.
   */
  lemma SafeArea(screenHeight: nat, geometryHeight: nat, y: int)
    ensures var c := Setup("bottom", screenHeight, geometryHeight);
            BarTest(c, y) <==> y < screenHeight - c.barHeight
    ensures var c := Setup("top", screenHeight, geometryHeight);
            c.edge == 0 && (BarTest(c, y) <==> y > c.barHeight)
  {
  }

  /** Keycodes the display maps the keysyms to. */
  datatype Keymap = Keymap(numLock: nat, arrows: seq<nat>, modifiers: seq<nat>)

  /** The fields of a recorded device event the handler reads. */
  datatype Event = Event(kind: nat, state: bv16, detail: nat, rootY: int)

  /** A key event faked through XTEST. */
  datatype FakeKey = FakeKey(kind: nat, keycode: nat)

  /** `send_numlock`: a press and a release of Num Lock. */
  function NumLockPulse(k: Keymap): (sent: seq<FakeKey>)
    ensures |sent| == 2
    ensures sent[0] == FakeKey(KeyPress, k.numLock) && sent[1] == FakeKey(KeyRelease, k.numLock)
  {
    [FakeKey(KeyPress, k.numLock), FakeKey(KeyRelease, k.numLock)]
  }

  /** What the handler does on a key press: show a hidden bar on Alt+Shift+arrow. */
  predicate ShowsOnKey(k: Keymap, visible: bool, e: Event)
  {
    !visible && e.kind == KeyPress && AltShiftHeld(e.state) && e.detail in k.arrows
  }

  /**
   * What it does on a key release: hide a visible bar when Alt or Shift is
   * let go and the pointer is beyond the safe area.
   */
  predicate HidesOnKey(c: Config, k: Keymap, visible: bool, e: Event)
  {
    visible && e.kind == KeyRelease && !AltShiftHeld(e.state) && e.detail in k.modifiers
    && BarTest(c, e.rootY)
  }

  /**
   * The body of the handler's loop for one event: the new visibility and
   * the key events faked. Num Lock goes out exactly when the visibility
   * flips.
   */
  function Step(c: Config, k: Keymap, visible: bool, e: Event): (r: (bool, seq<FakeKey>))
    ensures r.1 == if r.0 != visible then NumLockPulse(k) else []
    ensures r.0 && !visible <==>
              ShowsOnKey(k, visible, e)
              || (!visible && e.kind == MotionNotify && e.rootY == c.edge)
    ensures !r.0 && visible <==>
              HidesOnKey(c, k, visible, e)
              || (visible && e.kind == MotionNotify && BarTest(c, e.rootY))
    ensures e.kind != KeyPress && e.kind != KeyRelease && e.kind != MotionNotify ==> r.0 == visible
  {
    ModifierTests(e.state);
    if !visible && e.kind == KeyPress && e.state & ModifierMask == ModifierMask
       && e.detail in k.arrows then
      (true, NumLockPulse(k))
    else if visible && e.kind == KeyRelease && e.state & ModifierMask < ModifierMask
       && e.detail in k.modifiers && BarTest(c, e.rootY) then
      (false, NumLockPulse(k))
    else if e.kind != MotionNotify then
      (visible, [])
    else if !visible && e.rootY == c.edge then
      (true, NumLockPulse(k))
    else if visible && BarTest(c, e.rootY) then
      (false, NumLockPulse(k))
    else
      (visible, [])
  }

  /** `handler`: the events of one recorded reply, one step after another. */
  function Handler(c: Config, k: Keymap, visible: bool, events: seq<Event>): (r: (bool, seq<FakeKey>))
    decreases |events|
  {
    if |events| == 0 then (visible, [])
    else
      var first := Step(c, k, visible, events[0]);
      var rest := Handler(c, k, first.0, events[1..]);
      (rest.0, first.1 + rest.1)
  }

  /** `n` Num Lock pulses one after the other. */
  function Pulses(k: Keymap, n: nat): (sent: seq<FakeKey>)
    ensures |sent| == 2 * n
  {
    if n == 0 then [] else NumLockPulse(k) + Pulses(k, n - 1)
  }

  /** How many times the bar's visibility flips over a reply. */
  function Flips(c: Config, k: Keymap, visible: bool, events: seq<Event>): (n: nat)
    ensures n <= |events|
    decreases |events|
  {
    if |events| == 0 then 0
    else
      var next := Step(c, k, visible, events[0]).0;
      (if next != visible then 1 else 0) + Flips(c, k, next, events[1..])
  }

  /**
   * Over a whole reply the faked keys are whole Num Lock pulses, one per
   * flip, and the bar ends visible exactly when it flipped an odd number
   * of times from where it started: the bar and i3bar's Num Lock view never
   * drift apart.
   */
  lemma {:induction false} HandlerPulses(c: Config, k: Keymap, visible: bool, events: seq<Event>)
    ensures Handler(c, k, visible, events).1 == Pulses(k, Flips(c, k, visible, events))
    ensures Handler(c, k, visible, events).0 == (visible != (Flips(c, k, visible, events) % 2 == 1))
    decreases |events|
  {
    if |events| > 0 {
      HandlerPulses(c, k, Step(c, k, visible, events[0]).0, events[1..]);
    }
  }

  /**
   * Reaching the edge shows the bar, and further motion along the edge
   * leaves it shown: the edge row lies inside the safe area whenever the
   * bar at the bottom has any height, and always for a bar at the top.
   */
  lemma EdgeKeepsBar(screenHeight: nat, geometryHeight: nat, position: string, k: Keymap, e: Event)
    requires position == "bottom" || position == "top"
    requires position == "bottom" ==> geometryHeight > 0
    requires e.kind == MotionNotify
    ensures var c := Setup(position, screenHeight, geometryHeight);
            e.rootY == c.edge ==>
              var once := Step(c, k, false, e);
              once.0 && Step(c, k, once.0, e) == (true, [])
  {
  }

  /** The settings the helper ships with. */
  lemma ShippedSetup(screenHeight: nat, geometryHeight: nat)
    ensures var c := Setup(BarPosition, screenHeight, geometryHeight);
            c.edge == screenHeight - 1
            && forall y: int {:trigger BarTest(c, y)} ::
                 BarTest(c, y) <==> y < screenHeight - geometryHeight * 5 / 2
  {
  }
}

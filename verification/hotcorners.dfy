/**
 * The hot-corners draft: a right-button release recorded from the X server
 * on the top edge, the right edge or the left edge of the screen runs the
 * command configured for that edge.
 *
 * The XCB RECORD plumbing (connection, context, polling) is left out; what
 * remains is the 32-byte event the server hands over, the filter on its
 * first two bytes, and the classification of the pointer position.
 */
module HotCorners {
  import opened Wrappers
  import opened Bytes

  /** Width, in pixels, of each clickable strip. */
  const TopThreshold: int := 2
  const RightThreshold: int := 2
  const LeftThreshold: int := 2

  /** X11 core event codes and the right mouse button. */
  const ButtonPress: byte := 4
  const ButtonRelease: byte := 5
  const RightButton: byte := 3

  /** Every X11 event is 32 bytes long. */
  const EventSize: nat := 32

  datatype Area = Top | Right | Left

  /*
   * The regions each branch of `get_area` describes, taken on their own,
   * without the order of the `if`/`elif` chain.
   */

  predicate InTop(x: int, y: int, w: int)
  {
    y <= TopThreshold && LeftThreshold < x < w - RightThreshold
  }

  predicate InRight(x: int, y: int, w: int)
  {
    x >= w - RightThreshold && y > TopThreshold
  }

  predicate InLeft(x: int, y: int, w: int)
  {
    x <= LeftThreshold && y > TopThreshold
  }

  predicate InRegion(a: Area, x: int, y: int, w: int)
  {
    match a
    case Top => InTop(x, y, w)
    case Right => InRight(x, y, w)
    case Left => InLeft(x, y, w)
  }

  /** A top-edge point that lies within the threshold of either side. */
  predicate InTopCorner(x: int, y: int, w: int)
  {
    y <= TopThreshold && (x <= LeftThreshold || x >= w - RightThreshold)
  }

  /**
   * `get_area`: which strip of a screen `w` pixels wide the point is in.
   * The top strip stops short of both corners; the side strips start
   * below the top strip.
   */
  function GetArea(x: nat, y: nat, w: nat): (r: Option<Area>)
    ensures r.Some? ==> InRegion(r.value, x, y, w)
    ensures r.None? <==> forall a: Area :: !InRegion(a, x, y, w)
    ensures y <= TopThreshold ==> r != Some(Right) && r != Some(Left)
    ensures y > TopThreshold ==> r != Some(Top)
    ensures InTopCorner(x, y, w) ==> r.None?
    ensures w > LeftThreshold + RightThreshold ==>
              forall a: Area :: r == Some(a) <==> InRegion(a, x, y, w)
  {
    if y <= TopThreshold && x > LeftThreshold && x < w - RightThreshold then
      assert InRegion(Top, x, y, w); Some(Top)
    else if x >= w - RightThreshold && y > TopThreshold then
      assert InRegion(Right, x, y, w); Some(Right)
    else if x <= LeftThreshold && y > TopThreshold then
      assert InRegion(Left, x, y, w); Some(Left)
    else None
  }

  /** On a screen wider than both side strips the three regions do not overlap. */
  lemma RegionsDisjoint(x: int, y: int, w: int, a: Area, b: Area)
    requires w > LeftThreshold + RightThreshold
    requires InRegion(a, x, y, w) && InRegion(b, x, y, w)
    ensures a == b
  {
  }

  /**
   * On a screen at most four pixels wide the side strips overlap, and the
   * order of the chain gives the shared points to the right edge.
   */
  lemma NarrowScreenPrefersRight(y: nat, w: nat)
    requires w <= LeftThreshold + RightThreshold && y > TopThreshold
    ensures InLeft(2, y, w) && InRight(2, y, w)
    ensures GetArea(2, y, w) == Some(Right)
  {
  }

  /** The command list configured for each area. */
  function CommandFor(a: Area): (cmd: seq<string>)
    ensures |cmd| == 2 && cmd[0] == "echo"
  {
    match a
    case Top => ["echo", "top"]
    case Right => ["echo", "right"]
    case Left => ["echo", "left"]
  }

  /** Each area has a command of its own. */
  lemma CommandsDistinct(a: Area, b: Area)
    requires CommandFor(a) == CommandFor(b)
    ensures a == b
  {
    assert CommandFor(a)[1] == CommandFor(b)[1];
  }

  /** The fields of `xcb_button_event_t`, each within its C width. */
  datatype ButtonEvent = ButtonEvent(
    responseType: byte,
    detail: byte,
    sequence: nat,
    time: nat,
    root: nat,
    event: nat,
    child: nat,
    rootX: nat,
    rootY: nat,
    eventX: nat,
    eventY: nat,
    state: nat,
    sameScreen: byte,
    pad: byte)

  predicate WellSized(e: ButtonEvent)
  {
    && e.sequence < U16Limit
    && e.time < U32Limit && e.root < U32Limit && e.event < U32Limit && e.child < U32Limit
    && e.rootX < U16Limit && e.rootY < U16Limit
    && e.eventX < U16Limit && e.eventY < U16Limit
    && e.state < U16Limit
  }

  /** The first eight bytes of any reply, `xcb_generic_reply_t`. */
  datatype GenericReply = GenericReply(responseType: byte, pad0: byte, sequence: nat, length: nat)

  /** `ctypes.cast(data, POINTER(xcb_generic_reply_t)).contents` in host order. */
  function CastGenericReply(order: ByteOrder, data: seq<byte>): (g: GenericReply)
    requires |data| >= EventSize
    ensures g.responseType == data[0] && g.pad0 == data[1]
  {
    GenericReply(data[0], data[1], DecodeU16(order, data[2..4]), DecodeU32(order, data[4..8]))
  }

  /** `ctypes.cast(data, POINTER(xcb_button_event_t)).contents` in host order. */
  function CastButtonEvent(order: ByteOrder, data: seq<byte>): (e: ButtonEvent)
    requires |data| >= EventSize
    ensures WellSized(e)
    ensures e.responseType == data[0] && e.detail == data[1]
  {
    ButtonEvent(
      data[0], data[1],
      DecodeU16(order, data[2..4]),
      DecodeU32(order, data[4..8]),
      DecodeU32(order, data[8..12]),
      DecodeU32(order, data[12..16]),
      DecodeU32(order, data[16..20]),
      DecodeU16(order, data[20..22]),
      DecodeU16(order, data[22..24]),
      DecodeU16(order, data[24..26]),
      DecodeU16(order, data[26..28]),
      DecodeU16(order, data[28..30]),
      data[30], data[31])
  }

  /** The 32 bytes the server sends for a button event, in host order. */
  function EncodeButtonEvent(order: ByteOrder, e: ButtonEvent): (data: seq<byte>)
    requires WellSized(e)
    ensures |data| == EventSize
    ensures data[0] == e.responseType && data[1] == e.detail
  {
    [e.responseType, e.detail]
    + EncodeU16(order, e.sequence)
    + EncodeU32(order, e.time)
    + EncodeU32(order, e.root)
    + EncodeU32(order, e.event)
    + EncodeU32(order, e.child)
    + EncodeU16(order, e.rootX)
    + EncodeU16(order, e.rootY)
    + EncodeU16(order, e.eventX)
    + EncodeU16(order, e.eventY)
    + EncodeU16(order, e.state)
    + [e.sameScreen, e.pad]
  }

  /** A prefix that is a known concatenation splits into its two parts. */
  lemma Peel(d: seq<byte>, p: seq<byte>, x: seq<byte>)
    requires |p| + |x| <= |d| && d[..|p| + |x|] == p + x
    ensures d[..|p|] == p && d[|p|..|p| + |x|] == x
  {
    assert d[..|p|] == d[..|p| + |x|][..|p|];
    assert d[|p|..|p| + |x|] == d[..|p| + |x|][|p|..];
  }

  /** Where each multi-byte field of an event sits in its bytes. */
  lemma EventSlices(order: ByteOrder, e: ButtonEvent)
    requires WellSized(e)
    ensures var d := EncodeButtonEvent(order, e);
            && d[2..4] == EncodeU16(order, e.sequence)
            && d[4..8] == EncodeU32(order, e.time)
            && d[8..12] == EncodeU32(order, e.root)
            && d[12..16] == EncodeU32(order, e.event)
            && d[16..20] == EncodeU32(order, e.child)
            && d[20..22] == EncodeU16(order, e.rootX)
            && d[22..24] == EncodeU16(order, e.rootY)
            && d[24..26] == EncodeU16(order, e.eventX)
            && d[26..28] == EncodeU16(order, e.eventY)
            && d[28..30] == EncodeU16(order, e.state)
  {
    var d := EncodeButtonEvent(order, e);
    var p2 := [e.responseType, e.detail];
    var p4 := p2 + EncodeU16(order, e.sequence);
    var p8 := p4 + EncodeU32(order, e.time);
    var p12 := p8 + EncodeU32(order, e.root);
    var p16 := p12 + EncodeU32(order, e.event);
    var p20 := p16 + EncodeU32(order, e.child);
    var p22 := p20 + EncodeU16(order, e.rootX);
    var p24 := p22 + EncodeU16(order, e.rootY);
    var p26 := p24 + EncodeU16(order, e.eventX);
    var p28 := p26 + EncodeU16(order, e.eventY);
    var p30 := p28 + EncodeU16(order, e.state);
    assert d == p30 + [e.sameScreen, e.pad];
    assert d[..32] == d;
    Peel(d, p30, [e.sameScreen, e.pad]);
    Peel(d, p28, EncodeU16(order, e.state));
    Peel(d, p26, EncodeU16(order, e.eventY));
    Peel(d, p24, EncodeU16(order, e.eventX));
    Peel(d, p22, EncodeU16(order, e.rootY));
    Peel(d, p20, EncodeU16(order, e.rootX));
    Peel(d, p16, EncodeU32(order, e.child));
    Peel(d, p12, EncodeU32(order, e.event));
    Peel(d, p8, EncodeU32(order, e.root));
    Peel(d, p4, EncodeU32(order, e.time));
    Peel(d, p2, EncodeU16(order, e.sequence));
  }

  /** The four 32-bit fields read back from an event's bytes. */
  lemma EncodedWords(order: ByteOrder, e: ButtonEvent)
    requires WellSized(e)
    ensures var d := EncodeButtonEvent(order, e);
            && DecodeU32(order, d[4..8]) == e.time
            && DecodeU32(order, d[8..12]) == e.root
            && DecodeU32(order, d[12..16]) == e.event
            && DecodeU32(order, d[16..20]) == e.child
  {
    EventSlices(order, e);
    DecodeEncodeU32(order, e.time);
    DecodeEncodeU32(order, e.root);
    DecodeEncodeU32(order, e.event);
    DecodeEncodeU32(order, e.child);
  }

  /** The six 16-bit fields read back from an event's bytes. */
  lemma EncodedHalfWords(order: ByteOrder, e: ButtonEvent)
    requires WellSized(e)
    ensures var d := EncodeButtonEvent(order, e);
            && DecodeU16(order, d[2..4]) == e.sequence
            && DecodeU16(order, d[20..22]) == e.rootX
            && DecodeU16(order, d[22..24]) == e.rootY
            && DecodeU16(order, d[24..26]) == e.eventX
            && DecodeU16(order, d[26..28]) == e.eventY
            && DecodeU16(order, d[28..30]) == e.state
  {
    EventSlices(order, e);
    U16RoundTrip(order, e.sequence, [0, 0]);
    U16RoundTrip(order, e.rootX, [0, 0]);
    U16RoundTrip(order, e.rootY, [0, 0]);
    U16RoundTrip(order, e.eventX, [0, 0]);
    U16RoundTrip(order, e.eventY, [0, 0]);
    U16RoundTrip(order, e.state, [0, 0]);
  }

  /** Reading back the bytes of an event gives the event. */
  lemma CastEncodedEvent(order: ByteOrder, e: ButtonEvent)
    requires WellSized(e)
    ensures CastButtonEvent(order, EncodeButtonEvent(order, e)) == e
  {
    EncodedWords(order, e);
    EncodedHalfWords(order, e);
  }

  /** The event structure covers all 32 bytes: re-encoding it gives them back. */
  lemma {:induction false} EncodeCastEvent(order: ByteOrder, data: seq<byte>)
    requires |data| >= EventSize
    ensures EncodeButtonEvent(order, CastButtonEvent(order, data)) == data[..EventSize]
  {
    var e := CastButtonEvent(order, data);
    U16RoundTrip(order, 0, data[2..4]);
    EncodeDecodeU32(order, data[4..8]);
    EncodeDecodeU32(order, data[8..12]);
    EncodeDecodeU32(order, data[12..16]);
    EncodeDecodeU32(order, data[16..20]);
    U16RoundTrip(order, 0, data[20..22]);
    U16RoundTrip(order, 0, data[22..24]);
    U16RoundTrip(order, 0, data[24..26]);
    U16RoundTrip(order, 0, data[26..28]);
    U16RoundTrip(order, 0, data[28..30]);
    var p := [e.responseType, e.detail];
    assert p == data[..2];
    p := p + EncodeU16(order, e.sequence);
    PrefixStep(data, 2, 4);
    p := p + EncodeU32(order, e.time);
    PrefixStep(data, 4, 8);
    p := p + EncodeU32(order, e.root);
    PrefixStep(data, 8, 12);
    p := p + EncodeU32(order, e.event);
    PrefixStep(data, 12, 16);
    p := p + EncodeU32(order, e.child);
    PrefixStep(data, 16, 20);
    p := p + EncodeU16(order, e.rootX);
    PrefixStep(data, 20, 22);
    p := p + EncodeU16(order, e.rootY);
    PrefixStep(data, 22, 24);
    p := p + EncodeU16(order, e.eventX);
    PrefixStep(data, 24, 26);
    p := p + EncodeU16(order, e.eventY);
    PrefixStep(data, 26, 28);
    p := p + EncodeU16(order, e.state);
    PrefixStep(data, 28, 30);
    assert p == data[..30];
    p := p + [e.sameScreen, e.pad];
    PrefixStep(data, 30, 32);
    assert p == data[..32];
  }

  /** A prefix grows by the slice that follows it. */
  lemma PrefixStep(s: seq<byte>, i: nat, j: nat)
    requires i <= j <= |s|
    ensures s[..j] == s[..i] + s[i..j]
  {
  }

  /**
   * `handle_rbm`: the command run for a button event, if the pointer is in
   * one of the three strips (each configured command list is non-empty, so
   * the truthiness tests in front of the comparisons always pass).
   */
  function HandleRbm(w: nat, e: ButtonEvent): (r: Option<seq<string>>)
    ensures r.Some? <==> exists a: Area :: InRegion(a, e.rootX, e.rootY, w)
    ensures forall a: Area :: r == Some(CommandFor(a)) ==> InRegion(a, e.rootX, e.rootY, w)
    ensures w > LeftThreshold + RightThreshold ==>
              forall a: Area :: InRegion(a, e.rootX, e.rootY, w) ==> r == Some(CommandFor(a))
  {
    var area := GetArea(e.rootX, e.rootY, w);
    if |CommandFor(Top)| > 0 && area == Some(Top) then Some(CommandFor(Top))
    else if |CommandFor(Right)| > 0 && area == Some(Right) then Some(CommandFor(Right))
    else if |CommandFor(Left)| > 0 && area == Some(Left) then Some(CommandFor(Left))
    else None
  }

  /**
   * `event_callback`: the generic reply's `pad0` byte sits where a button
   * event keeps its `detail`, so the test lets through exactly the releases
   * of button 3, which are then handled as button events.
   */
  function EventCallback(order: ByteOrder, w: nat, data: seq<byte>): (r: Option<seq<string>>)
    requires |data| >= EventSize
    ensures var e := CastButtonEvent(order, data);
            r.Some? ==> e.responseType == ButtonRelease && e.detail == RightButton
    ensures var e := CastButtonEvent(order, data);
            e.responseType == ButtonRelease && e.detail == RightButton ==> r == HandleRbm(w, e)
  {
    var response := CastGenericReply(order, data);
    if response.responseType == ButtonRelease && response.pad0 == RightButton then
      HandleRbm(w, CastButtonEvent(order, data))
    else None
  }

  /**
   * Only a release of the right button, on one of the strips, runs a
   * command; a press, a release of another button or another event never does.
   */
  lemma OnlyRightReleaseRuns(order: ByteOrder, w: nat, e: ButtonEvent)
    requires WellSized(e)
    ensures var r := EventCallback(order, w, EncodeButtonEvent(order, e));
            r.Some? <==>
              e.responseType == ButtonRelease && e.detail == RightButton
              && exists a: Area :: InRegion(a, e.rootX, e.rootY, w)
  {
    CastEncodedEvent(order, e);
  }

  /** A button press, of any button anywhere, never runs a command. */
  lemma PressIsIgnored(order: ByteOrder, w: nat, e: ButtonEvent)
    requires WellSized(e) && e.responseType == ButtonPress
    ensures EventCallback(order, w, EncodeButtonEvent(order, e)).None?
  {
  }
}

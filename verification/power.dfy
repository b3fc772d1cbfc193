/**
 * The power applet (pm_applet/core.py and pm_applet/app_qt5.py): the
 * backlight brightness written to sysfs, the UPower device type and state
 * tables, the battery tray icon, the sorting of UPower devices into battery,
 * line power and the rest, and the device entries of the menu.
 *
 * D-Bus and the sysfs files are parameters: a device arrives as the raw
 * values UPower reports, and `max_brightness` as a number.
 */
module Power {
  import opened Wrappers
  import Text

  // ---------------------------------------------------------------------------
  // Brightness
  // ---------------------------------------------------------------------------

  /** `min(max(value, 0), max_brightness)` in the order `set` applies them. */
  function ClampBrightness(value: int, maxBrightness: nat): (r: nat)
    ensures r <= maxBrightness
    ensures 0 <= value <= maxBrightness ==> r == value
    ensures value < 0 ==> r == 0
    ensures value > maxBrightness ==> r == maxBrightness
  {
    var v := if value < maxBrightness then value else maxBrightness;
    if v < 0 then 0 else v
  }

  /** `Brightness.set(value)`: the text written to the `brightness` file. */
  function SetBrightness(value: int, maxBrightness: nat): (w: string)
    ensures Text.AllDigits(w) && |w| > 0
    ensures Text.ParseNat(w) <= maxBrightness
    ensures 0 <= value <= maxBrightness ==> Text.ParseNat(w) == value
    ensures value < 0 ==> Text.ParseNat(w) == 0
    ensures value > maxBrightness ==> Text.ParseNat(w) == maxBrightness
  {
    var n := ClampBrightness(value, maxBrightness);
    Text.ParseNatToString(n);
    Text.NatToString(n)
  }

  /** Python's `int(x)` on a number: truncation toward zero. */
  function Truncate(x: real): (r: int)
    ensures x >= 0.0 ==> r as real <= x < r as real + 1.0
    ensures x < 0.0 ==> r as real - 1.0 < x <= r as real
  {
    if x >= 0.0 then x.Floor else -((-x).Floor)
  }

  lemma TruncateMonotone(x: real, y: real)
    requires x <= y
    ensures Truncate(x) <= Truncate(y)
  {
  }

  lemma ScaleMonotone(m: real, a: real, b: real)
    requires m >= 0.0 && a <= b
    ensures m * a <= m * b
  {
  }

  lemma HundredthMonotone(a: real, b: real)
    requires a <= b
    ensures a / 100.0 <= b / 100.0
  {
  }

  lemma ClampMonotone(v1: int, v2: int, maxBrightness: nat)
    requires v1 <= v2
    ensures ClampBrightness(v1, maxBrightness) <= ClampBrightness(v2, maxBrightness)
  {
  }

  /** The share of the maximum brightness a percentage asks for. */
  function Share(percent: real, maxBrightness: nat): real
  {
    maxBrightness as real * percent / 100.0
  }

  lemma ShareMonotone(p1: real, p2: real, maxBrightness: nat)
    requires p1 <= p2
    ensures Share(p1, maxBrightness) <= Share(p2, maxBrightness)
  {
    var m := maxBrightness as real;
    ScaleMonotone(m, p1, p2);
    HundredthMonotone(m * p1, m * p2);
  }

  /** The brightness `set_percent(percent)` settles on. */
  function PercentValue(percent: real, maxBrightness: nat): nat
  {
    ClampBrightness(Truncate(Share(percent, maxBrightness)), maxBrightness)
  }

  /** `set_percent(percent)`: the text written to the `brightness` file. */
  function SetPercent(percent: real, maxBrightness: nat): (w: string)
    ensures Text.AllDigits(w)
    ensures Text.ParseNat(w) == PercentValue(percent, maxBrightness)
  {
    SetBrightness(Truncate(Share(percent, maxBrightness)), maxBrightness)
  }

  /** Zero percent or less is dark; a hundred or more is full brightness. */
  lemma PercentEnds(percent: real, maxBrightness: nat)
    ensures percent <= 0.0 ==> PercentValue(percent, maxBrightness) == 0
    ensures percent >= 100.0 ==> PercentValue(percent, maxBrightness) == maxBrightness
  {
    var m := maxBrightness as real;
    if percent <= 0.0 {
      ScaleMonotone(m, percent, 0.0);
    }
    if percent >= 100.0 {
      ScaleMonotone(m, 100.0, percent);
    }
  }

  /** In between, the brightness is the share of the maximum rounded down. */
  lemma PercentBetween(percent: real, maxBrightness: nat)
    requires 0.0 <= percent <= 100.0
    ensures PercentValue(percent, maxBrightness) as real <= maxBrightness as real * percent / 100.0
      < PercentValue(percent, maxBrightness) as real + 1.0
  {
    var m := maxBrightness as real;
    var x := Share(percent, maxBrightness);
    ShareMonotone(0.0, percent, maxBrightness);
    ShareMonotone(percent, 100.0, maxBrightness);
    assert Share(0.0, maxBrightness) == 0.0 && Share(100.0, maxBrightness) == m;
    assert 0.0 <= x <= m;
    assert Truncate(x) as real <= m;
    assert 0 <= Truncate(x) <= maxBrightness;
  }

  /** A higher percentage never gives a darker backlight. */
  lemma PercentMonotone(p1: real, p2: real, maxBrightness: nat)
    requires p1 <= p2
    ensures PercentValue(p1, maxBrightness) <= PercentValue(p2, maxBrightness)
  {
    var x1, x2 := Share(p1, maxBrightness), Share(p2, maxBrightness);
    ShareMonotone(p1, p2, maxBrightness);
    TruncateMonotone(x1, x2);
    ClampMonotone(Truncate(x1), Truncate(x2), maxBrightness);
  }

  /** `current_percent`: the current brightness as a percentage of the maximum. */
  function CurrentPercent(current: int, maxBrightness: nat): real
    requires maxBrightness > 0
  {
    current as real / maxBrightness as real * 100.0
  }

  /** Setting the percentage the slider was given from `current_percent` writes the current brightness back. */
  lemma CurrentPercentRoundTrip(current: int, maxBrightness: nat)
    requires maxBrightness > 0 && 0 <= current <= maxBrightness
    ensures PercentValue(CurrentPercent(current, maxBrightness), maxBrightness) == current
  {
    var m := maxBrightness as real;
    var c := current as real;
    assert m * (c / m * 100.0) / 100.0 == c by {
      assert m * (c / m) == c;
    }
    assert Truncate(c) == current;
  }

  /** The slider's position when the menu opens: `int(current_percent)`. */
  function SliderPercent(current: int, maxBrightness: nat): (p: int)
    requires maxBrightness > 0 && 0 <= current <= maxBrightness
    ensures 0 <= p <= 100
    ensures p as real <= CurrentPercent(current, maxBrightness) < p as real + 1.0
  {
    var x := CurrentPercent(current, maxBrightness);
    assert 0.0 <= x <= 100.0 by {
      var m := maxBrightness as real;
      var c := current as real;
      assert c / m <= 1.0;
    }
    Truncate(x)
  }

  /**
   * Opening the menu puts the whole percentage on the slider, and the
   * slider sets that percentage again: the brightness written back never
   * exceeds the current one and falls short of it by less than a hundredth
   * of the maximum plus one.
   */
  lemma SliderRoundTrip(current: int, maxBrightness: nat)
    requires maxBrightness > 0 && 0 <= current <= maxBrightness
    ensures PercentValue(SliderPercent(current, maxBrightness) as real, maxBrightness) <= current
    ensures (current - PercentValue(SliderPercent(current, maxBrightness) as real, maxBrightness)) as real
      < maxBrightness as real / 100.0 + 1.0
  {
    var m := maxBrightness as real;
    var c := current as real;
    var x := CurrentPercent(current, maxBrightness);
    var p := SliderPercent(current, maxBrightness) as real;
    var w := PercentValue(p, maxBrightness);
    PercentBetween(p, maxBrightness);
    assert p <= x < p + 1.0;
    assert Share(x, maxBrightness) == c by {
      assert m * (c / m) == c;
    }
    ShareMonotone(p, x, maxBrightness);
    ShareStrict(x, p + 1.0, maxBrightness);
    ShareStep(p, maxBrightness);
    assert (current - w) as real == c - w as real;
  }

  /** A percentage one higher asks for a hundredth of the maximum more. */
  lemma ShareStep(percent: real, maxBrightness: nat)
    ensures Share(percent + 1.0, maxBrightness) == Share(percent, maxBrightness) + maxBrightness as real / 100.0
  {
    var m := maxBrightness as real;
    assert m * (percent + 1.0) == m * percent + m;
  }

  /** With a positive maximum, a higher percentage asks for strictly more. */
  lemma ShareStrict(p1: real, p2: real, maxBrightness: nat)
    requires maxBrightness > 0 && p1 < p2
    ensures Share(p1, maxBrightness) < Share(p2, maxBrightness)
  {
    var m := maxBrightness as real;
    assert m * (p2 - p1) > 0.0;
    assert m * p2 == m * p1 + m * (p2 - p1);
  }

  /** With a maximum of 1000 and a current brightness of 555, the slider writes 550 back. */
  lemma SliderRoundTripLoses()
    ensures SliderPercent(555, 1000) == 55
    ensures PercentValue(SliderPercent(555, 1000) as real, 1000) == 550
  {
    assert CurrentPercent(555, 1000) == 55.5;
    assert Truncate(55.5) == 55;
    assert Share(55.0, 1000) == 550.0;
    assert Truncate(550.0) == 550;
  }

  // ---------------------------------------------------------------------------
  // UPower tables
  // ---------------------------------------------------------------------------

  /** `UPower.DEVICE_STATE`, with `Undefined` for a code the table lacks. */
  datatype DeviceState =
    | StateUnknown | Charging | Discharging | Empty | FullyCharged | PendingCharge | PendingDischarge
    | StateUndefined

  /** `UPower.DEVICE_TYPE`, with `Undefined` for a code the table lacks. */
  datatype DeviceType =
    | TypeUnknown | LinePower | Battery | Ups | Monitor | Mouse | Keyboard | Pda | Phone | Bluetooth
    | TypeUndefined

  /** The UPower code of a state the table lists. */
  function StateCode(s: DeviceState): Option<int>
  {
    match s
    case StateUnknown => Some(0)
    case Charging => Some(1)
    case Discharging => Some(2)
    case Empty => Some(3)
    case FullyCharged => Some(4)
    case PendingCharge => Some(5)
    case PendingDischarge => Some(6)
    case StateUndefined => None
  }

  /** `DEVICE_STATE.get(code, 'Undefined')`. */
  function DecodeState(code: int): DeviceState
  {
    if code == 0 then StateUnknown
    else if code == 1 then Charging
    else if code == 2 then Discharging
    else if code == 3 then Empty
    else if code == 4 then FullyCharged
    else if code == 5 then PendingCharge
    else if code == 6 then PendingDischarge
    else StateUndefined
  }

  function StateName(s: DeviceState): string
  {
    match s
    case StateUnknown => "Unknown"
    case Charging => "Charging"
    case Discharging => "Discharging"
    case Empty => "Empty"
    case FullyCharged => "Fully charged"
    case PendingCharge => "Pending charge"
    case PendingDischarge => "Pending discharge"
    case StateUndefined => "Undefined"
  }

  /** Decoding a listed code gives its state back, and a code decodes to `Undefined` exactly when the table lacks it. */
  lemma StateTable(s: DeviceState, code: int)
    ensures StateCode(s).Some? ==> DecodeState(StateCode(s).value) == s
    ensures DecodeState(code) == StateUndefined <==> !(0 <= code <= 6)
    ensures DecodeState(code) != StateUndefined ==> StateCode(DecodeState(code)) == Some(code)
  {
  }

  function TypeCode(t: DeviceType): Option<int>
  {
    match t
    case TypeUnknown => Some(0)
    case LinePower => Some(1)
    case Battery => Some(2)
    case Ups => Some(3)
    case Monitor => Some(4)
    case Mouse => Some(5)
    case Keyboard => Some(6)
    case Pda => Some(7)
    case Phone => Some(8)
    case Bluetooth => Some(17)
    case TypeUndefined => None
  }

  /** `DEVICE_TYPE.get(code, 'Undefined')`. */
  function DecodeType(code: int): DeviceType
  {
    if code == 0 then TypeUnknown
    else if code == 1 then LinePower
    else if code == 2 then Battery
    else if code == 3 then Ups
    else if code == 4 then Monitor
    else if code == 5 then Mouse
    else if code == 6 then Keyboard
    else if code == 7 then Pda
    else if code == 8 then Phone
    else if code == 17 then Bluetooth
    else TypeUndefined
  }

  function TypeName(t: DeviceType): string
  {
    match t
    case TypeUnknown => "Unknown"
    case LinePower => "Line Power"
    case Battery => "Battery"
    case Ups => "Ups"
    case Monitor => "Monitor"
    case Mouse => "Mouse"
    case Keyboard => "Keyboard"
    case Pda => "Pda"
    case Phone => "Phone"
    case Bluetooth => "Bluetooth"
    case TypeUndefined => "Undefined"
  }

  /** Decoding a listed code gives its type back, and a code decodes to `Undefined` exactly when the table lacks it. */
  lemma TypeTable(t: DeviceType, code: int)
    ensures TypeCode(t).Some? ==> DecodeType(TypeCode(t).value) == t
    ensures DecodeType(code) == TypeUndefined <==> !(0 <= code <= 8 || code == 17)
    ensures DecodeType(code) != TypeUndefined ==> TypeCode(DecodeType(code)) == Some(code)
  {
  }

  /** The raw properties UPower reports for a device. */
  datatype RawDevice = RawDevice(typeCode: int, online: bool, percentage: int, stateCode: int, model: string, vendor: string)

  /** The result of `device_detail`. */
  datatype Detail = Detail(deviceType: DeviceType, vendor: string, model: string, online: bool, percentage: int, state: DeviceState)

  /** `device_detail`: the type and state decoded through the tables, the rest as reported. */
  function DeviceDetail(raw: RawDevice): (d: Detail)
    ensures d.deviceType == TypeUndefined <==> TypeCode(d.deviceType).None?
    ensures TypeCode(d.deviceType).Some? ==> TypeCode(d.deviceType).value == raw.typeCode
    ensures StateCode(d.state).Some? ==> StateCode(d.state).value == raw.stateCode
    ensures d.state == StateUndefined <==> !(0 <= raw.stateCode <= 6)
  {
    Detail(DecodeType(raw.typeCode), raw.vendor, raw.model, raw.online, raw.percentage, DecodeState(raw.stateCode))
  }

  // ---------------------------------------------------------------------------
  // The tray icon
  // ---------------------------------------------------------------------------

  /** `battery_icon_percentage` as the chain of comparisons it is written as. */
  function IconBucket(percent: int): nat
  {
    if percent < 10 then 0
    else if percent < 20 then 10
    else if percent < 30 then 20
    else if percent < 40 then 30
    else if percent < 50 then 40
    else if percent < 60 then 50
    else if percent < 70 then 60
    else if percent < 80 then 70
    else if percent < 90 then 80
    else if percent < 100 then 90
    else 100
  }

  /** The bucket is the percentage rounded down to a multiple of ten, cut to [0, 100]. */
  lemma IconBucketClosedForm(percent: int)
    ensures IconBucket(percent) == if percent < 0 then 0 else if percent >= 100 then 100 else percent / 10 * 10
  {
  }

  /** A fuller battery never shows an emptier icon. */
  lemma IconBucketMonotone(p1: int, p2: int)
    requires p1 <= p2
    ensures IconBucket(p1) <= IconBucket(p2)
  {
    IconBucketClosedForm(p1);
    IconBucketClosedForm(p2);
  }

  const IconPrefix: string := "battery-level-"
  const ChargingSuffix: string := "-charging"
  const IconSuffix: string := "-symbolic"

  /** `on_battery_updated`: the icon for a battery at `percentage`, charging when the line power is online. */
  function BatteryIconName(percentage: int, online: bool): string
  {
    IconPrefix + Text.NatToString(IconBucket(percentage)) + (if online then ChargingSuffix else "") + IconSuffix
  }

  /** Reads an icon name back into its bucket and charging flag. */
  function ReadIconName(name: string): Option<(nat, bool)>
  {
    if |name| < |IconPrefix| || name[..|IconPrefix|] != IconPrefix then None
    else
      var rest := name[|IconPrefix|..];
      var digits := Text.LeadingDigits(rest);
      var tail := Text.StripLeadingDigits(rest);
      if |digits| == 0 then None
      else if tail == ChargingSuffix + IconSuffix then Some((Text.ParseNat(digits), true))
      else if tail == IconSuffix then Some((Text.ParseNat(digits), false))
      else None
  }

  /** The icon name tells the bucket and whether the battery is charging. */
  lemma BatteryIconReadsBack(percentage: int, online: bool)
    ensures ReadIconName(BatteryIconName(percentage, online)) == Some((IconBucket(percentage), online))
  {
    var digits := Text.NatToString(IconBucket(percentage));
    var tail := (if online then ChargingSuffix else "") + IconSuffix;
    var name := BatteryIconName(percentage, online);
    assert name == IconPrefix + (digits + tail);
    assert name[..|IconPrefix|] == IconPrefix;
    assert name[|IconPrefix|..] == digits + tail;
    assert tail[0] == '-';
    Text.LeadingDigitsOfConcat(digits, tail);
    Text.ParseNatToString(IconBucket(percentage));
    if !online {
      assert tail != ChargingSuffix + IconSuffix by {
        assert |tail| != |ChargingSuffix + IconSuffix|;
      }
    }
  }

  // ---------------------------------------------------------------------------
  // get_devices
  // ---------------------------------------------------------------------------

  /** The result of `get_devices`: the battery, the line power and everything else. */
  datatype Devices = Devices(battery: Option<Detail>, linePower: Option<Detail>, misc: seq<Detail>)

  function MiscOf(ds: seq<Detail>): (r: seq<Detail>)
    ensures forall d :: d in r <==> d in ds && d.deviceType != Battery && d.deviceType != LinePower
  {
    if |ds| == 0 then []
    else (if ds[0].deviceType != Battery && ds[0].deviceType != LinePower then [ds[0]] else []) + MiscOf(ds[1..])
  }

  /** The last device of the given type. */
  function LastOfType(ds: seq<Detail>, t: DeviceType): (r: Option<Detail>)
    ensures r.Some? ==> r.value in ds && r.value.deviceType == t
    ensures r.None? <==> forall d :: d in ds ==> d.deviceType != t
    decreases |ds|
  {
    if |ds| == 0 then None
    else match LastOfType(ds[..|ds| - 1], t)
      case r =>
        assert forall d :: d in ds <==> d in ds[..|ds| - 1] || d == ds[|ds| - 1] by {
          assert ds == ds[..|ds| - 1] + [ds[|ds| - 1]];
        }
        if ds[|ds| - 1].deviceType == t then Some(ds[|ds| - 1]) else r
  }

  /** The loop of `get_devices` over the devices seen so far. */
  function Sort(ds: seq<Detail>): Devices
    decreases |ds|
  {
    if |ds| == 0 then Devices(None, None, [])
    else
      var acc := Sort(ds[..|ds| - 1]);
      var d := ds[|ds| - 1];
      if d.deviceType == Battery then acc.(battery := Some(d))
      else if d.deviceType == LinePower then acc.(linePower := Some(d))
      else acc.(misc := acc.misc + [d])
  }

  /** `get_devices` on the details of the devices UPower enumerates. */
  function GetDevices(raws: seq<RawDevice>): Devices
  {
    Sort(seq(|raws|, i requires 0 <= i < |raws| => DeviceDetail(raws[i])))
  }

  lemma {:induction false} SortLast(ds: seq<Detail>, t: DeviceType)
    requires t == Battery || t == LinePower
    ensures (if t == Battery then Sort(ds).battery else Sort(ds).linePower) == LastOfType(ds, t)
    decreases |ds|
  {
    if |ds| > 0 {
      var init := ds[..|ds| - 1];
      SortLast(init, t);
    }
  }

  lemma {:induction false} SortMisc(ds: seq<Detail>)
    ensures Sort(ds).misc == MiscOf(ds)
    decreases |ds|
  {
    if |ds| > 0 {
      var init := ds[..|ds| - 1];
      var d := ds[|ds| - 1];
      assert ds == init + [d];
      SortMisc(init);
      MiscOfAppend(init, [d]);
      MiscOfOne(d);
    }
  }

  lemma MiscOfOne(d: Detail)
    ensures MiscOf([d]) == if d.deviceType != Battery && d.deviceType != LinePower then [d] else []
  {
    assert [d][1..] == [];
  }

  /**
   * Sorting puts every device in exactly one place: the battery and the
   * line power are the last device of their type, and the rest keep their order.
   */
  lemma SortSpec(ds: seq<Detail>)
    ensures Sort(ds).battery == LastOfType(ds, Battery)
    ensures Sort(ds).linePower == LastOfType(ds, LinePower)
    ensures Sort(ds).misc == MiscOf(ds)
  {
    SortLast(ds, Battery);
    SortLast(ds, LinePower);
    SortMisc(ds);
  }

  lemma {:induction false} MiscOfAppend(a: seq<Detail>, b: seq<Detail>)
    ensures MiscOf(a + b) == MiscOf(a) + MiscOf(b)
    decreases |a|
  {
    if |a| == 0 {
      assert a + b == b;
    } else {
      assert (a + b)[0] == a[0];
      assert (a + b)[1..] == a[1..] + b;
      MiscOfAppend(a[1..], b);
    }
  }

  // ---------------------------------------------------------------------------
  // update_menu
  // ---------------------------------------------------------------------------

  /** What a device is shown as. */
  datatype Role = AsBattery | AsLinePower | AsOther

  /** A menu action: one of the applet's own entries, or a device entry with its title and subtitle. */
  datatype Action = Static(name: string) | DeviceEntry(title: string, subtitle: string)

  /** The vendor followed by a space when there is one, then the model. */
  function Title(d: Detail): (t: string)
    ensures |d.vendor| == 0 ==> t == d.model
    ensures |d.vendor| > 0 ==> t == d.vendor + " " + d.model
  {
    (if |d.vendor| > 0 then d.vendor + " " else "") + d.model
  }

  /** `' ' + str(d['percentage']) + '%'`. */
  function Charge(d: Detail): string
  {
    " " + Text.IntToString(d.percentage) + "%"
  }

  /**
   * The percentage a subtitle shows: the integer between a space and a
   * closing `%` at its end, or None when it ends otherwise.
   */
  function ShownCharge(s: string): Option<int>
  {
    if |s| == 0 || s[|s| - 1] != '%' then None
    else SignedBefore(s[..|s| - 1], Text.TrailingDigits(s[..|s| - 1]))
  }

  /** The number `digits` at the end of `body`, negative after ` -`, if a space or ` -` precedes it. */
  function SignedBefore(body: string, digits: string): Option<int>
    requires Text.AllDigits(digits) && |digits| <= |body|
  {
    var k := |body| - |digits|;
    if digits == "" then None
    else if k >= 1 && body[k - 1] == ' ' then Some(Text.ParseNat(digits))
    else if k >= 2 && body[k - 1] == '-' && body[k - 2] == ' ' then Some(-(Text.ParseNat(digits) as int))
    else None
  }

  /** Whatever precedes it, a charge text reads back as the device's percentage. */
  lemma {:induction false} ChargeReadsBack(pre: string, d: Detail)
    ensures ShownCharge(pre + Charge(d)) == Some(d.percentage)
  {
    assert Charge(d) == " " + Text.IntToString(d.percentage) + "%";
    if d.percentage >= 0 {
      NonNegativeReadsBack(pre, d.percentage);
    } else {
      NegativeReadsBack(pre, -d.percentage);
    }
  }

  lemma {:induction false} NonNegativeReadsBack(pre: string, n: nat)
    ensures ShownCharge(pre + (" " + Text.IntToString(n) + "%")) == Some(n)
  {
    var ds := Text.NatToString(n);
    assert Text.ParseNat(ds) == n by { Text.ParseNatToString(n); }
    assert pre + (" " + Text.IntToString(n) + "%") == pre + [' '] + ds + "%";
    ShownDigits(pre, ' ', ds);
  }

  lemma {:induction false} NegativeReadsBack(pre: string, n: nat)
    requires n > 0
    ensures ShownCharge(pre + (" " + Text.IntToString(-(n as int)) + "%")) == Some(-(n as int))
  {
    var ds := Text.NatToString(n);
    assert Text.IntToString(-(n as int)) == "-" + ds;
    assert pre + (" " + ("-" + ds) + "%") == (pre + " ") + ['-'] + ds + "%";
    ShownDigits(pre + " ", '-', ds);
    Text.ParseNatToString(n);
  }

  /** Digits after a space read as themselves, after ` -` as their negation. */
  lemma {:induction false} SignedAfter(pre: string, c: char, ds: string)
    requires c == ' ' || (c == '-' && |pre| > 0 && pre[|pre| - 1] == ' ')
    requires Text.AllDigits(ds) && ds != ""
    ensures SignedBefore(pre + [c] + ds, ds)
      == Some(if c == ' ' then Text.ParseNat(ds) as int else -(Text.ParseNat(ds) as int))
  {
    var body := pre + [c] + ds;
    assert body[|body| - |ds| - 1] == c;
    if c == '-' {
      assert body[|body| - |ds| - 2] == ' ';
    }
  }

  /** Digits written after a space or after ` -`, then `%`, read back with their sign. */
  lemma {:induction false} ShownDigits(pre: string, c: char, ds: string)
    requires c == ' ' || (c == '-' && |pre| > 0 && pre[|pre| - 1] == ' ')
    requires Text.AllDigits(ds) && ds != ""
    ensures ShownCharge(pre + [c] + ds + "%")
      == Some(if c == ' ' then Text.ParseNat(ds) as int else -(Text.ParseNat(ds) as int))
  {
    var s := pre + [c] + ds + "%";
    var body := pre + [c] + ds;
    assert ShownCharge(s) == SignedBefore(body, Text.TrailingDigits(body)) by {
      assert s == body + "%";
      assert s[..|s| - 1] == body;
    }
    assert Text.TrailingDigits(body) == ds by { Text.TrailingDigitsAfter(pre, c, ds); }
    SignedAfter(pre, c, ds);
  }

  /**
   * The entry of a device. The battery and the other devices are titled by
   * vendor and model, the line power by its type.
   */
  function DeviceAction(d: Detail, role: Role): (a: Action)
    ensures a.DeviceEntry?
    ensures role != AsLinePower ==> a.title == Title(d)
    ensures role == AsLinePower ==> a.title == TypeName(d.deviceType) && (a.subtitle == "online" <==> d.online)
  {
    match role
    case AsBattery => DeviceEntry(Title(d), StateName(d.state) + Charge(d))
    case AsLinePower => DeviceEntry(TypeName(d.deviceType), if d.online then "online" else "offline")
    case AsOther => DeviceEntry(Title(d), "Current charge" + Charge(d))
  }

  /**
   * The battery and the other devices show their charge, which reads back as
   * the percentage; the battery's subtitle starts with its state. The line
   * power shows no charge.
   */
  lemma {:induction false} DeviceActionReadsBack(d: Detail, role: Role)
    ensures role != AsLinePower ==> ShowsCharged(DeviceAction(d, role), d)
    ensures role == AsBattery ==> Text.StartsWith(DeviceAction(d, role).subtitle, StateName(d.state))
    ensures role == AsOther ==> Text.StartsWith(DeviceAction(d, role).subtitle, "Current charge")
    ensures role == AsLinePower ==> ShowsLinePower(DeviceAction(d, role), d)
  {
    match role
    case AsBattery => ChargeReadsBack(StateName(d.state), d);
    case AsLinePower =>
    case AsOther => ChargeReadsBack("Current charge", d);
  }

  /** `[battery, line_power] + misc`, each with the role it is shown in. */
  function Slots(devs: Devices): seq<Option<Action>>
  {
    [if devs.battery.Some? then Some(DeviceAction(devs.battery.value, AsBattery)) else None,
     if devs.linePower.Some? then Some(DeviceAction(devs.linePower.value, AsLinePower)) else None]
    + seq(|devs.misc|, i requires 0 <= i < |devs.misc| => Some(DeviceAction(devs.misc[i], AsOther)))
  }

  /** The present entries, in slot order. */
  function Present(slots: seq<Option<Action>>): (r: seq<Action>)
    ensures |r| <= |slots|
  {
    if |slots| == 0 then []
    else (if slots[0].Some? then [slots[0].value] else []) + Present(slots[1..])
  }

  /** `actions()[pos]` past the end. */
  datatype MenuError = NoActionAt(pos: nat)

  /** `insertAction(actions()[pos], a)`. */
  function InsertBefore(menu: seq<Action>, pos: nat, a: Action): Result<seq<Action>, MenuError>
  {
    if pos < |menu| then Ok(menu[..pos] + [a] + menu[pos..]) else Err(NoActionAt(pos))
  }

  /**
   * The loop of `update_menu` as written: each entry goes before the action
   * at its slot's position, counting the empty slots it skipped.
   */
  function InsertAsWritten(menu: seq<Action>, slots: seq<Option<Action>>, pos: nat): Result<seq<Action>, MenuError>
    decreases |slots|
  {
    if |slots| == 0 then Ok(menu)
    else if slots[0].None? then InsertAsWritten(menu, slots[1..], pos + 1)
    else
      match InsertBefore(menu, pos, slots[0].value)
      case Err(e) => Err(e)
      case Ok(m) => InsertAsWritten(m, slots[1..], pos + 1)
  }

  /** With only the line power present, the slots are an empty battery slot and the line power. */
  lemma LinePowerSlots(line: Detail)
    ensures Slots(Devices(None, Some(line), [])) == [None, Some(DeviceAction(line, AsLinePower))]
  {
    assert |Slots(Devices(None, Some(line), []))| == 2;
  }

  /**
   * As written, a missing battery pushes the line power below the menu's
   * first own action: the device entries no longer head the menu.
   */
  lemma InsertAsWrittenSkipsFirst(own: seq<Action>, line: Detail)
    requires |own| >= 2
    ensures InsertAsWritten(own, Slots(Devices(None, Some(line), [])), 0)
      == Ok([own[0], DeviceAction(line, AsLinePower)] + own[1..])
  {
    var a := DeviceAction(line, AsLinePower);
    LinePowerSlots(line);
    var m := own[..1] + [a] + own[1..];
    assert InsertBefore(own, 1, a) == Ok(m);
    assert InsertAsWritten(own, [Some(a)], 1) == InsertAsWritten(m, [], 2);
    assert m == [own[0], a] + own[1..];
  }

  /** When every slot holds an entry, each slot's position is the count already inserted, so both loops agree. */
  lemma {:induction false} InsertAsWrittenAgrees(menu: seq<Action>, slots: seq<Option<Action>>, pos: nat)
    requires pos < |menu|
    requires forall i :: 0 <= i < |slots| ==> slots[i].Some?
    ensures InsertAsWritten(menu, slots, pos) == Ok(Insert(menu, slots, pos))
    decreases |slots|
  {
    if |slots| > 0 {
      assert slots[0].Some?;
      var m := menu[..pos] + [slots[0].value] + menu[pos..];
      assert InsertBefore(menu, pos, slots[0].value) == Ok(m);
      assert forall i :: 0 <= i < |slots[1..]| ==> slots[1..][i] == slots[i + 1];
      InsertAsWrittenAgrees(m, slots[1..], pos + 1);
    }
  }

  /** The loop of `update_menu` with each entry inserted after the entries already inserted. */
  function Insert(menu: seq<Action>, slots: seq<Option<Action>>, count: nat): (r: seq<Action>)
    requires count <= |menu|
    decreases |slots|
  {
    if |slots| == 0 then menu
    else if slots[0].None? then Insert(menu, slots[1..], count)
    else Insert(menu[..count] + [slots[0].value] + menu[count..], slots[1..], count + 1)
  }

  /** Inserting after the entries already inserted puts the present entries, in order, ahead of the rest of the menu. */
  lemma {:induction false} InsertHeadsMenu(inserted: seq<Action>, rest: seq<Action>, slots: seq<Option<Action>>)
    ensures Insert(inserted + rest, slots, |inserted|) == inserted + Present(slots) + rest
    decreases |slots|
  {
    if |slots| > 0 {
      var menu := inserted + rest;
      assert menu[..|inserted|] == inserted;
      assert menu[|inserted|..] == rest;
      if slots[0].None? {
        InsertHeadsMenu(inserted, rest, slots[1..]);
      } else {
        var more := inserted + [slots[0].value];
        assert menu[..|inserted|] + [slots[0].value] + menu[|inserted|..] == more + rest;
        InsertHeadsMenu(more, rest, slots[1..]);
      }
    }
  }

  /**
   * `update_menu` with the entries placed at the head of the menu, ahead
   * of the applet's own actions `own`.
   */
  function UpdateMenu(own: seq<Action>, raws: seq<RawDevice>): (r: seq<Action>)
    ensures r == Present(Slots(GetDevices(raws))) + own
  {
    InsertHeadsMenu([], own, Slots(GetDevices(raws)));
    assert [] + own == own;
    Insert(own, Slots(GetDevices(raws)), 0)
  }

  /** `update_menu` as written: each entry goes before the action at its slot's index. */
  function UpdateMenuAsWritten(own: seq<Action>, raws: seq<RawDevice>): Result<seq<Action>, MenuError>
  {
    InsertAsWritten(own, Slots(GetDevices(raws)), 0)
  }

  /**
   * As written, `update_menu` builds the intended menu when the battery and
   * the line power are both present and the applet has actions of its own.
   */
  lemma UpdateMenuAsWrittenAgrees(own: seq<Action>, raws: seq<RawDevice>)
    requires |own| > 0
    requires GetDevices(raws).battery.Some? && GetDevices(raws).linePower.Some?
    ensures UpdateMenuAsWritten(own, raws) == Ok(Present(Slots(GetDevices(raws))) + own)
  {
    InsertSlotsAgrees(own, GetDevices(raws));
  }

  lemma {:induction false} InsertSlotsAgrees(own: seq<Action>, devs: Devices)
    requires |own| > 0
    requires devs.battery.Some? && devs.linePower.Some?
    ensures InsertAsWritten(own, Slots(devs), 0) == Ok(Present(Slots(devs)) + own)
  {
    SlotsAllPresent(devs);
    InsertAllAgrees(own, Slots(devs));
  }

  /** As written, the loop inserts as intended when every slot holds an entry. */
  lemma {:induction false} InsertAllAgrees(own: seq<Action>, slots: seq<Option<Action>>)
    requires |own| > 0
    requires forall i :: 0 <= i < |slots| ==> slots[i].Some?
    ensures InsertAsWritten(own, slots, 0) == Ok(Present(slots) + own)
  {
    InsertAsWrittenAgrees(own, slots, 0);
    assert Insert(own, slots, 0) == Present(slots) + own by {
      InsertHeadsMenu([], own, slots);
      assert [] + own == own;
      assert [] + Present(slots) + own == Present(slots) + own;
    }
  }

  /** With the battery and the line power present, every slot holds an entry. */
  lemma {:induction false} SlotsAllPresent(devs: Devices)
    requires devs.battery.Some? && devs.linePower.Some?
    ensures forall i :: 0 <= i < |Slots(devs)| ==> Slots(devs)[i].Some?
  {
  }

  lemma {:induction false} PresentAppend(a: seq<Option<Action>>, b: seq<Option<Action>>)
    ensures Present(a + b) == Present(a) + Present(b)
    decreases |a|
  {
    if |a| > 0 {
      assert (a + b)[1..] == a[1..] + b;
      PresentAppend(a[1..], b);
    } else {
      assert a + b == b;
    }
  }

  lemma {:induction false} PresentAllSome(slots: seq<Option<Action>>)
    requires forall i :: 0 <= i < |slots| ==> slots[i].Some?
    ensures |Present(slots)| == |slots|
    ensures forall i :: 0 <= i < |slots| ==> Present(slots)[i] == slots[i].value
    decreases |slots|
  {
    if |slots| > 0 {
      assert forall i :: 0 <= i < |slots[1..]| ==> slots[1..][i] == slots[i + 1];
      PresentAllSome(slots[1..]);
    }
  }

  /** How many of the battery and the line power are present. */
  function Fixed(devs: Devices): nat
  {
    (if devs.battery.Some? then 1 else 0) + (if devs.linePower.Some? then 1 else 0)
  }

  /** The entries of the battery and the line power that are present, in that order. */
  function FixedEntries(devs: Devices): (r: seq<Action>)
    ensures |r| == Fixed(devs)
  {
    (if devs.battery.Some? then [DeviceAction(devs.battery.value, AsBattery)] else [])
    + (if devs.linePower.Some? then [DeviceAction(devs.linePower.value, AsLinePower)] else [])
  }

  /** The entries of the other devices, in order. */
  function MiscEntries(devs: Devices): (r: seq<Action>)
    ensures |r| == |devs.misc|
  {
    seq(|devs.misc|, i requires 0 <= i < |devs.misc| => DeviceAction(devs.misc[i], AsOther))
  }

  /** The values of the options `a`, `b`, then of the all-present `rest`. */
  /** The entries of slots that all hold one. */
  function Values(slots: seq<Option<Action>>): (r: seq<Action>)
    requires forall i :: 0 <= i < |slots| ==> slots[i].Some?
    ensures |r| == |slots| && forall i :: 0 <= i < |slots| ==> r[i] == slots[i].value
  {
    seq(|slots|, i requires 0 <= i < |slots| => slots[i].value)
  }

  lemma {:induction false} PresentSingle(a: Option<Action>)
    ensures Present([a]) == if a.Some? then [a.value] else []
  {
    assert [a][1..] == [];
  }

  lemma {:induction false} PresentTwoThen(a: Option<Action>, b: Option<Action>, rest: seq<Option<Action>>)
    requires forall i :: 0 <= i < |rest| ==> rest[i].Some?
    ensures Present([a, b] + rest)
      == (if a.Some? then [a.value] else []) + (if b.Some? then [b.value] else []) + Values(rest)
  {
    var pa, pb, vs := Present([a]), Present([b]), Values(rest);
    assert Present([a, b] + rest) == pa + (pb + Present(rest)) by {
      assert [a, b] + rest == [a] + ([b] + rest);
      PresentAppend([a], [b] + rest);
      PresentAppend([b], rest);
    }
    assert Present(rest) == vs by { PresentAllSome(rest); }
    PresentSingle(a);
    PresentSingle(b);
    assert pa + (pb + vs) == pa + pb + vs;
  }

  lemma {:induction false} PresentSlots(devs: Devices)
    ensures Present(Slots(devs)) == FixedEntries(devs) + MiscEntries(devs)
  {
    var slots := Slots(devs);
    assert slots == [slots[0], slots[1]] + slots[2..];
    PresentTwoThen(slots[0], slots[1], slots[2..]);
    assert Values(slots[2..]) == MiscEntries(devs);
  }



  /** The entry `a` is titled for device `d` and shows `d`'s charge. */
  predicate ShowsCharged(a: Action, d: Detail)
  {
    a.DeviceEntry? && a.title == Title(d) && ShownCharge(a.subtitle) == Some(d.percentage)
  }

  /** The entry `a` shows no charge and says `online` exactly when the line power `d` is online. */
  predicate ShowsLinePower(a: Action, d: Detail)
  {
    a.DeviceEntry? && ShownCharge(a.subtitle).None? && (a.subtitle == "online" <==> d.online)
  }

  /**
   * The menu `m` shows the devices: the battery first with its charge, then
   * the line power with its online state and no charge, then every other
   * device in order with its charge, then the applet's own actions `own`.
   */
  predicate ShowsDevices(devs: Devices, m: seq<Action>, own: seq<Action>)
  {
    && |m| == Fixed(devs) + |devs.misc| + |own|
    && (devs.battery.Some? ==> ShowsCharged(m[0], devs.battery.value))
    && (devs.linePower.Some? ==> ShowsLinePower(m[Fixed(devs) - 1], devs.linePower.value))
    && (forall i :: 0 <= i < |devs.misc| ==> ShowsCharged(m[Fixed(devs) + i], devs.misc[i]))
    && m[Fixed(devs) + |devs.misc|..] == own
  }

  lemma {:induction false} IndexInMiddle(p: seq<Action>, q: seq<Action>, r: seq<Action>, i: nat)
    requires i < |q|
    ensures (p + q + r)[|p| + i] == q[i]
  {
  }

  lemma {:induction false} MiscEntryAt(devs: Devices, i: nat)
    requires i < |devs.misc|
    ensures MiscEntries(devs)[i] == DeviceAction(devs.misc[i], AsOther)
  {
  }

  lemma {:induction false} EntriesShowDevices(devs: Devices, own: seq<Action>)
    ensures ShowsDevices(devs, FixedEntries(devs) + MiscEntries(devs) + own, own)
  {
    var fixed, misc := FixedEntries(devs), MiscEntries(devs);
    assert fixed + misc + own == fixed + (misc + own);
    FixedShown(devs, misc + own);
    MiscShown(devs, own);
    assert (fixed + misc + own)[Fixed(devs) + |devs.misc|..] == own;
  }

  lemma {:induction false} FixedShown(devs: Devices, rest: seq<Action>)
    ensures devs.battery.Some? ==> ShowsCharged((FixedEntries(devs) + rest)[0], devs.battery.value)
    ensures devs.linePower.Some? ==>
      ShowsLinePower((FixedEntries(devs) + rest)[Fixed(devs) - 1], devs.linePower.value)
  {
    var fixed := FixedEntries(devs);
    if devs.battery.Some? {
      assert (fixed + rest)[0] == DeviceAction(devs.battery.value, AsBattery);
      DeviceActionReadsBack(devs.battery.value, AsBattery);
    }
    if devs.linePower.Some? {
      assert (fixed + rest)[Fixed(devs) - 1] == DeviceAction(devs.linePower.value, AsLinePower);
      DeviceActionReadsBack(devs.linePower.value, AsLinePower);
    }
  }

  lemma {:induction false} MiscShown(devs: Devices, own: seq<Action>)
    ensures forall i :: 0 <= i < |devs.misc| ==>
      ShowsCharged((FixedEntries(devs) + MiscEntries(devs) + own)[Fixed(devs) + i], devs.misc[i])
  {
    var fixed, misc := FixedEntries(devs), MiscEntries(devs);
    forall i | 0 <= i < |devs.misc|
      ensures ShowsCharged((fixed + misc + own)[Fixed(devs) + i], devs.misc[i])
    {
      MiscEntryAt(devs, i);
      IndexInMiddle(fixed, misc, own, i);
      DeviceActionReadsBack(devs.misc[i], AsOther);
    }
  }

  /** The menu `update_menu` builds shows every device with its charge, then the applet's own actions. */
  lemma {:induction false} UpdateMenuShowsDevices(own: seq<Action>, raws: seq<RawDevice>)
    ensures ShowsDevices(GetDevices(raws), UpdateMenu(own, raws), own)
  {
    PresentSlots(GetDevices(raws));
    EntriesShowDevices(GetDevices(raws), own);
  }
}

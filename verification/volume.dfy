/**
 * The volume tray's PulseAudio side (`PulseMixer`, `VolumeMixin` and
 * `MediaKeysMixin` of volume_tray/core.py): the table of card profiles the
 * menu offers, switching to one of them, the sink volume and mute flag, the
 * tray icon, the profile menu grouped by device, the media keys and the
 * notification that reports them.
 *
 * PulseAudio, D-Bus and the clock are parameters: the card list, the active
 * sink, the battery levels of paired Bluetooth devices, the current time and
 * the id the notification daemon answers with. PulseAudio objects compare by
 * identity; a card is its index in the card list and a profile its index in
 * its card's profile list. Volumes are exact reals.
 */
module Volume {
  import opened Wrappers
  import Text
  import opened Dicts

  // ---------------------------------------------------------------------------
  // Profiles and their keys
  // ---------------------------------------------------------------------------

  const ProfileAnalog: string := "output:analog-stereo+input:analog-stereo"
  const ProfileHsp: string := "headset_head_unit"
  const ProfileHspCvsd: string := "headset-head-unit-cvsd"
  const ProfileHspMsbc: string := "headset-head-unit-msbc"
  const ProfileA2dp: string := "a2dp_sink"
  const ProfileA2dpXq: string := "a2dp-sink-sbc_xq"
  const ProfileA2dpAac: string := "a2dp-sink-aac"
  const ProfileA2dpAptx: string := "a2dp-sink-aptx"

  /** The PulseAudio profiles the menu offers, each with the label it shows. */
  const ProfileMap: Dict<string> := [
    (ProfileAnalog, "Analog Duplex"),
    (ProfileA2dp, "A2DP SBC"),
    (ProfileA2dpXq, "A2DP SBC XQ"),
    (ProfileA2dpAac, "A2DP AAC"),
    (ProfileA2dpAptx, "A2DP AptX"),
    (ProfileHsp, "HFP CVSD"),
    (ProfileHspCvsd, "HFP CVSD"),
    (ProfileHspMsbc, "HFP mSBC")]

  /** What separates a device description from a profile label in a key. */
  const KeySep: string := "__"

  predicate NoUnderscore(s: string)
  {
    forall i :: 0 <= i < |s| ==> s[i] != '_'
  }

  /** Every label of a table is free of underscores. */
  predicate CleanLabels(d: Dict<string>)
  {
    forall i :: 0 <= i < |d| ==> NoUnderscore(d[i].1)
  }

  lemma {:induction false} LookupClean(d: Dict<string>, name: string)
    requires CleanLabels(d)
    ensures Lookup(d, name).Some? ==> NoUnderscore(Lookup(d, name).value)
    decreases |d|
  {
    if |d| > 0 && d[0].0 != name {
      assert forall i :: 0 <= i < |d[1..]| ==> d[1..][i] == d[i + 1];
      LookupClean(d[1..], name);
    }
  }

  lemma ProfileMapClean()
    ensures CleanLabels(ProfileMap)
  {
    var labels := ["Analog Duplex", "A2DP SBC", "A2DP SBC XQ", "A2DP AAC", "A2DP AptX", "HFP CVSD", "HFP CVSD", "HFP mSBC"];
    assert forall i :: 0 <= i < |ProfileMap| ==> ProfileMap[i].1 == labels[i];
    assert forall i :: 0 <= i < |labels| ==> NoUnderscore(labels[i]);
  }

  /** No label of the profile table contains an underscore. */
  lemma LabelsHaveNoUnderscore(name: string)
    ensures Lookup(ProfileMap, name).Some? ==> NoUnderscore(Lookup(ProfileMap, name).value)
  {
    ProfileMapClean();
    LookupClean(ProfileMap, name);
  }

  /** The key under which a profile is listed: the card's description, `__`, the profile's label. */
  function ProfileKey(description: string, profileLabel: string): string
  {
    description + KeySep + profileLabel
  }

  // ---------------------------------------------------------------------------
  // introspect
  // ---------------------------------------------------------------------------

  datatype Profile = Profile(name: string, available: bool)

  /** A sound card: its name, its `device.description`, its profiles and the name of its active profile. */
  datatype Card = Card(name: string, description: string, profiles: seq<Profile>, activeProfile: string)

  /** A listed profile: the card (index into the card list) and the profile (index into its profile list). */
  datatype Entry = Entry(card: nat, profile: nat)

  /** `all_profiles` and `current_profile`. */
  datatype Mixer = Mixer(allProfiles: Dict<Entry>, current: Option<string>)

  /** The label of profile `p` of card `c`, or None when it is unavailable or not in the table. */
  function OfferedLabel(cards: seq<Card>, c: nat, p: nat): (r: Option<string>)
    ensures r.Some? ==> c < |cards| && p < |cards[c].profiles|
  {
    if c < |cards| && p < |cards[c].profiles| && cards[c].profiles[p].available then
      Lookup(ProfileMap, cards[c].profiles[p].name)
    else None
  }

  /** The key profile `p` of card `c` is listed under, if it is offered. */
  function OfferedKey(cards: seq<Card>, c: nat, p: nat): Option<string>
  {
    match OfferedLabel(cards, c, p)
    case None => None
    case Some(l) => Some(ProfileKey(cards[c].description, l))
  }

  /**
   * Profile `p` is its card's active profile and the card is the active
   * sink's card, which is decided by the first four characters of the names.
   */
  predicate ActiveOnSink(cards: seq<Card>, c: nat, p: nat, sink: Option<string>)
  {
    c < |cards| && p < |cards[c].profiles|
    && cards[c].activeProfile == cards[c].profiles[p].name
    && sink.Some? && Text.Take(cards[c].name, 4) == Text.Take(sink.value, 4)
  }

  /** Every listed entry is offered under its key, and the current profile is a listed key. */
  predicate Consistent(m: Mixer, cards: seq<Card>)
  {
    (forall i :: 0 <= i < |m.allProfiles| ==>
      OfferedKey(cards, m.allProfiles[i].1.card, m.allProfiles[i].1.profile) == Some(m.allProfiles[i].0))
    && (m.current.Some? ==> m.current.value in Keys(m.allProfiles))
  }

  /** The positions of the profiles of card `c` from `p` on. */
  function ProfileSlots(c: nat, p: nat, n: nat): (r: seq<(nat, nat)>)
    ensures forall s :: s in r <==> s.0 == c && p <= s.1 < n
    decreases n - p
  {
    if p >= n then [] else [(c, p)] + ProfileSlots(c, p + 1, n)
  }

  /** The positions of all profiles of the cards from `c` on, card by card. */
  function Slots(cards: seq<Card>, c: nat): (r: seq<(nat, nat)>)
    ensures forall s :: s in r <==> c <= s.0 < |cards| && s.1 < |cards[s.0].profiles|
    decreases |cards| - c
  {
    if c >= |cards| then [] else ProfileSlots(c, 0, |cards[c].profiles|) + Slots(cards, c + 1)
  }

  /** One iteration of the inner loop. */
  function ScanStep(m: Mixer, cards: seq<Card>, slot: (nat, nat), sink: Option<string>): Mixer
  {
    match OfferedKey(cards, slot.0, slot.1)
    case None => m
    case Some(key) =>
      Mixer(Put(m.allProfiles, key, Entry(slot.0, slot.1)),
            if ActiveOnSink(cards, slot.0, slot.1, sink) then Some(key) else m.current)
  }

  function Scan(m: Mixer, cards: seq<Card>, slots: seq<(nat, nat)>, sink: Option<string>): Mixer
    decreases |slots|
  {
    if |slots| == 0 then m else Scan(ScanStep(m, cards, slots[0], sink), cards, slots[1..], sink)
  }

  /** `introspect`: list every available profile of the table, card by card, and find the current one. */
  function Introspect(cards: seq<Card>, sink: Option<string>): Mixer
  {
    Scan(Mixer([], None), cards, Slots(cards, 0), sink)
  }

  lemma ScanStepSpec(m: Mixer, cards: seq<Card>, slot: (nat, nat), sink: Option<string>)
    requires Consistent(m, cards)
    ensures Consistent(ScanStep(m, cards, slot, sink), cards)
    ensures forall k :: k in Keys(ScanStep(m, cards, slot, sink).allProfiles) <==>
      k in Keys(m.allProfiles) || OfferedKey(cards, slot.0, slot.1) == Some(k)
    ensures ScanStep(m, cards, slot, sink).current != m.current ==>
      OfferedKey(cards, slot.0, slot.1) == ScanStep(m, cards, slot, sink).current
      && ActiveOnSink(cards, slot.0, slot.1, sink)
  {
    match OfferedKey(cards, slot.0, slot.1)
    case None =>
    case Some(key) =>
      var d := Put(m.allProfiles, key, Entry(slot.0, slot.1));
      forall i | 0 <= i < |d|
        ensures OfferedKey(cards, d[i].1.card, d[i].1.profile) == Some(d[i].0)
      {
        assert d[i] in d;
        if d[i] != (key, Entry(slot.0, slot.1)) {
          assert d[i] in m.allProfiles;
          var j :| 0 <= j < |m.allProfiles| && m.allProfiles[j] == d[i];
        }
      }
  }

  /** The scan keeps every listed entry offered under its key and the current profile listed. */
  lemma {:induction false} ScanConsistent(m: Mixer, cards: seq<Card>, slots: seq<(nat, nat)>, sink: Option<string>)
    requires Consistent(m, cards)
    ensures Consistent(Scan(m, cards, slots, sink), cards)
    decreases |slots|
  {
    if |slots| > 0 {
      ScanStepSpec(m, cards, slots[0], sink);
      ScanConsistent(ScanStep(m, cards, slots[0], sink), cards, slots[1..], sink);
    }
  }

  /** After the scan a key is listed exactly when it was listed before or some scanned profile offers it. */
  lemma {:induction false} ScanKeys(m: Mixer, cards: seq<Card>, slots: seq<(nat, nat)>, sink: Option<string>)
    requires Consistent(m, cards)
    ensures forall k :: k in Keys(Scan(m, cards, slots, sink).allProfiles) <==>
      k in Keys(m.allProfiles) || exists i :: 0 <= i < |slots| && OfferedKey(cards, slots[i].0, slots[i].1) == Some(k)
    decreases |slots|
  {
    if |slots| > 0 {
      var next := ScanStep(m, cards, slots[0], sink);
      ScanStepSpec(m, cards, slots[0], sink);
      ScanKeys(next, cards, slots[1..], sink);
      var r := Scan(m, cards, slots, sink);
      assert r == Scan(next, cards, slots[1..], sink);
      forall k | k in Keys(r.allProfiles)
        ensures k in Keys(m.allProfiles) || exists i :: 0 <= i < |slots| && OfferedKey(cards, slots[i].0, slots[i].1) == Some(k)
      {
        if k !in Keys(next.allProfiles) {
          var i :| 0 <= i < |slots[1..]| && OfferedKey(cards, slots[1..][i].0, slots[1..][i].1) == Some(k);
          assert slots[i + 1] == slots[1..][i];
        } else if k !in Keys(m.allProfiles) {
          assert OfferedKey(cards, slots[0].0, slots[0].1) == Some(k);
        }
      }
      forall k | k in Keys(m.allProfiles) || exists i :: 0 <= i < |slots| && OfferedKey(cards, slots[i].0, slots[i].1) == Some(k)
        ensures k in Keys(r.allProfiles)
      {
        if k !in Keys(m.allProfiles) {
          var i :| 0 <= i < |slots| && OfferedKey(cards, slots[i].0, slots[i].1) == Some(k);
          if i > 0 {
            assert slots[1..][i - 1] == slots[i];
          }
        }
      }
    }
  }

  /** A current profile the scan sets is offered by an active profile of the sink's card. */
  lemma {:induction false} ScanCurrent(m: Mixer, cards: seq<Card>, slots: seq<(nat, nat)>, sink: Option<string>)
    requires Consistent(m, cards)
    ensures Scan(m, cards, slots, sink).current != m.current ==>
      exists i :: 0 <= i < |slots| && OfferedKey(cards, slots[i].0, slots[i].1) == Scan(m, cards, slots, sink).current
        && ActiveOnSink(cards, slots[i].0, slots[i].1, sink)
    decreases |slots|
  {
    if |slots| > 0 {
      var next := ScanStep(m, cards, slots[0], sink);
      ScanStepSpec(m, cards, slots[0], sink);
      ScanCurrent(next, cards, slots[1..], sink);
      var r := Scan(m, cards, slots, sink);
      assert r == Scan(next, cards, slots[1..], sink);
      if r.current != m.current {
        if r.current != next.current {
          var i :| 0 <= i < |slots[1..]| && OfferedKey(cards, slots[1..][i].0, slots[1..][i].1) == r.current
            && ActiveOnSink(cards, slots[1..][i].0, slots[1..][i].1, sink);
          assert slots[i + 1] == slots[1..][i];
        } else {
          assert OfferedKey(cards, slots[0].0, slots[0].1) == r.current;
        }
      }
    }
  }

  /** After `introspect` every listed entry is a profile offered under its key. */
  lemma IntrospectConsistent(cards: seq<Card>, sink: Option<string>)
    ensures Consistent(Introspect(cards, sink), cards)
  {
    ScanConsistent(Mixer([], None), cards, Slots(cards, 0), sink);
  }

  lemma OfferedInRange(cards: seq<Card>, c: nat, p: nat)
    ensures OfferedKey(cards, c, p).Some? ==> (c, p) in Slots(cards, 0)
  {
  }

  /** After `introspect` the table lists exactly the keys some card offers. */
  lemma IntrospectKeys(cards: seq<Card>, sink: Option<string>, k: string)
    ensures k in Keys(Introspect(cards, sink).allProfiles) <==> exists c: nat, p: nat :: OfferedKey(cards, c, p) == Some(k)
  {
    var slots := Slots(cards, 0);
    ScanKeys(Mixer([], None), cards, slots, sink);
    assert k in Keys(Introspect(cards, sink).allProfiles) <==>
      exists i :: 0 <= i < |slots| && OfferedKey(cards, slots[i].0, slots[i].1) == Some(k);
    if exists c: nat, p: nat :: OfferedKey(cards, c, p) == Some(k) {
      var c: nat, p: nat :| OfferedKey(cards, c, p) == Some(k);
      OfferedInRange(cards, c, p);
      var i :| 0 <= i < |slots| && slots[i] == (c, p);
    }
  }

  /** After `introspect` the current profile, if any, is offered by the active profile of the sink's card. */
  lemma IntrospectCurrent(cards: seq<Card>, sink: Option<string>)
    ensures Introspect(cards, sink).current.Some? ==>
      exists c: nat, p: nat :: OfferedKey(cards, c, p) == Introspect(cards, sink).current && ActiveOnSink(cards, c, p, sink)
  {
    var slots := Slots(cards, 0);
    var r := Introspect(cards, sink);
    ScanCurrent(Mixer([], None), cards, slots, sink);
    if r.current.Some? {
      var i :| 0 <= i < |slots| && OfferedKey(cards, slots[i].0, slots[i].1) == r.current
        && ActiveOnSink(cards, slots[i].0, slots[i].1, sink);
    }
  }

  // ---------------------------------------------------------------------------
  // set_profile
  // ---------------------------------------------------------------------------

  datatype Setting = Off | Use(profile: nat)

  /** `card_profile_set(card, setting)`. */
  datatype Command = Command(card: nat, setting: Setting)

  datatype MixerError = UnknownProfile

  /** The commands the loop over `all_profiles.values()` sends when `chosen` is picked. */
  function ProfileCommands(entries: seq<Entry>, chosen: Entry): (r: seq<Command>)
    ensures forall j :: 0 <= j < |r| && r[j].card != chosen.card ==> r[j].setting == Off
    ensures forall j :: 0 <= j < |r| && r[j].card == chosen.card ==> r[j].setting == Use(chosen.profile)
    ensures forall j :: 0 <= j < |r| ==> exists i :: 0 <= i < |entries| && entries[i].card == r[j].card
    ensures forall i :: 0 <= i < |entries| && entries[i].card != chosen.card ==> Command(entries[i].card, Off) in r
    ensures chosen in entries <==> Command(chosen.card, Use(chosen.profile)) in r
    decreases |entries|
  {
    if |entries| == 0 then []
    else
      var e := entries[0];
      var rest := ProfileCommands(entries[1..], chosen);
      var first := if e.card != chosen.card then [Command(e.card, Off)]
                   else if e.profile == chosen.profile then [Command(e.card, Use(e.profile))]
                   else [];
      assert forall j :: 0 <= j < |rest| ==> exists i :: 0 <= i < |entries| && entries[i].card == rest[j].card by {
        forall j | 0 <= j < |rest| ensures exists i :: 0 <= i < |entries| && entries[i].card == rest[j].card {
          var i :| 0 <= i < |entries[1..]| && entries[1..][i].card == rest[j].card;
          assert entries[i + 1] == entries[1..][i];
        }
      }
      assert forall i :: 1 <= i < |entries| ==> entries[i] == entries[1..][i - 1];
      assert chosen in entries <==> chosen == e || chosen in entries[1..] by {
        assert entries == [e] + entries[1..];
      }
      first + rest
  }

  /**
   * `set_profile(key)`: a key that is not listed raises KeyError. Otherwise
   * every other card is switched off, and on the chosen card only the chosen
   * profile is set, which happens at least once.
   */
  function SetProfile(all: Dict<Entry>, key: string): (r: Result<seq<Command>, MixerError>)
    ensures r.Err? <==> key !in Keys(all)
    ensures r.Ok? ==> var chosen := Lookup(all, key).value;
      && (forall j :: 0 <= j < |r.value| ==>
            r.value[j].setting == (if r.value[j].card == chosen.card then Use(chosen.profile) else Off))
      && Command(chosen.card, Use(chosen.profile)) in r.value
      && (forall e :: e in Values(all) && e.card != chosen.card ==> Command(e.card, Off) in r.value)
  {
    match Lookup(all, key)
    case None => Err(UnknownProfile)
    case Some(chosen) =>
      var vs := Values(all);
      assert chosen in vs by {
        var i :| 0 <= i < |all| && all[i] == (key, chosen);
        assert vs[i] == chosen;
      }
      var cmds := ProfileCommands(vs, chosen);
      assert forall e :: e in vs && e.card != chosen.card ==> Command(e.card, Off) in cmds by {
        forall e | e in vs && e.card != chosen.card ensures Command(e.card, Off) in cmds {
          var i :| 0 <= i < |vs| && vs[i] == e;
        }
      }
      Ok(cmds)
  }

  // ---------------------------------------------------------------------------
  // Sink volume and mute
  // ---------------------------------------------------------------------------

  /** The active sink: its volume averaged over the channels (1.0 is 100 %) and its mute flag. */
  datatype Sink = Sink(volume: real, mute: bool)

  /** `min(max(v, 0), 1)`. */
  function Clamp(v: real): (r: real)
    ensures 0.0 <= r <= 1.0
    ensures 0.0 <= v <= 1.0 ==> r == v
    ensures v < 0.0 ==> r == 0.0
    ensures v > 1.0 ==> r == 1.0
  {
    if v < 0.0 then 0.0 else if v > 1.0 then 1.0 else v
  }

  /**
   * `get_sink_volume_and_mute`: the volume in percent, cut to [0, 100], and
   * the mute flag; with no active sink, silence and muted.
   */
  function SinkVolumeAndMute(sink: Option<Sink>): (r: (real, bool))
    ensures 0.0 <= r.0 <= 100.0
    ensures sink.None? ==> r == (0.0, true)
    ensures sink.Some? ==> r.1 == sink.value.mute
    ensures sink.Some? && 0.0 <= sink.value.volume <= 1.0 ==> r.0 == sink.value.volume * 100.0
  {
    match sink
    case None => (0.0, true)
    case Some(s) => (Clamp(s.volume) * 100.0, s.mute)
  }

  /**
   * `change_volume(value)`: move the volume by `value` percent and keep it
   * in [0, 1]; nothing happens without an active sink, and the mute flag is
   * left alone.
   */
  function ChangeVolume(sink: Option<Sink>, value: int): (r: Option<Sink>)
    ensures r.None? <==> sink.None?
    ensures r.Some? ==> 0.0 <= r.value.volume <= 1.0 && r.value.mute == sink.value.mute
    ensures r.Some? && 0.0 <= sink.value.volume + value as real / 100.0 <= 1.0 ==>
      r.value.volume == sink.value.volume + value as real / 100.0
    ensures r.Some? && value >= 0 ==> r.value.volume >= Clamp(sink.value.volume)
    ensures r.Some? && value <= 0 ==> r.value.volume <= Clamp(sink.value.volume)
  {
    match sink
    case None => None
    case Some(s) => Some(s.(volume := Clamp(s.volume + value as real / 100.0)))
  }

  // ---------------------------------------------------------------------------
  // compute_icon_name
  // ---------------------------------------------------------------------------

  datatype Level = Muted | Low | Medium | High

  /** `compute_icon_name`: mute wins; below 25 % is low, above 75 % high, anything between medium. */
  function IconLevel(volume: real, mute: bool): (r: Level)
    ensures r == Muted <==> mute
    ensures r == Low <==> !mute && volume < 25.0
    ensures r == High <==> !mute && volume > 75.0
    ensures r == Medium <==> !mute && 25.0 <= volume <= 75.0
  {
    if mute then Muted
    else if volume < 25.0 then Low
    else if volume > 75.0 then High
    else Medium
  }

  function IconName(l: Level): string
  {
    match l
    case Muted => "audio-volume-muted"
    case Low => "audio-volume-low"
    case Medium => "audio-volume-medium"
    case High => "audio-volume-high"
  }

  function Rank(l: Level): nat
  {
    match l
    case Muted => 0
    case Low => 1
    case Medium => 2
    case High => 3
  }

  /** A louder unmuted sink never shows a quieter icon. */
  lemma IconMonotone(v1: real, v2: real)
    requires v1 <= v2
    ensures Rank(IconLevel(v1, false)) <= Rank(IconLevel(v2, false))
  {
  }

  // ---------------------------------------------------------------------------
  // on_media_key_pressed
  // ---------------------------------------------------------------------------

  const VolumeUpKeysym: int := 0x1008ff13
  const VolumeDownKeysym: int := 0x1008ff11
  const VolumeMuteKeysym: int := 0x1008ff12
  const MediaKeyStep: int := 5

  /** The notification's summary line. */
  datatype Summary = MuteOn | MuteOff | StillMuted | VolumeAt(percent: nat)

  function SummaryText(s: Summary): string
  {
    match s
    case MuteOn => "Mute"
    case MuteOff => "Unmute"
    case StillMuted => "Muted"
    case VolumeAt(p) => "Volume " + Text.NatToString(p) + "%"
  }

  /** `get_mute` reads the mute flag of the active sink, which fails when there is none. */
  datatype KeyError = NoActiveSink

  /** The sink after the key: mute toggles, and up or down move by five percent unless the sink was muted. */
  function KeyEffect(s: Sink, keysym: int): Sink
  {
    if keysym == VolumeMuteKeysym then s.(mute := !s.mute)
    else if !s.mute && keysym == VolumeUpKeysym then ChangeVolume(Some(s), MediaKeyStep).value
    else if !s.mute && keysym == VolumeDownKeysym then ChangeVolume(Some(s), -MediaKeyStep).value
    else s
  }

  /**
   * `on_media_key_pressed`: the sink after the key and the summary the
   * notification shows. The mute key always toggles and reports the new
   * state; a muted sink ignores the other keys and reports that it is muted;
   * otherwise the summary is the whole percentage of the new volume.
   */
  function MediaKeyPressed(sink: Option<Sink>, keysym: int): (r: Result<(Sink, Summary), KeyError>)
    ensures r.Err? <==> sink.None?
    ensures r.Ok? && keysym == VolumeMuteKeysym ==>
      r.value.0 == sink.value.(mute := !sink.value.mute)
      && r.value.1 == (if r.value.0.mute then MuteOn else MuteOff)
    ensures r.Ok? && keysym != VolumeMuteKeysym && sink.value.mute ==> r.value == (sink.value, StillMuted)
    ensures r.Ok? && keysym != VolumeMuteKeysym && !sink.value.mute ==>
      !r.value.0.mute && r.value.1.VolumeAt? && r.value.1.percent <= 100
      && r.value.1.percent as real <= Clamp(r.value.0.volume) * 100.0 < r.value.1.percent as real + 1.0
    ensures r.Ok? && !sink.value.mute && (keysym == VolumeUpKeysym || keysym == VolumeDownKeysym) ==>
      r.value.0 == ChangeVolume(sink, if keysym == VolumeUpKeysym then MediaKeyStep else -MediaKeyStep).value
    ensures r.Ok? && keysym != VolumeMuteKeysym && keysym != VolumeUpKeysym && keysym != VolumeDownKeysym ==>
      r.value.0 == sink.value
  {
    match sink
    case None => Err(NoActiveSink)
    case Some(s) =>
      var after := KeyEffect(s, keysym);
      var (volume, mute) := SinkVolumeAndMute(Some(after));
      var summary :=
        if keysym == VolumeMuteKeysym then (if mute then MuteOn else MuteOff)
        else if s.mute then StillMuted
        else VolumeAt(volume.Floor as nat);
      Ok((after, summary))
  }

  /** Pressing mute twice gives the sink back as it was. */
  lemma MuteTwice(s: Sink)
    ensures MediaKeyPressed(Some(MediaKeyPressed(Some(s), VolumeMuteKeysym).value.0), VolumeMuteKeysym).value.0 == s
  {
  }

  /** Volume up then volume down gives an unmuted sink back when the step fits below 100 %. */
  lemma UpThenDown(s: Sink)
    requires !s.mute && 0.0 <= s.volume <= 0.95
    ensures MediaKeyPressed(Some(MediaKeyPressed(Some(s), VolumeUpKeysym).value.0), VolumeDownKeysym).value.0 == s
  {
    var up := MediaKeyPressed(Some(s), VolumeUpKeysym).value.0;
    assert up.volume == s.volume + 0.05;
  }

  // ---------------------------------------------------------------------------
  // send_notification
  // ---------------------------------------------------------------------------

  const MicrosPerSecond: int := 1_000_000
  const NotifyExpireSeconds: int := 3

  /** The previous notification: when it was sent (microseconds) and the id the daemon gave it. */
  datatype Sent = Sent(time: int, id: int)

  /** A `Notify` call: the id it replaces (0 for none), the summary and the expiry in milliseconds. */
  datatype Notification = Notification(replacesId: int, summary: string, timeoutMillis: int)

  /**
   * `send_notification(summary)` at time `now`, the daemon answering with
   * `newId`: the previous notification is replaced exactly when it was sent
   * less than three seconds ago; afterwards the new one is the previous one.
   */
  function SendNotification(prev: Option<Sent>, now: int, summary: string, newId: int): (r: (Notification, Option<Sent>))
    ensures r.1 == Some(Sent(now, newId))
    ensures r.0.summary == summary && r.0.timeoutMillis == 3000
    ensures prev.Some? && now - prev.value.time < 3 * MicrosPerSecond ==> r.0.replacesId == prev.value.id
    ensures prev.None? || now - prev.value.time >= 3 * MicrosPerSecond ==> r.0.replacesId == 0
  {
    var id := if prev.Some? && now - prev.value.time < NotifyExpireSeconds * MicrosPerSecond then prev.value.id else 0;
    (Notification(id, summary, NotifyExpireSeconds * 1000), Some(Sent(now, newId)))
  }

  /** A second notification within three seconds replaces the first one; a later one starts afresh. */
  lemma NotificationsCoalesce(prev: Option<Sent>, t1: int, id1: int, t2: int, id2: int, s1: string, s2: string)
    requires t1 <= t2
    ensures var (_, after) := SendNotification(prev, t1, s1, id1);
      SendNotification(after, t2, s2, id2).0.replacesId == if t2 - t1 < 3 * MicrosPerSecond then id1 else 0
  {
  }

  // ---------------------------------------------------------------------------
  // Splitting a key back into description and label
  // ---------------------------------------------------------------------------

  datatype SplitError = NotTwoParts

  predicate NoKeySep(s: string)
  {
    forall i: nat :: i <= |s| ==> !Text.OccursAt(s, KeySep, i)
  }

  /** `dev, prof = k.split('__')` as written: ValueError unless the key splits into exactly two parts. */
  function SplitKeyAsWritten(k: string): Result<(string, string), SplitError>
  {
    var parts := Text.Split(k, KeySep);
    if |parts| == 2 then Ok((parts[0], parts[1])) else Err(NotTwoParts)
  }

  /** A string without underscores after its first character holds no `__`. */
  lemma NoKeySepAfterFirst(s: string)
    requires forall i :: 1 <= i < |s| ==> s[i] != '_'
    ensures NoKeySep(s)
  {
    forall i: nat | i <= |s| ensures !Text.OccursAt(s, KeySep, i) {
      if i + 2 <= |s| {
        assert s[i..i + 2][1] == s[i + 1];
      }
    }
  }

  /**
   * As written, a description that ends in `_` is cut one character early:
   * its last underscore goes to the label.
   */
  lemma SplitKeyAsWrittenCutsEarly(d: string, l: string)
    requires NoUnderscore(d) && NoUnderscore(l)
    ensures SplitKeyAsWritten(ProfileKey(d + "_", l)) == Ok((d, "_" + l))
  {
    var k := ProfileKey(d + "_", l);
    assert k == d + KeySep + ("_" + l);
    forall i: nat | i < |d| ensures !Text.OccursAt(k, KeySep, i) {
      assert k[i] == d[i];
    }
    Text.SplitAtFirst(d, KeySep, "_" + l);
    NoKeySepAfterFirst("_" + l);
    Text.SplitWithoutSeparator("_" + l, KeySep);
  }

  /** As written, a description that itself holds `__` makes the key unreadable. */
  lemma SplitKeyAsWrittenRejects(d1: string, d2: string, l: string)
    requires NoUnderscore(d1) && NoUnderscore(d2) && NoUnderscore(l)
    ensures SplitKeyAsWritten(ProfileKey(d1 + KeySep + d2, l)).Err?
  {
    var k := ProfileKey(d1 + KeySep + d2, l);
    var b := d2 + KeySep + l;
    assert k == d1 + KeySep + b;
    forall i: nat | i < |d1| ensures !Text.OccursAt(k, KeySep, i) {
      assert k[i] == d1[i];
    }
    forall i: nat | i < |d2| ensures !Text.OccursAt(b, KeySep, i) {
      assert b[i] == d2[i];
    }
    NoKeySepAfterFirst(l);
    Text.SplitAtFirst(d1, KeySep, b);
    Text.SplitAtFirst(d2, KeySep, l);
    Text.SplitWithoutSeparator(l, KeySep);
  }

  /** The last position at or before `j` where `__` occurs in `k`. */
  function LastKeySep(k: string, j: nat): (r: Option<nat>)
    ensures r.Some? ==> r.value <= j && Text.OccursAt(k, KeySep, r.value)
    ensures r.Some? ==> forall i: nat :: r.value < i <= j ==> !Text.OccursAt(k, KeySep, i)
    ensures r.None? ==> forall i: nat :: i <= j ==> !Text.OccursAt(k, KeySep, i)
    decreases j
  {
    if Text.OccursAt(k, KeySep, j) then Some(j)
    else if j == 0 then None
    else LastKeySep(k, j - 1)
  }

  /**
   * `k.rsplit('__', 1)`: the description is everything before the last
   * `__`, the label everything after it.
   */
  function SplitKey(k: string): (r: Result<(string, string), SplitError>)
    ensures r.Err? <==> NoKeySep(k)
    ensures r.Ok? ==> k == ProfileKey(r.value.0, r.value.1) && NoKeySep(r.value.1)
  {
    match LastKeySep(k, |k|)
    case None => Err(NotTwoParts)
    case Some(j) =>
      var tail := k[j + 2..];
      assert k == k[..j] + KeySep + tail;
      forall i: nat | i <= |tail|
        ensures Text.OccursAt(tail, KeySep, i) ==> Text.OccursAt(k, KeySep, j + 2 + i)
      {
        if i + 2 <= |tail| {
          assert tail[i..i + 2] == k[j + 2 + i..j + 2 + i + 2];
        }
      }
      Ok((k[..j], tail))
  }

  /** Every key the profile table builds splits back into its description and label. */
  lemma SplitKeyRoundTrip(d: string, l: string)
    requires NoUnderscore(l)
    ensures SplitKey(ProfileKey(d, l)) == Ok((d, l))
  {
    var k := ProfileKey(d, l);
    assert Text.OccursAt(k, KeySep, |d|) by {
      assert k[|d|..|d| + 2] == KeySep;
    }
    forall i: nat | |d| < i <= |k| ensures !Text.OccursAt(k, KeySep, i) {
      if i + 2 <= |k| {
        assert k[i + 1] == l[i - 1 - |d|];
        assert k[i..i + 2][1] == k[i + 1];
      }
    }
    var j := LastKeySep(k, |k|);
    assert j == Some(|d|);
    assert k[..|d|] == d;
    assert k[|d| + 2..] == l;
  }

  /**
   * As written, a key whose description neither holds `__` nor ends in `_`
   * splits into its description and label, as the corrected reading does.
   */
  lemma SplitKeyAsWrittenClean(d: string, l: string)
    requires NoKeySep(d + "_") && NoUnderscore(l)
    ensures SplitKeyAsWritten(ProfileKey(d, l)) == Ok((d, l))
  {
    var k := ProfileKey(d, l);
    assert k == d + KeySep + l;
    forall i: nat | i < |d| ensures !Text.OccursAt(k, KeySep, i) {
      assert !Text.OccursAt(d + "_", KeySep, i);
      assert k[i..i + 2] == (d + "_")[i..i + 2];
    }
    NoKeySepAfterFirst(l);
    Text.SplitPair(d, KeySep, l);
  }

  // ---------------------------------------------------------------------------
  // update_menu
  // ---------------------------------------------------------------------------

  /** `dev.replace(' ', '_')`. */
  function Underscored(s: string): (r: string)
    ensures |r| == |s|
    ensures forall i :: 0 <= i < |s| ==> r[i] == if s[i] == ' ' then '_' else s[i]
  {
    if |s| == 0 then "" else [if s[0] == ' ' then '_' else s[0]] + Underscored(s[1..])
  }

  /** A device of the menu: the description first seen for it, and its profile labels, each with its key. */
  datatype Device = Device(name: string, items: seq<(string, string)>)

  /** The items of the device listed under `dk`, none when there is no such device. */
  function ItemsOf(devices: Dict<Device>, dk: string): seq<(string, string)>
  {
    match Lookup(devices, dk)
    case None => []
    case Some(d) => d.items
  }

  /** How many profile items the devices hold together. */
  function Count(ds: seq<Device>): nat
  {
    if |ds| == 0 then 0 else |ds[0].items| + Count(ds[1..])
  }

  function Total(devices: Dict<Device>): nat
  {
    Count(Values(devices))
  }

  /** Putting a device replaces the item count of the one it displaces. */
  lemma {:induction false} TotalPut(devices: Dict<Device>, dk: string, d: Device)
    ensures Total(Put(devices, dk, d)) == Total(devices) - |ItemsOf(devices, dk)| + |d.items|
    ensures |ItemsOf(devices, dk)| <= Total(devices)
    decreases |devices|
  {
    if |devices| > 0 {
      assert Values(devices) == [devices[0].1] + Values(devices[1..]);
      if devices[0].0 != dk {
        TotalPut(devices[1..], dk, d);
        var r := Put(devices, dk, d);
        assert r == [devices[0]] + Put(devices[1..], dk, d);
        assert Values(r) == [devices[0].1] + Values(Put(devices[1..], dk, d));
      } else {
        var r := Put(devices, dk, d);
        assert r == [(dk, d)] + devices[1..];
        assert Values(r) == [d] + Values(devices[1..]);
      }
    }
  }

  /** The device `dev`'s key is filed into: the one already listed under its name, or a new one. */
  function Filed(devices: Dict<Device>, dev: string, prof: string, link: string): Device
  {
    match Lookup(devices, Underscored(dev))
    case None => Device(dev, [(prof, link)])
    case Some(d) => d.(items := d.items + [(prof, link)])
  }

  /** One iteration over `all_profiles`: file the key under its device, opening the device when it is new. */
  function AddKey(devices: Dict<Device>, dev: string, prof: string, link: string): Dict<Device>
  {
    Put(devices, Underscored(dev), Filed(devices, dev, prof, link))
  }

  /** Every device is listed under its own name with spaces made underscores. */
  predicate NamesMatch(devices: Dict<Device>)
  {
    forall i :: 0 <= i < |devices| ==> Underscored(devices[i].1.name) == devices[i].0
  }

  lemma AddKeyNames(devices: Dict<Device>, dev: string, prof: string, link: string)
    requires NamesMatch(devices)
    ensures NamesMatch(AddKey(devices, dev, prof, link))
  {
    var dk := Underscored(dev);
    var nd := Filed(devices, dev, prof, link);
    var r := Put(devices, dk, nd);
    assert Underscored(nd.name) == dk by {
      if Lookup(devices, dk).Some? {
        var i :| 0 <= i < |devices| && devices[i] == (dk, Lookup(devices, dk).value);
      }
    }
    forall i | 0 <= i < |r| ensures Underscored(r[i].1.name) == r[i].0 {
      assert r[i] in r;
      if r[i] != (dk, nd) {
        var j :| 0 <= j < |devices| && devices[j] == r[i];
      }
    }
  }

  /**
   * Filing a key adds exactly its item to its device, after the items that
   * were there, keeps every other device, and adds one to the item count.
   */
  lemma AddKeyItems(devices: Dict<Device>, dev: string, prof: string, link: string)
    ensures ItemsOf(AddKey(devices, dev, prof, link), Underscored(dev)) == ItemsOf(devices, Underscored(dev)) + [(prof, link)]
    ensures forall dk :: dk != Underscored(dev) ==> ItemsOf(AddKey(devices, dev, prof, link), dk) == ItemsOf(devices, dk)
    ensures Total(AddKey(devices, dev, prof, link)) == Total(devices) + 1
  {
    var dk := Underscored(dev);
    var nd := Filed(devices, dev, prof, link);
    forall other | other != dk ensures ItemsOf(Put(devices, dk, nd), other) == ItemsOf(devices, other) {
      PutOther(devices, dk, nd, other);
    }
    TotalPut(devices, dk, nd);
  }

  /** The loop over the keys of `all_profiles`, in order. */
  function GroupKeys(devices: Dict<Device>, keys: seq<string>): Result<Dict<Device>, SplitError>
    decreases |keys|
  {
    if |keys| == 0 then Ok(devices)
    else
      match SplitKey(keys[0])
      case Err(e) => Err(e)
      case Ok((dev, prof)) => GroupKeys(AddKey(devices, dev, prof, keys[0]), keys[1..])
  }

  /** The same loop as written, splitting each key with `split('__')`. */
  function GroupKeysAsWritten(devices: Dict<Device>, keys: seq<string>): Result<Dict<Device>, SplitError>
    decreases |keys|
  {
    if |keys| == 0 then Ok(devices)
    else
      match SplitKeyAsWritten(keys[0])
      case Err(e) => Err(e)
      case Ok((dev, prof)) => GroupKeysAsWritten(AddKey(devices, dev, prof, keys[0]), keys[1..])
  }

  /** As written, grouping fails exactly when some key does not split into two parts. */
  lemma {:induction false} GroupKeysAsWrittenFails(devices: Dict<Device>, keys: seq<string>)
    ensures GroupKeysAsWritten(devices, keys).Err? <==> exists i :: 0 <= i < |keys| && SplitKeyAsWritten(keys[i]).Err?
    decreases |keys|
  {
    if |keys| > 0 {
      assert forall i :: 1 <= i < |keys| ==> keys[i] == keys[1..][i - 1];
      match SplitKeyAsWritten(keys[0])
      case Err(_) =>
      case Ok((dev, prof)) =>
        GroupKeysAsWrittenFails(AddKey(devices, dev, prof, keys[0]), keys[1..]);
        if exists i :: 0 <= i < |keys| && SplitKeyAsWritten(keys[i]).Err? {
          var i :| 0 <= i < |keys| && SplitKeyAsWritten(keys[i]).Err?;
          assert i > 0;
          assert keys[1..][i - 1] == keys[i];
        }
    }
  }

  /** Grouping as written gives the corrected grouping when every key splits the same both ways. */
  lemma {:induction false} GroupKeysAsWrittenAgrees(devices: Dict<Device>, keys: seq<string>)
    requires forall i :: 0 <= i < |keys| ==> SplitKeyAsWritten(keys[i]) == SplitKey(keys[i])
    ensures GroupKeysAsWritten(devices, keys) == GroupKeys(devices, keys)
    decreases |keys|
  {
    if |keys| > 0 {
      assert SplitKeyAsWritten(keys[0]) == SplitKey(keys[0]);
      match SplitKey(keys[0])
      case Err(_) =>
      case Ok((dev, prof)) =>
        assert forall i :: 0 <= i < |keys[1..]| ==> keys[1..][i] == keys[i + 1];
        GroupKeysAsWrittenAgrees(AddKey(devices, dev, prof, keys[0]), keys[1..]);
    }
  }

  /** The device a readable key belongs to. */
  function DeviceOf(k: string): string
    requires SplitKey(k).Ok?
  {
    Underscored(SplitKey(k).value.0)
  }

  /** Grouping fails exactly when some key holds no `__`. */
  lemma {:induction false} GroupKeysFails(devices: Dict<Device>, keys: seq<string>)
    ensures GroupKeys(devices, keys).Err? <==> exists i :: 0 <= i < |keys| && SplitKey(keys[i]).Err?
    decreases |keys|
  {
    if |keys| > 0 {
      assert forall i :: 1 <= i < |keys| ==> keys[i] == keys[1..][i - 1];
      match SplitKey(keys[0])
      case Err(_) =>
      case Ok((dev, prof)) =>
        GroupKeysFails(AddKey(devices, dev, prof, keys[0]), keys[1..]);
        if exists i :: 0 <= i < |keys| && SplitKey(keys[i]).Err? {
          var i :| 0 <= i < |keys| && SplitKey(keys[i]).Err?;
          assert i > 0;
          assert keys[1..][i - 1] == keys[i];
        }
    }
  }

  /** Grouping lists each device once, keeps names matching and files one item per key. */
  lemma {:induction false} GroupKeysTotal(devices: Dict<Device>, keys: seq<string>)
    requires NamesMatch(devices) && DistinctKeys(devices)
    ensures GroupKeys(devices, keys).Ok? ==> NamesMatch(GroupKeys(devices, keys).value)
    ensures GroupKeys(devices, keys).Ok? ==> DistinctKeys(GroupKeys(devices, keys).value)
    ensures GroupKeys(devices, keys).Ok? ==> Total(GroupKeys(devices, keys).value) == Total(devices) + |keys|
    decreases |keys|
  {
    if |keys| > 0 {
      match SplitKey(keys[0])
      case Err(_) =>
      case Ok((dev, prof)) =>
        AddKeyNames(devices, dev, prof, keys[0]);
        AddKeyItems(devices, dev, prof, keys[0]);
        PutDistinct(devices, Underscored(dev), Filed(devices, dev, prof, keys[0]));
        GroupKeysTotal(AddKey(devices, dev, prof, keys[0]), keys[1..]);
    }
  }

  /** After grouping, every key is filed under its device with its label. */
  lemma {:induction false} GroupKeysFiles(devices: Dict<Device>, keys: seq<string>)
    requires NamesMatch(devices)
    ensures GroupKeys(devices, keys).Ok? ==> forall i :: 0 <= i < |keys| && SplitKey(keys[i]).Ok? ==>
      (SplitKey(keys[i]).value.1, keys[i]) in ItemsOf(GroupKeys(devices, keys).value, DeviceOf(keys[i]))
    decreases |keys|
  {
    if |keys| > 0 {
      var k := keys[0];
      match SplitKey(k)
      case Err(_) =>
      case Ok((dev, prof)) =>
        var next := AddKey(devices, dev, prof, k);
        AddKeyNames(devices, dev, prof, k);
        AddKeyItems(devices, dev, prof, k);
        GroupKeysFiles(next, keys[1..]);
        if GroupKeys(devices, keys).Ok? {
          var r := GroupKeys(devices, keys).value;
          assert GroupKeys(next, keys[1..]) == Ok(r);
          forall i | 0 <= i < |keys| && SplitKey(keys[i]).Ok?
            ensures (SplitKey(keys[i]).value.1, keys[i]) in ItemsOf(r, DeviceOf(keys[i]))
          {
            if i == 0 {
              assert (prof, k) in ItemsOf(next, Underscored(dev));
              GroupKeysKeeps(next, keys[1..], Underscored(dev), (prof, k));
            } else {
              assert keys[i] == keys[1..][i - 1];
            }
          }
        }
    }
  }

  /** After grouping, every filed item was there before or is a key filed under its device with its label. */
  lemma {:induction false} GroupKeysFrom(devices: Dict<Device>, keys: seq<string>, dk: string, x: (string, string))
    requires GroupKeys(devices, keys).Ok? && x in ItemsOf(GroupKeys(devices, keys).value, dk)
    ensures x in ItemsOf(devices, dk) || (x.1 in keys && SplitKey(x.1).Ok? && SplitKey(x.1).value.1 == x.0 && DeviceOf(x.1) == dk)
    decreases |keys|
  {
    if |keys| > 0 {
      var k := keys[0];
      var (dev, prof) := SplitKey(k).value;
      var next := AddKey(devices, dev, prof, k);
      assert GroupKeys(next, keys[1..]) == GroupKeys(devices, keys);
      AddKeyItems(devices, dev, prof, k);
      GroupKeysFrom(next, keys[1..], dk, x);
      if x !in ItemsOf(next, dk) {
        assert x.1 in keys[1..];
      } else if x !in ItemsOf(devices, dk) {
        assert dk == Underscored(dev) && x == (prof, k);
      }
    }
  }

  /** Grouping more keys never loses an item already filed. */
  lemma {:induction false} GroupKeysKeeps(devices: Dict<Device>, keys: seq<string>, dk: string, x: (string, string))
    requires NamesMatch(devices)
    requires x in ItemsOf(devices, dk)
    ensures GroupKeys(devices, keys).Ok? ==> x in ItemsOf(GroupKeys(devices, keys).value, dk)
    decreases |keys|
  {
    if |keys| > 0 {
      match SplitKey(keys[0])
      case Err(_) =>
      case Ok((dev, prof)) =>
        AddKeyNames(devices, dev, prof, keys[0]);
        AddKeyItems(devices, dev, prof, keys[0]);
        GroupKeysKeeps(AddKey(devices, dev, prof, keys[0]), keys[1..], dk, x);
    }
  }

  /** A menu entry and the position it is inserted at: a device label, or a profile with the key it switches to. */
  datatype MenuItem = LabelItem(text: string, pos: nat) | ProfileItem(text: string, link: string, pos: nat)

  /** A device's label: its description, then the battery level of the Bluetooth device of that name, if any. */
  function DeviceLabel(d: Device, batt: Dict<string>): string
  {
    d.name + Lookup(batt, d.name).GetOr("")
  }

  function ProfileItems(items: seq<(string, string)>, pos: nat): seq<MenuItem>
  {
    seq(|items|, j requires 0 <= j < |items| => ProfileItem(items[j].0, items[j].1, pos + j))
  }

  /** The profile items' labels and keys, in menu order. */
  function Links(menu: seq<MenuItem>): seq<(string, string)>
  {
    if |menu| == 0 then []
    else (if menu[0].ProfileItem? then [(menu[0].text, menu[0].link)] else []) + Links(menu[1..])
  }

  /** The label items' texts, in menu order. */
  function Labels(menu: seq<MenuItem>): seq<string>
  {
    if |menu| == 0 then [] else (if menu[0].LabelItem? then [menu[0].text] else []) + Labels(menu[1..])
  }

  lemma {:induction false} LinksAppend(a: seq<MenuItem>, b: seq<MenuItem>)
    ensures Links(a + b) == Links(a) + Links(b)
    decreases |a|
  {
    if |a| == 0 {
      assert a + b == b;
    } else {
      var first := if a[0].ProfileItem? then [(a[0].text, a[0].link)] else [];
      assert (a + b)[0] == a[0];
      assert (a + b)[1..] == a[1..] + b;
      LinksAppend(a[1..], b);
      assert Links(a + b) == first + (Links(a[1..]) + Links(b));
      assert Links(a) == first + Links(a[1..]);
    }
  }

  lemma {:induction false} LabelsAppend(a: seq<MenuItem>, b: seq<MenuItem>)
    ensures Labels(a + b) == Labels(a) + Labels(b)
    decreases |a|
  {
    if |a| == 0 {
      assert a + b == b;
    } else {
      var first := if a[0].LabelItem? then [a[0].text] else [];
      assert (a + b)[0] == a[0];
      assert (a + b)[1..] == a[1..] + b;
      LabelsAppend(a[1..], b);
      assert Labels(a + b) == first + (Labels(a[1..]) + Labels(b));
      assert Labels(a) == first + Labels(a[1..]);
    }
  }

  lemma FiltersAppend(a: seq<MenuItem>, b: seq<MenuItem>)
    ensures Links(a + b) == Links(a) + Links(b)
    ensures Labels(a + b) == Labels(a) + Labels(b)
  {
    LinksAppend(a, b);
    LabelsAppend(a, b);
  }

  lemma {:induction false} FiltersOfProfileItems(items: seq<(string, string)>, pos: nat)
    ensures Links(ProfileItems(items, pos)) == items
    ensures Labels(ProfileItems(items, pos)) == []
    decreases |items|
  {
    if |items| > 0 {
      assert ProfileItems(items, pos)[1..] == ProfileItems(items[1..], pos + 1);
      FiltersOfProfileItems(items[1..], pos + 1);
    }
  }

  /** All devices' items, device after device. */
  function Flatten(ds: seq<Device>): (r: seq<(string, string)>)
    ensures |r| == Count(ds)
  {
    if |ds| == 0 then [] else ds[0].items + Flatten(ds[1..])
  }

  function DeviceLabels(ds: seq<Device>, batt: Dict<string>): seq<string>
  {
    seq(|ds|, i requires 0 <= i < |ds| => DeviceLabel(ds[i], batt))
  }

  /** The menu entries of the devices from position `pos` on: each device's label, then its profiles. */
  function MenuItems(ds: seq<Device>, batt: Dict<string>, pos: nat): seq<MenuItem>
    decreases |ds|
  {
    if |ds| == 0 then []
    else
      [LabelItem(DeviceLabel(ds[0], batt), pos)] + ProfileItems(ds[0].items, pos + 1)
        + MenuItems(ds[1..], batt, pos + 1 + |ds[0].items|)
  }

  /** The menu holds one entry per device and per item, at consecutive positions from `pos`. */
  lemma {:induction false} MenuPositions(ds: seq<Device>, batt: Dict<string>, pos: nat)
    ensures |MenuItems(ds, batt, pos)| == |ds| + Count(ds)
    ensures forall j :: 0 <= j < |MenuItems(ds, batt, pos)| ==> MenuItems(ds, batt, pos)[j].pos == pos + j
    decreases |ds|
  {
    if |ds| > 0 {
      var d := ds[0];
      var head: seq<MenuItem> := [LabelItem(DeviceLabel(d, batt), pos)] + ProfileItems(d.items, pos + 1);
      var rest := MenuItems(ds[1..], batt, pos + 1 + |d.items|);
      MenuPositions(ds[1..], batt, pos + 1 + |d.items|);
      assert MenuItems(ds, batt, pos) == head + rest;
      forall j | 0 <= j < |head + rest| ensures (head + rest)[j].pos == pos + j {
        if j >= |head| {
          assert (head + rest)[j] == rest[j - |head|];
        }
      }
    }
  }

  /** Read in order, the menu's profile items are the devices' items. */
  lemma {:induction false} MenuLinks(ds: seq<Device>, batt: Dict<string>, pos: nat)
    ensures Links(MenuItems(ds, batt, pos)) == Flatten(ds)
    decreases |ds|
  {
    if |ds| > 0 {
      var d := ds[0];
      var head := [LabelItem(DeviceLabel(d, batt), pos)];
      var items := ProfileItems(d.items, pos + 1);
      var rest := MenuItems(ds[1..], batt, pos + 1 + |d.items|);
      MenuLinks(ds[1..], batt, pos + 1 + |d.items|);
      assert MenuItems(ds, batt, pos) == head + items + rest;
      LinksAppend(head, items);
      LinksAppend(head + items, rest);
      FiltersOfProfileItems(d.items, pos + 1);
      assert head[1..] == [];
      assert Links(head) == [];
    }
  }

  /** Read in order, the menu's labels are the devices' labels. */
  lemma {:induction false} MenuLabels(ds: seq<Device>, batt: Dict<string>, pos: nat)
    ensures Labels(MenuItems(ds, batt, pos)) == DeviceLabels(ds, batt)
    decreases |ds|
  {
    if |ds| > 0 {
      var d := ds[0];
      var head := [LabelItem(DeviceLabel(d, batt), pos)];
      var items := ProfileItems(d.items, pos + 1);
      var rest := MenuItems(ds[1..], batt, pos + 1 + |d.items|);
      MenuLabels(ds[1..], batt, pos + 1 + |d.items|);
      assert MenuItems(ds, batt, pos) == head + items + rest;
      LabelsAppend(head, items);
      LabelsAppend(head + items, rest);
      FiltersOfProfileItems(d.items, pos + 1);
      assert head[1..] == [];
      assert Labels(head) == [DeviceLabel(d, batt)];
      assert DeviceLabels(ds, batt) == [DeviceLabel(d, batt)] + DeviceLabels(ds[1..], batt);
    }
  }

  /** Read in order, the menu's labels are the devices' labels and its profile items are the devices' items. */
  lemma MenuContents(ds: seq<Device>, batt: Dict<string>, pos: nat)
    ensures Links(MenuItems(ds, batt, pos)) == Flatten(ds)
    ensures Labels(MenuItems(ds, batt, pos)) == DeviceLabels(ds, batt)
  {
    MenuLinks(ds, batt, pos);
    MenuLabels(ds, batt, pos);
  }

  /**
   * `update_menu`: group the keys of `all_profiles` by device and insert
   * the devices' entries from position 3 on. `batt` is what
   * `get_batt_levels` reads from BlueZ.
   */
  function UpdateMenu(all: Dict<Entry>, batt: Dict<string>): Result<seq<MenuItem>, SplitError>
  {
    match GroupKeys([], Keys(all))
    case Err(e) => Err(e)
    case Ok(devices) => Ok(MenuItems(Values(devices), batt, 3))
  }

  /** An item filed under a listed device appears among all devices' items. */
  lemma {:induction false} ItemsInFlatten(devices: Dict<Device>, dk: string, x: (string, string))
    requires x in ItemsOf(devices, dk)
    ensures x in Flatten(Values(devices))
    decreases |devices|
  {
    assert Values(devices) == [devices[0].1] + Values(devices[1..]);
    if devices[0].0 != dk {
      ItemsInFlatten(devices[1..], dk, x);
    }
  }

  /** Every item in the flattened devices is filed under the device it belongs to. */
  lemma {:induction false} FlattenInItems(devices: Dict<Device>, x: (string, string))
    requires DistinctKeys(devices) && x in Flatten(Values(devices))
    ensures exists i :: 0 <= i < |devices| && x in ItemsOf(devices, devices[i].0)
  {
    FlattenIndex(Values(devices), x);
    forall i | 0 <= i < |devices| && x in devices[i].1.items
      ensures x in ItemsOf(devices, devices[i].0)
    {
      LookupDistinct(devices, i);
    }
  }

  /** An item of the flattened devices belongs to one of them. */
  lemma {:induction false} FlattenIndex(ds: seq<Device>, x: (string, string))
    requires x in Flatten(ds)
    ensures exists i :: 0 <= i < |ds| && x in ds[i].items
    decreases |ds|
  {
    if x !in ds[0].items {
      FlattenIndex(ds[1..], x);
      var j :| 0 <= j < |ds[1..]| && x in ds[1..][j].items;
      assert ds[1..][j] == ds[j + 1];
    }
  }

  /** `update_menu` fails exactly when some key holds no `__`. */
  lemma UpdateMenuFails(all: Dict<Entry>, batt: Dict<string>)
    ensures UpdateMenu(all, batt).Err? <==> exists k :: k in Keys(all) && SplitKey(k).Err?
  {
    var keys := Keys(all);
    GroupKeysFails([], keys);
    assert (exists k :: k in keys && SplitKey(k).Err?) <==> exists i :: 0 <= i < |keys| && SplitKey(keys[i]).Err?;
  }

  /** A built menu has one entry per key, at consecutive positions from 3. */
  lemma UpdateMenuShape(all: Dict<Entry>, batt: Dict<string>)
    ensures UpdateMenu(all, batt).Ok? ==>
      var menu := UpdateMenu(all, batt).value;
      && (forall j :: 0 <= j < |menu| ==> menu[j].pos == 3 + j)
      && |Links(menu)| == |all|
  {
    var keys := Keys(all);
    if GroupKeys([], keys).Ok? {
      var devices := GroupKeys([], keys).value;
      GroupKeysTotal([], keys);
      MenuPositions(Values(devices), batt, 3);
      MenuContents(Values(devices), batt, 3);
    }
  }

  /** A built menu shows every key under its label, and nothing else. */
  lemma UpdateMenuLinks(all: Dict<Entry>, batt: Dict<string>)
    ensures UpdateMenu(all, batt).Ok? ==>
      var menu := UpdateMenu(all, batt).value;
      && (forall k :: k in Keys(all) ==> SplitKey(k).Ok?)
      && (forall k :: k in Keys(all) ==> (SplitKey(k).value.1, k) in Links(menu))
      && (forall x :: x in Links(menu) ==> x.1 in Keys(all) && SplitKey(x.1).Ok? && SplitKey(x.1).value.1 == x.0)
  {
    var keys := Keys(all);
    UpdateMenuFails(all, batt);
    if GroupKeys([], keys).Ok? {
      var devices := GroupKeys([], keys).value;
      var menu := MenuItems(Values(devices), batt, 3);
      GroupKeysTotal([], keys);
      GroupKeysFiles([], keys);
      MenuContents(Values(devices), batt, 3);
      forall k | k in keys ensures (SplitKey(k).value.1, k) in Links(menu) {
        var i :| 0 <= i < |keys| && keys[i] == k;
        ItemsInFlatten(devices, DeviceOf(k), (SplitKey(k).value.1, k));
      }
      forall x | x in Links(menu) ensures x.1 in keys && SplitKey(x.1).Ok? && SplitKey(x.1).value.1 == x.0 {
        FlattenInItems(devices, x);
        var i :| 0 <= i < |devices| && x in ItemsOf(devices, devices[i].0);
        GroupKeysFrom([], keys, devices[i].0, x);
      }
    }
  }

  /**
   * The menu `update_menu` builds: it fails exactly when some key holds no
   * `__`; otherwise its entries sit at consecutive positions from 3, one
   * profile item per key, each key shown with the label it was built from,
   * and nothing else.
   */
  lemma UpdateMenuSpec(all: Dict<Entry>, batt: Dict<string>)
    ensures UpdateMenu(all, batt).Err? <==> exists k :: k in Keys(all) && SplitKey(k).Err?
    ensures UpdateMenu(all, batt).Ok? ==>
      var menu := UpdateMenu(all, batt).value;
      && (forall j :: 0 <= j < |menu| ==> menu[j].pos == 3 + j)
      && |Links(menu)| == |all|
      && (forall k :: k in Keys(all) ==> (SplitKey(k).value.1, k) in Links(menu))
      && (forall x :: x in Links(menu) ==> x.1 in Keys(all) && SplitKey(x.1).Ok? && SplitKey(x.1).value.1 == x.0)
  {
    UpdateMenuFails(all, batt);
    UpdateMenuShape(all, batt);
    UpdateMenuLinks(all, batt);
  }

  /**
   * The menu built right after `introspect` never fails, and shows every
   * offered profile of every card under its key with its label.
   */
  lemma IntrospectedMenu(cards: seq<Card>, sink: Option<string>, batt: Dict<string>)
    ensures UpdateMenu(Introspect(cards, sink).allProfiles, batt).Ok?
    ensures forall c: nat, p: nat :: OfferedLabel(cards, c, p).Some? ==>
      (OfferedLabel(cards, c, p).value, OfferedKey(cards, c, p).value) in Links(UpdateMenu(Introspect(cards, sink).allProfiles, batt).value)
  {
    var all := Introspect(cards, sink).allProfiles;
    IntrospectConsistent(cards, sink);
    forall k | k in Keys(all) ensures SplitKey(k).Ok? {
      IntrospectKeys(cards, sink, k);
      var c: nat, p: nat :| OfferedKey(cards, c, p) == Some(k);
      LabelsHaveNoUnderscore(cards[c].profiles[p].name);
      SplitKeyRoundTrip(cards[c].description, OfferedLabel(cards, c, p).value);
    }
    UpdateMenuSpec(all, batt);
    forall c: nat, p: nat | OfferedLabel(cards, c, p).Some?
      ensures (OfferedLabel(cards, c, p).value, OfferedKey(cards, c, p).value) in Links(UpdateMenu(all, batt).value)
    {
      var k := OfferedKey(cards, c, p).value;
      IntrospectKeys(cards, sink, k);
      LabelsHaveNoUnderscore(cards[c].profiles[p].name);
      SplitKeyRoundTrip(cards[c].description, OfferedLabel(cards, c, p).value);
    }
  }

  /** `update_menu` as written, grouping with `split('__')`. */
  function UpdateMenuAsWritten(all: Dict<Entry>, batt: Dict<string>): Result<seq<MenuItem>, SplitError>
  {
    match GroupKeysAsWritten([], Keys(all))
    case Err(e) => Err(e)
    case Ok(devices) => Ok(MenuItems(Values(devices), batt, 3))
  }

  /**
   * As written, `update_menu` fails exactly when some key does not split
   * into two parts, and it builds the corrected menu whenever every key
   * splits the same both ways.
   */
  lemma UpdateMenuAsWrittenSpec(all: Dict<Entry>, batt: Dict<string>)
    ensures UpdateMenuAsWritten(all, batt).Err? <==> exists k :: k in Keys(all) && SplitKeyAsWritten(k).Err?
    ensures (forall k :: k in Keys(all) ==> SplitKeyAsWritten(k) == SplitKey(k)) ==>
      UpdateMenuAsWritten(all, batt) == UpdateMenu(all, batt)
  {
    var keys := Keys(all);
    GroupKeysAsWrittenFails([], keys);
    assert (exists k :: k in keys && SplitKeyAsWritten(k).Err?) <==> exists i :: 0 <= i < |keys| && SplitKeyAsWritten(keys[i]).Err?;
    if forall k :: k in keys ==> SplitKeyAsWritten(k) == SplitKey(k) {
      assert forall i :: 0 <= i < |keys| ==> keys[i] in keys;
      GroupKeysAsWrittenAgrees([], keys);
    }
  }

  /**
   * Right after `introspect`, when no card's description holds `__` or ends
   * in `_`, the menu as written is the corrected one: it never fails and
   * shows every offered profile under its key.
   */
  lemma IntrospectedMenuAsWritten(cards: seq<Card>, sink: Option<string>, batt: Dict<string>)
    requires forall c :: 0 <= c < |cards| ==> NoKeySep(cards[c].description + "_")
    ensures UpdateMenuAsWritten(Introspect(cards, sink).allProfiles, batt) == UpdateMenu(Introspect(cards, sink).allProfiles, batt)
    ensures UpdateMenuAsWritten(Introspect(cards, sink).allProfiles, batt).Ok?
  {
    var all := Introspect(cards, sink).allProfiles;
    forall k | k in Keys(all) ensures SplitKeyAsWritten(k) == SplitKey(k) {
      IntrospectKeys(cards, sink, k);
      var c: nat, p: nat :| OfferedKey(cards, c, p) == Some(k);
      LabelsHaveNoUnderscore(cards[c].profiles[p].name);
      SplitKeyRoundTrip(cards[c].description, OfferedLabel(cards, c, p).value);
      SplitKeyAsWrittenClean(cards[c].description, OfferedLabel(cards, c, p).value);
    }
    UpdateMenuAsWrittenSpec(all, batt);
    IntrospectedMenu(cards, sink, batt);
  }
}

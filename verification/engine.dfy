/** The pure decisions of `Engine` (app/source/engine.cpp): the Hammond
    drawbar and percussion controller mapping in both directions, which
    controllers `SendControllersForPart` sends, what `SetData` reloads and
    resends, and the project transform of `DeletePreset`. Plugins, JACK and
    the file system are not modelled: where the C++ sends a message, the
    model returns it. */
module Engine {
  import opened Wrappers
  import opened IntMath
  import opened Midi
  import opened ProjectData
  import opened EngineData

  // ---------------------------------------------------------------------
  // Drawbar <-> controller value (app/source/engine.cpp:171-175, 385)
  // ---------------------------------------------------------------------

  /** A drawbar position 0..8 as sent to an organ plugin: fully pulled out
      (8) is 0, pushed in (0) is 127. */
  function DrawbarToCc(v: int): (cc: int)
    ensures 0 <= cc <= 127
    ensures v <= 0 ==> cc == 127
    ensures v >= 8 ==> cc == 0
  {
    var c := (8 - Clamp(v, 0, 8)) * 16;
    if c > 64 then c - 1 else c
  }

  /** A controller value received from an organ plugin as a drawbar
      position. The value is a signed `char`, and the C++ division
      truncates toward zero, written out for a negative dividend. */
  function CcToDrawbar(cc: int): (v: int)
    requires -128 <= cc <= 127
    ensures 0 <= v <= 8
    ensures cc < 0 ==> v == 8
  {
    var n := cc + 8;
    var q := if n >= 0 then n / 16 else -((-n) / 16);
    Clamp(8 - q, 0, 8)
  }

  /** Every drawbar position survives the trip out to the plugin and back. */
  lemma DrawbarRoundTrip(v: int)
    requires 0 <= v <= 8
    ensures CcToDrawbar(DrawbarToCc(v)) == v
  {
    if v == 0 { assert DrawbarToCc(v) == 127; }
    else if v == 1 { assert DrawbarToCc(v) == 111; }
    else if v == 2 { assert DrawbarToCc(v) == 95; }
    else if v == 3 { assert DrawbarToCc(v) == 79; }
    else if v == 4 { assert DrawbarToCc(v) == 64; }
    else if v == 5 { assert DrawbarToCc(v) == 48; }
    else if v == 6 { assert DrawbarToCc(v) == 32; }
    else if v == 7 { assert DrawbarToCc(v) == 16; }
    else { assert DrawbarToCc(v) == 0; }
  }

  /** Decoding picks the nearest drawbar position: re-encoding a received
      value lands within 8 of it. */
  lemma CcToDrawbarIsNearest(cc: int)
    requires 0 <= cc <= 127
    ensures -8 <= DrawbarToCc(CcToDrawbar(cc)) - cc <= 8
  {
    var v := CcToDrawbar(cc);
    DrawbarRoundTrip(v);
    if v == 0 { assert cc >= 120; }
    else if v == 8 { assert cc <= 7; }
  }

  // ---------------------------------------------------------------------
  // Outgoing organ messages: UpdateHammondPlugins (engine.cpp:155-200)
  // ---------------------------------------------------------------------

  /** The switch a controller number 80..83 stands for. */
  const SwitchFlags: seq<Flag> := [Percussion, PercussionSoft, PercussionFast, Percussion2ndHarmonic]

  /** Messages for drawbars i..8 of manual m: controller 70 + drawbar on
      channel m, for each drawbar that moved (or all, when forced). */
  function ManualMessages(before: HammondData, after: HammondData, force: bool, m: nat, i: nat): (r: seq<SimpleEvent>)
    requires m < 2 && i <= 9
    ensures |r| <= 9 - i
    ensures !force && before.manuals[m] == after.manuals[m] ==> r == []
    decreases 9 - i
  {
    if i == 9 then []
    else
      var v := after.manuals[m].registers[i];
      var head := if force || before.manuals[m].registers[i] != v
                  then [ControlChangeEvent(m, 70 + i, DrawbarToCc(v))]
                  else [];
      head + ManualMessages(before, after, force, m, i + 1)
  }

  /** The message for one switch: controller `cc` on channel 0, value 127
      for on and 0 for off, sent when the switch changed (or when forced). */
  function SwitchMessage(before: HammondData, after: HammondData, force: bool, f: Flag, cc: int): (r: seq<SimpleEvent>)
    ensures |r| <= 1
    ensures !force && GetFlag(before, f) == GetFlag(after, f) ==> r == []
  {
    var on := GetFlag(after, f);
    if force || GetFlag(before, f) != on then [ControlChangeEvent(0, cc, if on then 127 else 0)] else []
  }

  /** Percussion, soft, fast and 2nd harmonic on controllers 80..83.
      Overdrive is never sent. */
  function SwitchMessages(before: HammondData, after: HammondData, force: bool): (r: seq<SimpleEvent>)
    ensures |r| <= 4
    ensures !force && before == after ==> r == []
  {
    SwitchMessage(before, after, force, Percussion, 80)
    + (SwitchMessage(before, after, force, PercussionSoft, 81)
       + (SwitchMessage(before, after, force, PercussionFast, 82)
          + SwitchMessage(before, after, force, Percussion2ndHarmonic, 83)))
  }

  /** What each idle organ plugin is sent when the organ settings change:
      both manuals' drawbars, then the four switches. */
  function HammondMessages(before: HammondData, after: HammondData, force: bool): (r: seq<SimpleEvent>)
    ensures |r| <= 22
    ensures !force && before == after ==> r == []
  {
    ManualMessages(before, after, force, 0, 0) + ManualMessages(before, after, force, 1, 0)
    + SwitchMessages(before, after, force)
  }

  // ---------------------------------------------------------------------
  // Incoming organ messages: OnMidiFromPlugin (engine.cpp:362-420)
  // ---------------------------------------------------------------------

  /** The organ settings after a controller message from an organ plugin,
      or None when the engine leaves its data alone. A drawbar message that
      does not move the drawbar is dropped; a switch message is always
      applied. */
  function HammondFromCc(h: HammondData, e: SimpleEvent): Option<HammondData>
  {
    if !IsKind(e, Kind.ControlChange) then None
    else if 70 <= ControlNumber(e) < 79 then
      if Channel(e) < 2 then
        var m := Channel(e);
        var i := ControlNumber(e) - 70;
        var v := CcToDrawbar(ControlValue(e));
        if v != h.manuals[m].registers[i]
        then Some(ChangeManual(h, m, ChangeRegister(h.manuals[m], i, v)))
        else None
      else None
    else if 80 <= ControlNumber(e) < 84 && Channel(e) == 0 then
      Some(ChangeFlag(h, SwitchFlags[ControlNumber(e) - 80], ControlValue(e) > 63))
    else None
  }

  /** What a plugin message does to the organ: a drawbar controller
      70..78 on channel 0 or 1 moves exactly that drawbar of that manual to
      the decoded position, and is dropped when the drawbar is already
      there; a switch controller 80..83 on channel 0 sets exactly that
      switch, on for values above 63; anything else is ignored. */
  lemma HammondFromCcSpec(h: HammondData, e: SimpleEvent)
    ensures HammondFromCc(h, e).Some? ==> IsKind(e, Kind.ControlChange)
    ensures HammondFromCc(h, e).Some? && 70 <= ControlNumber(e) < 79 ==>
              var r := HammondFromCc(h, e).value;
              var m := Channel(e);
              var i := ControlNumber(e) - 70;
              && m < 2
              && r.manuals[m].registers[i] == CcToDrawbar(ControlValue(e)) != h.manuals[m].registers[i]
              && r.manuals[1 - m] == h.manuals[1 - m]
              && (forall j :: 0 <= j < 9 && j != i ==> r.manuals[m].registers[j] == h.manuals[m].registers[j])
              && r.(manuals := h.manuals) == h
    ensures HammondFromCc(h, e).None? && IsKind(e, Kind.ControlChange) && 70 <= ControlNumber(e) < 79 && Channel(e) < 2 ==>
              h.manuals[Channel(e)].registers[ControlNumber(e) - 70] == CcToDrawbar(ControlValue(e))
    ensures HammondFromCc(h, e).Some? && !(70 <= ControlNumber(e) < 79) ==>
              && Channel(e) == 0 && 80 <= ControlNumber(e) < 84
              && HammondFromCc(h, e).value == ChangeFlag(h, SwitchFlags[ControlNumber(e) - 80], ControlValue(e) > 63)
    ensures IsKind(e, Kind.ControlChange) && Channel(e) == 0 && 80 <= ControlNumber(e) < 84 ==> HammondFromCc(h, e).Some?
  {
  }

  /** Data bytes of 0x80 or more read as negative `char`s: as a controller
      number they match neither the drawbars nor the switches, and as a
      value they pull a drawbar to position 8 and turn a switch off. */
  lemma HighDataBytes(h: HammondData, e: SimpleEvent)
    requires IsKind(e, Kind.ControlChange)
    ensures e.b1 >= 0x80 ==> HammondFromCc(h, e).None?
    ensures e.b2 >= 0x80 && 70 <= e.b1 < 79 && Channel(e) < 2 ==>
              var r := HammondFromCc(h, e);
              var m := Channel(e);
              var i := e.b1 - 70;
              (r.None? ==> h.manuals[m].registers[i] == 8) && (r.Some? ==> r.value.manuals[m].registers[i] == 8)
    ensures e.b2 >= 0x80 && 80 <= e.b1 < 84 && Channel(e) == 0 ==>
              var r := HammondFromCc(h, e);
              r.Some? && !GetFlag(r.value, SwitchFlags[e.b1 - 80])
  {
    HammondFromCcSpec(h, e);
    if e.b1 >= 0x80 {
      assert ControlNumber(e) < 0;
    }
    if e.b2 >= 0x80 {
      assert ControlValue(e) < 0;
    }
  }

  /** `Engine::OnMidiFromPlugin`: the new engine data, or None when nothing
      is set. `sysex` is None for a system-exclusive event; `owner` is the
      sender's owning instrument; `busy` says the sender is already being
      processed, the guard against feedback loops. */
  function OnMidiFromPlugin(d: Data, owner: nat, busy: bool, event: Option<SimpleEvent>): (r: Option<Data>)
    ensures r.Some? ==>
              && owner < |d.project.instruments| && d.project.instruments[owner].isHammond
              && !busy && event.Some?
              && Some(r.value.hammond) == HammondFromCc(d.hammond, event.value)
              && r.value.(hammond := d.hammond) == d
  {
    if owner < |d.project.instruments| && d.project.instruments[owner].isHammond && !busy && event.Some? then
      match HammondFromCc(d.hammond, event.value)
      case Some(h) => Some(ChangeHammondData(d, h))
      case None => None
    else None
  }

  /** The organ state after a sequence of plugin messages. */
  function ApplyOne(h: HammondData, e: SimpleEvent): HammondData {
    HammondFromCc(h, e).GetOr(h)
  }

  function ApplyAll(h: HammondData, es: seq<SimpleEvent>): HammondData
    decreases |es|
  {
    if es == [] then h else ApplyAll(ApplyOne(h, es[0]), es[1..])
  }

  lemma {:induction false} ApplyAllAppend(h: HammondData, a: seq<SimpleEvent>, b: seq<SimpleEvent>)
    ensures ApplyAll(h, a + b) == ApplyAll(ApplyAll(h, a), b)
    decreases |a|
  {
    if a == [] {
      assert a + b == b;
    } else {
      assert (a + b)[0] == a[0] && (a + b)[1..] == a[1..] + b;
      ApplyAllAppend(ApplyOne(h, a[0]), a[1..], b);
    }
  }

  lemma ApplyAllCons(h: HammondData, e: SimpleEvent, rest: seq<SimpleEvent>)
    ensures ApplyAll(h, [e] + rest) == ApplyAll(ApplyOne(h, e), rest)
  {
    assert ([e] + rest)[1..] == rest;
  }

  /** One outgoing drawbar message, fed back, sets exactly its drawbar. */
  lemma DrawbarMessageSetsRegister(h: HammondData, m: nat, i: nat, v: int)
    requires m < 2 && i < 9 && 0 <= v <= 8
    ensures var r := ApplyOne(h, ControlChangeEvent(m, 70 + i, DrawbarToCc(v)));
            && r.manuals[m] == ChangeRegister(h.manuals[m], i, v)
            && r.(manuals := h.manuals) == h
            && r.manuals[1 - m] == h.manuals[1 - m]
  {
    var e := ControlChangeEvent(m, 70 + i, DrawbarToCc(v));
    DrawbarRoundTrip(v);
    assert Channel(e) == m && ControlNumber(e) == 70 + i && ControlValue(e) == DrawbarToCc(v);
    if v == h.manuals[m].registers[i] {
      assert ChangeRegister(h.manuals[m], i, v).registers == h.manuals[m].registers;
    }
  }

  /** The message for one switch, fed back ahead of `rest`, brings that
      switch to its new state and leaves everything else alone. */
  lemma SwitchMessageFeedBack(h: HammondData, before: HammondData, after: HammondData, force: bool,
                              f: Flag, cc: int, rest: seq<SimpleEvent>)
    requires 80 <= cc < 84 && SwitchFlags[cc - 80] == f
    requires GetFlag(h, f) == GetFlag(before, f)
    ensures ApplyAll(h, SwitchMessage(before, after, force, f, cc) + rest)
            == ApplyAll(ChangeFlag(h, f, GetFlag(after, f)), rest)
  {
    var on := GetFlag(after, f);
    ChangeFlagLaws(h, f, on, on);
    if force || GetFlag(before, f) != on {
      var e := ControlChangeEvent(0, cc, if on then 127 else 0);
      ApplyAllCons(h, e, rest);
      assert ApplyOne(h, e) == ChangeFlag(h, f, on);
    } else {
      assert SwitchMessage(before, after, force, f, cc) + rest == rest;
    }
  }

  /** The organ `h` with drawbar i of manual m set to v. */
  function SetDrawbar(h: HammondData, m: nat, i: nat, v: int): HammondData
    requires m < 2 && i < 9
  {
    ChangeManual(h, m, ChangeRegister(h.manuals[m], i, v))
  }

  /** The first message of `ManualMessages(.., i)`, if any, sets drawbar i
      to its new position; when there is none, the drawbar is there already. */
  lemma ManualMessagesStep(h: HammondData, before: HammondData, after: HammondData, force: bool, m: nat, i: nat)
    requires m < 2 && i < 9
    requires 0 <= after.manuals[m].registers[i] <= 8
    requires h.manuals[m].registers[i] == before.manuals[m].registers[i]
    ensures ApplyAll(h, ManualMessages(before, after, force, m, i))
            == ApplyAll(SetDrawbar(h, m, i, after.manuals[m].registers[i]), ManualMessages(before, after, force, m, i + 1))
  {
    if force || before.manuals[m].registers[i] != after.manuals[m].registers[i] {
      DrawbarSentStep(h, before, after, force, m, i);
    } else {
      var v := after.manuals[m].registers[i];
      assert ManualMessages(before, after, force, m, i) == ManualMessages(before, after, force, m, i + 1);
      assert SetDrawbar(h, m, i, v).manuals[m].registers == h.manuals[m].registers;
      assert SetDrawbar(h, m, i, v).manuals == h.manuals;
    }
  }

  lemma DrawbarSentStep(h: HammondData, before: HammondData, after: HammondData, force: bool, m: nat, i: nat)
    requires m < 2 && i < 9
    requires 0 <= after.manuals[m].registers[i] <= 8
    requires force || before.manuals[m].registers[i] != after.manuals[m].registers[i]
    ensures ApplyAll(h, ManualMessages(before, after, force, m, i))
            == ApplyAll(SetDrawbar(h, m, i, after.manuals[m].registers[i]), ManualMessages(before, after, force, m, i + 1))
  {
    var rest := ManualMessages(before, after, force, m, i + 1);
    var v := after.manuals[m].registers[i];
    var e := ControlChangeEvent(m, 70 + i, DrawbarToCc(v));
    assert ManualMessages(before, after, force, m, i) == [e] + rest;
    ApplyAllCons(h, e, rest);
    assert ApplyOne(h, e) == SetDrawbar(h, m, i, v) by {
      DrawbarMessageSetsRegister(h, m, i, v);
      assert ApplyOne(h, e).manuals == SetDrawbar(h, m, i, v).manuals;
    }
  }

  /** Drawbars i..8 of manual m of `r` are those of `after`, and `r`
      agrees with `h` everywhere else. */
  predicate DrawbarsFrom(r: HammondData, h: HammondData, after: HammondData, m: nat, i: nat)
    requires m < 2
  {
    && (forall j :: i <= j < 9 ==> r.manuals[m].registers[j] == after.manuals[m].registers[j])
    && (forall j :: 0 <= j < i && j < 9 ==> r.manuals[m].registers[j] == h.manuals[m].registers[j])
    && r.manuals[1 - m] == h.manuals[1 - m]
    && r.(manuals := h.manuals) == h
  }

  lemma DrawbarsFromSetDrawbar(r: HammondData, h: HammondData, after: HammondData, m: nat, i: nat)
    requires m < 2 && i < 9
    requires DrawbarsFrom(r, SetDrawbar(h, m, i, after.manuals[m].registers[i]), after, m, i + 1)
    ensures DrawbarsFrom(r, h, after, m, i)
  {
  }

  lemma {:induction false} ManualMessagesFeedBack(h: HammondData, before: HammondData, after: HammondData, force: bool, m: nat, i: nat)
    requires m < 2 && i <= 9
    requires forall j :: 0 <= j < 9 ==> 0 <= after.manuals[m].registers[j] <= 8
    requires forall j :: i <= j < 9 ==> h.manuals[m].registers[j] == before.manuals[m].registers[j]
    ensures DrawbarsFrom(ApplyAll(h, ManualMessages(before, after, force, m, i)), h, after, m, i)
    decreases 9 - i
  {
    if i < 9 {
      var h1 := SetDrawbar(h, m, i, after.manuals[m].registers[i]);
      ManualMessagesStep(h, before, after, force, m, i);
      ManualMessagesFeedBack(h1, before, after, force, m, i + 1);
      DrawbarsFromSetDrawbar(ApplyAll(h1, ManualMessages(before, after, force, m, i + 1)), h, after, m, i);
    }
  }

  /** Everything but manual `m` is as in `h`, and manual `m` is `manual`. */
  predicate ManualSet(r: HammondData, h: HammondData, m: nat, manual: Manual)
    requires m < 2
  {
    r.manuals[m] == manual && r.manuals[1 - m] == h.manuals[1 - m] && r.(manuals := h.manuals) == h
  }

  /** Feeding back the drawbar messages of manual m sets that manual to
      its new registers and leaves everything else alone. */
  lemma ManualFeedBack(h: HammondData, before: HammondData, after: HammondData, force: bool, m: nat)
    requires m < 2 && DrawbarsInRange(after) && h.manuals[m] == before.manuals[m]
    ensures ManualSet(ApplyAll(h, ManualMessages(before, after, force, m, 0)), h, m, after.manuals[m])
  {
    ManualMessagesFeedBack(h, before, after, force, m, 0);
    var r := ApplyAll(h, ManualMessages(before, after, force, m, 0));
    assert r.manuals[m].registers == after.manuals[m].registers;
  }

  lemma ManualSetTwice(h: HammondData, h1: HammondData, h2: HammondData, after: HammondData)
    requires ManualSet(h1, h, 0, after.manuals[0]) && ManualSet(h2, h1, 1, after.manuals[1])
    ensures h2 == h.(manuals := after.manuals)
  {
    assert h2.manuals == after.manuals;
  }

  lemma DrawbarsFeedBack(before: HammondData, after: HammondData, force: bool)
    requires DrawbarsInRange(after)
    ensures ApplyAll(before, ManualMessages(before, after, force, 0, 0) + ManualMessages(before, after, force, 1, 0))
            == before.(manuals := after.manuals)
  {
    var m0 := ManualMessages(before, after, force, 0, 0);
    var m1 := ManualMessages(before, after, force, 1, 0);
    ApplyAllAppend(before, m0, m1);
    var h1 := ApplyAll(before, m0);
    ManualFeedBack(before, before, after, force, 0);
    ManualFeedBack(h1, before, after, force, 1);
    ManualSetTwice(before, h1, ApplyAll(h1, m1), after);
  }

  lemma SwitchesFeedBackFirstTwo(h: HammondData, before: HammondData, after: HammondData, force: bool, rest: seq<SimpleEvent>)
    requires h.percussion == before.percussion
    requires h.percussionSoft == before.percussionSoft
    ensures ApplyAll(h, SwitchMessage(before, after, force, Percussion, 80)
                        + (SwitchMessage(before, after, force, PercussionSoft, 81) + rest))
            == ApplyAll(h.(percussion := after.percussion, percussionSoft := after.percussionSoft), rest)
  {
    var s1 := SwitchMessage(before, after, force, PercussionSoft, 81);
    var h1 := h.(percussion := after.percussion);
    SwitchMessageFeedBack(h, before, after, force, Percussion, 80, s1 + rest);
    SwitchMessageFeedBack(h1, before, after, force, PercussionSoft, 81, rest);
  }

  lemma SwitchesFeedBackLastTwo(h: HammondData, before: HammondData, after: HammondData, force: bool)
    requires h.percussionFast == before.percussionFast
    requires h.percussion2ndHarmonic == before.percussion2ndHarmonic
    ensures ApplyAll(h, SwitchMessage(before, after, force, PercussionFast, 82)
                        + SwitchMessage(before, after, force, Percussion2ndHarmonic, 83))
            == h.(percussionFast := after.percussionFast, percussion2ndHarmonic := after.percussion2ndHarmonic)
  {
    var s3 := SwitchMessage(before, after, force, Percussion2ndHarmonic, 83);
    var h1 := h.(percussionFast := after.percussionFast);
    SwitchMessageFeedBack(h, before, after, force, PercussionFast, 82, s3);
    assert s3 + [] == s3;
    SwitchMessageFeedBack(h1, before, after, force, Percussion2ndHarmonic, 83, []);
  }

  lemma SwitchesFeedBack(h: HammondData, before: HammondData, after: HammondData, force: bool)
    requires h.(manuals := before.manuals) == before && before.overDrive == after.overDrive
    ensures ApplyAll(h, SwitchMessages(before, after, force)) == after.(manuals := h.manuals)
  {
    var rest := SwitchMessage(before, after, force, PercussionFast, 82)
                + SwitchMessage(before, after, force, Percussion2ndHarmonic, 83);
    SwitchesFeedBackFirstTwo(h, before, after, force, rest);
    SwitchesFeedBackLastTwo(h.(percussion := after.percussion, percussionSoft := after.percussionSoft), before, after, force);
  }

  // ---------------------------------------------------------------------
  // SendControllersForPart (engine.cpp:38-65)
  // ---------------------------------------------------------------------

  /** `events` sends, in parameter order, the controller of each parameter
      index in [lo, hi) whose value is present. */
  predicate SendsExactly(events: seq<SimpleEvent>, params: seq<Parameter>, values: seq<Option<int>>, lo: nat, hi: nat)
    requires hi <= |params| && hi <= |values|
    decreases hi - lo
  {
    if lo >= hi then events == []
    else if values[lo].Some? then
      events != [] && events[0] == ControlChangeEvent(0, params[lo].controllerNumber, values[lo].value)
      && SendsExactly(events[1..], params, values, lo + 1, hi)
    else SendsExactly(events, params, values, lo + 1, hi)
  }

  /** The parameter range a call covers: all parameters, or only the
      requested one, never past the stored values. */
  function ParamRange(paramCount: nat, valueCount: nat, which: Option<nat>): (r: (nat, nat))
    ensures r.1 <= paramCount && r.1 <= valueCount
    ensures which.None? ==> r.0 == 0 && r.1 == Min(paramCount, valueCount)
    ensures which.Some? ==> r.0 == which.value && (r.0 < r.1 <==> which.value < paramCount && which.value < valueCount)
    ensures which.Some? && r.0 < r.1 ==> r.1 == r.0 + 1
  {
    var lo := if which.Some? then which.value else 0;
    var hi0 := if which.Some? then Min(paramCount, which.value + 1) else paramCount;
    (lo, Min(hi0, valueCount))
  }

  /** The loop of `SendControllersForPart` over one range of parameters. */
  method SendRange(params: seq<Parameter>, values: seq<Option<int>>, lo: nat, hi: nat) returns (events: seq<SimpleEvent>)
    requires hi <= |params| && hi <= |values|
    ensures SendsExactly(events, params, values, lo, hi)
    ensures |events| <= hi - lo || lo >= hi
  {
    events := [];
    var i := hi;
    // built back to front so that each step extends a finished suffix
    while i > lo
      invariant lo <= i <= hi || (lo >= hi && i == hi)
      invariant SendsExactly(events, params, values, i, hi)
      invariant |events| <= hi - i
      decreases i
    {
      i := i - 1;
      if values[i].Some? {
        var later := events;
        events := [ControlChangeEvent(0, params[i].controllerNumber, values[i].value)] + events;
        assert events[1..] == later;
      }
    }
  }

  /** `Engine::SendControllersForPart`: the controller messages sent to the
      part, or an error where a `vector::at` throws. A part index beyond the
      stored controller values sends nothing. */
  method SendControllersForPart(d: Data, partIndex: nat, which: Option<nat>) returns (r: Result<seq<SimpleEvent>, string>)
    ensures partIndex >= |d.part2ControllerValues| ==> r == Success([])
    ensures partIndex < |d.part2ControllerValues| && partIndex >= |d.project.parts| ==> r.Failure?
    ensures r.Failure? <==>
              && partIndex < |d.part2ControllerValues|
              && (|| partIndex >= |d.project.parts|
                  || (&& d.project.parts[partIndex].activeInstrumentIndex.Some?
                      && d.project.parts[partIndex].activeInstrumentIndex.value >= |d.project.instruments|))
    ensures r.Success? && partIndex < |d.part2ControllerValues| ==>
              && partIndex < |d.project.parts|
              && var part := d.project.parts[partIndex];
                 var values := d.part2ControllerValues[partIndex];
                 && (part.activeInstrumentIndex.None? ==> r.value == [])
                 && (part.activeInstrumentIndex.Some? ==>
                       && part.activeInstrumentIndex.value < |d.project.instruments|
                       && var params := d.project.instruments[part.activeInstrumentIndex.value].parameters;
                          var range := ParamRange(|params|, |values|, which);
                          SendsExactly(r.value, params, values, range.0, range.1))
  {
    if partIndex >= |d.part2ControllerValues| {
      return Success([]);
    }
    if partIndex >= |d.project.parts| {
      return Failure("vector::at: index out of range");
    }
    var part := d.project.parts[partIndex];
    if part.activeInstrumentIndex.None? {
      return Success([]);
    }
    if part.activeInstrumentIndex.value >= |d.project.instruments| {
      return Failure("vector::at: index out of range");
    }
    var params := d.project.instruments[part.activeInstrumentIndex.value].parameters;
    var values := d.part2ControllerValues[partIndex];
    var range := ParamRange(|params|, |values|, which);
    var events := SendRange(params, values, range.0, range.1);
    return Success(events);
  }

  // ---------------------------------------------------------------------
  // SetData (engine.cpp:67-154)
  // ---------------------------------------------------------------------

  /** A part with an active preset loads it when the part is new or its
      active preset index changed. */
  predicate LoadsPreset(before: Data, after: Data, partIndex: nat)
    requires partIndex < |after.project.parts|
  {
    after.project.parts[partIndex].activePresetIndex.Some?
    && (partIndex >= |before.project.parts|
        || before.project.parts[partIndex].activePresetIndex != after.project.parts[partIndex].activePresetIndex)
  }

  /** The part's instrument was switched (or the part is new and has one):
      all notes off and sustain off go to the new instrument. */
  predicate ResetsInstrument(before: Data, after: Data, partIndex: nat)
    requires partIndex < |after.project.parts|
  {
    var prev := if partIndex < |before.project.parts| then before.project.parts[partIndex].activeInstrumentIndex else None;
    after.project.parts[partIndex].activeInstrumentIndex.Some?
    && prev != after.project.parts[partIndex].activeInstrumentIndex
  }

  /** The stored value of controller i of a part before the update. */
  function OldValue(before: Data, partIndex: nat, i: nat): Option<int> {
    if partIndex < |before.part2ControllerValues| && i < |before.part2ControllerValues[partIndex]|
    then before.part2ControllerValues[partIndex][i] else None
  }

  /** Indices from i on whose controller value is present and changed. */
  function ChangedControllers(before: Data, values: seq<Option<int>>, partIndex: nat, i: nat): (r: seq<nat>)
    requires i <= |values|
    ensures forall k :: 0 <= k < |r| ==> i <= r[k] < |values| && values[r[k]].Some? && values[r[k]] != OldValue(before, partIndex, r[k])
    ensures forall k, l :: 0 <= k < l < |r| ==> r[k] < r[l]
    ensures forall j :: i <= j < |values| && values[j].Some? && values[j] != OldValue(before, partIndex, j) ==> j in r
    decreases |values| - i
  {
    if i == |values| then []
    else if values[i].Some? && values[i] != OldValue(before, partIndex, i) then [i] + ChangedControllers(before, values, partIndex, i + 1)
    else ChangedControllers(before, values, partIndex, i + 1)
  }

  /** What `SetData` does for one part: load its preset, reset its
      instrument, resend all its controllers, or resend just the changed
      ones. */
  datatype PartUpdate = PartUpdate(loadPreset: bool, resetInstrument: bool, resendAll: bool, resend: seq<nat>)

  function PlanPart(before: Data, after: Data, partIndex: nat): (r: PartUpdate)
    requires partIndex < |after.project.parts|
    ensures r.loadPreset == LoadsPreset(before, after, partIndex)
    ensures r.resetInstrument == ResetsInstrument(before, after, partIndex)
    ensures r.resendAll <==> r.loadPreset || r.resetInstrument
    ensures r.resendAll ==> r.resend == []
    ensures !r.resendAll && partIndex < |after.part2ControllerValues| ==>
              forall j :: 0 <= j < |after.part2ControllerValues[partIndex]| ==>
                (j in r.resend <==> after.part2ControllerValues[partIndex][j].Some?
                                    && after.part2ControllerValues[partIndex][j] != OldValue(before, partIndex, j))
    ensures partIndex >= |after.part2ControllerValues| ==> r.resend == []
  {
    var load := LoadsPreset(before, after, partIndex);
    var reset := ResetsInstrument(before, after, partIndex);
    var resend := if load || reset || partIndex >= |after.part2ControllerValues| then []
                  else ChangedControllers(before, after.part2ControllerValues[partIndex], partIndex, 0);
    PartUpdate(load, reset, load || reset, resend)
  }

  /** The whole effect of `SetData(after)` on top of `before`. */
  datatype Update = Update(parts: seq<PartUpdate>, saveProject: bool, syncPlugins: bool, updateHammond: bool)

  function PlanParts(before: Data, after: Data, i: nat): (r: seq<PartUpdate>)
    requires i <= |after.project.parts|
    ensures |r| == |after.project.parts| - i
    ensures forall k :: 0 <= k < |r| ==> r[k] == PlanPart(before, after, i + k)
    decreases |after.project.parts| - i
  {
    if i == |after.project.parts| then [] else [PlanPart(before, after, i)] + PlanParts(before, after, i + 1)
  }

  function PlanSetData(before: Data, after: Data, quitting: bool): (r: Update)
    ensures |r.parts| == |after.project.parts|
    ensures forall k :: 0 <= k < |r.parts| ==> r.parts[k] == PlanPart(before, after, k)
    ensures r.saveProject <==> before.project != after.project && !quitting
    ensures r.updateHammond <==> before.hammond != after.hammond
    ensures r.syncPlugins <==>
              (exists k :: 0 <= k < |r.parts| && r.parts[k].loadPreset)
              || before.project != after.project || before.showUi != after.showUi
              || before.showReverbUi != after.showReverbUi || before.guiFocusedPart != after.guiFocusedPart
  {
    var parts := PlanParts(before, after, 0);
    var anyLoad := exists k :: 0 <= k < |parts| && parts[k].loadPreset;
    Update(parts, before.project != after.project && !quitting,
           anyLoad || before.project != after.project || before.showUi != after.showUi
           || before.showReverbUi != after.showReverbUi || before.guiFocusedPart != after.guiFocusedPart,
           before.hammond != after.hammond)
  }

  /** Setting the data the engine already has does nothing at all. */
  lemma SetDataSameIsQuiet(d: Data, quitting: bool)
    ensures var u := PlanSetData(d, d, quitting);
            && !u.saveProject && !u.syncPlugins && !u.updateHammond
            && forall k :: 0 <= k < |u.parts| ==> u.parts[k] == PartUpdate(false, false, false, [])
  {
    var u := PlanSetData(d, d, quitting);
    forall k | 0 <= k < |u.parts| ensures u.parts[k] == PartUpdate(false, false, false, []) {
      var p := u.parts[k];
      if k < |d.part2ControllerValues| {
        var vs := d.part2ControllerValues[k];
        forall j | 0 <= j < |vs| ensures j !in p.resend {
          assert OldValue(d, k, j) == vs[j];
        }
      }
    }
  }

  /** Switching one part to a different stored preset reloads that part
      and no other. */
  lemma SwitchToPresetLoadsOnePart(d: Data, partIndex: nat, presetIndex: nat, quitting: bool)
    requires partIndex < |d.project.parts| && presetIndex < |d.project.presets|
    requires d.project.parts[partIndex].activePresetIndex != Some(presetIndex)
    ensures var after := ChangeProject(d, SwitchToPreset(d.project, partIndex, presetIndex));
            var u := PlanSetData(d, after, quitting);
            && u.parts[partIndex].loadPreset && u.syncPlugins
            && forall k :: 0 <= k < |u.parts| && k != partIndex ==> !u.parts[k].loadPreset
  {
    var after := ChangeProject(d, SwitchToPreset(d.project, partIndex, presetIndex));
    assert after.project.parts[partIndex].activePresetIndex == Some(presetIndex);
  }

  // ---------------------------------------------------------------------
  // DeletePreset (engine.cpp:740-767)
  // ---------------------------------------------------------------------

  /** The loop of `DeletePreset` over parts i..: each part whose active
      preset is the deleted one is stored back without a preset. */
  function DropPresetRefs(prj: Project, presetIndex: nat, i: nat): (r: Project)
    requires i <= |prj.parts|
    ensures r.(parts := prj.parts) == prj && |r.parts| == |prj.parts|
    ensures forall j :: 0 <= j < |prj.parts| ==>
              r.parts[j] == if i <= j && prj.parts[j].activePresetIndex == Some(presetIndex)
                            then prj.parts[j].(activePresetIndex := None) else prj.parts[j]
    decreases |prj.parts| - i
  {
    if i == |prj.parts| then prj
    else
      var part := prj.parts[i];
      var next := if part.activePresetIndex == Some(presetIndex)
                  then ChangePart(prj, i, part.(activePresetIndex := None))
                  else prj;
      DropPresetRefs(next, presetIndex, i + 1)
  }

  /** `Engine::DeletePreset` as written: the slot is "cleared" with
      `ChangePreset(index, {})`, which stores nothing. */
  function DeletePresetAsWritten(prj: Project, presetIndex: nat): (r: Project)
    ensures r.presets == prj.presets
    ensures forall j :: 0 <= j < |r.parts| ==> r.parts[j].activePresetIndex != Some(presetIndex) || presetIndex >= |prj.presets| || prj.presets[presetIndex].None?
  {
    if presetIndex < |prj.presets| && prj.presets[presetIndex].Some? then
      DropPresetRefs(ChangePreset(prj, presetIndex, None), presetIndex, 0)
    else prj
  }

  /** The deleted preset survives in its slot, although its directory is
      removed from disk right afterwards. */
  lemma DeletePresetAsWrittenKeepsPreset(prj: Project, presetIndex: nat)
    requires presetIndex < |prj.presets| && prj.presets[presetIndex].Some?
    ensures DeletePresetAsWritten(prj, presetIndex).presets[presetIndex] == prj.presets[presetIndex]
    ensures DeletePresetAsWritten(prj, presetIndex).presets[presetIndex].Some?
  {
  }

  /** `Engine::DeletePreset` as intended: the slot is emptied and the parts
      that used it lose their active preset; nothing else changes. */
  function DeletePreset(prj: Project, presetIndex: nat): (r: Project)
    ensures |r.presets| == |prj.presets|
    ensures presetIndex < |prj.presets| ==> r.presets[presetIndex].None?
    ensures forall j :: 0 <= j < |prj.presets| && j != presetIndex ==> r.presets[j] == prj.presets[j]
    ensures |r.parts| == |prj.parts|
    ensures forall j :: 0 <= j < |r.parts| ==> r.parts[j].activePresetIndex != Some(presetIndex) || presetIndex >= |prj.presets| || prj.presets[presetIndex].None?
    ensures forall j :: 0 <= j < |r.parts| ==> r.parts[j].(activePresetIndex := prj.parts[j].activePresetIndex) == prj.parts[j]
    ensures PresetRefsValid(prj) ==> PresetRefsValid(r)
    ensures r.instruments == prj.instruments && r.reverb == prj.reverb
  {
    if presetIndex < |prj.presets| && prj.presets[presetIndex].Some? then
      DropPresetRefs(ClearPreset(prj, presetIndex), presetIndex, 0)
    else prj
  }

  /** After deleting a stored preset, no part refers to its slot, and a
      project whose parts all point at stored presets keeps that property. */
  lemma DeletePresetLeavesNoDanglingRefs(prj: Project, presetIndex: nat)
    requires presetIndex < |prj.presets| && prj.presets[presetIndex].Some?
    requires forall j :: 0 <= j < |prj.parts| && prj.parts[j].activePresetIndex.Some? ==>
               prj.parts[j].activePresetIndex.value < |prj.presets| && prj.presets[prj.parts[j].activePresetIndex.value].Some?
    ensures var r := DeletePreset(prj, presetIndex);
            forall j :: 0 <= j < |r.parts| && r.parts[j].activePresetIndex.Some? ==>
              r.parts[j].activePresetIndex.value < |r.presets| && r.presets[r.parts[j].activePresetIndex.value].Some?
  {
    var r := DeletePreset(prj, presetIndex);
    forall j | 0 <= j < |r.parts| && r.parts[j].activePresetIndex.Some?
      ensures r.parts[j].activePresetIndex.value < |r.presets| && r.presets[r.parts[j].activePresetIndex.value].Some?
    {
      assert r.parts[j].activePresetIndex == prj.parts[j].activePresetIndex;
    }
  }
}

/** The immutable project records of app/source/project.h. Every `Change*`
    member of the C++ classes returns a modified copy; here each is a pure
    function whose contract says which fields move and which stay put.
    `float` fields are carried as `real` and never computed with; `size_t`
    indices are `nat`. */
module ProjectData {
  import opened Wrappers
  import opened IntMath

  // ---------------------------------------------------------------------
  // THammondData (app/source/project.h:10-103)
  // ---------------------------------------------------------------------

  /** `std::array<int, 9>`: the nine drawbar registers of one manual. */
  type Registers = s: seq<int> | |s| == 9 witness [0, 0, 0, 0, 0, 0, 0, 0, 0]

  /** `THammondData::TPart`: one manual of the organ. */
  datatype Manual = Manual(registers: Registers)

  /** `std::array<TPart, 2>`: the upper and the lower manual. */
  type Manuals = s: seq<Manual> | |s| == 2
    witness [Manual([0, 0, 0, 0, 0, 0, 0, 0, 0]), Manual([0, 0, 0, 0, 0, 0, 0, 0, 0])]

  datatype HammondData = HammondData(
    manuals: Manuals,
    percussion: bool,
    percussionSoft: bool,
    percussionFast: bool,
    percussion2ndHarmonic: bool,
    overDrive: bool)

  /** The five switches; `ChangePercussion`, `ChangePercussionSoft`,
      `ChangePercussionFast`, `ChangePercussion2ndHarmonic` and
      `ChangeOverDrive` are `ChangeFlag` at one of them. */
  datatype Flag = Percussion | PercussionSoft | PercussionFast | Percussion2ndHarmonic | OverDrive

  function GetFlag(h: HammondData, f: Flag): bool {
    match f
    case Percussion => h.percussion
    case PercussionSoft => h.percussionSoft
    case PercussionFast => h.percussionFast
    case Percussion2ndHarmonic => h.percussion2ndHarmonic
    case OverDrive => h.overDrive
  }

  /** The default-constructed organ. */
  function DefaultHammond(): HammondData {
    HammondData([Manual([8, 8, 8, 0, 0, 0, 0, 0, 0]), Manual([0, 0, 8, 8, 0, 0, 0, 0, 0])],
                true, false, true, true, false)
  }

  predicate DrawbarsInRange(h: HammondData) {
    forall m, i :: 0 <= m < 2 && 0 <= i < 9 ==> 0 <= h.manuals[m].registers[i] <= 8
  }

  /** The default organ has every drawbar within the 0..8 travel of a
      drawbar, and exactly percussion, fast decay and 2nd harmonic on. */
  lemma DefaultHammondSettings()
    ensures DrawbarsInRange(DefaultHammond())
    ensures forall f :: GetFlag(DefaultHammond(), f) <==> f in {Percussion, PercussionFast, Percussion2ndHarmonic}
    ensures DefaultHammond().manuals[0].registers[0] == 8 && DefaultHammond().manuals[1].registers[0] == 0
  {
    var h := DefaultHammond();
    forall m, i | 0 <= m < 2 && 0 <= i < 9
      ensures 0 <= h.manuals[m].registers[i] <= 8
    {
    }
  }

  /** `TPart::ChangeRegister`; the C++ indexes the array unchecked, so the
      index must be in range. */
  function ChangeRegister(m: Manual, index: int, value: int): (r: Manual)
    requires 0 <= index < 9
    ensures r.registers[index] == value
    ensures forall i :: 0 <= i < 9 && i != index ==> r.registers[i] == m.registers[i]
  {
    Manual(m.registers[index := value])
  }

  /** `THammondData::ChangePart`, again an unchecked array index. */
  function ChangeManual(h: HammondData, index: int, m: Manual): (r: HammondData)
    requires 0 <= index < 2
    ensures r.manuals[index] == m
    ensures r.manuals[1 - index] == h.manuals[1 - index]
    ensures forall f :: GetFlag(r, f) == GetFlag(h, f)
  {
    h.(manuals := h.manuals[index := m])
  }

  function ChangeFlag(h: HammondData, f: Flag, value: bool): (r: HammondData)
    ensures GetFlag(r, f) == value
    ensures forall g :: g != f ==> GetFlag(r, g) == GetFlag(h, g)
    ensures r.manuals == h.manuals
  {
    match f
    case Percussion => h.(percussion := value)
    case PercussionSoft => h.(percussionSoft := value)
    case PercussionFast => h.(percussionFast := value)
    case Percussion2ndHarmonic => h.(percussion2ndHarmonic := value)
    case OverDrive => h.(overDrive := value)
  }

  /** `THammondData::operator==` compares the manuals and the five flags,
      and nothing else: two organs that agree on those are the same value.
      So the contracts of `ChangeManual` and `ChangeFlag` pin their result. */
  lemma HammondEquality(a: HammondData, b: HammondData)
    requires a.manuals == b.manuals
    requires forall f :: GetFlag(a, f) == GetFlag(b, f)
    ensures a == b
  {
    assert GetFlag(a, Percussion) == GetFlag(b, Percussion);
    assert GetFlag(a, PercussionSoft) == GetFlag(b, PercussionSoft);
    assert GetFlag(a, PercussionFast) == GetFlag(b, PercussionFast);
    assert GetFlag(a, Percussion2ndHarmonic) == GetFlag(b, Percussion2ndHarmonic);
    assert GetFlag(a, OverDrive) == GetFlag(b, OverDrive);
  }

  /** Writing a flag back with the value it has is a no-op, and of two
      writes to one flag only the second is visible. */
  lemma ChangeFlagLaws(h: HammondData, f: Flag, a: bool, b: bool)
    ensures ChangeFlag(h, f, GetFlag(h, f)) == h
    ensures ChangeFlag(ChangeFlag(h, f, a), f, b) == ChangeFlag(h, f, b)
  {
    HammondEquality(ChangeFlag(h, f, GetFlag(h, f)), h);
    HammondEquality(ChangeFlag(ChangeFlag(h, f, a), f, b), ChangeFlag(h, f, b));
  }

  // ---------------------------------------------------------------------
  // TInstrument, TPart, TPreset, TReverb (app/source/project.h:105-388)
  // ---------------------------------------------------------------------

  /** `TInstrument::TParameter`: one MIDI controller the instrument exposes. */
  datatype Parameter = Parameter(controllerNumber: int, initialValue: Option<int>, caption: string)

  datatype Instrument = Instrument(
    lv2Uri: string,
    name: string,
    isHammond: bool,
    parameters: seq<Parameter>,
    hasVocoderInput: bool)

  /** `TPart`: one keyboard. */
  datatype Part = Part(
    name: string,
    midiChannelForSharedInstruments: int,
    activeInstrumentIndex: Option<nat>,
    activePresetIndex: Option<nat>,
    amplitudeFactor: real,
    quickPresets: seq<Option<nat>>)

  datatype Preset = Preset(
    instrumentIndex: nat,
    name: string,
    presetSubDir: string,
    overrideParameters: Option<seq<Parameter>>)

  datatype Reverb = Reverb(reverbPresetSubDir: string, reverbLv2Uri: string, mixLevel: real)

  /** `TPart::ChangeQuickPreset`: grows the list with empty slots up to the
      index when needed, then sets that one slot. */
  function ChangeQuickPreset(p: Part, slot: nat, preset: Option<nat>): (r: Part)
    ensures |r.quickPresets| == Max(|p.quickPresets|, slot + 1)
    ensures r.quickPresets[slot] == preset
    ensures forall j :: 0 <= j < |r.quickPresets| && j != slot ==>
              r.quickPresets[j] == (if j < |p.quickPresets| then p.quickPresets[j] else None)
    ensures r.(quickPresets := p.quickPresets) == p
  {
    var padded := if slot >= |p.quickPresets|
                  then p.quickPresets + seq(slot + 1 - |p.quickPresets|, _ => None)
                  else p.quickPresets;
    p.(quickPresets := padded[slot := preset])
  }

  /** Writing a slot twice keeps only the second value, and rewriting the
      value a slot already holds changes nothing. */
  lemma QuickPresetLastWriteWins(p: Part, slot: nat, a: Option<nat>, b: Option<nat>)
    ensures ChangeQuickPreset(ChangeQuickPreset(p, slot, a), slot, b) == ChangeQuickPreset(p, slot, b)
    ensures slot < |p.quickPresets| ==> ChangeQuickPreset(p, slot, p.quickPresets[slot]) == p
  {
    var x := ChangeQuickPreset(ChangeQuickPreset(p, slot, a), slot, b);
    var y := ChangeQuickPreset(p, slot, b);
    assert x.quickPresets == y.quickPresets;
    if slot < |p.quickPresets| {
      assert ChangeQuickPreset(p, slot, p.quickPresets[slot]).quickPresets == p.quickPresets;
    }
  }

  // ---------------------------------------------------------------------
  // TProject (app/source/project.h:390-510)
  // ---------------------------------------------------------------------

  datatype Project = Project(
    instruments: seq<Instrument>,
    parts: seq<Part>,
    presets: seq<Option<Preset>>,
    reverb: Reverb)

  /** Every part's active preset index names an existing slot. `ChangePart`
      establishes this for the part it stores. */
  predicate PresetRefsValid(prj: Project) {
    forall i :: 0 <= i < |prj.parts| && prj.parts[i].activePresetIndex.Some? ==>
      prj.parts[i].activePresetIndex.value < |prj.presets|
  }

  /** The part `ChangePart` stores: an active preset index past the preset
      list is dropped, and a switch to a different, occupied slot takes that
      preset's instrument. */
  function NormalisedPart(prj: Project, partIndex: nat, part: Part): Part
    requires partIndex < |prj.parts|
  {
    var part1 := if part.activePresetIndex.Some? && part.activePresetIndex.value >= |prj.presets|
                 then part.(activePresetIndex := None) else part;
    if part1.activePresetIndex.Some?
       && prj.parts[partIndex].activePresetIndex != part1.activePresetIndex
       && prj.presets[part1.activePresetIndex.value].Some?
    then part1.(activeInstrumentIndex := Some(prj.presets[part1.activePresetIndex.value].value.instrumentIndex))
    else part1
  }

  /** True when storing `part` at `partIndex` switches the part to a
      different slot that holds a preset. */
  predicate SwitchesToPreset(prj: Project, partIndex: nat, part: Part)
    requires partIndex < |prj.parts|
  {
    part.activePresetIndex.Some?
    && part.activePresetIndex.value < |prj.presets|
    && prj.parts[partIndex].activePresetIndex != part.activePresetIndex
    && prj.presets[part.activePresetIndex.value].Some?
  }

  /** `TProject::ChangePart`. */
  function ChangePart(prj: Project, partIndex: nat, part: Part): (r: Project)
    ensures partIndex >= |prj.parts| ==> r == prj
    ensures r.instruments == prj.instruments && r.presets == prj.presets && r.reverb == prj.reverb
    ensures |r.parts| == |prj.parts|
    ensures forall j :: 0 <= j < |r.parts| && j != partIndex ==> r.parts[j] == prj.parts[j]
    ensures partIndex < |prj.parts| ==>
              var q := r.parts[partIndex];
              // only the two indices can differ from what the caller passed
              && q.(activeInstrumentIndex := part.activeInstrumentIndex,
                    activePresetIndex := part.activePresetIndex) == part
              // the preset index survives exactly when it names an existing slot
              && (q.activePresetIndex.Some? <==>
                    part.activePresetIndex.Some? && part.activePresetIndex.value < |prj.presets|)
              && (q.activePresetIndex.Some? ==> q.activePresetIndex == part.activePresetIndex)
              // the instrument follows the preset on a switch, and only then
              && q.activeInstrumentIndex ==
                   (if SwitchesToPreset(prj, partIndex, part)
                    then Some(prj.presets[part.activePresetIndex.value].value.instrumentIndex)
                    else part.activeInstrumentIndex)
  {
    if partIndex < |prj.parts| then
      prj.(parts := prj.parts[partIndex := NormalisedPart(prj, partIndex, part)])
    else
      prj
  }

  /** `ChangePart` keeps every active preset index inside the preset list. */
  lemma ChangePartKeepsPresetRefs(prj: Project, partIndex: nat, part: Part)
    requires PresetRefsValid(prj)
    ensures PresetRefsValid(ChangePart(prj, partIndex, part))
  {
  }

  /** Storing a part back unchanged is a no-op on a project whose preset
      references are valid. */
  lemma ChangePartWithSamePart(prj: Project, partIndex: nat)
    requires PresetRefsValid(prj)
    requires partIndex < |prj.parts|
    ensures ChangePart(prj, partIndex, prj.parts[partIndex]) == prj
  {
    assert prj.parts[partIndex := prj.parts[partIndex]] == prj.parts;
  }

  function AddPart(prj: Project, part: Part): (r: Project)
    ensures |r.parts| == |prj.parts| + 1 && r.parts[..|prj.parts|] == prj.parts
    ensures r.parts[|prj.parts|] == part
    ensures r.(parts := prj.parts) == prj
  {
    prj.(parts := prj.parts + [part])
  }

  /** `TProject::DeletePart`: removes exactly the indexed part; an index past
      the end changes nothing. */
  function DeletePart(prj: Project, partIndex: nat): (r: Project)
    ensures partIndex >= |prj.parts| ==> r == prj
    ensures partIndex < |prj.parts| ==>
              && |r.parts| == |prj.parts| - 1
              && (forall j :: 0 <= j < partIndex ==> r.parts[j] == prj.parts[j])
              && (forall j :: partIndex <= j < |r.parts| ==> r.parts[j] == prj.parts[j + 1])
    ensures r.(parts := prj.parts) == prj
  {
    if partIndex < |prj.parts| then
      prj.(parts := prj.parts[..partIndex] + prj.parts[partIndex + 1..])
    else
      prj
  }

  /** Deleting the part just added restores the project, and deleting keeps
      the preset references valid. */
  lemma DeletePartUndoesAddPart(prj: Project, part: Part, partIndex: nat)
    ensures DeletePart(AddPart(prj, part), |prj.parts|) == prj
    ensures PresetRefsValid(prj) ==> PresetRefsValid(DeletePart(prj, partIndex))
  {
    assert DeletePart(AddPart(prj, part), |prj.parts|).parts == prj.parts;
  }

  /** `TProject::SwitchToPreset`. The C++ reads the part with an unchecked
      index, so the part index must be in range. */
  function SwitchToPreset(prj: Project, partIndex: nat, presetIndex: nat): (r: Project)
    requires partIndex < |prj.parts|
    ensures |r.parts| == |prj.parts|
    ensures presetIndex < |prj.presets| ==> r.parts[partIndex].activePresetIndex == Some(presetIndex)
    ensures presetIndex >= |prj.presets| ==> r.parts[partIndex].activePresetIndex.None?
    ensures presetIndex < |prj.presets| && prj.presets[presetIndex].Some?
            && prj.parts[partIndex].activePresetIndex != Some(presetIndex) ==>
              r.parts[partIndex].activeInstrumentIndex == Some(prj.presets[presetIndex].value.instrumentIndex)
    ensures prj.parts[partIndex].activePresetIndex == Some(presetIndex) && presetIndex < |prj.presets| ==> r == prj
    ensures PresetRefsValid(prj) ==> PresetRefsValid(r)
  {
    var r := ChangePart(prj, partIndex, prj.parts[partIndex].(activePresetIndex := Some(presetIndex)));
    assert prj.parts[partIndex].activePresetIndex == Some(presetIndex) && presetIndex < |prj.presets| ==>
      r.parts == prj.parts;
    r
  }

  /** `TProject::ChangePreset` as written: a present preset at an index
      inside the list overwrites that slot; at an index past the end the list
      only grows with empty slots, because the store tests the index against
      the size from before the resize. An absent preset changes nothing. */
  function ChangePreset(prj: Project, presetIndex: nat, preset: Option<Preset>): (r: Project)
    ensures preset.None? ==> r == prj
    ensures preset.Some? && presetIndex < |prj.presets| ==>
              r.presets == prj.presets[presetIndex := preset]
    ensures preset.Some? && presetIndex >= |prj.presets| ==>
              && |r.presets| == presetIndex + 1
              && r.presets[..|prj.presets|] == prj.presets
              && (forall j :: |prj.presets| <= j < |r.presets| ==> r.presets[j].None?)
    ensures r.(presets := prj.presets) == prj
  {
    var padded := if presetIndex >= |prj.presets| && preset.Some?
                  then prj.presets + seq(presetIndex + 1 - |prj.presets|, _ => None)
                  else prj.presets;
    if presetIndex < |prj.presets| && preset.Some? then
      prj.(presets := padded[presetIndex := preset])
    else
      prj.(presets := padded)
  }

  /** The store past the end is lost: the slot the list grew to hold the
      preset stays empty. */
  lemma ChangePresetAsWrittenDropsPreset(prj: Project, presetIndex: nat, p: Preset)
    requires presetIndex >= |prj.presets|
    ensures presetIndex < |ChangePreset(prj, presetIndex, Some(p)).presets|
    ensures ChangePreset(prj, presetIndex, Some(p)).presets[presetIndex] == None
  {
  }

  /** `TProject::ChangePreset` as its resize evidently intends: a present
      preset is stored at the index, growing the list with empty slots when
      the index is past the end. An absent preset changes nothing at all. */
  function ChangePresetStored(prj: Project, presetIndex: nat, preset: Option<Preset>): (r: Project)
    ensures preset.None? ==> r == prj
    ensures preset.Some? ==>
              && |r.presets| == Max(|prj.presets|, presetIndex + 1)
              && r.presets[presetIndex] == preset
              && (forall j :: 0 <= j < |r.presets| && j != presetIndex ==>
                    r.presets[j] == (if j < |prj.presets| then prj.presets[j] else None))
    ensures r.(presets := prj.presets) == prj
  {
    var padded := if presetIndex >= |prj.presets| && preset.Some?
                  then prj.presets + seq(presetIndex + 1 - |prj.presets|, _ => None)
                  else prj.presets;
    if presetIndex < |padded| && preset.Some? then
      prj.(presets := padded[presetIndex := preset])
    else
      prj.(presets := padded)
  }

  /** Inside the list the two readings agree; they differ only on a present
      preset past the end. */
  lemma ChangePresetStoredAgrees(prj: Project, presetIndex: nat, preset: Option<Preset>)
    ensures (presetIndex < |prj.presets| || preset.None?) ==>
              ChangePresetStored(prj, presetIndex, preset) == ChangePreset(prj, presetIndex, preset)
    ensures ChangePresetStored(prj, presetIndex, preset) != ChangePreset(prj, presetIndex, preset) ==>
              presetIndex >= |prj.presets| && preset.Some?
  {
  }

  /** Clearing a preset slot, the effect `Engine::DeletePreset` asks
      `ChangePreset` for: the slot becomes empty and nothing else moves. */
  function ClearPreset(prj: Project, presetIndex: nat): (r: Project)
    requires presetIndex < |prj.presets|
    ensures |r.presets| == |prj.presets|
    ensures r.presets[presetIndex].None?
    ensures forall j :: 0 <= j < |r.presets| && j != presetIndex ==> r.presets[j] == prj.presets[j]
    ensures r.(presets := prj.presets) == prj
  {
    prj.(presets := prj.presets[presetIndex := None])
  }

  /** Growing or overwriting the preset list keeps the part references valid. */
  lemma PresetEditsKeepPresetRefs(prj: Project, presetIndex: nat, preset: Option<Preset>)
    requires PresetRefsValid(prj)
    ensures PresetRefsValid(ChangePreset(prj, presetIndex, preset))
    ensures PresetRefsValid(ChangePresetStored(prj, presetIndex, preset))
    ensures presetIndex < |prj.presets| ==> PresetRefsValid(ClearPreset(prj, presetIndex))
  {
  }

  /** `TProject::AddInstrument`: appends, so every existing instrument index
      still names the same instrument. */
  function AddInstrument(prj: Project, inst: Instrument): (r: Project)
    ensures |r.instruments| == |prj.instruments| + 1
    ensures forall i :: 0 <= i < |prj.instruments| ==> r.instruments[i] == prj.instruments[i]
    ensures r.instruments[|prj.instruments|] == inst
    ensures r.(instruments := prj.instruments) == prj
  {
    prj.(instruments := prj.instruments + [inst])
  }

  /** `TProject::ChangeInstrument`: `vector::at` throws on a bad index. */
  function ChangeInstrument(prj: Project, index: nat, inst: Instrument): (r: Result<Project, string>)
    ensures index >= |prj.instruments| <==> r.Failure?
    ensures r.Success? ==>
              && |r.value.instruments| == |prj.instruments|
              && r.value.instruments[index] == inst
              && (forall i :: 0 <= i < |prj.instruments| && i != index ==>
                    r.value.instruments[i] == prj.instruments[i])
              && r.value.(instruments := prj.instruments) == prj
  {
    if index < |prj.instruments| then Success(prj.(instruments := prj.instruments[index := inst]))
    else Failure("vector::at: index out of range")
  }

  /** The override list of the part's active preset, when that preset index
      is in range, the slot holds a preset and the preset overrides the
      parameters. */
  function PresetOverride(prj: Project, part: Part): (o: Option<seq<Parameter>>)
    ensures o.Some? <==>
              && part.activePresetIndex.Some?
              && part.activePresetIndex.value < |prj.presets|
              && prj.presets[part.activePresetIndex.value].Some?
              && prj.presets[part.activePresetIndex.value].value.overrideParameters.Some?
    ensures o.Some? ==> prj.presets[part.activePresetIndex.value].value.overrideParameters == o
  {
    if part.activePresetIndex.Some? && part.activePresetIndex.value < |prj.presets|
       && prj.presets[part.activePresetIndex.value].Some? then
      prj.presets[part.activePresetIndex.value].value.overrideParameters
    else None
  }

  /** `TProject::ParametersForPart`. Each `vector::at` on the way can throw. */
  function ParametersForPart(prj: Project, partIndex: nat): (r: Result<seq<Parameter>, string>)
    ensures partIndex >= |prj.parts| ==> r.Failure?
    ensures partIndex < |prj.parts| && prj.parts[partIndex].activeInstrumentIndex.None? ==> r == Success([])
    ensures r.Success? && r.value != [] ==>
              var part := prj.parts[partIndex];
              && part.activeInstrumentIndex.Some?
              && ((part.activePresetIndex.Some?
                   && part.activePresetIndex.value < |prj.presets|
                   && prj.presets[part.activePresetIndex.value].Some?
                   && prj.presets[part.activePresetIndex.value].value.overrideParameters == Some(r.value))
                  || (part.activeInstrumentIndex.value < |prj.instruments|
                      && prj.instruments[part.activeInstrumentIndex.value].parameters == r.value))
    ensures partIndex < |prj.parts| ==>
              var part := prj.parts[partIndex];
              part.activeInstrumentIndex.Some? && PresetOverride(prj, part).Some? ==>
                r == Success(PresetOverride(prj, part).value)
    ensures partIndex < |prj.parts| ==>
              var part := prj.parts[partIndex];
              && part.activeInstrumentIndex.Some?
              && (part.activePresetIndex.Some? ==> part.activePresetIndex.value < |prj.presets|)
              && PresetOverride(prj, part).None?
              ==> (r.Success? <==> part.activeInstrumentIndex.value < |prj.instruments|)
                  && (r.Success? ==> r.value == prj.instruments[part.activeInstrumentIndex.value].parameters)
    ensures r.Failure? <==>
              || partIndex >= |prj.parts|
              || (var part := prj.parts[partIndex];
                  && part.activeInstrumentIndex.Some?
                  && ((part.activePresetIndex.Some? && part.activePresetIndex.value >= |prj.presets|)
                      || (PresetOverride(prj, part).None?
                          && part.activeInstrumentIndex.value >= |prj.instruments|)))
  {
    if partIndex >= |prj.parts| then Failure("vector::at: index out of range")
    else
      var part := prj.parts[partIndex];
      if part.activeInstrumentIndex.None? then Success([])
      else if part.activePresetIndex.Some? && part.activePresetIndex.value >= |prj.presets| then
        Failure("vector::at: index out of range")
      else if part.activePresetIndex.Some? && prj.presets[part.activePresetIndex.value].Some?
              && prj.presets[part.activePresetIndex.value].value.overrideParameters.Some? then
        Success(prj.presets[part.activePresetIndex.value].value.overrideParameters.value)
      else if part.activeInstrumentIndex.value < |prj.instruments| then
        Success(prj.instruments[part.activeInstrumentIndex.value].parameters)
      else
        Failure("vector::at: index out of range")
  }

  /** After switching a part to a stored preset that overrides the
      parameters, the part reports exactly those parameters; after switching
      to one that does not, it reports the preset instrument's own list. */
  lemma SwitchedPartUsesPresetParameters(prj: Project, partIndex: nat, presetIndex: nat)
    requires partIndex < |prj.parts|
    requires presetIndex < |prj.presets| && prj.presets[presetIndex].Some?
    requires prj.parts[partIndex].activePresetIndex != Some(presetIndex)
    ensures var params := ParametersForPart(SwitchToPreset(prj, partIndex, presetIndex), partIndex);
            var preset := prj.presets[presetIndex].value;
            && (preset.overrideParameters.Some? ==> params == Success(preset.overrideParameters.value))
            && (preset.overrideParameters.None? && preset.instrumentIndex < |prj.instruments| ==>
                  params == Success(prj.instruments[preset.instrumentIndex].parameters))
  {
    var r := SwitchToPreset(prj, partIndex, presetIndex);
    assert r.parts[partIndex].activePresetIndex == Some(presetIndex);
    assert r.presets == prj.presets && r.instruments == prj.instruments;
  }
}

/** The front-panel state of the keyboard (`TGuiState` and the state-update
    rules of `Gui::OnButton` in app/source/kompletegui.cpp).

    The clock enters in one place: a selected preset is forgotten some time
    after it was chosen. That is the `recent` parameter here — true while the
    selection is recent enough to stand. Painting, LED refresh and the
    volume sliders (floating point) are not part of this model. */
module GuiState {
  import opened Wrappers
  import opened IntMath
  import opened Midi
  import opened ProjectData
  import opened EngineData
  import Hysteresis

  /** `sNumPresetPages`. */
  const NumPresetPages := 16

  datatype Mode = PerformanceMode | MidiMode | ControllerMode

  /** One flag per touch-sensitive rotary: the eight display rotaries, then
      the big rotary. */
  type Touching = s: seq<bool> | |s| == 9
    witness [false, false, false, false, false, false, false, false, false]

  datatype State = State(
    engineData: Data,
    focusedPart: Option<nat>,
    selectedPresetIndex: Option<nat>,
    shift: bool,
    mode: Mode,
    quickPresetPage: nat,
    programChange: int,
    touchingRotary: Touching)

  /** What every state the panel builds satisfies: the focus names an
      existing part, and is absent only when there are none. */
  predicate Valid(s: State) {
    FocusNormal(|s.engineData.project.parts|, s.focusedPart)
  }

  // ---------------------------------------------------------------------
  // TGuiState (kompletegui.cpp:168-265)
  // ---------------------------------------------------------------------

  /** `TGuiState::SetFocusedPart`: clamps the focus into the part list and
      forgets the selected preset when, and only when, the focus moves. It
      normalises exactly as the engine's `FixFocusedPart` does. */
  function SetFocusedPart(s: State, focus: Option<nat>): (r: State)
    ensures Valid(r)
    ensures r.focusedPart == FixFocusedPart(|s.engineData.project.parts|, focus)
    ensures r.selectedPresetIndex == (if r.focusedPart == s.focusedPart then s.selectedPresetIndex else None)
    ensures r.(focusedPart := s.focusedPart, selectedPresetIndex := s.selectedPresetIndex) == s
  {
    var n := |s.engineData.project.parts|;
    var f := if focus.Some? then (if n == 0 then None else Some(Min(focus.value, n - 1)))
             else (if n > 0 then Some(0) else None);
    if f != s.focusedPart then s.(selectedPresetIndex := None, focusedPart := f) else s
  }

  /** Setting the focus twice is setting it once, and re-setting the focus a
      valid state already has changes nothing. */
  lemma SetFocusedPartLaws(s: State, focus: Option<nat>)
    ensures SetFocusedPart(SetFocusedPart(s, focus), focus) == SetFocusedPart(s, focus)
    ensures Valid(s) ==> SetFocusedPart(s, s.focusedPart) == s
  {
    FixFocusedPartFixedPoints(|s.engineData.project.parts|, focus);
    FixFocusedPartFixedPoints(|s.engineData.project.parts|, s.focusedPart);
  }

  /** `TGuiState::ActivePresetIndexForFocusedPart`. */
  function ActivePreset(s: State): Option<nat>
    requires Valid(s)
  {
    if s.focusedPart.None? then None
    else s.engineData.project.parts[s.focusedPart.value].activePresetIndex
  }

  /** `TGuiState::GetSelectedPresetIndex`: a recent selection, else the
      focused part's active preset. */
  function SelectedPreset(s: State, recent: bool): (r: Option<nat>)
    requires Valid(s)
    ensures r.Some? ==> (recent && r == s.selectedPresetIndex) || r == ActivePreset(s)
    ensures recent && s.selectedPresetIndex.Some? ==> r == s.selectedPresetIndex
    ensures !recent || s.selectedPresetIndex.None? ==> r == ActivePreset(s)
  {
    if s.selectedPresetIndex.Some? && recent then s.selectedPresetIndex else ActivePreset(s)
  }

  /** The focused part plays an organ on manual `channel`. */
  predicate FocusOnOrgan(s: State, channel: nat) {
    var prj := s.engineData.project;
    && s.focusedPart.Some? && s.focusedPart.value < |prj.parts|
    && prj.parts[s.focusedPart.value].activeInstrumentIndex.Some?
    && prj.parts[s.focusedPart.value].activeInstrumentIndex.value < |prj.instruments|
    && prj.instruments[prj.parts[s.focusedPart.value].activeInstrumentIndex.value].isHammond
    && prj.parts[s.focusedPart.value].midiChannelForSharedInstruments == channel
    && channel <= 1
  }

  /** `TGuiState::ActivePartIsHammond`: the organ manual the focused part
      plays, if any. The instrument lookup is a `vector::at` and throws on a
      dangling instrument index. */
  function ActivePartIsHammond(s: State): (r: Result<Option<nat>, string>)
    requires Valid(s)
    ensures r.Failure? <==>
              var prj := s.engineData.project;
              && s.focusedPart.Some?
              && prj.parts[s.focusedPart.value].activeInstrumentIndex.Some?
              && prj.parts[s.focusedPart.value].activeInstrumentIndex.value >= |prj.instruments|
    ensures forall channel: nat :: r == Success(Some(channel)) <==> FocusOnOrgan(s, channel)
  {
    var prj := s.engineData.project;
    if s.focusedPart.Some? && prj.parts[s.focusedPart.value].activeInstrumentIndex.Some? then
      var part := prj.parts[s.focusedPart.value];
      if part.activeInstrumentIndex.value >= |prj.instruments| then Failure("vector::at: index out of range")
      else if prj.instruments[part.activeInstrumentIndex.value].isHammond
              && 0 <= part.midiChannelForSharedInstruments <= 1
      then Success(Some(part.midiChannelForSharedInstruments as nat))
      else Success(None)
    else Success(None)
  }

  /** `TGuiState::SetEngineData`: takes the new data, renormalises the
      focus, and keeps the selected preset only while it still names a
      slot, the focus stayed put and the focused part's active preset did
      not change. */
  function SetEngineData(s: State, d: Data): (r: State)
    requires Valid(s)
    ensures Valid(r) && r.engineData == d
    ensures r.focusedPart == FixFocusedPart(|d.project.parts|, s.focusedPart)
    ensures r.selectedPresetIndex.Some? <==>
              && s.selectedPresetIndex.Some?
              && s.selectedPresetIndex.value < |d.project.presets|
              && r.focusedPart == s.focusedPart
              && ActivePreset(r) == ActivePreset(s)
    ensures r.selectedPresetIndex.Some? ==> r.selectedPresetIndex == s.selectedPresetIndex
    ensures r.(engineData := s.engineData, focusedPart := s.focusedPart,
               selectedPresetIndex := s.selectedPresetIndex) == s
  {
    var prev := ActivePreset(s);
    var s1 := SetFocusedPart(s.(engineData := d), s.focusedPart);
    var s2 := if s1.selectedPresetIndex.Some? && s1.selectedPresetIndex.value >= |d.project.presets|
              then s1.(selectedPresetIndex := None) else s1;
    if prev != ActivePreset(s2) then s2.(selectedPresetIndex := None) else s2
  }

  /** The selected preset, if any, names a slot of the preset list. */
  predicate SelectionInRange(s: State) {
    s.selectedPresetIndex.Some? ==> s.selectedPresetIndex.value < |s.engineData.project.presets|
  }

  /** Handing the panel the data it already shows changes nothing. */
  lemma SetEngineDataSameData(s: State)
    requires Valid(s) && SelectionInRange(s)
    ensures SetEngineData(s, s.engineData) == s
  {
    FixFocusedPartFixedPoints(|s.engineData.project.parts|, s.focusedPart);
  }

  /** Data with the same project only replaces the panel's copy: focus and
      selection stay. */
  lemma SetEngineDataSameProject(s: State, d: Data)
    requires Valid(s) && d.project == s.engineData.project
    ensures SelectionInRange(s) ==> SetEngineData(s, d) == s.(engineData := d)
  {
    FixFocusedPartFixedPoints(|s.engineData.project.parts|, s.focusedPart);
  }

  // ---------------------------------------------------------------------
  // Gui::OnButton (kompletegui.cpp:294-585)
  // ---------------------------------------------------------------------

  /** The buttons and encoders the panel reacts to; `Other` stands for the
      rest. */
  type Index8 = k: nat | k < 8

  datatype Button =
    | TouchLcdRotary(k: Index8) | TouchRotary
    | Shift | Browser | MidiButton | Plugin | Arp | Instance
    | LcdRotary(k: Index8) | BigRotary | Menu(k: Index8)
    | Left | Right | RotaryClick | Other

  /** A hysteresis filter as the panel uses them: a positive reduction. */
  type Filter = h: Hysteresis.Hysteresis | h.reduction > 0 witness Hysteresis.Hysteresis(0, 1, 0)

  type DrawbarFilters = s: seq<Filter> | |s| == 9
    witness [Hysteresis.Hysteresis(0, 1, 0), Hysteresis.Hysteresis(0, 1, 0), Hysteresis.Hysteresis(0, 1, 0),
             Hysteresis.Hysteresis(0, 1, 0), Hysteresis.Hysteresis(0, 1, 0), Hysteresis.Hysteresis(0, 1, 0),
             Hysteresis.Hysteresis(0, 1, 0), Hysteresis.Hysteresis(0, 1, 0), Hysteresis.Hysteresis(0, 1, 0)]

  /** The panel: its state and the encoder filters it owns. */
  datatype Gui = Gui(state: State, drawbarFilters: DrawbarFilters, programFilter: Filter)

  /** The result of one button event: the panel, the engine's data, and
      the program changes sent to parts, in order. */
  datatype Outcome = Outcome(gui: Gui, engine: Data, sent: seq<(SimpleEvent, nat)>)

  /** `Gui::SetGuiState`: the panel takes the state, and the engine is
      handed the panel's data when it holds different data. */
  function SetGuiState(o: Outcome, s: State): (r: Outcome)
    ensures r.gui == o.gui.(state := s) && r.sent == o.sent
    ensures Same(r.engine, s.engineData)
    ensures Same(o.engine, s.engineData) ==> r.engine == o.engine
  {
    var engine := if Same(o.engine, s.engineData) then o.engine else s.engineData;
    o.(gui := o.gui.(state := s), engine := engine)
  }

  /** The panel settings a write of engine data leaves alone. */
  predicate SettingsKept(a: State, b: State) {
    && a.mode == b.mode && a.shift == b.shift
    && a.quickPresetPage == b.quickPresetPage && a.programChange == b.programChange
  }

  /** `Engine::SetData` called by the panel outside `SetGuiState`: the
      engine takes the data as given, and its change notice runs
      `Gui::OnDataChanged` at once, so the panel state takes the same data
      before the next rule looks at it. */
  function WriteEngine(o: Outcome, d: Data): (r: Outcome)
    requires Valid(o.gui.state)
    ensures Valid(r.gui.state) && r.engine == d && r.gui.state.engineData == d
    ensures r == OnDataChanged(o.gui, d).(sent := o.sent)
    ensures SettingsKept(r.gui.state, o.gui.state)
    ensures r.gui.(state := o.gui.state) == o.gui && r.sent == o.sent
  {
    o.(engine := d, gui := o.gui.(state := SetEngineData(o.gui.state, d)))
  }

  /** Touch sensors: the rotary is touched while the event is positive. */
  function TouchStep(o: Outcome, b: Button, delta: int): (r: Outcome)
    ensures Valid(o.gui.state) ==> Valid(r.gui.state)
    ensures r.gui.state.(touchingRotary := o.gui.state.touchingRotary) == o.gui.state
    ensures r.gui.(state := o.gui.state) == o.gui && r.sent == o.sent
    ensures b.TouchLcdRotary? ==> r.gui.state.touchingRotary[b.k] == (delta > 0)
    ensures b.TouchRotary? ==> r.gui.state.touchingRotary[8] == (delta > 0)
    ensures !b.TouchLcdRotary? && !b.TouchRotary? ==> r == o
  {
    if b.TouchLcdRotary? || b.TouchRotary? then
      var i := if b.TouchRotary? then 8 else b.k;
      var s := o.gui.state;
      SetGuiState(o, s.(touchingRotary := s.touchingRotary[i := delta > 0]))
    else o
  }

  /** Shift toggles; Browser, Midi and Plugin pick a mode and drop Shift. */
  function ModeStep(o: Outcome, b: Button, delta: int): (r: Outcome)
    ensures Valid(o.gui.state) ==> Valid(r.gui.state)
    ensures r.gui.state.(shift := o.gui.state.shift, mode := o.gui.state.mode) == o.gui.state
    ensures r.gui.(state := o.gui.state) == o.gui && r.sent == o.sent
    ensures delta > 0 && b.Shift? ==> r.gui.state.shift == !o.gui.state.shift && r.gui.state.mode == o.gui.state.mode
    ensures delta > 0 && b.Browser? ==> r.gui.state.mode == PerformanceMode && !r.gui.state.shift
    ensures delta > 0 && b.MidiButton? ==> r.gui.state.mode == MidiMode && !r.gui.state.shift
    ensures delta > 0 && b.Plugin? ==> r.gui.state.mode == ControllerMode && !r.gui.state.shift
    ensures delta <= 0 || !(b.Shift? || b.Browser? || b.MidiButton? || b.Plugin?) ==> r == o
  {
    var s := o.gui.state;
    if delta <= 0 then o
    else match b
      case Shift => SetGuiState(o, s.(shift := !s.shift))
      case Browser => SetGuiState(o, s.(mode := PerformanceMode, shift := false))
      case MidiButton => SetGuiState(o, s.(mode := MidiMode, shift := false))
      case Plugin => SetGuiState(o, s.(mode := ControllerMode, shift := false))
      case _ => o
  }

  /** Arp shows or hides the plugin window; showing it also moves the
      engine's focus to the panel's. The engine is written directly, and the
      panel follows through the engine's change notice. */
  function ArpStep(o: Outcome, b: Button, delta: int): (r: Outcome)
    requires Valid(o.gui.state)
    ensures Valid(r.gui.state) && SettingsKept(r.gui.state, o.gui.state)
    ensures r.gui.(state := o.gui.state) == o.gui && r.sent == o.sent
    ensures b.Arp? && delta > 0 && o.gui.state.focusedPart.Some? ==>
              var ed := o.gui.state.engineData;
              && r.engine.showUi == !ed.showUi
              && (r.engine.showUi ==> r.engine.guiFocusedPart == FixFocusedPart(|ed.project.parts|, o.gui.state.focusedPart))
              && (!r.engine.showUi ==> r.engine.guiFocusedPart == ed.guiFocusedPart)
              && r.engine.(showUi := ed.showUi, guiFocusedPart := ed.guiFocusedPart) == ed
              && (SelectionInRange(o.gui.state) ==> r.gui.state == o.gui.state.(engineData := r.engine))
    ensures !(b.Arp? && delta > 0 && o.gui.state.focusedPart.Some?) ==> r == o
  {
    if b.Arp? && delta > 0 && o.gui.state.focusedPart.Some? then
      var ed := o.gui.state.engineData;
      var d := ChangeShowUi(ed, !ed.showUi);
      var d' := if d.showUi then ChangeGuiFocusedPart(d, o.gui.state.focusedPart) else d;
      SetEngineDataSameProject(o.gui.state, d');
      WriteEngine(o, d')
    else o
  }

  /** The part after `focus` in a ring of `count` parts (the first one when
      nothing is focused). */
  function NextFocus(count: nat, focus: Option<nat>): (r: nat)
    requires count > 0
    ensures r < count
    ensures focus.Some? && focus.value < count ==> r == (focus.value + 1) % count
    ensures focus.None? ==> r == 0
  {
    if focus.Some? then (if focus.value + 1 >= count then 0 else focus.value + 1) else 0
  }

  /** Instance moves the focus to the next part, wrapping round, and drops
      Shift; without parts it does nothing. */
  function InstanceStep(o: Outcome, b: Button, delta: int): (r: Outcome)
    requires Valid(o.gui.state)
    ensures Valid(r.gui.state)
    ensures r.gui.(state := o.gui.state) == o.gui && r.sent == o.sent
    ensures b.Instance? && delta > 0 && |o.gui.state.engineData.project.parts| > 0 ==>
              var n := |o.gui.state.engineData.project.parts|;
              && r.gui.state.focusedPart == Some(NextFocus(n, o.gui.state.focusedPart))
              && !r.gui.state.shift
              && r.gui.state == SetFocusedPart(o.gui.state.(shift := false), Some(NextFocus(n, o.gui.state.focusedPart)))
    ensures !(b.Instance? && delta > 0 && |o.gui.state.engineData.project.parts| > 0) ==> r == o
  {
    var s := o.gui.state;
    var n := |s.engineData.project.parts|;
    if b.Instance? && delta > 0 && n > 0 then
      var s1 := s.(shift := false);
      var next := if s1.focusedPart.Some? then (if s1.focusedPart.value + 1 >= n then 0 else s1.focusedPart.value + 1) else 0;
      SetGuiState(o, SetFocusedPart(s1, Some(next)))
    else o
  }

  /** The register one drawbar rotary lands on: the filtered steps added and
      clamped to 0..8. */
  function EditedRegister(register: int, steps: int): (r: int)
    ensures 0 <= r <= 8
    ensures 0 <= register + steps <= 8 ==> r == register + steps
    ensures register + steps < 0 ==> r == 0
    ensures register + steps > 8 ==> r == 8
  {
    Clamp(register + steps, 0, 8)
  }

  /** The switch Menu 0..3 toggles on the organ. */
  function MenuFlag(k: Index8): Option<Flag> {
    if k == 0 then Some(Percussion)
    else if k == 1 then Some(PercussionSoft)
    else if k == 2 then Some(PercussionFast)
    else if k == 3 then Some(Percussion2ndHarmonic)
    else None
  }

  /** The organ after Menu k is pressed while manual `manual` is focused:
      on manual 0 the first four menu buttons toggle a switch; otherwise
      nothing changes. */
  function ToggledHammond(h: HammondData, manual: nat, k: Index8): (r: HammondData)
    ensures manual != 0 || k >= 4 ==> r == h
    ensures manual == 0 && k < 4 ==>
              var f := MenuFlag(k).value;
              GetFlag(r, f) == !GetFlag(h, f) && r == ChangeFlag(h, f, !GetFlag(h, f))
  {
    if manual == 0 && MenuFlag(k).Some? then
      var f := MenuFlag(k).value;
      ChangeFlag(h, f, !GetFlag(h, f))
    else h
  }

  /** Pressing the same menu button twice gives back the organ one started
      with. */
  lemma ToggleTwice(h: HammondData, manual: nat, k: Index8)
    ensures ToggledHammond(ToggledHammond(h, manual, k), manual, k) == h
  {
    if manual == 0 && k < 4 {
      var f := MenuFlag(k).value;
      ChangeFlagLaws(h, f, !GetFlag(h, f), GetFlag(h, f));
    }
  }

  /** The drawbar a rotary drives: display rotaries 0..7, then the big
      rotary for drawbar 8. */
  function DrawbarOf(b: Button): (i: nat)
    requires b.LcdRotary? || b.BigRotary?
    ensures i < 9
    ensures b.BigRotary? <==> i == 8
  {
    if b.BigRotary? then 8 else b.k
  }

  /** Controller mode with an organ part focused: the display rotaries and
      the big rotary drive drawbars 0..7 and 8 through their filters, and
      the menu buttons toggle switches. The engine is written directly and
      the panel follows through its change notice. Throws exactly where
      `ActivePartIsHammond` does. */
  function ControllerStep(o: Outcome, b: Button, delta: int): (r: Result<Outcome, string>)
    requires Valid(o.gui.state)
    ensures o.gui.state.mode != ControllerMode ==> r == Success(o)
    ensures r.Failure? <==> o.gui.state.mode == ControllerMode && ActivePartIsHammond(o.gui.state).Failure?
    ensures o.gui.state.mode == ControllerMode && ActivePartIsHammond(o.gui.state) == Success(None) ==> r == Success(o)
    ensures r.Success? ==> Valid(r.value.gui.state) && r.value.sent == o.sent
    ensures r.Success? ==> SettingsKept(r.value.gui.state, o.gui.state)
    ensures r.Success? ==> r.value.gui.programFilter == o.gui.programFilter
    ensures r.Success? ==> r.value.gui.state == o.gui.state || r.value.gui.state == SetEngineData(o.gui.state, r.value.engine)
    ensures r.Success? && r.value.engine != o.engine ==>
              var ed := o.gui.state.engineData;
              && r.value.engine.(hammond := ed.hammond) == ed
              && o.gui.state.mode == ControllerMode
              && exists manual: nat :: FocusOnOrgan(o.gui.state, manual)
  {
    var s := o.gui.state;
    if s.mode != ControllerMode then Success(o)
    else
      var organ :- ActivePartIsHammond(s);
      if organ.None? then Success(o)
      else
        var manual := organ.value;
        assert FocusOnOrgan(s, manual);
        var h := s.engineData.hammond;
        if b.LcdRotary? || b.BigRotary? then
          var i := if b.BigRotary? then 8 else b.k;
          var (f, steps) := Hysteresis.Update(o.gui.drawbarFilters[i], delta);
          var o1 := o.(gui := o.gui.(drawbarFilters := o.gui.drawbarFilters[i := f]));
          var register := h.manuals[manual].registers[i];
          var value := EditedRegister(register, steps);
          if steps != 0 && value != register then
            Success(WriteEngine(o1, ChangeHammondData(s.engineData, ChangeManual(h, manual, ChangeRegister(h.manuals[manual], i, value)))))
          else Success(o1)
        else if b.Menu? && delta > 0 then
          Success(WriteEngine(o, ChangeHammondData(s.engineData, ToggledHammond(h, manual, b.k))))
        else Success(o)
  }

  /** A drawbar rotary in Controller mode with manual `manual` focused: its
      filter advances, and when the filtered steps move the drawbar, that
      one register takes the edited value and nothing else in the engine
      changes; otherwise the engine and the panel state stay. */
  lemma ControllerRotaryStep(o: Outcome, b: Button, delta: int, manual: nat)
    requires Valid(o.gui.state) && o.gui.state.mode == ControllerMode && FocusOnOrgan(o.gui.state, manual)
    requires b.LcdRotary? || b.BigRotary?
    ensures var r := ControllerStep(o, b, delta);
            var i := DrawbarOf(b);
            var u := Hysteresis.Update(o.gui.drawbarFilters[i], delta);
            var ed := o.gui.state.engineData;
            var register := ed.hammond.manuals[manual].registers[i];
            && r.Success?
            && r.value.gui.drawbarFilters == o.gui.drawbarFilters[i := u.0]
            && (u.1 == 0 || EditedRegister(register, u.1) == register ==>
                  r.value.engine == o.engine && r.value.gui.state == o.gui.state)
            && (u.1 != 0 && EditedRegister(register, u.1) != register ==>
                  && r.value.engine.hammond.manuals[manual].registers[i] == EditedRegister(register, u.1)
                  && (forall j :: 0 <= j < 9 && j != i ==>
                        r.value.engine.hammond.manuals[manual].registers[j] == ed.hammond.manuals[manual].registers[j])
                  && r.value.engine.hammond.manuals[1 - manual] == ed.hammond.manuals[1 - manual]
                  && (forall f :: GetFlag(r.value.engine.hammond, f) == GetFlag(ed.hammond, f))
                  && r.value.engine.(hammond := ed.hammond) == ed
                  && r.value.gui.state == SetEngineData(o.gui.state, r.value.engine))
  {
    assert ActivePartIsHammond(o.gui.state) == Success(Some(manual));
  }

  /** A menu button pressed in Controller mode with manual `manual`
      focused: the engine gets the panel's data with the organ toggled as
      `ToggledHammond` says, and the panel follows. */
  lemma ControllerMenuStep(o: Outcome, k: Index8, delta: int, manual: nat)
    requires Valid(o.gui.state) && o.gui.state.mode == ControllerMode && FocusOnOrgan(o.gui.state, manual)
    requires delta > 0
    ensures var r := ControllerStep(o, Menu(k), delta);
            var ed := o.gui.state.engineData;
            && r.Success?
            && r.value.engine == ChangeHammondData(ed, ToggledHammond(ed.hammond, manual, k))
            && r.value.gui.state == SetEngineData(o.gui.state, r.value.engine)
            && r.value.gui.drawbarFilters == o.gui.drawbarFilters
  {
    assert ActivePartIsHammond(o.gui.state) == Success(Some(manual));
  }

  /** Left and Right page through the quick presets, within the pages. */
  function PageAfter(page: nat, b: Button): (r: nat)
    ensures page < NumPresetPages ==> r < NumPresetPages
    ensures b.Left? && page > 0 ==> r == page - 1
    ensures b.Right? && page < NumPresetPages - 1 ==> r == page + 1
    ensures (b.Left? && page == 0) || (b.Right? && page >= NumPresetPages - 1) || !(b.Left? || b.Right?) ==> r == page
  {
    if b.Left? then (if page > 0 then page - 1 else page)
    else if b.Right? then (if page < NumPresetPages - 1 then page + 1 else page)
    else page
  }

  /** Left undoes Right and Right undoes Left, away from the edges. */
  lemma PagesInverse(page: nat)
    ensures page < NumPresetPages - 1 ==> PageAfter(PageAfter(page, Right), Left) == page
    ensures 0 < page < NumPresetPages ==> PageAfter(PageAfter(page, Left), Right) == page
  {
  }

  /** The big rotary in Performance mode: the selection moves by the
      rotation and is clamped to the preset list; with no recent selection
      and no active preset it starts at 0. */
  function NextSelection(current: Option<nat>, delta: int, presetCount: nat): (r: nat)
    requires presetCount > 0
    ensures r < presetCount
    ensures current.None? ==> r == 0
    ensures current.Some? && 0 <= current.value + delta < presetCount ==> r == current.value + delta
    ensures current.Some? && current.value + delta < 0 ==> r == 0
    ensures current.Some? && current.value + delta >= presetCount ==> r == presetCount - 1
  {
    if current.Some? then
      var i := current.value + delta;
      var i1 := if i < 0 then 0 else i;
      var i2 := if i1 >= presetCount then presetCount - 1 else i1;
      i2
    else 0
  }

  /** Performance mode: paging, preset selection, loading the selection
      into the focused part, and storing or recalling quick presets. */
  function PerformanceStep(o: Outcome, b: Button, delta: int, recent: bool): (r: Outcome)
    requires Valid(o.gui.state) && o.gui.state.mode == PerformanceMode
    ensures Valid(r.gui.state)
    ensures r.gui.state.mode == PerformanceMode && r.sent == o.sent
    ensures r.gui.(state := o.gui.state) == o.gui
    ensures r.gui.state.quickPresetPage == (if delta > 0 then PageAfter(o.gui.state.quickPresetPage, b) else o.gui.state.quickPresetPage)
    ensures r.gui.state.programChange == o.gui.state.programChange
    ensures b.BigRotary? && delta != 0 && |o.gui.state.engineData.project.presets| > 0 ==>
              r.gui.state.selectedPresetIndex
                == Some(NextSelection(SelectedPreset(o.gui.state, recent), delta, |o.gui.state.engineData.project.presets|))
    ensures b.RotaryClick? && delta > 0 && o.gui.state.focusedPart.Some? && SelectedPreset(o.gui.state, recent).Some? ==>
              var s := o.gui.state;
              r.gui.state.engineData.project
                == SwitchToPreset(s.engineData.project, s.focusedPart.value, SelectedPreset(s, recent).value)
  {
    var s := o.gui.state;
    var prj := s.engineData.project;
    match b
    case Left | Right =>
      if delta > 0 && PageAfter(s.quickPresetPage, b) != s.quickPresetPage
      then SetGuiState(o, s.(quickPresetPage := PageAfter(s.quickPresetPage, b)))
      else o
    case BigRotary =>
      if |prj.presets| > 0 && delta != 0
      then SetGuiState(o, s.(selectedPresetIndex := Some(NextSelection(SelectedPreset(s, recent), delta, |prj.presets|))))
      else o
    case RotaryClick =>
      var selected := SelectedPreset(s, recent);
      if delta > 0 && s.focusedPart.Some? && selected.Some? then
        var newProject := SwitchToPreset(prj, s.focusedPart.value, selected.value);
        SetGuiState(o, SetEngineData(s, ChangeProject(s.engineData, newProject)))
      else o
    case Menu(k) =>
      if delta > 0 && s.focusedPart.Some? then QuickPresetStep(o, k, recent) else o
    case _ => o
  }

  /** A menu button in Performance mode: with shift, store the selected
      preset in quick-preset slot `page * 8 + k` of the focused part and
      release shift; without, switch the part to the preset that slot
      holds, if any. */
  function QuickPresetStep(o: Outcome, k: Index8, recent: bool): (r: Outcome)
    requires Valid(o.gui.state) && o.gui.state.mode == PerformanceMode && o.gui.state.focusedPart.Some?
    ensures Valid(r.gui.state)
    ensures r.gui.state.mode == PerformanceMode && r.sent == o.sent
    ensures r.gui.(state := o.gui.state) == o.gui
    ensures r.gui.state.quickPresetPage == o.gui.state.quickPresetPage
    ensures r.gui.state.programChange == o.gui.state.programChange
    ensures var s := o.gui.state;
            var slot := s.quickPresetPage * 8 + k;
            var partIndex := s.focusedPart.value;
            s.shift && SelectedPreset(s, recent).Some? ==>
              && !r.gui.state.shift
              && partIndex < |r.gui.state.engineData.project.parts|
              && slot < |r.gui.state.engineData.project.parts[partIndex].quickPresets|
              && r.gui.state.engineData.project.parts[partIndex].quickPresets[slot] == SelectedPreset(s, recent)
    ensures o.gui.state.shift && SelectedPreset(o.gui.state, recent).None? ==> r == o
    ensures var s := o.gui.state;
            var slot := s.quickPresetPage * 8 + k;
            var part := s.engineData.project.parts[s.focusedPart.value];
            !s.shift ==>
              if slot < |part.quickPresets| && part.quickPresets[slot].Some? then
                && r.engine == ChangeProject(o.engine, SwitchToPreset(s.engineData.project, s.focusedPart.value, part.quickPresets[slot].value))
                && r.gui.state == SetEngineData(s, r.engine)
              else r == o
  {
    var s := o.gui.state;
    var prj := s.engineData.project;
    var partIndex := s.focusedPart.value;
    var part := prj.parts[partIndex];
    var slot := s.quickPresetPage * 8 + k;
    if s.shift then
      // store the selection in the quick-preset slot
      var selected := SelectedPreset(s, recent);
      if selected.Some? then
        var newProject := ChangePart(prj, partIndex, ChangeQuickPreset(part, slot, selected));
        SetGuiState(o, SetEngineData(s, ChangeProject(s.engineData, newProject)).(shift := false))
      else o
    else
      // recall the quick preset into the part
      var stored := if slot < |part.quickPresets| then part.quickPresets[slot] else None;
      if stored.Some? then
        WriteEngine(o, ChangeProject(o.engine, SwitchToPreset(prj, partIndex, stored.value)))
      else o
  }

  /** MIDI mode: display rotary 0 picks a program, clamped to 0..127, and
      sends it to the focused part. */
  function MidiStep(o: Outcome, b: Button, delta: int): (r: Outcome)
    requires Valid(o.gui.state) && o.gui.state.mode == MidiMode
    ensures Valid(r.gui.state)
    ensures r.gui.state.(programChange := o.gui.state.programChange) == o.gui.state
    ensures r.gui.drawbarFilters == o.gui.drawbarFilters
    ensures 0 <= o.gui.state.programChange <= 127 ==> 0 <= r.gui.state.programChange <= 127
    ensures b != LcdRotary(0) ==> r == o
    ensures b == LcdRotary(0) ==>
              var u := Hysteresis.Update(o.gui.programFilter, delta);
              var s := o.gui.state;
              && r.gui.programFilter == u.0
              && (u.1 != 0 && s.focusedPart.Some? ==>
                    && r.gui.state.programChange == Clamp(s.programChange + u.1, 0, 127)
                    && r.sent == o.sent + [(ProgramChangeEvent(0, r.gui.state.programChange), s.focusedPart.value)])
              && (u.1 == 0 || s.focusedPart.None? ==> r.gui.state == s && r.sent == o.sent)
  {
    if b == LcdRotary(0) then
      var (f, steps) := Hysteresis.Update(o.gui.programFilter, delta);
      var o1 := o.(gui := o.gui.(programFilter := f));
      var s := o1.gui.state;
      if steps != 0 && s.focusedPart.Some? then
        var program := Clamp(s.programChange + steps, 0, 127);
        var o2 := SetGuiState(o1, s.(programChange := program));
        o2.(sent := o2.sent + [(ProgramChangeEvent(0, program), s.focusedPart.value)])
      else o1
    else o
  }

  /** The rules of `Gui::OnButton` that apply in every mode, in the
      source's order: touch, mode and shift, Arp, Instance, then the
      Controller-mode rules. None of them sends anything, moves the page or
      changes the program number. */
  function CommonSteps(g: Gui, engine: Data, b: Button, delta: int): (r: Result<Outcome, string>)
    requires Valid(g.state)
    ensures r.Success? ==> Valid(r.value.gui.state) && r.value.sent == []
    ensures r.Success? ==> r.value.gui.state.quickPresetPage == g.state.quickPresetPage
    ensures r.Success? ==> r.value.gui.state.programChange == g.state.programChange
  {
    var o0 := Outcome(g, engine, []);
    var o1 := TouchStep(o0, b, delta);
    var o2 := ModeStep(o1, b, delta);
    assert Valid(o2.gui.state) && o2.sent == [];
    var o3 := ArpStep(o2, b, delta);
    var o4 := InstanceStep(o3, b, delta);
    assert o4.sent == [];
    ControllerStep(o4, b, delta)
  }

  /** `Gui::OnButton`: the rules above, in the order the source applies
      them, each seeing the state the previous one left. */
  function OnButton(g: Gui, engine: Data, b: Button, delta: int, recent: bool): (r: Result<Outcome, string>)
    requires Valid(g.state)
    ensures r.Success? ==> Valid(r.value.gui.state)
    ensures r.Success? && g.state.quickPresetPage < NumPresetPages ==> r.value.gui.state.quickPresetPage < NumPresetPages
    ensures r.Success? && 0 <= g.state.programChange <= 127 ==> 0 <= r.value.gui.state.programChange <= 127
    ensures r.Success? ==> forall m :: m in r.value.sent ==> IsKind(m.0, Kind.ProgramChange) && m.1 < |r.value.gui.state.engineData.project.parts|
  {
    var o5 :- CommonSteps(g, engine, b, delta);
    if o5.gui.state.mode == PerformanceMode then Success(PerformanceStep(o5, b, delta, recent))
    else if o5.gui.state.mode == MidiMode then Success(MidiStep(o5, b, delta))
    else Success(o5)
  }

  /** `Gui::OnDataChanged`: the panel takes over the engine's data. */
  function OnDataChanged(g: Gui, engine: Data): (r: Outcome)
    requires Valid(g.state)
    ensures Valid(r.gui.state) && r.gui.state.engineData == engine && r.engine == engine
    ensures r.gui.(state := g.state) == g
  {
    SetGuiState(Outcome(g, engine, []), SetEngineData(g.state, engine))
  }

  // ---------------------------------------------------------------------
  // Properties of the rules
  // ---------------------------------------------------------------------

  /** The focus after `presses` presses of Instance, starting from part
      `focus` of `count`. */
  function FocusAfterPresses(count: nat, focus: nat, presses: nat): nat
    requires focus < count
    decreases presses
  {
    if presses == 0 then focus else FocusAfterPresses(count, NextFocus(count, Some(focus)), presses - 1)
  }

  /** Instance walks the parts round a ring: after k presses the focus has
      moved k places, modulo the number of parts. */
  lemma {:induction false} InstancePressesRotate(count: nat, focus: nat, presses: nat)
    requires focus < count
    ensures FocusAfterPresses(count, focus, presses) == (focus + presses) % count
    decreases presses
  {
    if presses == 0 {
      ModUnique(focus, count, 0, focus);
    } else {
      var next := NextFocus(count, Some(focus));
      assert next == (focus + 1) % count;
      InstancePressesRotate(count, next, presses - 1);
      assert FocusAfterPresses(count, focus, presses) == (next + (presses - 1)) % count;
      ModAddOne(count, focus, presses - 1);
    }
  }

  /** So as many presses as there are parts come back to the start. */
  lemma InstanceFullCircle(count: nat, focus: nat)
    requires focus < count
    ensures FocusAfterPresses(count, focus, count) == focus
  {
    InstancePressesRotate(count, focus, count);
    ModUnique(focus + count, count, 1, focus);
  }

  lemma ModAddOne(count: nat, focus: nat, k: nat)
    requires focus < count
    ensures ((focus + 1) % count + k) % count == (focus + 1 + k) % count
  {
    if focus + 1 == count {
      var q := k / count;
      assert k == q * count + k % count;
      ModUnique(count, count, 1, 0);
      assert (q + 1) * count == q * count + count;
      ModUnique(count + k, count, q + 1, k % count);
    } else {
      ModUnique(focus + 1, count, 0, focus + 1);
    }
  }

  /** A press of Instance on the panel moves the focus one part on, unless
      the press throws (Controller mode with a dangling instrument index). */
  lemma InstanceButtonMovesFocus(g: Gui, engine: Data, recent: bool)
    requires Valid(g.state) && |g.state.engineData.project.parts| > 0
    ensures var r := OnButton(g, engine, Instance, 1, recent);
            r.Success? ==>
              && r.value.gui.state.focusedPart == Some(NextFocus(|g.state.engineData.project.parts|, g.state.focusedPart))
              && !r.value.gui.state.shift
  {
  }

  /** The big rotary in Controller mode, with its pass-through filter, moves
      drawbar 8 of the focused organ manual by the rotation, clamped to
      0..8; when that leaves the drawbar where it was, the engine is not
      told anything. */
  lemma BigRotaryMovesLastDrawbar(o: Outcome, delta: int, manual: nat)
    requires Valid(o.gui.state) && o.gui.state.mode == ControllerMode && FocusOnOrgan(o.gui.state, manual)
    requires o.gui.drawbarFilters[8] == Hysteresis.Make(0, 1)
    ensures var r := ControllerStep(o, BigRotary, delta);
            var ed := o.gui.state.engineData;
            var register := ed.hammond.manuals[manual].registers[8];
            && r.Success?
            && r.value.gui.drawbarFilters[8] == Hysteresis.Make(0, 1)
            && (delta == 0 || EditedRegister(register, delta) == register ==> r.value.engine == o.engine)
            && (delta != 0 && EditedRegister(register, delta) != register ==>
                  && r.value.engine.hammond.manuals[manual].registers[8] == EditedRegister(register, delta)
                  && r.value.engine.hammond.manuals[1 - manual] == ed.hammond.manuals[1 - manual]
                  && r.value.engine.(hammond := ed.hammond) == ed)
  {
    Hysteresis.PassThrough(delta);
    assert ActivePartIsHammond(o.gui.state) == Success(Some(manual));
  }
}

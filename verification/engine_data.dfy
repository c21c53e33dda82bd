/** `Engine::TData` (app/source/engine.h:195-272): the project, the organ
    settings, the part the front panel is focused on and two UI switches.
    `ChangeProject` and `ChangeGuiFocusedPart` renormalise the focus with
    `FixFocusedPart`; the other setters leave it alone.

    `Part2ControllerValues()` is read by the engine but is not declared in
    the class as given; it is modelled as one list of optional controller
    values per part, and it takes no part in `operator==`. */
module EngineData {
  import opened Wrappers
  import opened ProjectData

  datatype Data = Data(
    project: Project,
    hammond: HammondData,
    guiFocusedPart: Option<nat>,
    showUi: bool,
    showReverbUi: bool,
    part2ControllerValues: seq<seq<Option<int>>>)

  /** A focus that `FixFocusedPart` leaves as it is: absent exactly when
      there are no parts, and otherwise naming an existing part. */
  predicate FocusNormal(partCount: nat, focus: Option<nat>) {
    (focus.None? <==> partCount == 0) && (focus.Some? ==> focus.value < partCount)
  }

  /** `TData::FixFocusedPart`. */
  function FixFocusedPart(partCount: nat, focus: Option<nat>): (r: Option<nat>)
    ensures FocusNormal(partCount, r)
    ensures focus.Some? && focus.value < partCount ==> r == focus
    ensures focus.Some? && focus.value >= partCount > 0 ==> r == Some(partCount - 1)
    ensures focus.None? && partCount > 0 ==> r == Some(0)
  {
    if partCount == 0 then None
    else if focus.Some? then
      (if focus.value >= partCount then Some(partCount - 1) else focus)
    else Some(0)
  }

  /** The normal forms are exactly the fixed points of `FixFocusedPart`, so
      fixing twice is fixing once. */
  lemma FixFocusedPartFixedPoints(partCount: nat, focus: Option<nat>)
    ensures FixFocusedPart(partCount, focus) == focus <==> FocusNormal(partCount, focus)
    ensures FixFocusedPart(partCount, FixFocusedPart(partCount, focus)) == FixFocusedPart(partCount, focus)
  {
  }

  predicate Normal(d: Data) {
    FocusNormal(|d.project.parts|, d.guiFocusedPart)
  }

  function ChangeProject(d: Data, prj: Project): (r: Data)
    ensures r.project == prj && Normal(r)
    ensures r.(project := d.project, guiFocusedPart := d.guiFocusedPart) == d
    ensures FocusNormal(|prj.parts|, d.guiFocusedPart) ==> r.guiFocusedPart == d.guiFocusedPart
  {
    d.(project := prj, guiFocusedPart := FixFocusedPart(|prj.parts|, d.guiFocusedPart))
  }

  function ChangeGuiFocusedPart(d: Data, focus: Option<nat>): (r: Data)
    ensures Normal(r)
    ensures r.(guiFocusedPart := d.guiFocusedPart) == d
    ensures FocusNormal(|d.project.parts|, focus) ==> r.guiFocusedPart == focus
  {
    d.(guiFocusedPart := FixFocusedPart(|d.project.parts|, focus))
  }

  function ChangeHammondData(d: Data, h: HammondData): (r: Data)
    ensures r.hammond == h && r.(hammond := d.hammond) == d
    ensures Normal(d) ==> Normal(r)
  {
    d.(hammond := h)
  }

  function ChangeShowUi(d: Data, showUi: bool): (r: Data)
    ensures r.showUi == showUi && r.(showUi := d.showUi) == d
    ensures Normal(d) ==> Normal(r)
  {
    d.(showUi := showUi)
  }

  function ChangeShowReverbUi(d: Data, showReverbUi: bool): (r: Data)
    ensures r.showReverbUi == showReverbUi && r.(showReverbUi := d.showReverbUi) == d
    ensures Normal(d) ==> Normal(r)
  {
    d.(showReverbUi := showReverbUi)
  }

  /** `TData::operator==`: the five declared members, and not the
      controller values. */
  predicate Same(a: Data, b: Data) {
    a.project == b.project && a.hammond == b.hammond && a.guiFocusedPart == b.guiFocusedPart
    && a.showUi == b.showUi && a.showReverbUi == b.showReverbUi
  }

  /** Two data values are `Same` exactly when they differ at most in their
      controller values. */
  lemma SameIgnoresOnlyControllerValues(a: Data, b: Data)
    ensures Same(a, b) <==> a.(part2ControllerValues := b.part2ControllerValues) == b
  {
  }
}

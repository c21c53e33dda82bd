/** What the host learns about an LV2 plugin's ports from lilv, the LV2
    host library: one descriptor per port, in index order. Both the current
    host (app/source/lilvutils.cpp) and the older one (source/lilvutils.cpp)
    classify ports from these facts. */
module Lv2 {
  import opened Wrappers

  /** The `lv2:designation` values the host asks about: `pg:left`,
      `pg:right` and `lv2:control`. */
  datatype Designation = GroupLeft | GroupRight | ControlDesignation | OtherDesignation

  /** The lilv queries about one port. The range values are present only
      when lilv reports them as numbers. */
  datatype PortDesc = PortDesc(
    symbol: string,
    name: string,
    optional: bool,
    isInput: bool,
    isOutput: bool,
    isAudio: bool,
    isControl: bool,
    isCv: bool,
    isAtom: bool,
    designation: Option<Designation>,
    supportsMidi: bool,
    minimumSize: Option<int>,
    minimum: Option<real>,
    maximum: Option<real>,
    defaultValue: Option<real>)

  /** The port is of the class (`lv2:InputPort` when `input`, else
      `lv2:OutputPort`) and carries the designation. */
  predicate Matches(d: PortDesc, input: bool, g: Designation) {
    (if input then d.isInput else d.isOutput) && d.designation == Some(g)
  }

  /** `lilv_plugin_get_port_by_designation`: the first port of the class
      with the designation. */
  function Designated(ports: seq<PortDesc>, input: bool, g: Designation): (r: Option<nat>)
    ensures r.Some? ==> r.value < |ports| && Matches(ports[r.value], input, g)
    ensures r.Some? ==> forall j :: 0 <= j < r.value ==> !Matches(ports[j], input, g)
    ensures r.None? ==> forall j :: 0 <= j < |ports| ==> !Matches(ports[j], input, g)
  {
    DesignatedFrom(ports, input, g, 0)
  }

  function DesignatedFrom(ports: seq<PortDesc>, input: bool, g: Designation, i: nat): (r: Option<nat>)
    requires i <= |ports|
    ensures r.Some? ==> i <= r.value < |ports| && Matches(ports[r.value], input, g)
    ensures r.Some? ==> forall j :: i <= j < r.value ==> !Matches(ports[j], input, g)
    ensures r.None? ==> forall j :: i <= j < |ports| ==> !Matches(ports[j], input, g)
    decreases |ports| - i
  {
    if i == |ports| then None
    else if Matches(ports[i], input, g) then Some(i)
    else DesignatedFrom(ports, input, g, i + 1)
  }
}

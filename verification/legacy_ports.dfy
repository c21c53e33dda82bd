/** How the older host (source/lilvutils.cpp) picks the ports of an LV2
    plugin it loads: one MIDI control input and a stereo pair of audio
    outputs, among the ports that are not optional. */
module LegacyPorts {
  import opened Wrappers
  import opened Lv2

  /** A required (not optional) audio port that is not an input. */
  predicate IsAudioOutput(d: PortDesc) {
    !d.optional && d.isAudio && !d.isInput
  }

  /** A required atom input that takes MIDI events. */
  predicate IsMidiControl(d: PortDesc) {
    !d.optional && d.isAtom && d.supportsMidi && d.isInput
  }

  /** The indices of the ports satisfying a kind, in index order. */
  function AudioOutputs(ports: seq<PortDesc>): (r: seq<nat>)
    ensures forall i :: 0 <= i < |r| ==> r[i] < |ports| && IsAudioOutput(ports[r[i]])
    ensures forall k :: 0 <= k < |ports| && IsAudioOutput(ports[k]) ==> k in r
    ensures forall i, j :: 0 <= i < j < |r| ==> r[i] < r[j]
  {
    if |ports| == 0 then []
    else
      var rest := AudioOutputs(ports[..|ports| - 1]);
      if IsAudioOutput(ports[|ports| - 1]) then rest + [|ports| - 1] else rest
  }

  function MidiControls(ports: seq<PortDesc>): (r: seq<nat>)
    ensures forall i :: 0 <= i < |r| ==> r[i] < |ports| && IsMidiControl(ports[r[i]])
    ensures forall k :: 0 <= k < |ports| && IsMidiControl(ports[k]) ==> k in r
    ensures forall i, j :: 0 <= i < j < |r| ==> r[i] < r[j]
  {
    if |ports| == 0 then []
    else
      var rest := MidiControls(ports[..|ports| - 1]);
      if IsMidiControl(ports[|ports| - 1]) then rest + [|ports| - 1] else rest
  }

  datatype LegacyPlugin = LegacyPlugin(controlInput: Option<nat>, audioOutLeft: Option<nat>, audioOutRight: Option<nat>)

  /** The MIDI control input: with several candidates, the input
      designated `lv2:control` when it is one of them; otherwise the
      first candidate. */
  function ControlInput(ports: seq<PortDesc>): (r: Option<nat>)
    ensures r.Some? ==> r.value < |ports| && IsMidiControl(ports[r.value])
    ensures r.None? <==> forall k :: 0 <= k < |ports| ==> !IsMidiControl(ports[k])
  {
    var candidates := MidiControls(ports);
    var designated := Designated(ports, true, ControlDesignation);
    if |candidates| > 1 && designated.Some? && designated.value in candidates then designated
    else if |candidates| > 0 then Some(candidates[0])
    else None
  }

  /** `Plugin::Plugin` of the older host: "could not load plugin" for an
      unknown URI, the direction error for a port that is neither input
      nor output (a port that is both is accepted), otherwise the chosen
      ports. */
  function LoadPlugin(plugin: Option<seq<PortDesc>>): (r: Result<LegacyPlugin, string>)
    ensures plugin.None? ==> r == Failure("could not load plugin")
    ensures plugin.Some? ==> (r.Failure? <==> exists k :: 0 <= k < |plugin.value| && !plugin.value[k].isInput && !plugin.value[k].isOutput)
    ensures r.Success? ==> r.value.controlInput == ControlInput(plugin.value)
    ensures r.Success? ==> (r.value.audioOutLeft.Some? <==> r.value.audioOutRight.Some?)
    ensures r.Success? && r.value.audioOutLeft.Some? ==>
              && r.value.audioOutLeft.value < |plugin.value| && IsAudioOutput(plugin.value[r.value.audioOutLeft.value])
              && r.value.audioOutRight.value < |plugin.value| && IsAudioOutput(plugin.value[r.value.audioOutRight.value])
  {
    match plugin
    case None => Failure("could not load plugin")
    case Some(ports) =>
      if exists k :: 0 <= k < |ports| && !ports[k].isInput && !ports[k].isOutput then
        Failure("port is neither input nor output")
      else
        var outs := AudioOutputs(ports);
        Success(LegacyPlugin(
          ControlInput(ports),
          if |outs| > 0 then Some(outs[0]) else None,
          if |outs| > 1 then Some(outs[1]) else if |outs| > 0 then Some(outs[0]) else None))
  }

  /** The designated control input wins whenever it is a candidate; with
      no designated candidate the first candidate is taken. */
  lemma ControlInputChoice(ports: seq<PortDesc>)
    ensures var d := Designated(ports, true, ControlDesignation);
            var r := ControlInput(ports);
            && (d.Some? && IsMidiControl(ports[d.value]) ==> r == d)
            && ((d.None? || !IsMidiControl(ports[d.value])) && r.Some? ==>
                  forall k :: 0 <= k < r.value ==> !IsMidiControl(ports[k]))
  {
    var candidates := MidiControls(ports);
    var d := Designated(ports, true, ControlDesignation);
    if d.Some? && IsMidiControl(ports[d.value]) {
      assert d.value in candidates;
      if |candidates| == 1 {
        assert candidates[0] == d.value;
      }
    }
  }

  /** A plugin with a single required audio output gets it on both
      channels; with two or more, the first two in index order. */
  lemma AudioOutputPair(ports: seq<PortDesc>)
    requires LoadPlugin(Some(ports)).Success?
    ensures var r := LoadPlugin(Some(ports)).value;
            var outs := AudioOutputs(ports);
            && (|outs| == 1 ==> r.audioOutLeft == r.audioOutRight == Some(outs[0]))
            && (|outs| >= 2 ==> r.audioOutLeft == Some(outs[0]) && r.audioOutRight == Some(outs[1]) && outs[0] < outs[1])
  {
  }

  /** Optional ports are never chosen. */
  lemma OptionalPortsIgnored(ports: seq<PortDesc>, k: nat)
    requires LoadPlugin(Some(ports)).Success? && k < |ports| && ports[k].optional
    ensures var r := LoadPlugin(Some(ports)).value;
            r.controlInput != Some(k) && r.audioOutLeft != Some(k) && r.audioOutRight != Some(k)
  {
  }
}

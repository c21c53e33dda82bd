/** How the current host turns an LV2 plugin's ports into port objects
    (`GetPluginPorts`) and picks the ports it connects (`Plugin::Plugin`),
    and how a plugin UI's writes to a port are accepted (`UI::PortWrite`),
    all in app/source/lilvutils.cpp. */
module PluginPorts {
  import opened Wrappers
  import opened IntMath
  import opened Lv2

  datatype Direction = Input | Output
  datatype Stereo = Left | Right

  /** The concrete port classes `TAudioPort`, `TAtomPort`, `TControlPort`
      and `TCvPort` with what each one carries besides the common part. */
  datatype Kind =
    | AudioKind(stereo: Option<Stereo>)
    | AtomKind(control: bool, supportsMidi: bool, minBufSize: Option<int>)
    | ControlKind(minimum: real, maximum: real, defaultValue: real)
    | CvKind

  datatype Port = Port(index: nat, direction: Direction, name: string, symbol: string, optional: bool, kind: Kind)

  // ---------------------------------------------------------------------
  // GetPluginPorts (app/source/lilvutils.cpp:56-205)
  // ---------------------------------------------------------------------

  predicate HasRange(d: PortDesc) {
    d.minimum.Some? && d.maximum.Some? && d.defaultValue.Some?
  }

  /** The port is handled by the control-port branch: a control port that
      is neither audio nor atom. */
  predicate ControlBranch(d: PortDesc) {
    !d.isAudio && !d.isAtom && d.isControl
  }

  /** The port is the designated port of one of the two classes. */
  predicate DesignatedAs(ports: seq<PortDesc>, k: nat, g: Designation) {
    Designated(ports, false, g) == Some(k) || Designated(ports, true, g) == Some(k)
  }

  /** The port object `GetPluginPorts` creates for port k, or None where
      it pushes a null pointer. */
  function MakePort(ports: seq<PortDesc>, k: nat): (r: Option<Port>)
    requires k < |ports|
    ensures r.Some? ==> r.value.index == k && r.value.symbol == ports[k].symbol && r.value.name == ports[k].name
    ensures r.Some? ==> r.value.optional == ports[k].optional
    ensures r.Some? ==> (r.value.direction == Input <==> ports[k].isInput)
    ensures r.None? <==> (ControlBranch(ports[k]) && ports[k].isInput && !HasRange(ports[k]))
                         || (!ports[k].isAudio && !ports[k].isAtom && !ports[k].isControl && !ports[k].isCv)
  {
    var d := ports[k];
    var dir := if d.isInput then Input else Output;
    var base := (kind: Kind) => Some(Port(k, dir, d.name, d.symbol, d.optional, kind));
    if d.isAudio then
      base(AudioKind(if DesignatedAs(ports, k, GroupLeft) then Some(Left)
                     else if DesignatedAs(ports, k, GroupRight) then Some(Right)
                     else None))
    else if d.isAtom then
      base(AtomKind(DesignatedAs(ports, k, ControlDesignation), d.supportsMidi, d.minimumSize))
    else if d.isControl then
      if HasRange(d) then base(ControlKind(d.minimum.value, d.maximum.value, d.defaultValue.value))
      else if d.isInput then None
      else base(ControlKind(0.0, 1.0, 0.0))
    else if d.isCv then base(CvKind)
    else None
  }

  /** Port k clears `canInstantiate`. */
  predicate Blocks(ports: seq<PortDesc>, k: nat)
    requires k < |ports|
  {
    (ControlBranch(ports[k]) && ports[k].isInput && !HasRange(ports[k]))
    || (MakePort(ports, k).None? && !ports[k].optional)
  }

  datatype PluginPortList = PluginPortList(ports: seq<Option<Port>>, canInstantiate: bool)

  /** A port must be exactly one of input and output. */
  predicate DirectionOk(d: PortDesc) {
    d.isInput != d.isOutput
  }

  /** `GetPluginPorts`: one entry per port, or the error for a port that is
      both input and output or neither. */
  function GetPluginPorts(ports: seq<PortDesc>): (r: Result<PluginPortList, string>)
    ensures r.Failure? <==> exists k :: 0 <= k < |ports| && !DirectionOk(ports[k])
    ensures r.Success? ==> |r.value.ports| == |ports|
    ensures r.Success? ==> forall k :: 0 <= k < |ports| ==> r.value.ports[k] == MakePort(ports, k)
  {
    if exists k :: 0 <= k < |ports| && !DirectionOk(ports[k]) then Failure("port is neither input nor output")
    else Success(PluginPortList(seq(|ports|, k requires 0 <= k < |ports| => MakePort(ports, k)),
                                forall k :: 0 <= k < |ports| ==> !Blocks(ports, k)))
  }

  /** The plugin can be instantiated exactly when every port became a
      port object or is optional, and no input control port lacks a
      range, optional or not. */
  lemma CanInstantiateIff(ports: seq<PortDesc>)
    requires GetPluginPorts(ports).Success?
    ensures GetPluginPorts(ports).value.canInstantiate <==>
              forall k :: 0 <= k < |ports| ==>
                && (GetPluginPorts(ports).value.ports[k].None? ==> ports[k].optional)
                && !(ControlBranch(ports[k]) && ports[k].isInput && !HasRange(ports[k]))
  {
    var r := GetPluginPorts(ports).value;
    assert r.canInstantiate <==> forall k :: 0 <= k < |ports| ==> !Blocks(ports, k);
    forall k | 0 <= k < |ports|
      ensures !Blocks(ports, k) <==>
                && (r.ports[k].None? ==> ports[k].optional)
                && !(ControlBranch(ports[k]) && ports[k].isInput && !HasRange(ports[k]))
    {
      assert r.ports[k] == MakePort(ports, k);
    }
  }

  /** Control ports: an input needs a numeric range; an output without one
      gets 0..1 with default 0. */
  lemma ControlPortRanges(ports: seq<PortDesc>, k: nat)
    requires GetPluginPorts(ports).Success? && k < |ports| && ControlBranch(ports[k])
    ensures var r := GetPluginPorts(ports).value;
            && (ports[k].isInput && !HasRange(ports[k]) ==> r.ports[k].None? && !r.canInstantiate)
            && (ports[k].isOutput && !HasRange(ports[k]) ==> r.ports[k].Some? && r.ports[k].value.kind == ControlKind(0.0, 1.0, 0.0))
            && (HasRange(ports[k]) ==>
                  (r.ports[k].Some? && r.ports[k].value.kind
                   == ControlKind(ports[k].minimum.value, ports[k].maximum.value, ports[k].defaultValue.value)))
  {
    var r := GetPluginPorts(ports).value;
    if ports[k].isInput && !HasRange(ports[k]) {
      assert Blocks(ports, k);
    }
  }

  /** A port of no known class blocks instantiation unless it is optional. */
  lemma UnknownPortClass(ports: seq<PortDesc>, k: nat)
    requires GetPluginPorts(ports).Success? && k < |ports|
    requires !ports[k].isAudio && !ports[k].isAtom && !ports[k].isControl && !ports[k].isCv
    ensures GetPluginPorts(ports).value.ports[k].None?
    ensures !ports[k].optional ==> !GetPluginPorts(ports).value.canInstantiate
  {
    if !ports[k].optional {
      assert Blocks(ports, k);
    }
  }

  /** An audio port is the left (right) channel exactly when it is the
      first port of its own direction designated `pg:left` (`pg:right`),
      whatever its position. */
  lemma AudioStereoDesignation(ports: seq<PortDesc>, k: nat)
    requires GetPluginPorts(ports).Success? && k < |ports| && ports[k].isAudio
    ensures var p := GetPluginPorts(ports).value.ports[k];
            && p.Some? && p.value.kind.AudioKind?
            && (p.value.kind.stereo == Some(Left) <==> Designated(ports, ports[k].isInput, GroupLeft) == Some(k))
            && (p.value.kind.stereo == Some(Right) <==> Designated(ports, ports[k].isInput, GroupRight) == Some(k))
  {
    assert DirectionOk(ports[k]);
    var other := Designated(ports, !ports[k].isInput, GroupLeft);
    var otherRight := Designated(ports, !ports[k].isInput, GroupRight);
    assert other != Some(k) && otherRight != Some(k);
  }

  // ---------------------------------------------------------------------
  // Plugin::Plugin port selection (app/source/lilvutils.cpp:412-493)
  // ---------------------------------------------------------------------

  predicate IsStereo(p: Option<Port>, dir: Direction, s: Stereo) {
    p.Some? && p.value.kind.AudioKind? && p.value.direction == dir && p.value.kind.stereo == Some(s)
  }

  predicate IsUnnamed(p: Option<Port>, dir: Direction) {
    p.Some? && p.value.kind.AudioKind? && p.value.direction == dir && p.value.kind.stereo.None?
  }

  predicate IsMidiInput(p: Option<Port>) {
    p.Some? && p.value.kind.AtomKind? && p.value.direction == Input && p.value.kind.supportsMidi
  }

  predicate IsControlMidiInput(p: Option<Port>) {
    IsMidiInput(p) && p.value.kind.control
  }

  /** The channel slot a designated audio port lands in: the loop
      overwrites it, so the last such port wins. */
  function LastStereo(ports: seq<Option<Port>>, dir: Direction, s: Stereo): (r: Option<nat>)
    ensures r.Some? ==> r.value < |ports| && IsStereo(ports[r.value], dir, s)
    ensures r.Some? ==> forall j :: r.value < j < |ports| ==> !IsStereo(ports[j], dir, s)
    ensures r.None? ==> forall j :: 0 <= j < |ports| ==> !IsStereo(ports[j], dir, s)
  {
    if |ports| == 0 then None
    else if IsStereo(ports[|ports| - 1], dir, s) then Some(|ports| - 1)
    else LastStereo(ports[..|ports| - 1], dir, s)
  }

  /** The audio ports of a direction without a channel designation, in
      index order. */
  function Unnamed(ports: seq<Option<Port>>, dir: Direction): (r: seq<nat>)
    ensures forall i :: 0 <= i < |r| ==> r[i] < |ports| && IsUnnamed(ports[r[i]], dir)
    ensures forall k :: 0 <= k < |ports| && IsUnnamed(ports[k], dir) ==> k in r
    ensures forall i, j :: 0 <= i < j < |r| ==> r[i] < r[j]
  {
    if |ports| == 0 then []
    else
      var rest := Unnamed(ports[..|ports| - 1], dir);
      if IsUnnamed(ports[|ports| - 1], dir) then rest + [|ports| - 1] else rest
  }

  /** The MIDI input as the loop picks it: a control-designated MIDI atom
      input replaces what was picked, any other MIDI atom input is taken
      only while nothing is picked. */
  function MidiInput(ports: seq<Option<Port>>): (r: Option<nat>)
    ensures r.Some? ==> r.value < |ports| && IsMidiInput(ports[r.value])
    ensures r.None? ==> forall j :: 0 <= j < |ports| ==> !IsMidiInput(ports[j])
  {
    if |ports| == 0 then None
    else
      var k := |ports| - 1;
      var before := MidiInput(ports[..k]);
      if IsMidiInput(ports[k]) && (IsControlMidiInput(ports[k]) || before.None?) then Some(k) else before
  }

  /** The MIDI input is the last control-designated MIDI atom input if
      there is one, and otherwise the first MIDI atom input. */
  lemma {:induction false} MidiInputChoice(ports: seq<Option<Port>>)
    ensures var r := MidiInput(ports);
            && (r.Some? && IsControlMidiInput(ports[r.value]) ==>
                  forall j :: r.value < j < |ports| ==> !IsControlMidiInput(ports[j]))
            && (r.Some? && !IsControlMidiInput(ports[r.value]) ==>
                  && (forall j :: 0 <= j < |ports| ==> !IsControlMidiInput(ports[j]))
                  && (forall j :: 0 <= j < r.value ==> !IsMidiInput(ports[j])))
  {
    if |ports| > 0 {
      var k := |ports| - 1;
      MidiInputChoice(ports[..k]);
      assert forall j :: 0 <= j < k ==> ports[..k][j] == ports[j];
    }
  }

  /** `m_PortsBySymbol`: `emplace` keeps the first port of each symbol. */
  function SymbolMap(ports: seq<Option<Port>>): (r: map<string, nat>)
    ensures forall s :: s in r ==> r[s] < |ports| && ports[r[s]].Some? && ports[r[s]].value.symbol == s
    ensures forall k :: 0 <= k < |ports| && ports[k].Some? ==> ports[k].value.symbol in r && r[ports[k].value.symbol] <= k
  {
    if |ports| == 0 then map[]
    else
      var k := |ports| - 1;
      var before := SymbolMap(ports[..k]);
      if ports[k].Some? && ports[k].value.symbol !in before then before[ports[k].value.symbol := k] else before
  }

  /** `UI::PortIndex`: the index of the first port with the symbol. */
  function PortIndex(ports: seq<Option<Port>>, symbol: string): (r: Option<nat>)
    ensures r.Some? <==> exists k :: 0 <= k < |ports| && ports[k].Some? && ports[k].value.symbol == symbol
    ensures r.Some? ==> r.value < |ports| && ports[r.value].Some? && ports[r.value].value.symbol == symbol
    ensures r.Some? ==> forall k :: 0 <= k < r.value ==> !(ports[k].Some? && ports[k].value.symbol == symbol)
  {
    var m := SymbolMap(ports);
    if symbol in m then Some(m[symbol]) else None
  }

  datatype Selection = Selection(
    audioOutLeft: Option<nat>, audioOutRight: Option<nat>,
    audioInLeft: Option<nat>, audioInRight: Option<nat>,
    midiInput: Option<nat>,
    bySymbol: map<string, nat>)

  /** The port a channel gets: the designated one, else the unnamed port
      of the channel's position (first for left, second for right), else,
      where `shareMono` allows it, the only unnamed port. */
  function ChannelPort(ports: seq<Option<Port>>, dir: Direction, s: Stereo, shareMono: bool): (r: Option<nat>)
    ensures r.Some? ==> r.value < |ports| && IsAudioPort(ports[r.value], dir)
    ensures LastStereo(ports, dir, s).Some? ==> r == LastStereo(ports, dir, s)
    ensures LastStereo(ports, dir, s).None? ==>
              var u := Unnamed(ports, dir);
              var position := if s == Left then 0 else 1;
              && (position < |u| ==> r == Some(u[position]))
              && (|u| <= position ==> (r.Some? <==> shareMono && |u| == 1))
              && (|u| <= position && r.Some? ==> r == Some(u[0]))
  {
    var designated := LastStereo(ports, dir, s);
    var u := Unnamed(ports, dir);
    var position := if s == Left then 0 else 1;
    if designated.Some? then designated
    else if position < |u| then Some(u[position])
    else if shareMono && |u| >= 1 then Some(u[0])
    else None
  }

  /** The ports `Plugin::Plugin` connects, skipping the null entries of
      ports that got no port object. Outputs fall back to the unnamed
      audio outputs, a single one feeding both channels; inputs fall back
      to the first two unnamed inputs, never one for both. */
  function SelectPorts(ports: seq<Option<Port>>): (r: Selection)
    ensures r.audioOutLeft.Some? ==> r.audioOutLeft.value < |ports| && IsAudioPort(ports[r.audioOutLeft.value], Output)
    ensures r.audioOutRight.Some? ==> r.audioOutRight.value < |ports| && IsAudioPort(ports[r.audioOutRight.value], Output)
    ensures r.audioInLeft.Some? ==> r.audioInLeft.value < |ports| && IsAudioPort(ports[r.audioInLeft.value], Input)
    ensures r.audioInRight.Some? ==> r.audioInRight.value < |ports| && IsAudioPort(ports[r.audioInRight.value], Input)
    ensures r.midiInput.Some? ==> r.midiInput.value < |ports| && IsMidiInput(ports[r.midiInput.value])
  {
    Selection(
      ChannelPort(ports, Output, Left, true),
      ChannelPort(ports, Output, Right, true),
      ChannelPort(ports, Input, Left, false),
      ChannelPort(ports, Input, Right, false),
      MidiInput(ports),
      SymbolMap(ports))
  }

  /** The two input channels never get the same port. */
  lemma InputsDistinct(ports: seq<Option<Port>>)
    ensures var r := SelectPorts(ports);
            r.audioInLeft.Some? && r.audioInRight.Some? ==> r.audioInLeft != r.audioInRight
  {
    var r := SelectPorts(ports);
    var u := Unnamed(ports, Input);
    if r.audioInLeft.Some? && r.audioInRight.Some? {
      var l := r.audioInLeft.value;
      var rt := r.audioInRight.value;
      if LastStereo(ports, Input, Right).None? {
        assert rt == u[1];
        if LastStereo(ports, Input, Left).None? {
          assert l == u[0];
        } else {
          assert IsStereo(ports[l], Input, Left) && IsUnnamed(ports[rt], Input);
        }
      } else {
        assert IsStereo(ports[rt], Input, Right);
        if LastStereo(ports, Input, Left).None? {
          assert IsUnnamed(ports[l], Input);
        } else {
          assert IsStereo(ports[l], Input, Left);
        }
      }
    }
  }

  predicate IsAudioPort(p: Option<Port>, dir: Direction) {
    p.Some? && p.value.kind.AudioKind? && p.value.direction == dir
  }

  /** Designated channels win over the fallback; without designations the
      outputs are the first two unnamed outputs, or the single one twice.
      With only one channel designated, the other still takes the unnamed
      port of its own position: left the first, right the second, or the
      only one. */
  lemma OutputFallback(ports: seq<Option<Port>>)
    ensures var r := SelectPorts(ports);
            var u := Unnamed(ports, Output);
            && (LastStereo(ports, Output, Left).Some? ==> r.audioOutLeft == LastStereo(ports, Output, Left))
            && (LastStereo(ports, Output, Right).Some? ==> r.audioOutRight == LastStereo(ports, Output, Right))
            && (LastStereo(ports, Output, Left).None? && LastStereo(ports, Output, Right).None? ==>
                  && (|u| == 0 ==> r.audioOutLeft.None? && r.audioOutRight.None?)
                  && (|u| == 1 ==> r.audioOutLeft == r.audioOutRight == Some(u[0]))
                  && (|u| >= 2 ==> r.audioOutLeft == Some(u[0]) && r.audioOutRight == Some(u[1])))
            && (LastStereo(ports, Output, Left).Some? && LastStereo(ports, Output, Right).None? ==>
                  r.audioOutRight == (if |u| >= 2 then Some(u[1]) else if |u| == 1 then Some(u[0]) else None))
            && (LastStereo(ports, Output, Left).None? && LastStereo(ports, Output, Right).Some? ==>
                  r.audioOutLeft == (if |u| >= 1 then Some(u[0]) else None))
  {
  }

  /** Designated input channels win as well; without designations the
      inputs are the first two unnamed inputs, and a single unnamed input
      feeds the left channel only. With only the left input designated,
      the right one takes the second unnamed input, so a single unnamed
      input leaves it unconnected. */
  lemma InputFallback(ports: seq<Option<Port>>)
    ensures var r := SelectPorts(ports);
            var u := Unnamed(ports, Input);
            && (LastStereo(ports, Input, Left).Some? ==> r.audioInLeft == LastStereo(ports, Input, Left))
            && (LastStereo(ports, Input, Right).Some? ==> r.audioInRight == LastStereo(ports, Input, Right))
            && (LastStereo(ports, Input, Left).None? && LastStereo(ports, Input, Right).None? ==>
                  && (|u| == 0 ==> r.audioInLeft.None? && r.audioInRight.None?)
                  && (|u| == 1 ==> r.audioInLeft == Some(u[0]) && r.audioInRight.None?)
                  && (|u| >= 2 ==> r.audioInLeft == Some(u[0]) && r.audioInRight == Some(u[1])))
            && (LastStereo(ports, Input, Left).Some? && LastStereo(ports, Input, Right).None? ==>
                  r.audioInRight == (if |u| >= 2 then Some(u[1]) else None))
            && (LastStereo(ports, Input, Left).None? && LastStereo(ports, Input, Right).Some? ==>
                  r.audioInLeft == (if |u| >= 1 then Some(u[0]) else None))
  {
  }

  /** `Plugin::Plugin` as written: `port->Symbol()` is read for every
      entry, so a null entry is dereferenced before anything is
      selected. */
  function PluginAsWritten(ports: seq<Option<Port>>): (r: Result<Selection, string>)
    ensures r.Failure? <==> exists k :: 0 <= k < |ports| && ports[k].None?
  {
    if exists k :: 0 <= k < |ports| && ports[k].None? then Failure("null port dereferenced")
    else Success(SelectPorts(ports))
  }

  /** A plugin whose only port is an optional port of an unknown class
      (an optional port the host has no class for) is instantiable, yet
      the constructor as written dereferences its null entry. */
  lemma OptionalUnknownPortCrashes()
    ensures var d := PortDesc("extra", "Extra", true, true, false, false, false, false, false, None, false, None, None, None, None);
            var r := GetPluginPorts([d]);
            && r.Success? && r.value.canInstantiate && r.value.ports == [None]
            && PluginAsWritten(r.value.ports).Failure?
            && SelectPorts(r.value.ports) == Selection(None, None, None, None, None, map[])
  {
    var d := PortDesc("extra", "Extra", true, true, false, false, false, false, false, None, false, None, None, None, None);
    var r := GetPluginPorts([d]);
    assert !Blocks([d], 0);
    assert r.value.ports[0] == None;
    assert PluginAsWritten(r.value.ports).Failure? by {
      assert r.value.ports[0].None?;
    }
  }

  /** Where no entry is null, skipping null entries changes nothing. */
  lemma SelectPortsAgreesWithoutNulls(ports: seq<Option<Port>>)
    requires forall k :: 0 <= k < |ports| ==> ports[k].Some?
    ensures PluginAsWritten(ports) == Success(SelectPorts(ports))
  {
  }

  // ---------------------------------------------------------------------
  // UI::PortWrite (app/source/lilvutils.cpp:1037-1069)
  // ---------------------------------------------------------------------

  /** The connection object behind a port index. */
  datatype Connection = ControlConnection | AtomConnection | OtherConnection

  /** What a UI write does: set a control value (the buffer holds the
      float), forward an atom event, or nothing (the write fails). */
  datatype Write =
    | ControlWrite(port: nat, value: seq<Byte>)
    | AtomEvent(port: nat, atomType: nat, body: seq<Byte>)
    | Rejected

  /** `sizeof(LV2_Atom)`: a 32-bit size and a 32-bit type. */
  const AtomHeaderSize := 8

  /** A 32-bit little-endian field, the host's byte order. */
  function LE32(b: seq<Byte>, at: nat): (r: nat)
    requires at + 4 <= |b|
    ensures r < 0x1_0000_0000
  {
    b[at] as int + 256 * (b[at + 1] as int + 256 * (b[at + 2] as int + 256 * (b[at + 3] as int)))
  }

  function LE32Bytes(v: nat): (r: seq<Byte>)
    requires v < 0x1_0000_0000
    ensures |r| == 4 && LE32(r, 0) == v
  {
    var q1 := v / 256;
    var q2 := q1 / 256;
    var q3 := q2 / 256;
    assert v == v % 256 + 256 * q1 && q1 == q1 % 256 + 256 * q2 && q2 == q2 % 256 + 256 * q3;
    assert q1 < 0x100_0000 && q2 < 0x1_0000 && q3 < 256;
    [v % 256, q1 % 256, q2 % 256, q3]
  }

  /** `UI::PortWrite`, with the buffer's size its length. */
  function PortWrite(connections: seq<Connection>, portIndex: nat, protocol: nat, eventTransfer: nat, buffer: seq<Byte>): (r: Write)
    ensures r.ControlWrite? <==> protocol == 0 && portIndex < |connections| && connections[portIndex] == ControlConnection
    ensures r.ControlWrite? ==> r.port == portIndex && r.value == buffer
    ensures r.AtomEvent? <==>
              && protocol == eventTransfer != 0 && portIndex < |connections| && connections[portIndex] == AtomConnection
              && |buffer| > AtomHeaderSize && AtomHeaderSize + LE32(buffer, 0) == |buffer|
    ensures r.AtomEvent? ==> r.port == portIndex && r.atomType == LE32(buffer, 4) && r.body == buffer[AtomHeaderSize..]
  {
    if portIndex >= |connections| then Rejected
    else if protocol == 0 then
      if connections[portIndex] == ControlConnection then ControlWrite(portIndex, buffer) else Rejected
    else if protocol == eventTransfer then
      if connections[portIndex] == AtomConnection && |buffer| > AtomHeaderSize && AtomHeaderSize + LE32(buffer, 0) == |buffer|
      then AtomEvent(portIndex, LE32(buffer, 4), buffer[AtomHeaderSize..])
      else Rejected
    else Rejected
  }

  /** An atom as a UI sends it: header, then body. */
  function AtomMessage(atomType: nat, body: seq<Byte>): (r: seq<Byte>)
    requires atomType < 0x1_0000_0000 && |body| < 0x1_0000_0000
    ensures |r| == AtomHeaderSize + |body|
  {
    LE32Bytes(|body|) + LE32Bytes(atomType) + body
  }

  /** A well-formed atom reaches an atom port intact when its body is not
      empty; an empty atom is refused, as is one whose header does not
      match the buffer's size. */
  lemma AtomMessageRoundTrip(connections: seq<Connection>, portIndex: nat, eventTransfer: nat, atomType: nat, body: seq<Byte>)
    requires atomType < 0x1_0000_0000 && |body| < 0x1_0000_0000
    requires eventTransfer != 0 && portIndex < |connections| && connections[portIndex] == AtomConnection
    ensures PortWrite(connections, portIndex, eventTransfer, eventTransfer, AtomMessage(atomType, body))
            == if |body| > 0 then AtomEvent(portIndex, atomType, body) else Rejected
  {
    var m := AtomMessage(atomType, body);
    assert m[..4] == LE32Bytes(|body|);
    assert LE32(m, 0) == LE32(LE32Bytes(|body|), 0);
    assert LE32(m, 4) == LE32(LE32Bytes(atomType), 0);
    assert m[AtomHeaderSize..] == body;
  }
}

/** The pad controller of the older host (source/conspiracy.cpp): a 5x5
    pad grid sends notes 36..60 on MIDI channel 1 (counting from 0), the
    bottom row first; each pad selects the preset with its number, counted
    from the top row. */
module Conspiracy {
  import opened Wrappers
  import opened IntMath
  import Midi

  const FirstPadNote := 36
  const Columns := 5
  const Pads := 25

  /** `noteNumber2PadNumber`: None off the grid, otherwise the pad's
      number with the rows counted from the top. */
  function PadNumber(note: int): (r: Option<nat>)
    ensures r.Some? <==> FirstPadNote <= note < FirstPadNote + Pads
    ensures r.Some? ==> r.value < Pads
    ensures r.Some? ==> r.value % Columns == (note - FirstPadNote) % Columns
    ensures r.Some? ==> r.value / Columns == 4 - (note - FirstPadNote) / Columns
  {
    var upsideDown := note - FirstPadNote;
    if upsideDown < 0 || upsideDown >= Pads then None
    else
      var row := upsideDown / Columns;
      var col := upsideDown % Columns;
      var pad := (4 - row) * Columns + col;
      ModUnique(pad, Columns, 4 - row, col);
      Some(pad)
  }

  /** The note a pad sends: the rows flipped back. */
  function PadNote(pad: nat): (note: int)
    requires pad < Pads
    ensures FirstPadNote <= note < FirstPadNote + Pads
  {
    FirstPadNote + (4 - pad / Columns) * Columns + pad % Columns
  }

  /** The grid mapping is a bijection between the notes 36..60 and the pads
      0..24. */
  lemma PadNumberBijective(note: int, pad: nat)
    ensures FirstPadNote <= note < FirstPadNote + Pads ==> PadNote(PadNumber(note).value) == note
    ensures pad < Pads ==> PadNumber(PadNote(pad)) == Some(pad)
  {
    if pad < Pads {
      var n := PadNote(pad) - FirstPadNote;
      ModUnique(n, Columns, 4 - pad / Columns, pad % Columns);
    }
    if FirstPadNote <= note < FirstPadNote + Pads {
      var p := PadNumber(note).value;
      ModUnique(note - FirstPadNote, Columns, 4 - p / Columns, p % Columns);
    }
  }

  /** What the controller's MIDI input delivers. */
  datatype MidiIn = Simple(event: Midi.SimpleEvent) | Sysex(bytes: seq<Byte>)

  /** `Controller::OnMidiIn`: the preset a message selects, if any. */
  function SelectedPreset(m: MidiIn): (r: Option<nat>)
    ensures r.Some? <==>
              && m.Simple?
              && Midi.IsKind(m.event, Midi.Kind.NoteOn)
              && Midi.Channel(m.event) == 1
              && FirstPadNote <= Midi.NoteNumber(m.event) < FirstPadNote + Pads
    ensures r.Some? ==> r == PadNumber(Midi.NoteNumber(m.event)) && r.value < Pads
  {
    match m
    case Sysex(_) => None
    case Simple(e) =>
      if Midi.IsKind(e, Midi.Kind.NoteOn) && Midi.Channel(e) == 1 then PadNumber(Midi.NoteNumber(e)) else None
  }

  /** Pressing pad p sends note `PadNote(p)` on channel 1 and selects
      preset p, at any velocity. */
  lemma PadPressSelectsPad(pad: nat, velocity: Byte)
    requires pad < Pads
    ensures SelectedPreset(Simple(Midi.NoteOnEvent(1, PadNote(pad), velocity))) == Some(pad)
  {
    PadNumberBijective(0, pad);
  }
}

/** The older `midi::Event` of source/midi.h: it supports channel
    messages only. Its factories and `ChangeChannel` are textually the
    same as those of `midi::SimpleEvent` and are modelled once, in
    module `Midi`; what differs is the validation and the size. */
module MidiLegacy {
  import opened Wrappers
  import opened IntMath
  import Midi

  /** `Event::IsSupported`: a non-empty buffer whose status high nibble
      is 0x8..0xE, two bytes long for ProgramChange/ChannelPressure and
      three bytes otherwise. */
  predicate IsSupported(buf: seq<Byte>)
  {
    && |buf| >= 1
    && 0x80 <= (buf[0] / 16) * 16 < 0xF0
    && |buf| == (if buf[0] / 16 == 0xC || buf[0] / 16 == 0xD then 2 else 3)
  }

  /** `Event::Size()`. */
  function Size(e: Midi.SimpleEvent): nat
  {
    if Midi.IsKind(e, Midi.Kind.ProgramChange) || Midi.IsKind(e, Midi.Kind.ChannelPressure) then 2 else 3
  }

  /** The older check accepts exactly the channel messages the newer
      `SimpleEvent::IsSupported` accepts; it rejects every system message. */
  lemma AgreesWithSimpleEvent(buf: seq<Byte>)
    ensures IsSupported(buf) <==> Midi.IsSupported(buf) && buf[0] < 0xF0
  {
  }

  /** The constructor: throws on an unsupported buffer, otherwise copies
      the bytes into a zero-initialised triple. */
  function FromBuffer(buf: seq<Byte>): (r: Result<Midi.SimpleEvent, string>)
    ensures r.Success? <==> IsSupported(buf)
    ensures r.Success? ==> Size(r.value) == |buf|
    ensures r.Success? ==> r.value.b0 == buf[0] && Midi.ToBytes(r.value) == buf
  {
    if !IsSupported(buf) then Failure("midi event not supported")
    else
      AgreesWithSimpleEvent(buf);
      Midi.FromBuffer(buf)
  }

  /** `AllNotesOff` of the older class ignores the event it is called on
      and builds controller 123 with value 0. */
  function AllNotesOff(e: Midi.SimpleEvent, channel: int): (r: Midi.SimpleEvent)
    ensures Midi.IsKind(r, Midi.Kind.ControlChange) && Midi.Channel(r) == channel % 16
    ensures Midi.ControlNumber(r) == 123 && Midi.ControlValue(r) == 0
    ensures IsSupported(Midi.ToBytes(r)) && Size(r) == 3
  {
    Midi.AllNotesOff(channel)
  }
}

/** MIDI 1.0 short messages (`midi::SimpleEvent`): status validation,
    the factories that build clamped channel messages, transposition and
    re-channelling. A message is modelled as the three bytes of the
    C++ `std::array<char, 3>`; bytes are unsigned here and the two places
    where the C++ `char` is signed are written out with `SignedChar`. */
module Midi {
  import opened Wrappers
  import opened IntMath

  /** The `Type` enum: the high nibble of a status byte. */
  datatype Kind =
    | NoteOff | NoteOn | PolyphonicKeyPressure | ControlChange
    | ProgramChange | ChannelPressure | PitchBendChange | System

  function KindCode(k: Kind): Byte {
    match k
    case NoteOff => 0x80
    case NoteOn => 0x90
    case PolyphonicKeyPressure => 0xA0
    case ControlChange => 0xB0
    case ProgramChange => 0xC0
    case ChannelPressure => 0xD0
    case PitchBendChange => 0xE0
    case System => 0xF0
  }

  /** `(Type)(status & 0xF0)` of a byte with the high bit set. */
  function KindOf(status: Byte): Kind
    requires status >= 0x80
  {
    var n := status / 16;
    if n == 0x8 then Kind.NoteOff
    else if n == 0x9 then Kind.NoteOn
    else if n == 0xA then Kind.PolyphonicKeyPressure
    else if n == 0xB then Kind.ControlChange
    else if n == 0xC then Kind.ProgramChange
    else if n == 0xD then Kind.ChannelPressure
    else if n == 0xE then Kind.PitchBendChange
    else Kind.System
  }

  /** Decoding the kind of any status byte built from a kind code and a
      channel gives back that kind. */
  lemma KindOfCode(k: Kind, channel: nat)
    requires channel < 16
    ensures KindCode(k) + channel >= 0x80 && KindOf(KindCode(k) + channel) == k
  {
  }

  datatype SimpleEvent = SimpleEvent(b0: Byte, b1: Byte, b2: Byte)

  /** `m_Data[0] & 0xF0` as an integer (it is a `Kind` code once b0 >= 0x80). */
  function TypeCode(e: SimpleEvent): Byte { (e.b0 / 16) * 16 }
  function Channel(e: SimpleEvent): nat { e.b0 % 16 }
  /** The data-byte accessors read the C++ `char`, which is signed: a data
      byte of 0x80 or more, which a buffer may carry, reads negative. */
  function NoteNumber(e: SimpleEvent): int { SignedChar(e.b1) }
  function Velocity(e: SimpleEvent): int { SignedChar(e.b2) }
  function ControlNumber(e: SimpleEvent): int { SignedChar(e.b1) }
  function ControlValue(e: SimpleEvent): int { SignedChar(e.b2) }

  predicate IsKind(e: SimpleEvent, k: Kind) { TypeCode(e) == KindCode(k) }

  // ---------------------------------------------------------------------
  // Status validation (source/midi.cpp:5-83)

  /** Number of bytes of the message a status byte starts; 0 for a data
      byte and for start-of-exclusive, which this codec does not support. */
  function ExpectedSize(byte0: Byte): (n: nat)
    ensures n <= 3
    ensures byte0 < 0x80 ==> n == 0
  {
    if byte0 < 0x80 then 0
    else
      var k := KindOf(byte0);
      if k == Kind.ProgramChange || k == Kind.ChannelPressure then 2
      else if k == Kind.System then
        var subtype := byte0 % 16;
        if subtype == 0 then 0
        else if subtype == 1 || subtype == 3 then 2
        else if subtype == 2 then 3
        else 1
      else 3
  }

  /** Independent reference: the number of data bytes per status from
      Table I (Summary of Status Bytes) of the MIDI 1.0 Detailed
      Specification, for channel messages by high nibble ... */
  const ChannelDataBytes: map<int, nat> :=
    map[0x8 := 2, 0x9 := 2, 0xA := 2, 0xB := 2, 0xC := 1, 0xD := 1, 0xE := 2]

  /** ... and for the defined system common and real-time messages
      (start-of-exclusive, whose length is open, is not in the table). */
  const SystemDataBytes: map<int, nat> :=
    map[0xF1 := 1, 0xF2 := 2, 0xF3 := 1, 0xF6 := 0, 0xF7 := 0,
        0xF8 := 0, 0xFA := 0, 0xFB := 0, 0xFC := 0, 0xFE := 0, 0xFF := 0]

  /** The status bytes Table I leaves undefined (reserved). */
  const ReservedStatus: set<int> := {0xF4, 0xF5, 0xF9, 0xFD}

  /** The length of a complete message per Table I, if the table fixes one. */
  function TableLength(status: Byte): Option<nat> {
    if status < 0x80 then None
    else if status < 0xF0 then Some(1 + ChannelDataBytes[status / 16])
    else if status in SystemDataBytes then Some(1 + SystemDataBytes[status])
    else None
  }

  /** `ExpectedSize` agrees with Table I on every status the table
      defines; reserved system statuses are treated as single bytes, and
      data bytes and start-of-exclusive get size 0. */
  lemma ExpectedSizeFollowsTable(b: Byte)
    ensures TableLength(b).Some? ==> ExpectedSize(b) == TableLength(b).value
    ensures b in ReservedStatus ==> ExpectedSize(b) == 1
    ensures b == 0xF0 || b < 0x80 ==> ExpectedSize(b) == 0
    ensures TableLength(b).None? ==> b < 0x80 || b == 0xF0 || b in ReservedStatus
  {
    if 0x80 <= b < 0xF0 {
      assert b / 16 in ChannelDataBytes;
    }
  }

  /** `SimpleEvent::IsSupported`: a non-empty buffer that starts with a
      status byte other than start-of-exclusive and is exactly as long as
      that status demands. */
  predicate IsSupported(buf: seq<Byte>)
  {
    && |buf| >= 1
    && buf[0] != 0xF0
    && buf[0] >= 0x80
    && |buf| == ExpectedSize(buf[0])
  }

  /** The accepted buffers, characterised through Table I. */
  lemma IsSupportedIffTable(buf: seq<Byte>)
    ensures IsSupported(buf) <==>
      && |buf| >= 1
      && ((TableLength(buf[0]).Some? && |buf| == TableLength(buf[0]).value)
          || (buf[0] in ReservedStatus && |buf| == 1))
  {
    if |buf| >= 1 {
      ExpectedSizeFollowsTable(buf[0]);
    }
  }

  /** The constructor from a buffer: throws on an unsupported buffer,
      otherwise copies the bytes into a zero-initialised triple. */
  function FromBuffer(buf: seq<Byte>): (r: Result<SimpleEvent, string>)
    ensures r.Success? <==> IsSupported(buf)
    ensures r.Success? ==> r.value.b0 == buf[0] && ToBytes(r.value) == buf
  {
    if !IsSupported(buf) then Failure("midi event not supported")
    else
      var e := SimpleEvent(buf[0], if |buf| > 1 then buf[1] else 0,
                           if |buf| > 2 then buf[2] else 0);
      Success(e)
  }

  /** The bytes of a message: the first `ExpectedSize(status)` of the triple. */
  function ToBytes(e: SimpleEvent): (r: seq<Byte>)
    ensures |r| == ExpectedSize(e.b0)
  {
    [e.b0, e.b1, e.b2][..ExpectedSize(e.b0)]
  }

  /** A supported event read back from its own bytes is the same event,
      provided its unused trailing bytes are zero (as the constructor
      leaves them). */
  lemma BytesRoundTrip(e: SimpleEvent)
    requires IsSupported(ToBytes(e))
    requires ExpectedSize(e.b0) < 3 ==> e.b2 == 0
    requires ExpectedSize(e.b0) < 2 ==> e.b1 == 0
    ensures FromBuffer(ToBytes(e)) == Success(e)
  {
  }

  // ---------------------------------------------------------------------
  // Transposition (source/midi.cpp:84-103)

  predicate IsNote(e: SimpleEvent) { IsKind(e, Kind.NoteOn) || IsKind(e, Kind.NoteOff) }

  /** Shift the note number of a NoteOn/NoteOff by `delta`. The C++ adds
      `delta` to the signed `char` data byte. */
  function Transpose(e: SimpleEvent, delta: int): (r: Option<SimpleEvent>)
    ensures !IsNote(e) || delta == 0 ==> r == Some(e)
    ensures IsNote(e) && delta != 0 ==>
      (r.Some? <==> 0 <= SignedChar(e.b1) + delta <= 127)
    ensures r.Some? ==> r.value.b0 == e.b0 && r.value.b2 == e.b2
    ensures IsNote(e) && delta != 0 && r.Some? ==> r.value.b1 == SignedChar(e.b1) + delta
  {
    if IsNote(e) && delta != 0 then
      var note := SignedChar(e.b1) + delta;
      if 0 <= note <= 127 then Some(SimpleEvent(e.b0, note, e.b2)) else None
    else Some(e)
  }

  /** Transposing a note back by the opposite amount restores it. */
  lemma TransposeInverse(e: SimpleEvent, delta: int)
    requires e.b1 <= 127
    requires Transpose(e, delta).Some?
    ensures Transpose(Transpose(e, delta).value, -delta) == Some(e)
  {
  }

  /** Two successful transpositions compose into one by the sum. */
  lemma TransposeCompose(e: SimpleEvent, a: int, b: int)
    requires e.b1 <= 127
    requires Transpose(e, a).Some? && Transpose(Transpose(e, a).value, b).Some?
    ensures Transpose(e, a + b) == Transpose(Transpose(e, a).value, b)
  {
  }

  // ---------------------------------------------------------------------
  // Factories (source/midi.cpp:104-153; the identical factories of the
  // older `midi::Event` in source/midi.h:51-100 are the same functions)

  /** `channel & 0xf` on a two's-complement int is its floor remainder. */
  function ChannelBits(channel: int): nat { channel % 16 }

  function NoteOnEvent(channel: int, note: int, velocity: int): (r: SimpleEvent)
    ensures IsKind(r, Kind.NoteOn) && Channel(r) == channel % 16
    ensures NoteNumber(r) == note % 128
    ensures 1 <= Velocity(r) <= 127
    ensures 1 <= velocity <= 127 ==> Velocity(r) == velocity
    ensures velocity < 1 ==> Velocity(r) == 1
    ensures velocity > 127 ==> Velocity(r) == 127
  {
    SimpleEvent(KindCode(Kind.NoteOn) + ChannelBits(channel), note % 128, Clamp(velocity, 1, 127))
  }

  function NoteOffEvent(channel: int, note: int, velocity: int): (r: SimpleEvent)
    ensures IsKind(r, Kind.NoteOff) && Channel(r) == channel % 16
    ensures NoteNumber(r) == note % 128
    ensures 0 <= Velocity(r) <= 127
    ensures 0 <= velocity <= 127 ==> Velocity(r) == velocity
    ensures velocity < 0 ==> Velocity(r) == 0
    ensures velocity > 127 ==> Velocity(r) == 127
  {
    SimpleEvent(KindCode(Kind.NoteOff) + ChannelBits(channel), note % 128, Clamp(velocity, 0, 127))
  }

  function ControlChangeEvent(channel: int, cc: int, value: int): (r: SimpleEvent)
    ensures IsKind(r, Kind.ControlChange) && Channel(r) == channel % 16
    ensures ControlNumber(r) == cc % 128
    ensures 0 <= ControlValue(r) <= 127
    ensures 0 <= value <= 127 ==> ControlValue(r) == value
    ensures value < 0 ==> ControlValue(r) == 0
    ensures value > 127 ==> ControlValue(r) == 127
  {
    SimpleEvent(KindCode(Kind.ControlChange) + ChannelBits(channel), cc % 128, Clamp(value, 0, 127))
  }

  function ProgramChangeEvent(channel: int, p: int): (r: SimpleEvent)
    ensures IsKind(r, Kind.ProgramChange) && Channel(r) == channel % 16
    ensures r.b1 == p % 128 && r.b2 == 0
  {
    SimpleEvent(KindCode(Kind.ProgramChange) + ChannelBits(channel), p % 128, 0)
  }

  /** Keeps the type nibble and both data bytes; replaces the channel. */
  function ChangeChannel(e: SimpleEvent, channel: int): (r: SimpleEvent)
    ensures TypeCode(r) == TypeCode(e) && r.b1 == e.b1 && r.b2 == e.b2
    ensures Channel(r) == channel % 16
  {
    SimpleEvent(TypeCode(e) + ChannelBits(channel), e.b1, e.b2)
  }

  /** Re-channelling to the event's own channel changes nothing, and only
      the last of two re-channellings matters. */
  lemma ChangeChannelLaws(e: SimpleEvent, a: int, b: int)
    ensures ChangeChannel(e, Channel(e)) == e
    ensures ChangeChannel(ChangeChannel(e, a), b) == ChangeChannel(e, b)
  {
  }

  /** All Notes Off is controller 123 with value 0. */
  function AllNotesOff(channel: int): (r: SimpleEvent)
    ensures IsKind(r, Kind.ControlChange) && Channel(r) == channel % 16
    ensures ControlNumber(r) == 123 && ControlValue(r) == 0
  {
    ControlChangeEvent(channel, 123, 0)
  }

  /** Every factory yields a supported message whose fields read back the
      in-range arguments, and whose bytes parse back to it. */
  lemma FactoriesRoundTrip(channel: int, x: int, v: int)
    requires 0 <= channel < 16 && 0 <= x < 128 && 1 <= v < 128
    ensures var e := NoteOnEvent(channel, x, v);
      IsSupported(ToBytes(e)) && FromBuffer(ToBytes(e)) == Success(e)
      && Channel(e) == channel && NoteNumber(e) == x && Velocity(e) == v
    ensures var e := NoteOffEvent(channel, x, v);
      IsSupported(ToBytes(e)) && FromBuffer(ToBytes(e)) == Success(e)
      && Channel(e) == channel && NoteNumber(e) == x && Velocity(e) == v
    ensures var e := ControlChangeEvent(channel, x, v);
      IsSupported(ToBytes(e)) && FromBuffer(ToBytes(e)) == Success(e)
      && Channel(e) == channel && ControlNumber(e) == x && ControlValue(e) == v
    ensures var e := ProgramChangeEvent(channel, x);
      IsSupported(ToBytes(e)) && FromBuffer(ToBytes(e)) == Success(e) && |ToBytes(e)| == 2
  {
  }
}

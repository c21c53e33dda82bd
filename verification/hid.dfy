/** The keyboard's HID side (`komplete::Hid` in source/komplete.cpp): the
    LED bytes, the decoding of input report 0x01 into 85 controller values,
    and the button and encoder deltas derived from two successive
    decodings.

    `TButtonIndex` and `TLedColor` are declared in a header that is not
    part of this model, so buttons are plain indices, colours plain codes,
    and the button-to-LED table and the code of the colour `Off` are
    parameters. The 16-bit encoder values are read in the host's byte
    order, taken here to be little-endian. */
module Hid {
  import opened Wrappers
  import opened IntMath

  // ---------------------------------------------------------------------
  // LEDs: Hid::SetLed (komplete.cpp:67-90)
  // ---------------------------------------------------------------------

  /** The button-to-LED table (`m_LedMap`, -1 for no LED) and the code of
      the colour `Off`. */
  datatype LedConfig = LedConfig(ledMap: seq<int>, offColor: nat)

  /** `m_LedState` and `m_LedStateChanged`. */
  datatype Leds = Leds(state: seq<int>, changed: bool)

  /** Every LED the table names exists. */
  predicate Fits(cfg: LedConfig, leds: Leds) {
    forall b :: 0 <= b < |cfg.ledMap| ==> cfg.ledMap[b] < |leds.state|
  }

  /** The LED a button drives, if any. */
  function LedIndex(cfg: LedConfig, button: nat): (r: Option<nat>)
    ensures r.Some? <==> button < |cfg.ledMap| && cfg.ledMap[button] >= 0
    ensures r.Some? ==> r.value == cfg.ledMap[button]
  {
    if button < |cfg.ledMap| && cfg.ledMap[button] >= 0 then Some(cfg.ledMap[button] as nat) else None
  }

  /** The byte an LED is set to: four brightness steps per colour;
      brightness 0 shows as colour `Off` at step 1. */
  function LedByte(cfg: LedConfig, color: nat, brightness: int): (r: int)
    ensures Clamp(brightness, 0, 4) == 0 ==> r == cfg.offColor * 4
    ensures Clamp(brightness, 0, 4) > 0 ==> r == color * 4 + Clamp(brightness, 0, 4) - 1
  {
    var level := Clamp(brightness, 0, 4);
    var c := if level == 0 then cfg.offColor else color;
    var l := if level == 0 then 1 else level;
    c * 4 + l - 1
  }

  /** The LED byte gives back the colour and the brightness (0 counting as
      `Off` at step 1). */
  lemma LedByteDecodes(cfg: LedConfig, color: nat, brightness: int)
    ensures var level := Clamp(brightness, 0, 4);
            var r := LedByte(cfg, color, brightness);
            && r / 4 == (if level == 0 then cfg.offColor else color)
            && r % 4 == (if level == 0 then 0 else level - 1)
  {
  }

  /** `Hid::SetLed`. */
  function SetLed(cfg: LedConfig, leds: Leds, button: nat, color: nat, brightness: int): (r: Leds)
    requires Fits(cfg, leds)
    ensures |r.state| == |leds.state| && Fits(cfg, r)
    ensures LedIndex(cfg, button).None? ==> r == leds
    ensures LedIndex(cfg, button).Some? ==>
              var i := LedIndex(cfg, button).value;
              && r.state == leds.state[i := LedByte(cfg, color, brightness)]
              && r.changed == (leds.changed || leds.state[i] != LedByte(cfg, color, brightness))
  {
    match LedIndex(cfg, button)
    case None => leds
    case Some(i) =>
      var value := LedByte(cfg, color, brightness);
      if leds.state[i] != value then Leds(leds.state[i := value], true) else leds
  }

  /** Setting an LED to what it shows already raises no flag; setting it
      twice in a row leaves the second value. */
  lemma SetLedLaws(cfg: LedConfig, leds: Leds, button: nat, c1: nat, b1: int, c2: nat, b2: int)
    requires Fits(cfg, leds)
    ensures var once := SetLed(cfg, leds, button, c2, b2);
            SetLed(cfg, SetLed(cfg, leds, button, c1, b1), button, c2, b2).state == once.state
    ensures LedIndex(cfg, button).Some? && leds.state[LedIndex(cfg, button).value] == LedByte(cfg, c1, b1) ==>
              SetLed(cfg, leds, button, c1, b1) == leds
  {
  }

  /** `Hid::UpdateLedState`: report 0x80 followed by the LED bytes. */
  function LedReport(leds: Leds): (r: seq<int>)
    ensures |r| == |leds.state| + 1 && r[0] == 0x80 && r[1..] == leds.state
  {
    [0x80] + leds.state
  }

  // ---------------------------------------------------------------------
  // Input report 0x01: Hid::Run (komplete.cpp:144-209)
  // ---------------------------------------------------------------------

  /** Entries of a decoded state: 72 buttons, 8 display encoders, 2 more
      encoders, two 4-bit values and one byte. */
  const NumButtons := 72
  const NumEntries := 85

  /** A byte of the receive buffer: the report, then the zeroes the fresh
      buffer holds past it. */
  function BufByte(report: seq<Byte>, k: nat): Byte {
    if k < |report| then report[k] else 0
  }

  /** `i ^ 3` on 0..7: the order of the menu buttons is fixed up. */
  function MenuOrder(i: nat): (r: nat)
    requires i < 8
    ensures r < 8
  {
    (i / 4) * 4 + (3 - i % 4)
  }

  lemma MenuOrderInvolution(i: nat)
    requires i < 8
    ensures MenuOrder(MenuOrder(i)) == i
  {
  }

  /** Bit position `k` counted from the most significant bit, `128 >> k`. */
  function Mask(k: nat): (r: nat)
    requires k < 8
    ensures r > 0
  {
    [128, 64, 32, 16, 8, 4, 2, 1][k]
  }

  /** Where button i sits: the byte index and the bit counted from the top. */
  function ButtonByte(i: nat): nat
    requires i < NumButtons
  {
    var i1 := if i < 8 then MenuOrder(i) else i;
    i1 / 8 + 1
  }

  function ButtonBit(i: nat): (r: nat)
    requires i < NumButtons
    ensures r < 8
  {
    var i1 := if i < 8 then MenuOrder(i) else i;
    i1 % 8
  }

  /** `b & mask != 0` for a one-bit mask. */
  function BitSet(b: Byte, k: nat): bool
    requires k < 8
  {
    (b / Mask(k)) % 2 == 1
  }

  /** One entry of the decoded state. */
  function Entry(report: seq<Byte>, i: nat): (r: int)
    requires i < NumEntries
    ensures i < NumButtons ==> r == 0 || r == 1
    ensures NumButtons <= i < 82 ==> 0 <= r < 0x10000
    ensures 82 <= i < 84 ==> 0 <= r < 16
    ensures i == 84 ==> 0 <= r < 256
  {
    if i < NumButtons then
      (if BitSet(BufByte(report, ButtonByte(i)), ButtonBit(i)) then 1 else 0)
    else if i < 82 then
      var k := (i - NumButtons) * 2 + 10;
      BufByte(report, k) + 256 * BufByte(report, k + 1)
    else if i == 82 then BufByte(report, 30) % 16
    else if i == 83 then BufByte(report, 30) / 16
    else BufByte(report, 31)
  }

  /** The decoded state of an input report, or None when the report is
      not a complete report 0x01. A 31-byte report is accepted although
      the last entry reads byte 31, which is then the buffer's zero. */
  function DecodeReport(report: seq<Byte>): (r: Option<seq<int>>)
    ensures r.Some? <==> |report| >= 31 && report[0] == 0x01
    ensures r.Some? ==> |r.value| == NumEntries
    ensures r.Some? ==> forall i :: 0 <= i < NumButtons ==> r.value[i] == 0 || r.value[i] == 1
    ensures r.Some? && |report| == 31 ==> r.value[84] == 0
  {
    if |report| >= 31 && report[0] == 0x01 then Some(seq(NumEntries, i requires 0 <= i < NumEntries => Entry(report, i)))
    else None
  }

  /** A state that some report decodes to. */
  predicate WellFormed(s: seq<int>) {
    && |s| == NumEntries
    && (forall i :: 0 <= i < NumButtons ==> s[i] == 0 || s[i] == 1)
    && (forall i :: NumButtons <= i < 82 ==> 0 <= s[i] < 0x10000)
    && 0 <= s[82] < 16 && 0 <= s[83] < 16 && 0 <= s[84] < 256
  }

  /** The byte whose bits, from the most significant down, are `bits`. */
  function PackByte(bits: seq<bool>): (r: Byte)
    requires |bits| == 8
  {
    (if bits[0] then 128 else 0) + (if bits[1] then 64 else 0) + (if bits[2] then 32 else 0)
    + (if bits[3] then 16 else 0) + (if bits[4] then 8 else 0) + (if bits[5] then 4 else 0)
    + (if bits[6] then 2 else 0) + (if bits[7] then 1 else 0)
  }

  /** A bit of b, read with a one-bit mask m, when b is hi, then the bit,
      then fewer than m lower units. */
  lemma DigitAt(b: int, m: int, hi: int, bit: int, lo: int)
    requires m > 0 && (bit == 0 || bit == 1) && 0 <= lo < m
    requires b == hi * (2 * m) + bit * m + lo
    ensures (b / m) % 2 == bit
  {
    assert b == (2 * hi + bit) * m + lo;
    ModUnique(b, m, 2 * hi + bit, lo);
    ModUnique(2 * hi + bit, 2, hi, bit);
  }

  /** Reading bit k of a packed byte gives back `bits[k]`. */
  lemma UnpackBit(bits: seq<bool>, k: nat)
    requires |bits| == 8 && k < 8
    ensures BitSet(PackByte(bits), k) <==> bits[k]
  {
    var b := PackByte(bits);
    var u := seq(8, i requires 0 <= i < 8 => if bits[i] then 1 else 0);
    assert b == 128 * u[0] + 64 * u[1] + 32 * u[2] + 16 * u[3] + 8 * u[4] + 4 * u[5] + 2 * u[6] + u[7];
    if k == 0 {
      DigitAt(b, 128, 0, u[0], 64 * u[1] + 32 * u[2] + 16 * u[3] + 8 * u[4] + 4 * u[5] + 2 * u[6] + u[7]);
    } else if k == 1 {
      DigitAt(b, 64, u[0], u[1], 32 * u[2] + 16 * u[3] + 8 * u[4] + 4 * u[5] + 2 * u[6] + u[7]);
    } else if k == 2 {
      DigitAt(b, 32, 2 * u[0] + u[1], u[2], 16 * u[3] + 8 * u[4] + 4 * u[5] + 2 * u[6] + u[7]);
    } else if k == 3 {
      DigitAt(b, 16, 4 * u[0] + 2 * u[1] + u[2], u[3], 8 * u[4] + 4 * u[5] + 2 * u[6] + u[7]);
    } else if k == 4 {
      DigitAt(b, 8, 8 * u[0] + 4 * u[1] + 2 * u[2] + u[3], u[4], 4 * u[5] + 2 * u[6] + u[7]);
    } else if k == 5 {
      DigitAt(b, 4, 16 * u[0] + 8 * u[1] + 4 * u[2] + 2 * u[3] + u[4], u[5], 2 * u[6] + u[7]);
    } else if k == 6 {
      DigitAt(b, 2, 32 * u[0] + 16 * u[1] + 8 * u[2] + 4 * u[3] + 2 * u[4] + u[5], u[6], u[7]);
    } else {
      DigitAt(b, 1, 64 * u[0] + 32 * u[1] + 16 * u[2] + 8 * u[3] + 4 * u[4] + 2 * u[5] + u[6], u[7], 0);
    }
  }

  /** The button whose bit is bit k of report byte j (1..9). */
  function ButtonAt(j: nat, k: nat): (i: nat)
    requires 1 <= j <= 9 && k < 8
    ensures i < NumButtons
  {
    var i1 := (j - 1) * 8 + k;
    if i1 < 8 then MenuOrder(i1) else i1
  }

  /** `ButtonAt` inverts the decoder's placement of a button. */
  lemma ButtonAtPlacement(i: nat)
    requires i < NumButtons
    ensures 1 <= ButtonByte(i) <= 9 && ButtonAt(ButtonByte(i), ButtonBit(i)) == i
  {
    if i < 8 { MenuOrderInvolution(i); }
  }

  /** The button byte at report index j (1..9). */
  function PackButtons(s: seq<int>, j: nat): (r: Byte)
    requires WellFormed(s) && 1 <= j <= 9
  {
    PackByte(seq(8, k requires 0 <= k < 8 => s[ButtonAt(j, k)] == 1))
  }

  /** A report that decodes to `s`: the inverse of `DecodeReport` on
      well-formed states. */
  function EncodeReport(s: seq<int>): (r: seq<Byte>)
    requires WellFormed(s)
    ensures |r| == 32 && r[0] == 0x01
  {
    [0x01]
    + seq(9, j requires 0 <= j < 9 => PackButtons(s, j + 1))
    + seq(20, k requires 0 <= k < 20 =>
            var v := s[NumButtons + k / 2];
            (if k % 2 == 0 then v % 256 else v / 256) as Byte)
    + [s[82] + 16 * s[83], s[84]]
  }

  lemma DecodeEncodedButton(s: seq<int>, i: nat)
    requires WellFormed(s) && i < NumButtons
    ensures Entry(EncodeReport(s), i) == s[i]
  {
    var report := EncodeReport(s);
    var j := ButtonByte(i);
    var k := ButtonBit(i);
    ButtonAtPlacement(i);
    assert report[j] == PackButtons(s, j);
    UnpackBit(seq(8, k' requires 0 <= k' < 8 => s[ButtonAt(j, k')] == 1), k);
  }

  lemma DecodeEncodedValue(s: seq<int>, i: nat)
    requires WellFormed(s) && NumButtons <= i < NumEntries
    ensures Entry(EncodeReport(s), i) == s[i]
  {
    var report := EncodeReport(s);
    if i < 82 {
      var k := (i - NumButtons) * 2;
      assert report[10 + k] == s[i] % 256 && report[11 + k] == s[i] / 256;
    }
  }

  /** Decoding inverts encoding: every well-formed state is what some
      report 0x01 decodes to. */
  lemma DecodeEncodedReport(s: seq<int>)
    requires WellFormed(s)
    ensures DecodeReport(EncodeReport(s)) == Some(s)
  {
    var d := DecodeReport(EncodeReport(s)).value;
    forall i | 0 <= i < NumEntries
      ensures d[i] == s[i]
    {
      if i < NumButtons { DecodeEncodedButton(s, i); } else { DecodeEncodedValue(s, i); }
    }
    assert d == s;
  }

  // ---------------------------------------------------------------------
  // Deltas: Hid::UpdateButtonState (komplete.cpp:210-257)
  // ---------------------------------------------------------------------

  /** The range an entry wraps round in: buttons 9, display encoders 1000,
      the two other encoders 1024, the nibbles 16, the byte 256. */
  function WrapValue(i: nat): (w: int)
    ensures w > 0
  {
    if i < 72 then 9 else if i < 80 then 1000 else if i < 82 then 1024 else if i < 84 then 16 else 256
  }

  /** The step between two readings of a wrapping counter: the raw
      difference, moved by one wrap when it is more than half a wrap.
      (`-wrapvalue / 2` truncates toward zero in C++, hence `-(w / 2)`.) */
  function Wrap(delta: int, w: int): (r: int)
    requires w > 0
    ensures (r - delta) % w == 0
    ensures -w < delta < w ==> -(w / 2) <= r <= w / 2
  {
    if delta > w / 2 then ModUnique(-w, w, -1, 0); delta - w
    else if delta < -(w / 2) then ModUnique(w, w, 1, 0); delta + w
    else delta
  }

  /** For readings inside the wrap range, the step added to the old
      reading modulo the wrap gives the new reading. */
  lemma WrapRecovers(before: int, after: int, w: int)
    requires w > 0 && 0 <= before < w && 0 <= after < w
    ensures (before + Wrap(after - before, w)) % w == after
  {
    var q := if after - before > w / 2 then -1 else if after - before < -(w / 2) then 1 else 0;
    assert before + Wrap(after - before, w) == q * w + after;
    ModUnique(before + Wrap(after - before, w), w, q, after);
  }

  /** The event value of entry i: the wrapped step between two readings,
      or the raw difference on connect and disconnect. */
  function Step(prev: seq<int>, next: seq<int>, i: nat, wrap: bool): int
    requires i < |prev| && i < |next|
  {
    if wrap then Wrap(next[i] - prev[i], WrapValue(i)) else next[i] - prev[i]
  }

  /** The events for entries i..hi-1 that differ, in index order. */
  function Emitted(prev: seq<int>, next: seq<int>, i: nat, hi: nat, wrap: bool): (r: seq<(nat, int)>)
    requires hi <= |prev| && hi <= |next|
    ensures forall k :: 0 <= k < |r| ==>
              i <= r[k].0 < hi && prev[r[k].0] != next[r[k].0] && r[k].1 == Step(prev, next, r[k].0, wrap)
    ensures forall k, l :: 0 <= k < l < |r| ==> r[k].0 < r[l].0
    decreases hi - i
  {
    if i >= hi then []
    else
      var rest := Emitted(prev, next, i + 1, hi, wrap);
      if next[i] != prev[i] then [(i, Step(prev, next, i, wrap))] + rest else rest
  }

  /** Every entry in range that differs has its event. */
  lemma {:induction false} EmittedComplete(prev: seq<int>, next: seq<int>, i: nat, hi: nat, wrap: bool, j: nat)
    requires hi <= |prev| && hi <= |next|
    requires i <= j < hi && prev[j] != next[j]
    ensures exists k :: 0 <= k < |Emitted(prev, next, i, hi, wrap)| && Emitted(prev, next, i, hi, wrap)[k].0 == j
    decreases hi - i
  {
    var r := Emitted(prev, next, i, hi, wrap);
    var rest := Emitted(prev, next, i + 1, hi, wrap);
    if j == i {
      assert r == [(i, Step(prev, next, i, wrap))] + rest;
      assert r[0].0 == j;
    } else {
      EmittedComplete(prev, next, i + 1, hi, wrap, j);
      var k :| 0 <= k < |rest| && rest[k].0 == j;
      if next[i] != prev[i] {
        assert r == [(i, Step(prev, next, i, wrap))] + rest;
        assert r[k + 1] == rest[k];
      } else {
        assert r == rest;
      }
    }
  }

  /** Each event's value, added to the old reading modulo the entry's
      wrap, gives the new reading. */
  predicate Reconstructs(prev: seq<int>, next: seq<int>, events: seq<(nat, int)>) {
    forall k :: 0 <= k < |events| ==>
      events[k].0 < |prev| && events[k].0 < |next|
      && (prev[events[k].0] + events[k].1) % WrapValue(events[k].0) == next[events[k].0]
  }

  /** For readings inside their wrap ranges, the wrapped events
      reconstruct the new readings. */
  lemma EmittedReconstruct(prev: seq<int>, next: seq<int>, hi: nat)
    requires hi <= |prev| && hi <= |next|
    requires forall j :: 0 <= j < hi ==> 0 <= prev[j] < WrapValue(j) && 0 <= next[j] < WrapValue(j)
    ensures Reconstructs(prev, next, Emitted(prev, next, 0, hi, true))
  {
    var r := Emitted(prev, next, 0, hi, true);
    forall k | 0 <= k < |r|
      ensures (prev[r[k].0] + r[k].1) % WrapValue(r[k].0) == next[r[k].0]
    {
      var j := r[k].0;
      WrapRecovers(prev[j], next[j], WrapValue(j));
    }
  }

  function Zeros(n: nat): (r: seq<int>)
    ensures |r| == n && forall i :: 0 <= i < n ==> r[i] == 0
  {
    seq(n, _ => 0)
  }

  /** `Hid::UpdateButtonState`: the events between two states. An empty
      state means "disconnected": connecting presses every held button of
      the first 72, disconnecting releases them, and between two readings
      every changed entry reports its wrapped step. */
  function ButtonEvents(prev: seq<int>, next: seq<int>): seq<(nat, int)> {
    if next == [] && prev != [] then Emitted(prev, Zeros(|prev|), 0, Min(NumButtons, |prev|), false)
    else if next != [] && prev == [] then Emitted(Zeros(|next|), next, 0, Min(NumButtons, |next|), false)
    else if next != [] then Emitted(prev, next, 0, Min(|prev|, |next|), true)
    else []
  }

  /** Every entry lies in the range it wraps round in, as the keyboard's
      counters do. */
  predicate InWrapRange(s: seq<int>) {
    |s| == NumEntries && forall i :: 0 <= i < NumEntries ==> 0 <= s[i] < WrapValue(i)
  }

  /** Between two readings, each event's step, added to the old reading
      modulo the entry's wrap, gives the new reading, and only changed
      entries have events. */
  lemma ButtonEventsReconstruct(prev: seq<int>, next: seq<int>)
    requires InWrapRange(prev) && InWrapRange(next)
    ensures Reconstructs(prev, next, ButtonEvents(prev, next))
    ensures var r := ButtonEvents(prev, next);
            forall k :: 0 <= k < |r| ==> prev[r[k].0] != next[r[k].0]
  {
    assert prev != [] && next != [] && Min(|prev|, |next|) == NumEntries;
    EmittedReconstruct(prev, next, NumEntries);
  }

  /** Between two readings, every changed entry has an event, and no entry
      has two. */
  lemma ButtonEventsComplete(prev: seq<int>, next: seq<int>)
    requires |prev| == NumEntries && |next| == NumEntries
    ensures var r := ButtonEvents(prev, next);
            && (forall i :: 0 <= i < NumEntries && prev[i] != next[i] ==> exists k :: 0 <= k < |r| && r[k].0 == i)
            && (forall k, l :: 0 <= k < l < |r| ==> r[k].0 != r[l].0)
  {
    var r := ButtonEvents(prev, next);
    assert r == Emitted(prev, next, 0, NumEntries, true);
    forall i | 0 <= i < NumEntries && prev[i] != next[i]
      ensures exists k :: 0 <= k < |r| && r[k].0 == i
    {
      EmittedComplete(prev, next, 0, NumEntries, true, i);
    }
  }

  /** Connecting and then disconnecting: the releases undo the presses,
      button for button. */
  lemma ConnectThenDisconnect(s: seq<int>)
    requires |s| == NumEntries
    ensures var down := ButtonEvents([], s);
            var up := ButtonEvents(s, []);
            && |down| == |up|
            && forall k :: 0 <= k < |down| ==> up[k].0 == down[k].0 && up[k].1 == -down[k].1
  {
    assert ButtonEvents([], s) == Emitted(Zeros(|s|), s, 0, NumButtons, false);
    assert ButtonEvents(s, []) == Emitted(s, Zeros(|s|), 0, NumButtons, false);
    PressesAndReleases(s, 0);
  }

  lemma {:induction false} PressesAndReleases(s: seq<int>, i: nat)
    requires |s| == NumEntries && i <= NumButtons
    ensures var down := Emitted(Zeros(|s|), s, i, NumButtons, false);
            var up := Emitted(s, Zeros(|s|), i, NumButtons, false);
            && |down| == |up|
            && forall k :: 0 <= k < |down| ==> up[k].0 == down[k].0 && up[k].1 == -down[k].1
    decreases NumButtons - i
  {
    if i < NumButtons {
      PressesAndReleases(s, i + 1);
      var z := Zeros(|s|);
      var dr := Emitted(z, s, i + 1, NumButtons, false);
      var ur := Emitted(s, z, i + 1, NumButtons, false);
      if s[i] != 0 {
        assert Emitted(z, s, i, NumButtons, false) == [(i, s[i])] + dr;
        assert Emitted(s, z, i, NumButtons, false) == [(i, -s[i])] + ur;
      } else {
        assert Emitted(z, s, i, NumButtons, false) == dr;
        assert Emitted(s, z, i, NumButtons, false) == ur;
      }
    }
  }

  // ---------------------------------------------------------------------
  // One round of Hid::Run on a connected device
  // ---------------------------------------------------------------------

  /** What `hid_read` returned: an error, or the bytes of one report
      (possibly none). */
  datatype Read = ReadError | Report(bytes: seq<Byte>)

  /** The HID side's state: the last decoded state (empty when
      disconnected), the LEDs, and whether the device is connected. */
  datatype Device = Device(buttons: seq<int>, leds: Leds, connected: bool)

  /** The device after one round, the button events and the LED report
      written, if any. A read error disconnects, which releases every held
      button; the LED flag is then cleared without writing. */
  function Run(d: Device, read: Read): (r: (Device, seq<(nat, int)>, Option<seq<int>>))
    requires d.connected
    ensures !r.0.leds.changed && r.0.leds.state == d.leds.state
    ensures read.ReadError? ==> !r.0.connected && r.0.buttons == [] && r.1 == ButtonEvents(d.buttons, []) && r.2.None?
    ensures read.Report? ==> r.0.connected && (r.2.Some? <==> d.leds.changed)
    ensures r.2.Some? ==> r.2.value == LedReport(d.leds)
    ensures read.Report? && DecodeReport(read.bytes).Some? ==>
              r.0.buttons == DecodeReport(read.bytes).value && r.1 == ButtonEvents(d.buttons, r.0.buttons)
    ensures read.Report? && DecodeReport(read.bytes).None? ==> r.0.buttons == d.buttons && r.1 == []
  {
    var (d1, events) :=
      match read
      case ReadError => (d.(buttons := [], connected := false), ButtonEvents(d.buttons, []))
      case Report(bytes) =>
        if |bytes| > 0 then
          match DecodeReport(bytes)
          case Some(s) => (d.(buttons := s), ButtonEvents(d.buttons, s))
          case None => (d, [])
        else (d, []);
    var packet := if d1.leds.changed && d1.connected then Some(LedReport(d1.leds)) else None;
    (d1.(leds := d1.leds.(changed := false)), events, packet)
  }
}

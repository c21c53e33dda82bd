# jnlive core in Dafny

jnlive is a live-performance host for Native Instruments Komplete Kontrol
keyboards. It loads LV2 instrument plugins under JACK, keeps a project of
instruments, parts and presets, drives the keyboard's buttons, LEDs and two
displays over USB HID, and offers an on-keyboard menu for switching presets
and playing an emulated Hammond organ. This project models the sequential,
integer-only logic under that plumbing as pure Dafny functions and proves what
it promises.

| file | module | what it models |
|---|---|---|
| wrappers.dfy | Wrappers | `Option` and `Result`, the error paths of the C++ (`std::optional`, exceptions) |
| intmath.dfy | IntMath | bytes, clamping, C's truncating division, signed `char` |
| midi.dfy | Midi | `midi::SimpleEvent` (source/midi.cpp): status validation by Table I of the MIDI 1.0 Detailed Specification, the clamping factories, re-channelling, transposition |
| midi_legacy.dfy | MidiLegacy | the older `midi::Event` (source/midi.h) |
| text_encoding.dfy | TextEncoding | UTF-8 (section 3 of RFC 3629) and UTF-16 (sections 2.1 and 2.2 of RFC 2781) conversion with U+FFFD replacement (app/source/utils.cpp) |
| simple_regex.dfy | SimpleRegex | the pattern string `makeSimpleRegex` builds from a wildcard |
| hysteresis.dfy | Hysteresis | `THysteresis`, the rotary-encoder filter |
| geometry.dfy | Geometry | `TIntRect`: empty, intersect, union, subtract, contains, move inside |
| sweep.dfy | Sweep | the two-pointer sweep of `IterateVert`/`IterateHorz` over two sorted span lists |
| regions.dfy | Regions | `TIntRegion`, a banded set of rectangles, with union, intersection, subtraction, point containment and enumeration |
| project.dfy | ProjectData | the copy-on-change project records: organ settings, parts, presets, instruments |
| engine_data.dfy | EngineData | `Engine::TData` and its focus normalisation |
| engine.dfy | Engine | the organ drawbar and switch controller mapping both ways, `SendControllersForPart`, the decisions of `SetData`, `DeletePreset` |
| gui_state.dfy | GuiState | `TGuiState` and the state-update rules of `Gui::OnButton` |
| hid.dfy | Hid | LED bytes, input-report decoding and button/encoder deltas with wrap-around (source/komplete.cpp) |
| display.dfy | Display | the packet geometry and framing of `Display::SendPixels` |
| conspiracy.dfy | Conspiracy | the pad-note to preset mapping of the Conspiracy controller |
| lv2_ports.dfy | Lv2 | the facts lilv reports about an LV2 plugin's ports |
| plugin_ports.dfy | PluginPorts | port classification, port selection and UI port writes of the current host (app/source/lilvutils.cpp) |
| legacy_ports.dfy | LegacyPorts | port selection of the older host (source/lilvutils.cpp) |
| hex_payload.dfy | HexPayload | the hex-text decoder and embedded screen payload of the USB probe test1/test1.py |

Inputs the program reads from the outside world become parameters: the
clock (`recent` in GuiState), the HID report and read status (Hid), the
lilv port queries (Lv2), the owning plugin and its busy flag (Engine). Where
the C++ sends a MIDI message or a USB packet, the model returns it.

Integer widths are written out where they matter: bytes are 0..255, MIDI
data bytes pass through signed `char`, `std::byteswap` fields are cut to 16
or 32 bits, and encoder counters wrap at their device ranges. Floating-point
values (control-port ranges, volume multipliers) are carried as `real` and
never computed with.

## Model

| member | source | states |
|---|---|---|
| Hysteresis.Make | app/source/utils.h:107 | a new accumulator keeps its dead band and reduction and holds nothing yet |
| Hysteresis.Update | app/source/utils.h:108-125 | no step is lost: what is held afterwards plus the reported steps times the reduction equals what was held plus the delta; inside the dead band nothing is reported; above it the reported count is non-negative and what is held ends within one reduction above the band's edge, and symmetrically below it |
| Hysteresis.UpdateBoundsAccumulator | app/source/utils.h:108-125 | with a non-negative dead band and steps smaller than one reduction, what is held stays strictly within one reduction of the dead band forever |
| Hysteresis.PassThrough | app/source/utils.h:107-125 | an accumulator with no dead band and reduction 1 reports every delta unchanged and holds nothing |
| Hysteresis.Feed | app/source/utils.h:108-125 | feeding a run of deltas never changes the dead band or the reduction |
| Hysteresis.FeedConserves | app/source/utils.h:108-125 | over any run of deltas, what is reported times the reduction plus what is held equals what was fed in plus what was held at the start |
| Geometry.EmptyIffNoPoints | app/source/utils.h:754-757 | a rectangle is empty exactly when no point lies in it |
| Geometry.Intersection | app/source/utils.h:803-812 | the result holds exactly the points lying in both rectangles; an empty result is always the all-zero rectangle |
| Geometry.Intersects | app/source/utils.h:793-802 | the early-return tests agree with "the intersection is non-empty" |
| Geometry.IntersectsIffCommonPoint | app/source/utils.h:793-802 | two rectangles intersect exactly when some point lies in both |
| Geometry.ContainsRect | app/source/utils.h:878-888 | an empty needle is inside every rectangle; a non-empty needle is never inside an empty one |
| Geometry.ContainsRectIffPoints | app/source/utils.h:878-888 | containment of rectangles is inclusion of their point sets |
| Geometry.Union | app/source/utils.h:813-829 | empty operands are ignored (both empty gives the all-zero rectangle); the result contains both operands and, for two non-empty operands, lies inside every rectangle containing both: it is their bounding box |
| Geometry.MoveInside | app/source/utils.h:763-784 | the rectangle is shifted, never resized; a side that fits ends inside the container, one that does not is aligned with the container's left or top edge; a non-empty rectangle already inside is left alone |
| Geometry.Subtract | app/source/utils.h:830-868 | at most four pieces, none for an empty rectangle, the rectangle itself when nothing is cut away; every piece is non-empty, inside the rectangle and clear of the cut |
| Geometry.SubtractCoversDifference | app/source/utils.h:830-868 | a point lies in some piece exactly when it lies in the rectangle and not in the cut |
| Geometry.SubtractPiecesDisjoint | app/source/utils.h:830-868 | the pieces do not overlap one another |
| Sweep.StepKeepsInv | app/source/utils.h:1171-1238 | one pass of the loop moves strictly forward (the source asserts `nexty > y`), keeps both cursors on the first span not yet finished, and leaves fewer span edges to visit, so the loop ends |
| Sweep.StepInv | app/source/utils.h:1171-1238 | the position after one pass of the loop is never beyond the next edge of either list |
| Sweep.SweepFrom | app/source/utils.h:1171-1238 | the stretches handed to the callback from a given state are non-empty, in increasing order without overlap, and carry only payloads of the two lists |
| Sweep.Sweep | app/source/utils.h:1141-1170 | the stretches handed to the callback are non-empty, ordered, disjoint, and carry only payloads of the two lists |
| Sweep.SweepFromSemantics | app/source/utils.h:1171-1238 | at every coordinate past the state's position, the stretch reported there carries exactly the spans of each list covering that coordinate, and no stretch is reported where neither list covers it |
| Sweep.SweepSemantics | app/source/utils.h:1141-1340 | for both `IterateVert` and `IterateHorz`: at every coordinate the reported stretch carries exactly what each list holds there, and nothing is reported where both lists are empty |
| Regions.AppendHorzRange | app/source/utils.h:968-986 | the row stays ordered and non-touching; a range that starts where the last one ends merges into it, otherwise it is added; the row covers exactly what it covered plus the new range |
| Regions.CollectRow | app/source/utils.h:1039-1080 | the row built from the horizontal stretches stays ordered and non-touching and ends no later than the last stretch |
| Regions.CollectRowCovers | app/source/utils.h:1039-1080 | a coordinate is covered by the built row exactly when it was covered before or lies in a stretch the operation keeps |
| Regions.KeptAtPieceAt | app/source/utils.h:1039-1080 | over sorted stretches, a coordinate lies in a kept stretch exactly when the stretch found at it is one the operation keeps |
| Regions.CombineRows | app/source/utils.h:1039-1080 | the row an operation builds for one band is ordered and non-touching |
| Regions.CombineRowsCovers | app/source/utils.h:1039-1080 | a coordinate is in the combined row exactly when the operation keeps it given whether each input row covers it |
| Regions.AppendRangeAtBottom | app/source/utils.h:1342-1366 | a band with an empty row is dropped; an adjacent band with an equal row extends the last band; in every case the region keeps its shape and holds the new band's row inside the band and the old rows elsewhere |
| Regions.StretchBands | app/source/utils.h:1039-1080 | one band per vertical stretch, spanning the stretch and holding the row the operation builds for it |
| Regions.AppendBands | app/source/utils.h:1039-1080 | appending the bands in order keeps the region's shape |
| Regions.AppendBandsRowAt | app/source/utils.h:1039-1080 | after appending the bands, the row at each height is that of the band covering it, or the old row where no band does |
| Regions.Combine | app/source/utils.h:1039-1080 | the result of `Union`, `Subtract` and `Intersection` keeps the region's shape |
| Regions.CombineRowAt | app/source/utils.h:1039-1080 | the result's row at each height is the operation applied to the two inputs' rows at that height |
| Regions.CombineSemantics | app/source/utils.h:1039-1080 | a point lies in the result exactly when the operation keeps it given whether it lies in each input |
| Regions.Union | app/source/utils.h:1039-1050 | a point lies in the union exactly when it lies in either region |
| Regions.Intersection | app/source/utils.h:1066-1080 | a point lies in the intersection exactly when it lies in both regions |
| Regions.Subtract | app/source/utils.h:1051-1065 | a point lies in the difference exactly when it lies in the first region and not in the second |
| Regions.FromRect | app/source/utils.h:1011-1019 | the region built from a rectangle holds exactly the rectangle's points |
| Regions.BandRects | app/source/utils.h:1109-1121 | one rectangle per range of the band, spanning the band's height and the range's width |
| Regions.RectsMembers | app/source/utils.h:1109-1121 | the rectangles handed out by `ForEach` are exactly the ranges of the bands |
| Regions.ContainsPointIffInRegion | app/source/utils.h:1101-1108 | `Contains(point)` holds exactly when the point lies in the region |
| Regions.RectsInside | app/source/utils.h:1109-1121 | every point of every rectangle handed out by `ForEach` lies in the region |
| Regions.ClippedRectsOnScreen | app/source/kompletegui.cpp:662-665 | every rectangle the display refresh sends after clipping the dirty region to the screen lies on the screen |
| SimpleRegex.Pattern | app/source/utils.cpp:370-394 | the pattern is never shorter than the wildcard |
| SimpleRegex.GlobOfPattern | app/source/utils.cpp:370-394 | reading the pattern back (`.*` as `*`, a lone `.` as `?`, a backslash quoting `.`, `[`, `\`, `^` or `$`) recovers the wildcard exactly |
| SimpleRegex.PatternIsInjective | app/source/utils.cpp:370-394 | distinct wildcards give distinct patterns |
| TextEncoding.Sanitize | app/source/utils.cpp:8-12 | the value handed on is always a Unicode scalar value: scalar values pass unchanged, surrogates and values past U+10FFFF become U+FFFD |
| TextEncoding.EncodeUtf8 | app/source/utils.cpp:6-35 | one to four bytes; anything but a scalar value is written as the bytes of U+FFFD |
| TextEncoding.EncodeUtf8FollowsRfc3629 | app/source/utils.cpp:13-34 | the bytes written have the layout of section 3 of RFC 3629 for the (sanitised) value: the length fixed by the value's range, the lead byte's marker bits, and six value bits per continuation byte |
| TextEncoding.Continuations | app/source/utils.cpp:134-151 | the continuation loop never reads past the view and removes at most as many bytes as the lead byte announced |
| TextEncoding.DecodeUtf8Step | app/source/utils.cpp:94-158 | one step removes between one and four bytes and never more than the view holds |
| TextEncoding.ContinuationsStop | app/source/utils.cpp:137-150 | the continuation loop ends with U+FFFD at the first byte that is missing or is not a continuation byte, having removed everything up to and including a bad byte |
| TextEncoding.DecodeUtf8StepErrors | app/source/utils.cpp:98-157 | a stray continuation byte or an invalid lead byte gives U+FFFD and removes one byte; after the lead byte of a 2-, 3- or 4-byte sequence, the first missing byte ends the step with U+FFFD having removed the whole view, and the first non-continuation byte ends it with U+FFFD having removed that byte too; a three-byte form of a surrogate gives U+FFFD |
| TextEncoding.DecodeEncodedUtf8 | app/source/utils.cpp:6-158 | decoding the front of the encoding of a scalar value, followed by anything, yields the value and removes exactly its bytes |
| TextEncoding.Utf8DecoderIsLenient | app/source/utils.cpp:112-157 | the decoder accepts the overlong form `C0 80` as U+0000 and `F4 90 80 80` as 0x110000, beyond Unicode's range |
| TextEncoding.DecodeUtf8 | app/source/utils.cpp:410-421 | decoding a byte string gives at most one value per byte |
| TextEncoding.EncodeUtf8All | app/source/utils.cpp:398-408 | encoding gives at most four bytes per value |
| TextEncoding.Utf8RoundTrip | app/source/utils.cpp:6-158 | decoding the UTF-8 encoding of scalar values gives them back |
| TextEncoding.EncodeUtf16 | app/source/utils.cpp:37-54 | values up to U+FFFF become one unit; larger values become a lead unit in D800..DBFF and a trail unit in DC00..DFFF that recombine to the value (section 2.1 of RFC 2781) |
| TextEncoding.DecodeUtf16Step | app/source/utils.cpp:56-92 | one step removes one or two units and never more than the view holds |
| TextEncoding.DecodeUtf16StepSpec | app/source/utils.cpp:56-92 | for 16-bit units: a stray trail unit or a lead unit at the end gives U+FFFD and removes one unit; a lead unit followed by a non-trail gives U+FFFD and removes both; a pair combines per section 2.2 of RFC 2781; anything else passes unchanged; the result is a scalar value |
| TextEncoding.DecodeEncodedUtf16 | app/source/utils.cpp:37-92 | decoding the front of the encoding of a scalar value, followed by anything, yields the value and removes exactly its units |
| TextEncoding.DecodeUtf16 | app/source/utils.cpp:398-408 | decoding a wide string gives at most one value per unit |
| TextEncoding.EncodeUtf16All | app/source/utils.cpp:410-421 | encoding gives at most two units per value |
| TextEncoding.Utf16RoundTrip | app/source/utils.cpp:37-92 | decoding the UTF-16 encoding of scalar values gives them back |
| TextEncoding.Wu8 | app/source/utils.cpp:398-408 | the loop computes the UTF-8 encoding of the values decoded from the wide string |
| TextEncoding.U8w | app/source/utils.cpp:410-421 | the loop computes the UTF-16 encoding of the values decoded from the byte string |
| TextEncoding.TranscodeRoundTrip | app/source/utils.cpp:398-421 | converting well-formed UTF-16 to UTF-8 and back restores it |
| Midi.KindOfCode | source/midi.h:11-20 | the type nibble read from a status byte built from a type code and a channel is that type |
| Midi.ExpectedSize | source/midi.cpp:42-83 | a size of at most three bytes, and zero for a byte without the high bit |
| Midi.ExpectedSizeFollowsTable | source/midi.cpp:42-83 | the size agrees with Table I of the MIDI 1.0 Detailed Specification for every status the table defines; the four reserved system statuses count as one byte; data bytes and start-of-exclusive get zero, and those are the only statuses the table leaves open |
| Midi.IsSupportedIffTable | source/midi.cpp:5-28 | a buffer is accepted exactly when it starts with a status other than start-of-exclusive and is as long as Table I says a message with that status is (one byte for a reserved system status) |
| Midi.FromBuffer | source/midi.cpp:29-41 | the constructor succeeds exactly on accepted buffers, and the event then gives back exactly the buffer's bytes |
| Midi.ToBytes | source/midi.cpp:42-83 | an event's bytes are as many as its status demands |
| Midi.BytesRoundTrip | source/midi.cpp:29-41 | an accepted event whose unused bytes are zero is rebuilt exactly from its own bytes |
| Midi.Transpose | source/midi.cpp:84-103 | only a NoteOn or NoteOff with a non-zero shift changes, and only its note number, which becomes the signed data byte plus the shift; the result is absent exactly when that sum leaves 0..127; other events pass unchanged |
| Midi.TransposeInverse | source/midi.cpp:84-103 | a successful shift undone by the opposite shift restores the event |
| Midi.TransposeCompose | source/midi.cpp:84-103 | two successful shifts in a row equal one shift by their sum |
| Midi.NoteOnEvent | source/midi.cpp:104-113 | a NoteOn on the channel's low four bits with the note's low seven bits; the velocity is clamped to 1..127, in-range values kept |
| Midi.NoteOffEvent | source/midi.cpp:114-123 | a NoteOff on the channel's low four bits with the note's low seven bits; the velocity is clamped to 0..127, in-range values kept |
| Midi.ControlChangeEvent | source/midi.cpp:124-133 | a ControlChange on the channel's low four bits with the controller's low seven bits; the value is clamped to 0..127, in-range values kept |
| Midi.ProgramChangeEvent | source/midi.cpp:134-141 | a ProgramChange on the channel's low four bits with the program's low seven bits and a zero third byte |
| Midi.ChangeChannel | source/midi.cpp:142-149 | the type nibble and both data bytes are kept; only the channel changes, to the low four bits of the new one |
| Midi.ChangeChannelLaws | source/midi.cpp:142-149 | moving an event to its own channel changes nothing, and of two moves only the last counts |
| Midi.AllNotesOff | source/midi.cpp:150-153 | controller 123 with value 0 on the channel's low four bits |
| Midi.FactoriesRoundTrip | source/midi.cpp:104-141 | for in-range arguments every factory gives an accepted message whose fields read back the arguments and whose bytes parse back to the same event |
| MidiLegacy.AgreesWithSimpleEvent | source/midi.h:21-38 | the older check accepts exactly the buffers the newer one accepts that hold a channel message, and rejects every system message |
| MidiLegacy.FromBuffer | source/midi.h:39-50 | the older constructor succeeds exactly on the buffers its check accepts; the event's size is then the buffer's length and its bytes are the buffer |
| MidiLegacy.AllNotesOff | source/midi.h:97-100 | whatever event it is called on, the result is controller 123 with value 0 on the given channel, an accepted three-byte message |
| Hid.LedIndex | source/komplete.cpp:75-81 | a button drives an LED exactly when it is inside the table and its entry is not negative; the LED is that entry |
| Hid.LedByte | source/komplete.cpp:69-83 | brightness is clamped to 0..4; brightness 0 shows as the colour `Off` at the lowest step; otherwise four steps per colour code |
| Hid.LedByteDecodes | source/komplete.cpp:69-83 | the LED byte gives back the colour (by division by four) and the brightness step (as the remainder) |
| Hid.SetLed | source/komplete.cpp:67-90 | a button without an LED changes nothing; otherwise only that LED's byte is replaced, and the changed flag is raised exactly when the byte differs from before or the flag was already up |
| Hid.SetLedLaws | source/komplete.cpp:67-90 | of two settings of the same button only the second shows; setting an LED to what it already shows changes nothing, flag included |
| Hid.LedReport | source/komplete.cpp:106-113 | the LED report is byte 0x80 followed by every LED byte in order |
| Hid.MenuOrderInvolution | source/komplete.cpp:163-168 | the fix-up of the menu buttons' order (`i ^ 3`) undoes itself |
| Hid.Entry | source/komplete.cpp:158-183 | buttons read as 0 or 1, the ten encoders as 16-bit values, the two nibbles as 0..15 and the last entry as a byte |
| Hid.DecodeReport | source/komplete.cpp:151-184 | a state is decoded exactly for a report 0x01 of at least 31 bytes; it has 85 entries, the first 72 being 0 or 1; for a report of exactly 31 bytes the last entry reads the fresh buffer's zero |
| Hid.ButtonAtPlacement | source/komplete.cpp:160-172 | every button sits at a bit of report bytes 1 to 9, and reading that bit's position back names the same button |
| Hid.EncodeReport | source/komplete.cpp:151-184 | the report built for a state is a 32-byte report 0x01 |
| Hid.DecodeEncodedReport | source/komplete.cpp:151-184 | decoding inverts encoding: every well-formed state is what some report 0x01 decodes to |
| Hid.Wrap | source/komplete.cpp:243-252 | the step differs from the raw difference by a whole number of wraps, and for a raw difference within one wrap it lies within half a wrap of zero |
| Hid.WrapRecovers | source/komplete.cpp:243-252 | for readings inside the wrap range, the old reading plus the step, modulo the wrap, is the new reading |
| Hid.Emitted | source/komplete.cpp:239-255 | events come in increasing entry order, only for entries that changed, each carrying that entry's step |
| Hid.EmittedComplete | source/komplete.cpp:239-255 | every entry in range that changed has an event |
| Hid.EmittedReconstruct | source/komplete.cpp:239-255 | for readings inside their wrap ranges, the events reconstruct the new readings from the old |
| Hid.ButtonEventsReconstruct | source/komplete.cpp:210-257 | between two readings each event's step reconstructs the new reading of its entry, and only changed entries have events |
| Hid.ButtonEventsComplete | source/komplete.cpp:237-256 | between two readings every changed entry has an event, and no entry has two |
| Hid.ConnectThenDisconnect | source/komplete.cpp:215-236 | the button-up events sent on disconnect undo the button-down events sent on connect, button for button |
| Hid.PressesAndReleases | source/komplete.cpp:215-236 | pressing from all-zero and releasing back to all-zero give the same buttons with opposite values |
| Hid.Run | source/komplete.cpp:144-209 | one round on a connected device: a read error disconnects, releases every held button and writes no LED report; a complete report 0x01 replaces the state and sends the deltas; any other report changes nothing; the LED report written is `LedReport` of the LEDs (0x80 followed by the LED bytes) and is written exactly when the LEDs changed and the device is still connected, and the flag is cleared either way |
| Display.RequestContainsRectangle | source/komplete.cpp:350-355 | widening the request to even edges loses none of the requested pixels |
| Display.CutCovers | source/komplete.cpp:350-366 | the piece cut for one screen half covers exactly the on-screen pixels of that half that lie in the widened request |
| Display.CutWords | source/komplete.cpp:350-368 | both extents of a piece are even; its word count is positive exactly when both extents are positive or both negative, and is then the exact payload size |
| Display.SentPiecesAsWritten | source/komplete.cpp:359-401 | as written: at most one packet per half, sent for every piece whose word count is positive |
| Display.OffScreenRectangleIsSent | source/komplete.cpp:350-368 | a request entirely off the bottom right of the screen (at 1000, 300, size 0 by 0) is sent as two packets with negative extents though none of its pixels is on screen |
| Display.SentPieces | source/komplete.cpp:359-401 | at most one packet per half, and only for a piece with positive width and height |
| Display.SentPiecesCover | source/komplete.cpp:350-401 | the packets sent cover exactly the on-screen pixels of the widened request, and no pixel twice |
| Display.SentPiecesAsWrittenDiffer | source/komplete.cpp:366-368 | a piece is sent as written exactly when it holds pixels or has two negative extents |
| Display.ClippedRequestsAgree | source/komplete.cpp:350-368 | for a request lying on the screen, as the refresh makes it (app/source/kompletegui.cpp:662), the code as written and the corrected one send the same pieces |
| Display.ConnectSendsWholeScreen | source/komplete.cpp:311 | the full-screen refresh after connecting sends two full 480 by 272 halves of 65280 words each |
| Display.BE16RoundTrip | source/komplete.cpp:378-381 | a 16-bit header field reads back as the value cut to 16 bits |
| Display.BE32RoundTrip | source/komplete.cpp:382 | the 32-bit word count reads back as the value cut to 32 bits |
| Display.Header | source/komplete.cpp:328-342 | the header is 24 bytes long |
| Display.CutDrawable | source/komplete.cpp:356-364 | every piece's rows lie on the screen and its columns inside its half, so the copy stays in the frame buffer |
| Display.SourceIndexInFrame | source/komplete.cpp:383-392 | every frame-buffer byte the copy reads lies in the frame buffer |
| Display.Payload | source/komplete.cpp:370-392 | the payload is exactly four bytes per word |
| Display.PayloadPixel | source/komplete.cpp:383-392 | the pixel at column c, row r of a piece lands at payload bytes 2(r w + c) and 2(r w + c) + 1, with its two bytes swapped |
| Display.Packet | source/komplete.cpp:370-376 | a packet is 36 bytes of framing plus four bytes per word |
| Display.SendPixels | source/komplete.cpp:323-403 | at most two packets, none when the display is not connected; the packets are those of the corrected piece list `Display.SentPieces`, not of the pieces as written |
| Display.ParseHeaderRoundTrip | source/komplete.cpp:328-382 | the header reads back as the piece's screen, its position within the half, its top, its extents and its word count, each cut to its field's width |
| Display.ParsePacket | source/komplete.cpp:370-376 | a packet that reads back is as long as its word count implies |
| Display.ParseFramed | source/komplete.cpp:370-376 | header, payload and footer read back as the header's fields and the payload, whatever the payload holds |
| Display.ParsePacketRoundTrip | source/komplete.cpp:370-392 | a packet reads back as its piece's fields, each cut to its width, and its payload |
| Display.SentPieceFits | source/komplete.cpp:356-368 | a sent piece lies inside its half and on the screen, and every field fits its slot, so no field is cut |
| Display.SentPacketsReadBack | source/komplete.cpp:323-403 | every packet sent reads back exactly as its piece's position within the half, top, extents, word count and pixels |
| Display.FittingPacketReadsBack | source/komplete.cpp:370-392 | a packet whose fields fit their slots reads back without any field cut |
| Display.SendPixelsAt | source/komplete.cpp:359-401 | the k-th packet sent is the packet of the k-th piece to send |
| Conspiracy.PadNumber | source/conspiracy.cpp:10-21 | a pad exactly for the notes 36 to 60; the pad keeps the note's column and flips its row, so the top row comes first |
| Conspiracy.PadNote | source/conspiracy.cpp:10-21 | the note a pad sends lies in 36 to 60 |
| Conspiracy.PadNumberBijective | source/conspiracy.cpp:10-21 | the grid mapping is a bijection between the notes 36 to 60 and the pads 0 to 24 |
| Conspiracy.SelectedPreset | source/conspiracy.cpp:22-34 | a preset is selected exactly by a NoteOn on channel 1 (counting from 0) with a note on the grid, and it is that note's pad; system-exclusive messages select nothing |
| Conspiracy.PadPressSelectsPad | source/conspiracy.cpp:22-34 | pressing a pad at any velocity selects the preset with the pad's number |
| ProjectData.DefaultHammondSettings | app/source/project.h:36-38 | the default organ has every drawbar within the 0..8 travel, the upper manual's first drawbar out and the lower's in, and exactly percussion, fast decay and second harmonic switched on |
| ProjectData.ChangeRegister | app/source/project.h:23-28 | only the indexed drawbar takes the new value; the other eight keep theirs |
| ProjectData.ChangeManual | app/source/project.h:39-46 | only the indexed manual is replaced; the other manual and all five switches are kept |
| ProjectData.ChangeFlag | app/source/project.h:56-85 | each of the five switch setters changes only its own switch and keeps both manuals |
| ProjectData.HammondEquality | app/source/project.h:86-93 | two organs equal on the manuals and the five switches are the same value, as the organ's equality compares exactly those |
| ProjectData.ChangeFlagLaws | app/source/project.h:56-85 | writing a switch back with its own value changes nothing, and of two writes to one switch only the second shows |
| ProjectData.ChangeQuickPreset | app/source/project.h:275-284 | the slot list grows with empty slots up to the index when needed; only that slot changes; the rest of the part is kept |
| ProjectData.QuickPresetLastWriteWins | app/source/project.h:275-284 | of two writes to one slot only the second shows, and rewriting the value a slot holds changes nothing |
| ProjectData.ChangePart | app/source/project.h:404-428 | an index past the end changes nothing; otherwise only that part changes, and it is stored as passed except for two fields: its preset index is dropped when it names no slot, and its instrument becomes the preset's exactly when it switches to a different slot that holds a preset |
| ProjectData.ChangePartKeepsPresetRefs | app/source/project.h:404-428 | storing a part keeps every part's preset index inside the preset list |
| ProjectData.ChangePartWithSamePart | app/source/project.h:404-428 | storing a part back unchanged is a no-op when the preset indices are valid |
| ProjectData.AddPart | app/source/project.h:429-434 | the part is appended; existing parts and everything else are kept |
| ProjectData.DeletePart | app/source/project.h:435-443 | exactly the indexed part is removed and the later ones move up by one; an index past the end changes nothing |
| ProjectData.DeletePartUndoesAddPart | app/source/project.h:429-443 | deleting the part just added restores the project, and deleting keeps the preset indices valid |
| ProjectData.SwitchToPreset | app/source/project.h:444-447 | the part's preset index becomes the new one when it names a slot and is cleared otherwise; switching to a different slot that holds a preset also switches the instrument; switching to the current preset changes nothing; valid preset indices stay valid |
| ProjectData.ChangePreset | app/source/project.h:448-458 | as written: a present preset at an index inside the list overwrites that slot and nothing else; at an index past the end the list grows to hold the index with every new slot empty and the old slots kept; an absent preset changes nothing |
| ProjectData.ChangePresetAsWrittenDropsPreset | app/source/project.h:451-458 | a present preset stored past the end of the list leaves its slot empty, because the store compares against the size from before the resize |
| ProjectData.ChangePresetStored | app/source/project.h:448-461 | the corrected store: a present preset lands at the index, the list growing with empty slots when needed and every other slot unchanged; an absent preset changes nothing |
| ProjectData.ChangePresetStoredAgrees | app/source/project.h:448-461 | the corrected and the as-written store agree whenever the index is inside the list or the preset is absent, and differ only for a present preset past the end |
| ProjectData.ClearPreset | app/source/project.h:448-461 | the slot the engine asks to delete becomes empty, and nothing else moves |
| ProjectData.PresetEditsKeepPresetRefs | app/source/project.h:448-461 | storing or clearing presets keeps every part's preset index inside the preset list |
| ProjectData.AddInstrument | app/source/project.h:466-471 | the instrument is appended, so every existing instrument index still names the same instrument |
| ProjectData.ChangeInstrument | app/source/project.h:472-477 | an index past the end throws; otherwise only that instrument is replaced |
| ProjectData.ParametersForPart | app/source/project.h:487-503 | a part past the end throws; a part without an instrument has no parameters; otherwise the active preset's override list when that preset is stored and overrides, else the active instrument's own list; it throws exactly when the part, a present preset index or a needed instrument index is out of range |
| ProjectData.SwitchedPartUsesPresetParameters | app/source/project.h:444-503 | after switching a part to a stored preset, the part reports the preset's override list when it has one and otherwise the preset instrument's own list |
| EngineData.FixFocusedPart | app/source/engine.h:245-265 | the focus ends in normal form, absent exactly when there are no parts and otherwise naming an existing part; a valid focus is kept, one past the end moves to the last part, an absent one to the first |
| EngineData.FixFocusedPartFixedPoints | app/source/engine.h:245-265 | the normal forms are exactly the foci left alone, so fixing twice is fixing once |
| EngineData.ChangeProject | app/source/engine.h:204-210 | the project is replaced and the focus renormalised (kept when it is still valid); nothing else changes |
| EngineData.ChangeGuiFocusedPart | app/source/engine.h:217-223 | the focus is set and renormalised (kept when valid); nothing else changes |
| EngineData.ChangeHammondData | app/source/engine.h:211-216 | only the organ settings change, so a normal focus stays normal |
| EngineData.ChangeShowUi | app/source/engine.h:224-229 | only the plugin-UI switch changes, so a normal focus stays normal |
| EngineData.ChangeShowReverbUi | app/source/engine.h:230-235 | only the reverb-UI switch changes, so a normal focus stays normal |
| EngineData.SameIgnoresOnlyControllerValues | app/source/engine.h:236-243 | two data values are equal in the engine's sense exactly when they differ at most in their controller values |
| Engine.DrawbarToCc | app/source/engine.cpp:171-175 | a drawbar position goes out as a controller value 0..127: pushed in (0 or below) is 127 and fully pulled (8 or above) is 0 |
| Engine.CcToDrawbar | app/source/engine.cpp:385 | every received controller value, read as a signed `char`, decodes to a drawbar position 0..8, and a negative one to position 8 |
| Engine.DrawbarRoundTrip | app/source/engine.cpp:171-175 | each of the nine drawbar positions survives encoding and decoding unchanged |
| Engine.CcToDrawbarIsNearest | app/source/engine.cpp:385 | the decoded position re-encodes to within 8 of the received value 0..127 |
| Engine.ManualMessages | app/source/engine.cpp:163-179 | at most one message per drawbar, and none for an unchanged manual unless forced |
| Engine.SwitchMessage | app/source/engine.cpp:180-195 | at most one message per switch, and none for an unchanged switch unless forced |
| Engine.SwitchMessages | app/source/engine.cpp:180-195 | at most four switch messages, none when nothing changed and nothing is forced |
| Engine.HammondMessages | app/source/engine.cpp:155-200 | at most 22 messages per organ plugin, none when the organ settings did not change and nothing is forced |
| Engine.HammondFromCcSpec | app/source/engine.cpp:374-416 | a drawbar controller 70..78 on channel 0 or 1 moves exactly that drawbar of that manual to the decoded position and is dropped when the drawbar is already there; a switch controller 80..83 on channel 0 always sets exactly that switch, on for values above 63; any other message changes nothing |
| Engine.HighDataBytes | app/source/engine.cpp:379-397 | a controller number byte of 0x80 or more, read as a negative `char`, is ignored; a value byte of 0x80 or more pulls a drawbar to position 8 and turns a switch off |
| Engine.OnMidiFromPlugin | app/source/engine.cpp:362-420 | the data changes only for a non-sysex message from an idle plugin owned by an organ instrument, and then only in its organ settings, as the controller decoding prescribes |
| Engine.DrawbarMessageSetsRegister | app/source/engine.cpp:176 | one outgoing drawbar message, received back, sets exactly that drawbar of that manual and nothing else |
| Engine.SwitchMessageFeedBack | app/source/engine.cpp:180-195 | one switch message, received back, brings that switch to its new state and nothing else |
| Engine.ManualMessagesFeedBack | app/source/engine.cpp:165-178 | the drawbar messages of a manual from drawbar i on, received back, set those drawbars to the new positions and leave every other setting alone |
| Engine.ManualFeedBack | app/source/engine.cpp:163-179 | the drawbar messages of one manual, received back, set that manual to its new registers and leave the rest alone |
| Engine.DrawbarsFeedBack | app/source/engine.cpp:163-179 | the drawbar messages of both manuals, received back, give the new manuals with all switches untouched |
| Engine.SwitchesFeedBack | app/source/engine.cpp:180-195 | the four switch messages, received back, give the new switch states (overdrive, never sent, unchanged) with the manuals untouched |
| Engine.ParamRange | app/source/engine.cpp:47-54 | all parameters up to the shorter of the parameter and value lists, or the single requested one, which is empty exactly when the request lies past either list |
| Engine.SendRange | app/source/engine.cpp:55-62 | exactly the controllers of the range whose value is present are sent, in parameter order, each with its own controller number and value |
| Engine.SendControllersForPart | app/source/engine.cpp:38-65 | a part beyond the stored values sends nothing; the `vector::at` error comes exactly for a missing part or a dangling instrument index; otherwise a part without an instrument sends nothing and one with an instrument sends exactly the present values of the covered range |
| Engine.ChangedControllers | app/source/engine.cpp:113-131 | exactly the controller indices whose value is present and differs from the old one, in increasing order |
| Engine.PlanPart | app/source/engine.cpp:71-133 | a part loads its preset when it is new or its preset index changed, resets its instrument when the instrument changed, resends everything after either, and otherwise resends exactly the changed values |
| Engine.PlanParts | app/source/engine.cpp:71-133 | one plan per part, each the plan of that part |
| Engine.PlanSetData | app/source/engine.cpp:67-154 | the project is saved exactly when it changed and the engine is not quitting, the organ is updated exactly when its settings changed, and the plugins are synchronised exactly when a preset loads or the project, a UI switch or the focus changed |
| Engine.SetDataSameIsQuiet | app/source/engine.cpp:67-154 | setting the data the engine already has loads, resets, resends, saves and synchronises nothing |
| Engine.SwitchToPresetLoadsOnePart | app/source/engine.cpp:74-93 | switching one part to a different preset reloads that part and no other, and synchronises the plugins |
| Engine.DropPresetRefs | app/source/engine.cpp:749-757 | every part from i on whose active preset is the deleted one loses it; every other part and the rest of the project stay as they were |
| Engine.DeletePresetAsWritten | app/source/engine.cpp:740-767 | no part refers to the deleted preset afterwards, but the preset list is returned unchanged |
| Engine.DeletePresetAsWrittenKeepsPreset | app/source/engine.cpp:748 | the deleted preset is still stored in its slot |
| Engine.DeletePreset | app/source/engine.cpp:740-767 | the slot of a stored preset is emptied, every other slot kept, the parts that used it lose their active preset and nothing else, instruments and reverb are untouched, and valid preset references stay valid |
| Engine.DeletePresetLeavesNoDanglingRefs | app/source/engine.cpp:740-767 | when every part pointed at a stored preset before, every part still does afterwards |
| GuiState.SetFocusedPart | app/source/kompletegui.cpp:193-218 | the focus is clamped into the part list (absent only when there are no parts), the selected preset is forgotten exactly when the focus moves, and nothing else changes |
| GuiState.SetFocusedPartLaws | app/source/kompletegui.cpp:193-218 | setting the same focus twice is setting it once, and setting the current focus of a valid state changes nothing |
| GuiState.SelectedPreset | app/source/kompletegui.cpp:165-173 | a recent selection wins; without one the focused part's active preset is shown |
| GuiState.ActivePartIsHammond | app/source/kompletegui.cpp:235-251 | the result names manual c exactly when the focused part plays an organ instrument on shared channel c in 0..1, and the call fails exactly when that part's instrument index is dangling |
| GuiState.SetEngineData | app/source/kompletegui.cpp:252-265 | the new data is taken and the focus renormalised; the selected preset survives exactly when it still names a slot, the focus stayed put and the focused part's active preset is unchanged |
| GuiState.SetEngineDataSameData | app/source/kompletegui.cpp:252-265 | handing a valid panel the data it already shows changes nothing |
| GuiState.SetEngineDataSameProject | app/source/kompletegui.cpp:252-265 | handing a valid panel data with the same project keeps its focus and a selection that names a slot |
| GuiState.WriteEngine | app/source/engine.cpp:67-154 | a direct `Engine::SetData` from the panel leaves the engine with the data as given and the panel exactly as `Gui::OnDataChanged` leaves it, its mode, shift, page and program number unchanged |
| GuiState.SetGuiState | app/source/kompletegui.cpp:267-282 | the panel takes the new state, and the engine ends up with data equal in the engine's sense to the state's, left untouched when its data was already equal |
| GuiState.TouchStep | app/source/kompletegui.cpp:296-302 | touching a display rotary or the big rotary records exactly that rotary as touched while the delta is positive; other buttons change nothing |
| GuiState.ModeStep | app/source/kompletegui.cpp:303-329 | Shift toggles the shift flag; Browser, Midi and Plugin select Performance, Midi and Controller mode and clear shift; nothing else changes |
| GuiState.ArpStep | app/source/kompletegui.cpp:330-341 | Arp with a focused part toggles the plugin-UI switch and, when it comes on, points the engine's focus at the panel's part; everything else in the data, project, organ, reverb-UI switch and controller values, is kept; the panel then takes the written data, its focus and selection unchanged when the selection names a slot |
| GuiState.NextFocus | app/source/kompletegui.cpp:350-362 | the next part after the focused one, wrapping to the first past the end or when nothing is focused |
| GuiState.InstanceStep | app/source/kompletegui.cpp:342-366 | with parts present, Instance clears shift and moves the focus to the next part; otherwise nothing changes |
| GuiState.EditedRegister | app/source/kompletegui.cpp:380 | a drawbar moved by some steps stays within 0..8, moving by exactly that amount when it can |
| GuiState.ToggledHammond | app/source/kompletegui.cpp:390-411 | on manual 0 the first four menu buttons flip exactly percussion, soft, fast and 2nd harmonic; every other press leaves the organ alone |
| GuiState.ToggleTwice | app/source/kompletegui.cpp:390-411 | pressing the same menu button twice restores the organ settings |
| GuiState.ControllerStep | app/source/kompletegui.cpp:367-416 | outside Controller mode nothing happens; the step fails exactly where `ActivePartIsHammond` throws in Controller mode; with no organ manual focused nothing happens; otherwise only the organ settings of the engine change, and the panel either stays or takes the written data |
| GuiState.ControllerRotaryStep | app/source/kompletegui.cpp:372-389 | a drawbar rotary advances its filter; when the filtered steps move the drawbar, that one register of the focused manual takes the clamped value and nothing else in the data changes, and otherwise engine and panel stay |
| GuiState.ControllerMenuStep | app/source/kompletegui.cpp:390-414 | a menu button writes the panel's data with the organ toggled as `ToggledHammond` says, and the panel takes that data |
| GuiState.PageAfter | app/source/kompletegui.cpp:420-437 | Left and Right move the quick-preset page one step within 0..15 and stop at the ends; other buttons leave it |
| GuiState.PagesInverse | app/source/kompletegui.cpp:420-437 | away from the ends, Right then Left and Left then Right come back to the same page |
| GuiState.NextSelection | app/source/kompletegui.cpp:446-454 | the big rotary moves the selection by the rotation, clamped to the presets; with nothing selected it selects the first |
| GuiState.PerformanceStep | app/source/kompletegui.cpp:418-526 | the page follows Left and Right, the big rotary selects the moved preset, and a rotary click switches the focused part to the selected preset; the program number and mode are untouched |
| GuiState.QuickPresetStep | app/source/kompletegui.cpp:527-565 | with shift held and a preset selected, the selected preset lands in quick-preset slot page × 8 + button of the focused part and shift is released; with shift and no selection nothing happens; without shift a slot holding a preset switches the focused part to it in the engine and the panel takes that data, and an empty or missing slot changes nothing |
| GuiState.MidiStep | app/source/kompletegui.cpp:567-584 | only display rotary 0 acts: its filter advances and, when the filtered steps are non-zero and a part is focused, the program number becomes the old one plus the steps clamped to 0..127 and exactly one program change with it is sent to the focused part; otherwise nothing is sent and the panel state stays |
| GuiState.CommonSteps | app/source/kompletegui.cpp:294-416 | the touch, mode, Arp, Instance and Controller rules leave a valid panel, send nothing and keep the page and the program number |
| GuiState.OnButton | app/source/kompletegui.cpp:294-585 | every press leaves a valid panel, a quick-preset page below 16 and a program number in 0..127, and sends only program changes to existing parts; each direct engine write is followed by the panel taking the written data |
| GuiState.OnDataChanged | app/source/kompletegui.cpp:706-716 | the panel and the engine both end up with the engine's data, in a valid state, and only the panel state changes |
| GuiState.InstancePressesRotate | app/source/kompletegui.cpp:350-362 | k presses of Instance move the focus k places round the ring of parts |
| GuiState.InstanceFullCircle | app/source/kompletegui.cpp:350-362 | as many presses as there are parts bring the focus back where it started |
| GuiState.InstanceButtonMovesFocus | app/source/kompletegui.cpp:342-366 | a press of Instance on the whole panel moves the focus to the next part and clears shift, unless the press fails |
| GuiState.BigRotaryMovesLastDrawbar | app/source/kompletegui.cpp:372-388 | in Controller mode the big rotary moves drawbar 8 of the focused manual by the rotation, clamped to 0..8, touching nothing else, and tells the engine nothing when the drawbar stays put |
| Lv2.Designated | app/source/lilvutils.cpp:75-80 | the first port of the class that carries the designation, or none when no port does |
| PluginPorts.MakePort | app/source/lilvutils.cpp:82-202 | a port object keeps its index, symbol, name, optional flag and direction; no object is made exactly for an input control port without a numeric range or a port of no known class |
| PluginPorts.GetPluginPorts | app/source/lilvutils.cpp:56-205 | the call fails exactly when some port is both input and output or neither; otherwise there is one entry per port, in index order |
| PluginPorts.CanInstantiateIff | app/source/lilvutils.cpp:184-201 | the plugin is instantiable exactly when every port without an object is optional and no input control port lacks a range, optional or not |
| PluginPorts.ControlPortRanges | app/source/lilvutils.cpp:155-193 | a control port with a range keeps it; an output without one gets 0..1 with default 0; an input without one gets no object and blocks instantiation |
| PluginPorts.UnknownPortClass | app/source/lilvutils.cpp:194-201 | a port of no known class gets no object and blocks instantiation unless it is optional |
| PluginPorts.AudioStereoDesignation | app/source/lilvutils.cpp:124-136 | an audio port is the left (right) channel exactly when it is the first port of its own direction designated left (right) |
| PluginPorts.LastStereo | app/source/lilvutils.cpp:426-433 | the last audio port of the direction designated for the channel, or none when there is none |
| PluginPorts.Unnamed | app/source/lilvutils.cpp:434-437 | exactly the audio ports of the direction without a channel designation, in index order |
| PluginPorts.MidiInput | app/source/lilvutils.cpp:440-459 | the chosen port is a MIDI atom input, and one is chosen whenever the plugin has one |
| PluginPorts.MidiInputChoice | app/source/lilvutils.cpp:440-459 | the MIDI input is the last control-designated MIDI atom input when there is one, and otherwise the first MIDI atom input |
| PluginPorts.SymbolMap | app/source/lilvutils.cpp:420 | every symbol of a port is mapped, to a port that has it and lies no later than any port with that symbol |
| PluginPorts.PortIndex | app/source/lilvutils.cpp:1027-1036 | the index of the first port with the symbol, absent exactly when no port has it |
| PluginPorts.ChannelPort | app/source/lilvutils.cpp:461-492 | a channel gets the last port designated for it; without one, the unnamed port of its position, first for left and second for right; failing that, the only unnamed port where the channel may share it; and otherwise nothing |
| PluginPorts.SelectPorts | app/source/lilvutils.cpp:412-493 | each selected output or input channel is an audio port of that direction and the selected MIDI input is a MIDI atom input |
| PluginPorts.InputsDistinct | app/source/lilvutils.cpp:479-492 | the two input channels never get the same port |
| PluginPorts.OutputFallback | app/source/lilvutils.cpp:461-478 | designated output channels win; without designations the outputs are the first two unnamed outputs, or the single one on both channels; with one channel designated the other takes the unnamed port of its position, the right one falling back to the only one |
| PluginPorts.InputFallback | app/source/lilvutils.cpp:479-492 | designated input channels win; without designations the inputs are the first two unnamed inputs, and a single unnamed input feeds only the left channel; with only the left one designated the right one takes the second unnamed input or nothing |
| PluginPorts.PluginAsWritten | app/source/lilvutils.cpp:417-420 | the constructor as written fails exactly when some entry is a null port |
| PluginPorts.OptionalUnknownPortCrashes | app/source/lilvutils.cpp:194-202 | a plugin whose only port is an optional port of no known class is instantiable, yet the constructor as written dereferences its null entry |
| PluginPorts.SelectPortsAgreesWithoutNulls | app/source/lilvutils.cpp:417-493 | where no entry is null, the constructor as written and the corrected selection agree |
| PluginPorts.LE32 | app/source/lilvutils.cpp:1059 | a 32-bit little-endian header field is below 2^32 |
| PluginPorts.LE32Bytes | app/source/lilvutils.cpp:1059 | four bytes whose little-endian reading is the value |
| PluginPorts.PortWrite | app/source/lilvutils.cpp:1037-1069 | a control write happens exactly for protocol 0 on a control connection and passes the buffer on; an atom event is forwarded exactly for the event-transfer protocol on an atom connection when the buffer is longer than the header and the header's size matches, carrying the header's type and the bytes after it |
| PluginPorts.AtomMessage | app/source/lilvutils.cpp:1056-1061 | an atom as a UI sends it is the header followed by the body |
| PluginPorts.AtomMessageRoundTrip | app/source/lilvutils.cpp:1052-1064 | a well-formed atom with a non-empty body reaches an atom port with its type and body intact; an empty one is refused |
| LegacyPorts.AudioOutputs | source/lilvutils.cpp:52-57 | exactly the required audio ports that are not inputs, in index order |
| LegacyPorts.MidiControls | source/lilvutils.cpp:52-62 | exactly the required MIDI atom inputs, in index order |
| LegacyPorts.ControlInput | source/lilvutils.cpp:64-82 | the control input is a required MIDI atom input, and there is one exactly when the plugin has such a port |
| LegacyPorts.LoadPlugin | source/lilvutils.cpp:10-88 | an unknown plugin fails with "could not load plugin"; a port that is neither input nor output fails; otherwise the control input is chosen as above and both audio channels are present together, each a required audio output |
| LegacyPorts.ControlInputChoice | source/lilvutils.cpp:64-82 | the control-designated input wins whenever it is a candidate; otherwise the first candidate is taken |
| LegacyPorts.AudioOutputPair | source/lilvutils.cpp:83-87 | a single required audio output feeds both channels; with more, the first two in index order |
| LegacyPorts.OptionalPortsIgnored | source/lilvutils.cpp:52-62 | an optional port is never chosen |
| HexPayload.TokenLength | test1/test1.py:12 | the first token of a text runs up to, and not including, the first whitespace character |
| HexPayload.SplitAppend | test1/test1.py:12 | splitting two texts joined by a whitespace character gives the tokens of the first followed by those of the second |
| HexPayload.SplitJoinTokens | test1/test1.py:12 | tokens joined by single spaces split back into exactly those tokens |
| HexPayload.HexDigit | test1/test1.py:14 | a base-16 digit has a value below 16 |
| HexPayload.ReadAllAppend | test1/test1.py:14 | reading two runs of tokens one after the other gives the bytes of the first followed by those of the second |
| HexPayload.ParseTokensEach | test1/test1.py:10-15 | the tokens convert exactly when each token reads as a byte, and then the result is those bytes in token order |
| HexPayload.HexText | test1/test1.py:14 | a byte written as two hex digits is a single token |
| HexPayload.ParseHexText | test1/test1.py:14 | every byte written as two hex digits reads back as itself |
| HexPayload.HexTexts | test1/test1.py:14 | one two-digit token per byte, in order |
| HexPayload.DumpRoundTrip | test1/test1.py:10-15 | any byte string dumped as space-separated hex converts back to itself, with or without trailing whitespace |
| HexPayload.RejectsNonHex | test1/test1.py:14 | a token whose digit part is empty or holds a character other than a hex digit or an underscore is refused as an invalid literal |
| HexPayload.ValidDigitsChars | test1/test1.py:14 | an accepted digit part consists of hex digits and underscores only |
| HexPayload.LeadingDigitValue | test1/test1.py:14 | three or more hex digits, the first not zero, are worth at least 256 |
| HexPayload.RejectsWideValue | test1/test1.py:14 | any literal worth more than 255 is refused as out of range, as `bytearray` refuses it; so is every non-negative token of three or more digits with a non-zero first digit |
| HexPayload.RejectsNegative | test1/test1.py:14 | a minus sign in front of a non-zero literal is refused as out of range, and minus zero reads as 0 |
| HexPayload.AcceptsPrefix | test1/test1.py:14 | any accepted digit part reads as its value, and a `0x`, `0X`, `0x_` or `0X_` prefix in front of it reads the same |
| HexPayload.AcceptsSignAndUnderscore | test1/test1.py:14 | a plus sign in front of an unsigned token reads like the token, and an underscore between two accepted digit parts reads like the digits run together |
| HexPayload.UnderscoreJoin | test1/test1.py:14 | two accepted digit parts joined directly or through one underscore are accepted, with the same value either way |
| HexPayload.DigitsAfterFirstAppend | test1/test1.py:14 | the tails of accepted digit parts stay accepted when run together |
| HexPayload.PayloadBytes | test1/test1.py:18-65 | the screen command the probe sends is 316 bytes long |
| HexPayload.HexToBytesLines | test1/test1.py:10-15 | converting lines joined by newlines is converting each line and concatenating the bytes |
| HexPayload.BlockOf | test1/test1.py:18-65 | a pixel block of the payload, one command line followed by four white rows and a blank line, reads as the command's bytes followed by four copies of the row's bytes |
| HexPayload.PayloadOf | test1/test1.py:18-65 | the payload's layout, a header, a geometry line, four blocks and the footer between blank lines, reads as the concatenation of the parts' bytes |
| HexPayload.BlockBytesOk | test1/test1.py:18-65 | each block of the embedded text converts to its command and pixel bytes |
| HexPayload.PayloadLinesBytes | test1/test1.py:18-65 | the embedded lines convert, line by line, to the payload bytes |
| HexPayload.PayloadDecodes | test1/test1.py:18-65 | the embedded text converts without error to the 316 payload bytes |
| HexPayload.PayloadShape | test1/test1.py:18-65 | the payload starts with the screen header `84 00 00 60` and zero padding and ends with the footer the display driver sends |

## Left out

- Audio, JACK, threads, mutexes and the realtime processor: they carry no decisions of the modelled logic.
- The USB transfers of `Hid` and `Display`, `Hid::Connect`, `TryConnectSometimes`, `PingSometimes` and the device-gone disconnect: they are I/O. The read result is a parameter of `Hid.Run`.
- A little-endian host is assumed for the `LV2_Atom` header in `PluginPorts.PortWrite` and for the ten 16-bit encoder fields that `Hid.Entry` reads as `buf[k] + 256 * buf[k + 1]` (source/komplete.cpp:178), as on every platform the host is built for.
- `TLedColor` and `TButtonIndex` are numbers and an abstract button datatype: app/source/komplete.h, which declares them, is not part of this model.
- app/source/kompletegui.h, which declares `TGuiState`, is not part of this model. Its fields are inferred from their uses in app/source/kompletegui.cpp and from the older declaration in source/kompletegui.h.
- The volume sliders of `Gui::OnButton` in Performance mode are left out: they compute with floating-point multipliers.
- Painting, the LCD and LED refresh of the GUI, and the timing of `NextScreenUpdateNeeded` are left out. The expiry of a selected preset is the `recent` flag.
- `Engine` plugin instantiation, preset loading from disk, project saving and the removal of the preset directory are left out: they are file-system and plugin I/O. The plan returned by `Engine.PlanSetData` names what the engine does instead.
- The quitting and busy state of the engine are parameters rather than state.
- Engine.OnMidiFromPlugin: the `sender->pluginInstance()` test of app/source/engine.cpp:364 is left out. The callback fires only from a live plugin instance, so the sender always has one.
- `size_t` wrap-around is not modelled: every index in these paths is bounded by a container size.
- Int overflow in `y + height` in `Display::SendPixels` and in its `long long` product is not modelled: screen coordinates are small.
- Display.SendPixels: states only the number of packets. Which packet is sent for which piece is stated by `Display.SendPixelsAt`. It sends the pieces of the corrected `Display.SentPieces`, so a request whose pieces have negative extents sends nothing here, where the source as written sends them (see "Findings").
- The project update of the Conspiracy controller is left out: the engine API it calls is not part of this model.
- `TInstrument`, `TPreset`, `TReverb` and `TPart` single-field setters other than those listed in the table are left out: each replaces one field and nothing else.
- `TProject::ChangeReverb` is left out: it is a single-field setter like the above.
- `TProject::DeleteInstrument` is left out: it is declared at app/source/project.h:478 but never defined.
- `TTypedRegion::Intersects`, `Contains(region)`, `OuterBounds` and `Shift` are left out: the display diff uses none of them.
- Hysteresis.Update: the 32-bit `int` overflow of the accumulator is not modelled, because encoder deltas are small. A positive reduction is a precondition, since the source divides by it.
- SimpleRegex.Pattern: compiling and matching the regular expression is left out. The model stops at the pattern string handed to `std::regex`, and states its correctness through `SimpleRegex.GlobOfPattern`.
- TextEncoding.DecodeUtf8: states only a length bound. Its content is stated by `TextEncoding.Utf8RoundTrip` and `TextEncoding.U8w`.
- TextEncoding.EncodeUtf8All: states only a length bound. Its content is stated by `TextEncoding.Utf8RoundTrip` and `TextEncoding.Wu8`.
- Midi.ToBytes: states only the length of an event's bytes. Their content is stated by `Midi.FromBuffer` and `Midi.BytesRoundTrip`.
- Display.Header: states only its length. Its fields are stated by `Display.ParseHeaderRoundTrip`.
- HexPayload.HexToBytes: has no contract of its own. Its properties are `HexPayload.ParseTokensEach` and `HexPayload.DumpRoundTrip`.
- HexPayload: Python's whitespace above U+00FF and its Unicode digits in `int(t, 16)` are not modelled. The payload is ASCII.
- The USB I/O of test1/test1.py's `main` and the whole of test1/test2.py are left out: they only open the device and send the payload.
- PluginPorts.SelectPorts: states only that each selected port has the right kind and direction. Which port each channel gets is stated by `PluginPorts.ChannelPort`, `PluginPorts.OutputFallback` and `PluginPorts.InputFallback`, and the MIDI input by `PluginPorts.MidiInputChoice`.
- Lilv itself is left out. A port carries a single designation, which is all the host asks about.
- The value of a UI control write is kept as the raw buffer bytes and not read as a `float`.
- app/source/lilvutils.h is not part of this model.
- The header that declares `midi::SimpleEvent` is not part of this model. Its data-byte accessors (`NoteNumber`, `Velocity`, `ControlNumber`, `ControlValue`) are taken to return the signed `char` of `m_Data` as an `int`, the reading `SimpleEvent::Transpose` in source/midi.cpp:88 uses.
- `Part2ControllerValues` is not declared in app/source/engine.h. It is modelled as one list of optional controller values per part, from its uses in app/source/engine.cpp.

## Findings

| source | as written | input that shows it | evidently intended | confidence | as-written member | corrected member |
|---|---|---|---|---|---|---|
| app/source/engine.cpp:748 | `DeletePreset` clears the slot with `ChangePreset(index, {})`, but `ChangePreset` (app/source/project.h:448-461) stores only a present preset, so the project keeps the deleted preset while its directory is removed | any project with a stored preset at the deleted index | the slot becomes empty and the parts that used it lose their active preset | not executed; high | Engine.DeletePresetAsWrittenKeepsPreset | Engine.DeletePreset |
| app/source/project.h:455 | `ChangePreset` tests the index against `m_Presets.size()`, the size before the resize two lines above, so a preset for a slot past the end is never stored and the list only grows with empty slots | `Project().ChangePreset(0, preset)` on a project with no presets yields one empty slot | store the preset in the slot the resize made room for | not executed; medium, because the only caller in the repository passes an absent preset (app/source/engine.cpp:748) | ProjectData.ChangePresetAsWrittenDropsPreset | ProjectData.ChangePresetStored |
| source/komplete.cpp:350-368 | a piece whose width and height are both negative gets a positive word count, so a packet is sent for a rectangle holding no pixels | `SendPixels(1000, 300, 0, 0)` sends two packets with negative extents | send only pieces with positive width and height | not executed; low, because the GUI clips every request to the screen first (app/source/kompletegui.cpp:662) | Display.OffScreenRectangleIsSent | Display.SentPieces |
| app/source/lilvutils.cpp:417-420 | the constructor reads `port->Symbol()` for every entry, but `GetPluginPorts` pushes a null entry for an optional port it has no class for (app/source/lilvutils.cpp:194-202) and the plugin stays instantiable | one optional port that is neither audio, atom, control nor CV | skip null entries | not executed; medium | PluginPorts.OptionalUnknownPortCrashes | PluginPorts.SelectPorts |

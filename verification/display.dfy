/** The keyboard's two 480x272 screens (`komplete::Display` in
    source/komplete.cpp): how `SendPixels` cuts a rectangle of the
    960-pixel-wide frame buffer into one packet per screen half, and how a
    packet is framed. The USB transfer itself is left out. */
module Display {
  import opened Wrappers
  import opened IntMath

  const ScreenWidth := 960
  const HalfWidth := 480
  const ScreenHeight := 272
  const FrameBytes := 272 * 1920

  /** The frame buffer: `m_DisplayBuffer`, row by row. A pixel takes two
      bytes (`sBytesPerPixel`), so a row takes 1920. In the arithmetic
      below the pixel width 2, the row stride 1920 and the half width 480
      are written as literals so that products with them stay linear. */
  type FrameBuffer = fb: seq<Byte> | |fb| == FrameBytes witness seq(FrameBytes, _ => 0)

  /** What `SendPixels` computes for one screen half: the absolute left
      column (`disp_x`), the top row, the extents and the payload size in
      32-bit words (`datasizediv4`). */
  datatype Piece = Piece(screen: nat, left: int, top: int, width: int, height: int, words: int)

  /** `Display::SendPixels` for one screen half, before the `> 0` test:
      x and y are rounded down and the right and bottom edges up to even
      values, rows are clipped to the screen and columns to the half. */
  function Cut(x: int, y: int, width: int, height: int, screen: nat): (p: Piece)
    requires screen < 2
    ensures p.screen == screen
  {
    var x1 := EvenFloor(x);
    var y1 := Max(0, EvenFloor(y));
    var right := EvenFloor(x + width + 1);
    var bottom := Min(ScreenHeight, EvenFloor(y + height + 1));
    var h := bottom - y1;
    var displayLeft := screen * 480;
    var displayRight := (screen + 1) * 480;
    var dx := Max(displayLeft, x1);
    var w := Min(displayRight, right) - dx;
    Piece(screen, dx, y1, w, h, Words(h, w))
  }

  /** `datasizediv4`: the payload bytes of an h-by-w rectangle, rounded up
      to 32-bit words with C++ (truncating) division. */
  function Words(h: int, w: int): int {
    CDiv(h * w * 2 + 3, 4)
  }

  /** For even extents the word count is positive exactly when the
      extents have the same sign and are nonzero, and then is exact. */
  lemma WordsOfEven(h: int, w: int)
    requires h % 2 == 0 && w % 2 == 0
    ensures Words(h, w) > 0 <==> (h > 0 && w > 0) || (h < 0 && w < 0)
    ensures Words(h, w) > 0 ==> Words(h, w) * 4 == h * w * 2
  {
    var a := h / 2;
    var b := w / 2;
    assert h * w * 2 == 8 * (a * b) by {
      assert h == 2 * a && w == 2 * b;
    }
    MulSign(a, b);
    if a * b > 0 {
      ModUnique(8 * (a * b) + 3, 4, 2 * (a * b), 3);
    }
    assert a * b > 0 <==> (h > 0 && w > 0) || (h < 0 && w < 0);
  }

  /** The pixel (px, py) lies in the piece's rectangle. */
  predicate Covers(p: Piece, px: int, py: int) {
    p.left <= px < p.left + p.width && p.top <= py < p.top + p.height
  }

  /** The requested rectangle, widened to even edges. */
  predicate InRequest(x: int, y: int, width: int, height: int, px: int, py: int) {
    EvenFloor(x) <= px < EvenFloor(x + width + 1) && EvenFloor(y) <= py < EvenFloor(y + height + 1)
  }

  predicate OnScreen(px: int, py: int) {
    0 <= px < ScreenWidth && 0 <= py < ScreenHeight
  }

  /** Widening to even edges loses none of the requested pixels. */
  lemma RequestContainsRectangle(x: int, y: int, width: int, height: int, px: int, py: int)
    requires x <= px < x + width && y <= py < y + height
    ensures InRequest(x, y, width, height, px, py)
  {
  }

  /** A piece covers exactly the pixels of its screen half that lie in the
      widened request. */
  lemma CutCovers(x: int, y: int, width: int, height: int, screen: nat, px: int, py: int)
    requires screen < 2
    ensures Covers(Cut(x, y, width, height, screen), px, py) <==>
              OnScreen(px, py) && screen * 480 <= px < (screen + 1) * 480
              && InRequest(x, y, width, height, px, py)
  {
  }

  lemma MulSign(a: int, b: int)
    ensures a * b > 0 <==> (a > 0 && b > 0) || (a < 0 && b < 0)
  {
    if a > 0 && b > 0 {
      MulAtLeast(a, b);
    } else if a < 0 && b < 0 {
      assert a * b == (-a) * (-b);
      MulAtLeast(-a, -b);
    } else if a > 0 && b < 0 {
      assert a * b == -(a * (-b));
      MulAtLeast(a, -b);
    } else if a < 0 && b > 0 {
      assert a * b == -((-a) * b);
      MulAtLeast(-a, b);
    }
  }

  /** The extents are even; the payload is sent exactly when both extents
      are positive or both are negative, and then holds two bytes per
      pixel of the extents' product. */
  lemma CutWords(x: int, y: int, width: int, height: int, screen: nat)
    requires screen < 2
    ensures var p := Cut(x, y, width, height, screen);
            && p.width % 2 == 0 && p.height % 2 == 0
            && (p.words > 0 <==> (p.height > 0 && p.width > 0) || (p.height < 0 && p.width < 0))
            && (p.words > 0 ==> p.words * 4 == p.height * p.width * 2)
  {
    var p := Cut(x, y, width, height, screen);
    CutEven(x, y, width, height, screen);
    WordsOfEven(p.height, p.width);
  }

  /** The extents of a cut are even, and its word count is that of its
      extents. */
  lemma CutEven(x: int, y: int, width: int, height: int, screen: nat)
    requires screen < 2
    ensures var p := Cut(x, y, width, height, screen);
            p.width % 2 == 0 && p.height % 2 == 0 && p.words == Words(p.height, p.width)
  {
    var y1 := Max(0, EvenFloor(y));
    var bottom := Min(ScreenHeight, EvenFloor(y + height + 1));
    var dx := Max(screen * 480, EvenFloor(x));
    var dr := Min((screen + 1) * 480, EvenFloor(x + width + 1));
    EvenDifference(bottom, y1);
    EvenDifference(dr, dx);
  }

  lemma EvenDifference(a: int, b: int)
    requires a % 2 == 0 && b % 2 == 0
    ensures (a - b) % 2 == 0
  {
    ModUnique(a - b, 2, a / 2 - b / 2, 0);
  }

  /** The pieces `SendPixels` sends, as written: those with a positive
      word count. */
  function SentPiecesAsWritten(x: int, y: int, width: int, height: int): (r: seq<Piece>)
    ensures |r| <= 2
    ensures forall p :: p in r ==> p.screen < 2 && p == Cut(x, y, width, height, p.screen) && p.words > 0
  {
    var p0 := Cut(x, y, width, height, 0);
    var p1 := Cut(x, y, width, height, 1);
    (if p0.words > 0 then [p0] else []) + (if p1.words > 0 then [p1] else [])
  }

  /** A rectangle off the bottom right of the screen is sent twice with
      negative extents, though no pixel of it is on screen. */
  lemma OffScreenRectangleIsSent()
    ensures var r := SentPiecesAsWritten(1000, 300, 0, 0);
            && |r| == 2
            && r[0].height < 0 && r[0].width < 0
            && forall px, py :: !(OnScreen(px, py) && InRequest(1000, 300, 0, 0, px, py))
  {
    CutWords(1000, 300, 0, 0, 0);
    CutWords(1000, 300, 0, 0, 1);
    assert Cut(1000, 300, 0, 0, 0).height == -28 && Cut(1000, 300, 0, 0, 0).width == -520;
    assert Cut(1000, 300, 0, 0, 1).height == -28 && Cut(1000, 300, 0, 0, 1).width == -40;
  }

  /** The pieces to send: those that hold at least one pixel. */
  function SentPieces(x: int, y: int, width: int, height: int): (r: seq<Piece>)
    ensures |r| <= 2
    ensures forall p :: p in r ==> p.screen < 2 && p == Cut(x, y, width, height, p.screen) && p.width > 0 && p.height > 0
  {
    var p0 := Cut(x, y, width, height, 0);
    var p1 := Cut(x, y, width, height, 1);
    (if p0.width > 0 && p0.height > 0 then [p0] else []) + (if p1.width > 0 && p1.height > 0 then [p1] else [])
  }

  /** The sent pieces cover exactly the on-screen pixels of the widened
      request, and no pixel twice. */
  lemma SentPiecesCover(x: int, y: int, width: int, height: int, px: int, py: int)
    ensures (exists p :: p in SentPieces(x, y, width, height) && Covers(p, px, py)) <==>
              OnScreen(px, py) && InRequest(x, y, width, height, px, py)
    ensures forall p, q ::
              (p in SentPieces(x, y, width, height) && q in SentPieces(x, y, width, height)
               && Covers(p, px, py) && Covers(q, px, py)) ==> p == q
  {
    CutCovers(x, y, width, height, 0, px, py);
    CutCovers(x, y, width, height, 1, px, py);
    if OnScreen(px, py) && InRequest(x, y, width, height, px, py) {
      var s := if px < HalfWidth then 0 else 1;
      assert Cut(x, y, width, height, s) in SentPieces(x, y, width, height);
    }
  }

  /** Every sent piece has pixels, and every piece with pixels is sent:
      the two differ only on pieces with two negative extents. */
  lemma SentPiecesAsWrittenDiffer(x: int, y: int, width: int, height: int, screen: nat)
    requires screen < 2
    ensures var p := Cut(x, y, width, height, screen);
            (p in SentPiecesAsWritten(x, y, width, height)) ==
            (p in SentPieces(x, y, width, height) || (p.width < 0 && p.height < 0))
  {
    CutWords(x, y, width, height, screen);
    var p := Cut(x, y, width, height, screen);
    assert p in SentPiecesAsWritten(x, y, width, height) <==> p.words > 0;
    assert p in SentPieces(x, y, width, height) <==> p.width > 0 && p.height > 0;
  }

  /** When the rectangle has no negative extent (the GUI clips every dirty
      rectangle to the screen first), both agree. */
  lemma ClippedRequestsAgree(x: int, y: int, width: int, height: int)
    requires 0 <= x && 0 <= y && 0 <= width && 0 <= height
    requires x + width <= ScreenWidth && y + height <= ScreenHeight
    ensures SentPiecesAsWritten(x, y, width, height) == SentPieces(x, y, width, height)
  {
    CutWords(x, y, width, height, 0);
    CutWords(x, y, width, height, 1);
  }

  /** Connecting sends the whole screen: one full packet per half. */
  lemma ConnectSendsWholeScreen()
    ensures SentPieces(0, 0, ScreenWidth, ScreenHeight)
            == [Piece(0, 0, 0, 480, 272, 65280), Piece(1, 480, 0, 480, 272, 65280)]
  {
  }

  // ---------------------------------------------------------------------
  // Framing
  // ---------------------------------------------------------------------

  /** `std::byteswap((uint16_t)v)` in memory: big-endian 16 bits. */
  function BE16(v: int): (r: seq<Byte>)
    ensures |r| == 2
  {
    var u := v % 0x1_0000;
    [u / 256, u % 256]
  }

  /** `std::byteswap((uint32_t)v)` in memory: big-endian 32 bits, the high
      half first. */
  function BE32(v: int): (r: seq<Byte>)
    ensures |r| == 4
  {
    var u := v % 0x1_0000_0000;
    BE16(u / 0x1_0000) + BE16(u % 0x1_0000)
  }

  function ReadBE16(b: seq<Byte>, at: nat): (r: nat)
    requires at + 2 <= |b|
    ensures r < 0x1_0000
  {
    b[at] as int * 256 + b[at + 1] as int
  }

  function ReadBE32(b: seq<Byte>, at: nat): (r: nat)
    requires at + 4 <= |b|
    ensures r < 0x1_0000_0000
  {
    ReadBE16(b, at) * 0x1_0000 + ReadBE16(b, at + 2)
  }

  /** Reading back a big-endian field gives the value cut to its width. */
  lemma BE16RoundTrip(v: int)
    ensures ReadBE16(BE16(v), 0) == v % 0x1_0000
  {
  }

  lemma BE32RoundTrip(v: int)
    ensures ReadBE32(BE32(v), 0) == v % 0x1_0000_0000
  {
    var u := v % 0x1_0000_0000;
    BE16RoundTrip(u / 0x1_0000);
    BE16RoundTrip(u % 0x1_0000);
    var b := BE32(v);
    assert ReadBE16(b, 0) == ReadBE16(BE16(u / 0x1_0000), 0);
    assert ReadBE16(b, 2) == ReadBE16(BE16(u % 0x1_0000), 0);
  }

  /** The 24-byte header: 84 00, the screen, 60, four zero bytes, x within
      the half, y, width and height, 02 00 00 00, and the word count. */
  function Header(p: Piece): (r: seq<Byte>)
    requires p.screen < 2
    ensures |r| == 24
  {
    [0x84, 0x00, p.screen, 0x60, 0, 0, 0, 0]
    + BE16(p.left - p.screen * 480) + BE16(p.top) + BE16(p.width) + BE16(p.height)
    + [0x02, 0x00, 0x00, 0x00] + BE32(p.words)
  }

  const Footer: seq<Byte> := [0x02, 0, 0, 0, 0x03, 0, 0, 0, 0x40, 0, 0, 0]

  /** The piece's pixels lie in the frame buffer. */
  predicate Drawable(p: Piece) {
    p.height > 0 && p.width > 0 ==>
      0 <= p.top && p.top + p.height <= ScreenHeight && 0 <= p.left && p.left + p.width <= ScreenWidth
  }

  lemma CutDrawable(x: int, y: int, width: int, height: int, screen: nat)
    requires screen < 2
    ensures Drawable(Cut(x, y, width, height, screen))
  {
  }

  /** `k < h * m` gives `k / m < h`. */
  lemma DivBelow(k: int, m: int, h: int)
    requires 0 <= k < h * m && m > 0
    ensures 0 <= k / m < h
  {
    var q := k / m;
    assert k == q * m + k % m && 0 <= k % m < m;
    MulStrictOrder(q, h, m);
    MulStrictOrder(-1, q, m);
  }

  /** Frame-buffer byte for payload byte k: row k / (2w), column
      (k mod 2w) / 2, with the two bytes of each pixel swapped. */
  function SourceIndex(p: Piece, k: nat): int
    requires p.width > 0
  {
    var rowBytes := p.width * 2;
    (p.top + k / rowBytes) * 1920 + (p.left + (k % rowBytes) / 2) * 2 + (1 - k % 2)
  }

  /** Every byte the payload copies lies in the frame buffer. */
  lemma SourceIndexInFrame(p: Piece, k: nat)
    requires Drawable(p) && p.height > 0 && p.width > 0 && k < p.height * p.width * 2
    ensures 0 <= SourceIndex(p, k) < FrameBytes
  {
    RowAndColumn(k, p.width, p.height);
    var rowBytes := p.width * 2;
    var row := k / rowBytes;
    var col := (k % rowBytes) / 2;
    assert SourceIndex(p, k) == (p.top + row) * 1920 + (p.left + col) * 2 + (1 - k % 2);
  }

  /** Payload byte k of an h-by-w piece lies in row k / (2w) < h and
      column (k mod 2w) / 2 < w. */
  lemma RowAndColumn(k: nat, w: int, h: int)
    requires w > 0 && k < h * w * 2
    ensures 0 <= k / (w * 2) < h && 0 <= (k % (w * 2)) / 2 < w
  {
    MulTwice(h, w);
    DivBelow(k, w * 2, h);
    ColumnBelow(k, w * 2);
  }

  lemma MulTwice(h: int, w: int)
    ensures h * w * 2 == h * (w * 2)
  {
  }

  lemma ColumnBelow(k: nat, m: int)
    requires m > 0 && m % 2 == 0
    ensures 0 <= (k % m) / 2 < m / 2
  {
    var c := k % m;
    assert 0 <= c < m;
  }

  /** The payload: the piece's pixels row by row with each pixel's two
      bytes swapped, padded with the zeroes of the fresh buffer. */
  function Payload(p: Piece, fb: FrameBuffer): (r: seq<Byte>)
    requires Drawable(p) && p.words >= 0
    ensures |r| == p.words * 4
  {
    seq(p.words * 4, k requires 0 <= k < p.words * 4 =>
          if p.height > 0 && p.width > 0 && k < p.height * p.width * 2
          then SourceIndexInFrame(p, k); fb[SourceIndex(p, k)]
          else 0)
  }

  /** Pixel (column c, row r) of a piece lands at payload bytes
      2 (r w + c) and 2 (r w + c) + 1, high byte first. */
  lemma PayloadPixel(p: Piece, fb: FrameBuffer, r: nat, c: nat, b: nat)
    requires Drawable(p) && p.words * 4 == p.height * p.width * 2
    requires r < p.height && c < p.width && b < 2
    ensures (r * p.width + c) * 2 + b < |Payload(p, fb)|
    ensures Payload(p, fb)[(r * p.width + c) * 2 + b]
            == fb[(p.top + r) * 1920 + (p.left + c) * 2 + (1 - b)]
  {
    CellBelow(r, c, p.width, p.height);
    PixelSource(p, r, c, b);
  }

  /** Cell (r, c) of an h-by-w grid has a row-major index below h w. */
  lemma CellBelow(r: int, c: int, w: int, h: int)
    requires 0 <= r < h && 0 <= c < w
    ensures 0 <= r * w + c < h * w
  {
    MulNonNegative(r, w);
    MulNonNegative(h - 1 - r, w);
    assert (h - 1 - r) * w == h * w - r * w - w;
  }

  /** The byte of pixel (c, r) that payload byte 2 (r w + c) + b copies. */
  lemma PixelSource(p: Piece, r: nat, c: nat, b: nat)
    requires 0 <= c < p.width && b < 2
    ensures SourceIndex(p, (r * p.width + c) * 2 + b) == (p.top + r) * 1920 + (p.left + c) * 2 + (1 - b)
  {
    var k := (r * p.width + c) * 2 + b;
    RowMajorSplit(k, r, c, b, p.width);
  }

  /** Splitting a payload offset back into row, column and byte. */
  lemma RowMajorSplit(k: int, r: int, c: int, b: int, w: int)
    requires 0 <= c < w && 0 <= b < 2 && k == (r * w + c) * 2 + b
    ensures k / (w * 2) == r && (k % (w * 2)) / 2 == c && k % 2 == b
  {
    assert k == r * (w * 2) + (c * 2 + b);
    ModUnique(k, w * 2, r, c * 2 + b);
    ModUnique(c * 2 + b, 2, c, b);
    ModUnique(k, 2, r * w + c, b);
  }

  /** One packet: header, payload, footer. */
  function Packet(p: Piece, fb: FrameBuffer): (r: seq<Byte>)
    requires p.screen < 2 && Drawable(p) && p.words >= 0
    ensures |r| == 36 + p.words * 4
  {
    Header(p) + Payload(p, fb) + Footer
  }

  /** `Display::SendPixels`: the packets written, none when disconnected. */
  function SendPixels(connected: bool, fb: FrameBuffer, x: int, y: int, width: int, height: int): (r: seq<seq<Byte>>)
    ensures |r| <= 2 && (!connected ==> r == [])
  {
    if !connected then []
    else
      var ps := SentPieces(x, y, width, height);
      seq(|ps|, k requires 0 <= k < |ps| =>
            var p := ps[k];
            assert p in ps;
            CutDrawable(x, y, width, height, p.screen);
            CutWords(x, y, width, height, p.screen);
            Packet(p, fb))
  }

  /** The header fields of a packet. */
  datatype HeaderFields = HeaderFields(screen: Byte, x: nat, y: nat, width: nat, height: nat, words: nat)

  /** Reads a header back: None unless its constant bytes are as
      `SendPixels` writes them. */
  function ParseHeader(b: seq<Byte>): Option<HeaderFields>
    requires |b| == 24
  {
    if b[..2] != [0x84, 0x00] || b[3] != 0x60 || b[4..8] != [0, 0, 0, 0] || b[16..20] != [0x02, 0, 0, 0] then None
    else Some(HeaderFields(b[2], ReadBE16(b, 8), ReadBE16(b, 10), ReadBE16(b, 12), ReadBE16(b, 14), ReadBE32(b, 20)))
  }

  /** A header reads back as its piece's fields, each cut to its width. */
  lemma ParseHeaderRoundTrip(p: Piece)
    requires p.screen < 2
    ensures ParseHeader(Header(p)) == Some(HeaderFields(p.screen, (p.left - p.screen * 480) % 0x1_0000,
                                                        p.top % 0x1_0000, p.width % 0x1_0000, p.height % 0x1_0000,
                                                        p.words % 0x1_0000_0000))
  {
    var b := Header(p);
    BE16RoundTrip(p.left - p.screen * 480);
    BE16RoundTrip(p.top);
    BE16RoundTrip(p.width);
    BE16RoundTrip(p.height);
    BE32RoundTrip(p.words);
    assert b[..2] == [0x84, 0x00] && b[4..8] == [0, 0, 0, 0] && b[16..20] == [0x02, 0, 0, 0];
    assert ReadBE16(b, 8) == ReadBE16(BE16(p.left - p.screen * 480), 0);
    assert ReadBE16(b, 10) == ReadBE16(BE16(p.top), 0);
    assert ReadBE16(b, 12) == ReadBE16(BE16(p.width), 0);
    assert ReadBE16(b, 14) == ReadBE16(BE16(p.height), 0);
    assert b[20..24] == BE32(p.words);
    assert ReadBE32(b, 20) == ReadBE32(BE32(p.words), 0);
  }

  /** The fields a packet carries. */
  datatype Fields = Fields(header: HeaderFields, payload: seq<Byte>)

  /** Reads a packet back: None unless the header is well formed, the
      length is the one its word count implies and the footer is intact. */
  function ParsePacket(b: seq<Byte>): (r: Option<Fields>)
    ensures r.Some? ==> |b| == 36 + r.value.header.words * 4 && |r.value.payload| == r.value.header.words * 4
  {
    if |b| < 36 then None
    else match ParseHeader(b[..24])
      case None => None
      case Some(hf) =>
        if |b| != 36 + hf.words * 4 || b[|b| - 12..] != Footer then None
        else Some(Fields(hf, b[24..|b| - 12]))
  }

  /** A packet is read back from its parts whatever the payload holds. */
  lemma ParseFramed(header: seq<Byte>, payload: seq<Byte>)
    requires |header| == 24 && ParseHeader(header).Some? && |payload| == ParseHeader(header).value.words * 4
    ensures ParsePacket(header + payload + Footer) == Some(Fields(ParseHeader(header).value, payload))
  {
    var b := header + payload + Footer;
    assert b[..24] == header;
    assert b[24..|b| - 12] == payload;
    assert b[|b| - 12..] == Footer;
  }

  /** A packet reads back as its piece's fields, each cut to its width,
      and its payload. */
  lemma ParsePacketRoundTrip(p: Piece, fb: FrameBuffer)
    requires p.screen < 2 && Drawable(p) && 0 <= p.words < 0x1_0000_0000
    ensures ParsePacket(Packet(p, fb))
            == Some(Fields(HeaderFields(p.screen, (p.left - p.screen * 480) % 0x1_0000,
                                        p.top % 0x1_0000, p.width % 0x1_0000, p.height % 0x1_0000, p.words),
                           Payload(p, fb)))
  {
    FramedPiece(p, Payload(p, fb));
  }

  lemma FramedPiece(p: Piece, payload: seq<Byte>)
    requires p.screen < 2 && 0 <= p.words < 0x1_0000_0000 && |payload| == p.words * 4
    ensures ParsePacket(Header(p) + payload + Footer)
            == Some(Fields(HeaderFields(p.screen, (p.left - p.screen * 480) % 0x1_0000,
                                        p.top % 0x1_0000, p.width % 0x1_0000, p.height % 0x1_0000, p.words),
                           payload))
  {
    ParseHeaderRoundTrip(p);
    ParseFramed(Header(p), payload);
  }

  lemma WordsBound(h: int, w: int, words: int)
    requires 0 < h <= ScreenHeight && 0 < w <= HalfWidth && words * 4 == h * w * 2
    ensures words < 0x1_0000_0000
  {
    MulNonNegative(ScreenHeight - h, w);
    assert h * w <= ScreenHeight * w;
  }

  /** A sent piece lies on its screen half and its fields fit their
      slots. */
  lemma SentPieceFits(x: int, y: int, width: int, height: int, k: nat)
    requires k < |SentPieces(x, y, width, height)|
    ensures var p := SentPieces(x, y, width, height)[k];
            && p.screen < 2 && Drawable(p)
            && 0 <= p.left - p.screen * 480 < HalfWidth && 0 <= p.top < ScreenHeight
            && 0 < p.width <= HalfWidth && 0 < p.height <= ScreenHeight
            && 0 < p.words < 0x1_0000_0000 && p.words * 4 == p.height * p.width * 2
  {
    var p := SentPieces(x, y, width, height)[k];
    assert p in SentPieces(x, y, width, height);
    CutWords(x, y, width, height, p.screen);
    CutDrawable(x, y, width, height, p.screen);
    WordsBound(p.height, p.width, p.words);
  }

  /** Each packet sent reads back exactly: the position within the half,
      the extents, the word count and the pixels. */
  lemma SentPacketsReadBack(x: int, y: int, width: int, height: int, fb: FrameBuffer, k: nat)
    requires k < |SentPieces(x, y, width, height)|
    ensures var p := SentPieces(x, y, width, height)[k];
            ParsePacket(SendPixels(true, fb, x, y, width, height)[k])
            == Some(Fields(HeaderFields(p.screen, p.left - p.screen * 480, p.top, p.width, p.height, p.words),
                           Payload(p, fb)))
  {
    var p := SentPieces(x, y, width, height)[k];
    SentPieceFits(x, y, width, height, k);
    SendPixelsAt(x, y, width, height, fb, k);
    FittingPacketReadsBack(p, fb);
  }

  lemma FittingPacketReadsBack(p: Piece, fb: FrameBuffer)
    requires p.screen < 2 && Drawable(p) && 0 <= p.words < 0x1_0000_0000
    requires 0 <= p.left - p.screen * 480 < 0x1_0000 && 0 <= p.top < 0x1_0000
    requires 0 <= p.width < 0x1_0000 && 0 <= p.height < 0x1_0000
    ensures ParsePacket(Packet(p, fb))
            == Some(Fields(HeaderFields(p.screen, p.left - p.screen * 480, p.top, p.width, p.height, p.words),
                           Payload(p, fb)))
  {
    ModUnique(p.left - p.screen * 480, 0x1_0000, 0, p.left - p.screen * 480);
    ModUnique(p.top, 0x1_0000, 0, p.top);
    ModUnique(p.width, 0x1_0000, 0, p.width);
    ModUnique(p.height, 0x1_0000, 0, p.height);
    ParsePacketRoundTrip(p, fb);
  }

  lemma SendPixelsAt(x: int, y: int, width: int, height: int, fb: FrameBuffer, k: nat)
    requires k < |SentPieces(x, y, width, height)|
    ensures var p := SentPieces(x, y, width, height)[k];
            p.screen < 2 && Drawable(p) && p.words >= 0
            && SendPixels(true, fb, x, y, width, height)[k] == Packet(p, fb)
  {
    SentPieceFits(x, y, width, height, k);
  }
}

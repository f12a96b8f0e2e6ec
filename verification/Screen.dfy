/** Scrolling and painting the four-plane screen buffer of src/screen.c. */
module Screen {
  import opened Words
  import opened Bits
  import Bytes

  const VGA_WIDTH: int := 80
  const VGA_HEIGHT: int := 480
  const PIXELS_PER_BYTE: int := 8
  const VGA_PLANES: int := 4
  const PLANE: int := 38400
  const PIXELS: int := 307200
  const CHAR_SIZE: int := 8
  const CHAR_ROWS: int := 60
  const CHAR_COLS: int := 80
  const NEWLINE: byte := 10
  const BACKSPACE: byte := 8

  /** Bit `p` of the colour, spread over a byte. */
  function PlaneColor(color: nat, p: nat): byte
    requires p < VGA_PLANES
  {
    var mask := if p == 0 then 1 else if p == 1 then 2 else if p == 2 then 4 else 8;
    if color / mask % 2 == 1 then 0xff else 0
  }

  // ----- painting

  /** `(start - 1) / 8 + 1` in C, where the division truncates towards zero. */
  function StartByte(start: nat): nat {
    if start == 0 then 1 else (start - 1) / PIXELS_PER_BYTE + 1
  }

  predicate InScreen(start: int, size: int) {
    0 <= start <= PIXELS && 0 <= size && start + size <= PIXELS
  }

  /** Byte `i` of a plane, after painting. */
  predicate Painted(start: nat, size: nat, i: nat) {
    StartByte(start) <= i < StartByte(start) + size / PIXELS_PER_BYTE
  }

  /** All eight pixels of byte `i` lie in the range. */
  predicate FullyInside(start: nat, size: nat, i: nat) {
    start <= i * PIXELS_PER_BYTE && i * PIXELS_PER_BYTE + PIXELS_PER_BYTE <= start + size
  }

  /** Painting covers exactly the bytes fully inside the pixel range if and only if the range
      holds no whole byte's worth of pixels, or starts on a byte (but not at 0, where the
      truncating division skips the first byte), or its two ragged ends make up a byte. */
  lemma PaintsFullBytesIff(start: nat, size: nat)
    requires InScreen(start, size)
    ensures (forall i: nat :: Painted(start, size, i) <==> FullyInside(start, size, i))
            <==> size < 8 || (start > 0 && (start % 8 == 0 || start % 8 + size % 8 >= 8))
  {
    var first, a, b := StartByte(start), start / 8, size / 8;
    PaintArithmetic(start, size);
    if size >= 8 {
      assert Painted(start, size, first);
      if start == 0 {
        assert FullyInside(start, size, 0) && !Painted(start, size, 0);
      } else if start % 8 != 0 && start % 8 + size % 8 < 8 {
        var last := first + b - 1;
        assert Painted(start, size, last) && !FullyInside(start, size, last);
      }
    }
  }

  lemma PaintArithmetic(start: nat, size: nat)
    ensures start == 8 * (start / 8) + start % 8 && size == 8 * (size / 8) + size % 8
    ensures start > 0 ==> StartByte(start) == start / 8 + if start % 8 == 0 then 0 else 1
  {}

  /** A range the screen test accepts is painted inside the planes unless it is the whole screen:
      from pixel 0 on, painting starts at byte 1 and then ends one byte past the last plane. */
  lemma PaintFitsIff(start: nat, size: nat)
    requires InScreen(start, size)
    ensures StartByte(start) + size / PIXELS_PER_BYTE <= PLANE <==> !(start == 0 && size == PIXELS)
    ensures StartByte(start) + size / PIXELS_PER_BYTE <= PLANE + 1
  {
    PaintArithmetic(start, size);
  }

  /** One plane's slice of the buffer. */
  function PaintPlane(buf: seq<byte>, start: nat, size: nat, color: nat, p: nat): (r: seq<byte>)
    requires |buf| == PLANE * VGA_PLANES && p < VGA_PLANES && StartByte(start) + size / PIXELS_PER_BYTE <= PLANE
    ensures |r| == |buf|
  {
    Fill(buf, p * PLANE + StartByte(start), size / PIXELS_PER_BYTE, PlaneColor(color, p))
  }

  function PaintPlanes(buf: seq<byte>, start: nat, size: nat, color: nat, n: nat): (r: seq<byte>)
    requires |buf| == PLANE * VGA_PLANES && n <= VGA_PLANES && StartByte(start) + size / PIXELS_PER_BYTE <= PLANE
    ensures |r| == |buf|
  {
    if n == 0 then buf else PaintPlane(PaintPlanes(buf, start, size, color, n - 1), start, size, color, n - 1)
  }

  lemma {:induction false} PaintPlanesAt(buf: seq<byte>, start: nat, size: nat, color: nat, n: nat, p: nat, i: nat)
    requires |buf| == PLANE * VGA_PLANES && n <= VGA_PLANES && StartByte(start) + size / PIXELS_PER_BYTE <= PLANE
    requires p < VGA_PLANES && i < PLANE
    ensures PaintPlanes(buf, start, size, color, n)[p * PLANE + i]
            == if p < n && Painted(start, size, i) then PlaneColor(color, p) else buf[p * PLANE + i]
  {
    if n > 0 {
      PaintPlanesAt(buf, start, size, color, n - 1, p, i);
    }
  }

  // ----- scrolling

  /** Each plane scrolled on its own: rows move up, the last `rows` rows take the clear colour. */
  ghost predicate Scrolled(old_: seq<byte>, new_: seq<byte>, rows: nat, color: nat) {
    && |old_| == |new_| == PLANE * VGA_PLANES && rows <= VGA_HEIGHT
    && forall p: nat, i: nat {:trigger At(p, i)} :: p < VGA_PLANES && i < PLANE ==>
         new_[At(p, i)]
         == if i < PLANE - VGA_WIDTH * rows then old_[At(p, i) + VGA_WIDTH * rows] else PlaneColor(color, p)
  }

  /** Index of byte `i` of plane `p`. */
  function At(p: nat, i: nat): (k: nat)
    ensures p < VGA_PLANES && i < PLANE ==> k < PLANE * VGA_PLANES
  {
    p * PLANE + i
  }

  /** One flat overlapping copy over all planes, then painting, scrolls every plane. */
  lemma FlatCopyScrolls(buf: seq<byte>, rows: nat, color: nat)
    requires |buf| == PLANE * VGA_PLANES && rows < VGA_HEIGHT
    ensures var copied := CopyForward(buf, 0, VGA_WIDTH * rows, PLANE * VGA_PLANES - VGA_WIDTH * rows);
            var start, size := VGA_WIDTH * PIXELS_PER_BYTE * (VGA_HEIGHT - rows), VGA_WIDTH * PIXELS_PER_BYTE * rows;
            && StartByte(start) + size / PIXELS_PER_BYTE == PLANE
            && Scrolled(buf, PaintPlanes(copied, start, size, color, VGA_PLANES), rows, color)
  {
    var n := PLANE * VGA_PLANES - VGA_WIDTH * rows;
    var copied := CopyForward(buf, 0, VGA_WIDTH * rows, n);
    var start, size := VGA_WIDTH * PIXELS_PER_BYTE * (VGA_HEIGHT - rows), VGA_WIDTH * PIXELS_PER_BYTE * rows;
    CopyForwardMoves(buf, 0, VGA_WIDTH * rows, n);
    assert StartByte(start) == PLANE - VGA_WIDTH * rows && size / PIXELS_PER_BYTE == VGA_WIDTH * rows;
    hide CopyForward, PaintPlanes, StartByte;
    forall p: nat, i: nat | p < VGA_PLANES && i < PLANE
      ensures PaintPlanes(copied, start, size, color, VGA_PLANES)[At(p, i)]
              == if i < PLANE - VGA_WIDTH * rows then buf[At(p, i) + VGA_WIDTH * rows] else PlaneColor(color, p)
    {
      PaintPlanesAt(copied, start, size, color, VGA_PLANES, p, i);
    }
  }

  // ----- characters

  /** The 8-byte glyphs of 128 characters, and the table that mirrors a glyph's bytes. */
  datatype Font = Font(glyphs: seq<byte>, mirror: seq<byte>)

  predicate IsFont(font: Font) { |font.glyphs| == 128 * CHAR_SIZE && |font.mirror| == 0x100 }

  /** The pixels of a character's line that carry ink. */
  function Stroke(font: Font, c: byte, line: nat): byte
    requires IsFont(font) && c < 128 && line < CHAR_SIZE
  {
    font.mirror[font.glyphs[c * CHAR_SIZE + line]]
  }

  /** The two bit operations that put ink of a colour over a byte. */
  function Ink(old_: byte, mask: byte, color: byte): byte {
    ByteOr(ByteAnd(old_, ByteNot(mask)), ByteAnd(mask, color))
  }

  /** Where byte `j` of the buffer is on the screen: its plane, text row, column, and line of the
      character cell. */
  function Plane(j: nat): nat { j / PLANE }
  function Row(j: nat): nat { j % PLANE / (VGA_WIDTH * CHAR_SIZE) }
  function Col(j: nat): nat { j % VGA_WIDTH }
  function Line(j: nat): nat { j % PLANE / VGA_WIDTH % CHAR_SIZE }

  lemma PlaceOf(p: nat, row: nat, line: nat, col: nat, j: nat)
    requires p < VGA_PLANES && row < CHAR_ROWS && line < CHAR_SIZE && col < CHAR_COLS && j < PLANE * VGA_PLANES
    ensures j == p * PLANE + row * CHAR_SIZE * VGA_WIDTH + line * VGA_WIDTH + col
            <==> Plane(j) == p && Row(j) == row && Line(j) == line && Col(j) == col
  {}

  /** Byte `j` after a character was drawn; a backspace clears its cell. */
  function DrawnByte(buf: seq<byte>, j: nat, c: byte, font: Font, color: nat, clear: nat): byte
    requires |buf| == PLANE * VGA_PLANES && j < |buf| && c < 128 && IsFont(font)
  {
    if c == BACKSPACE then PlaneColor(clear, Plane(j))
    else Ink(buf[j], Stroke(font, c, Line(j)), PlaneColor(color, Plane(j)))
  }

  /** A character on the roll of text lines. */
  datatype Glyph = Glyph(c: byte, color: nat)

  /** What byte `j` of a cell shows: the clear colour, with the character's ink over it. */
  function CellByte(roll: map<nat, Glyph>, cell: nat, j: nat, font: Font, clear: nat): byte
    requires IsFont(font) && j < PLANE * VGA_PLANES
  {
    if cell in roll && roll[cell].c < 128
    then Ink(PlaneColor(clear, Plane(j)), Stroke(font, roll[cell].c, Line(j)), PlaneColor(roll[cell].color, Plane(j)))
    else PlaneColor(clear, Plane(j))
  }

  /** The buffer shows the 60 lines of the roll from line `top` on, and nothing else. */
  ghost predicate Shows(buf: seq<byte>, roll: map<nat, Glyph>, top: nat, font: Font, clear: nat) {
    && |buf| == PLANE * VGA_PLANES && IsFont(font)
    && forall j :: 0 <= j < |buf| ==> buf[j] == CellByte(roll, CHAR_COLS * (top + Row(j)) + Col(j), j, font, clear)
  }

  ghost predicate Blank(buf: seq<byte>, clear: nat) {
    |buf| == PLANE * VGA_PLANES && forall j :: 0 <= j < |buf| ==> buf[j] == PlaneColor(clear, Plane(j))
  }

  lemma BlankShows(buf: seq<byte>, font: Font, clear: nat)
    requires Blank(buf, clear) && IsFont(font)
    ensures Shows(buf, map[], 0, font, clear)
  {}

  /** Scrolling by a text row shows the roll one line further, if that line is still empty. */
  lemma ScrollShows(buf: seq<byte>, buf': seq<byte>, roll: map<nat, Glyph>, top: nat, font: Font, clear: nat)
    requires Shows(buf, roll, top, font, clear) && Scrolled(buf, buf', CHAR_SIZE, clear)
    requires forall cell :: cell in roll ==> cell < CHAR_COLS * (top + CHAR_ROWS)
    ensures Shows(buf', roll, top + 1, font, clear)
  {
    hide Ink, Stroke, PlaneColor, IsFont;
    forall j | 0 <= j < |buf'|
      ensures buf'[j] == CellByte(roll, CHAR_COLS * (top + 1 + Row(j)) + Col(j), j, font, clear)
    {
      ScrolledByte(buf, buf', j, clear);
    }
  }

  lemma ScrolledByte(buf: seq<byte>, buf': seq<byte>, j: nat, clear: nat)
    requires Scrolled(buf, buf', CHAR_SIZE, clear) && j < |buf'|
    ensures Plane(j) < VGA_PLANES && Row(j) < CHAR_ROWS
    ensures if Row(j) == CHAR_ROWS - 1 then buf'[j] == PlaneColor(clear, Plane(j))
            else
              var k := j + VGA_WIDTH * CHAR_SIZE;
              && k < |buf| && buf'[j] == buf[k]
              && Plane(k) == Plane(j) && Row(k) == Row(j) + 1 && Col(k) == Col(j) && Line(k) == Line(j)
  {
    hide PlaneColor, Plane, Row, Col, Line;
    var q, i := j / PLANE, j % PLANE;
    RowBelow(j);
    assert j == At(q, i) && q < VGA_PLANES && i < PLANE;
  }

  lemma RowBelow(j: nat)
    requires j < PLANE * VGA_PLANES
    ensures Plane(j) == j / PLANE < VGA_PLANES && Row(j) < CHAR_ROWS
    ensures Row(j) == CHAR_ROWS - 1 <==> j % PLANE >= PLANE - VGA_WIDTH * CHAR_SIZE
    ensures var k := j + VGA_WIDTH * CHAR_SIZE;
            Row(j) < CHAR_ROWS - 1 ==>
              k < PLANE * VGA_PLANES && Plane(k) == Plane(j) && Row(k) == Row(j) + 1 && Col(k) == Col(j)
                && Line(k) == Line(j)
  {
    var i := j % PLANE;
    if i < PLANE - VGA_WIDTH * CHAR_SIZE {
      SamePlane(j);
      LineDown(i);
      LineDown(j);
    }
    RowsOf(i);
  }

  lemma SamePlane(j: nat)
    requires j % PLANE < PLANE - VGA_WIDTH * CHAR_SIZE
    ensures (j + VGA_WIDTH * CHAR_SIZE) / PLANE == j / PLANE
    ensures (j + VGA_WIDTH * CHAR_SIZE) % PLANE == j % PLANE + VGA_WIDTH * CHAR_SIZE
  {}

  lemma LineDown(i: nat)
    ensures (i + VGA_WIDTH * CHAR_SIZE) / (VGA_WIDTH * CHAR_SIZE) == i / (VGA_WIDTH * CHAR_SIZE) + 1
    ensures (i + VGA_WIDTH * CHAR_SIZE) % VGA_WIDTH == i % VGA_WIDTH
    ensures (i + VGA_WIDTH * CHAR_SIZE) / VGA_WIDTH % CHAR_SIZE == i / VGA_WIDTH % CHAR_SIZE
  {
    assert (i + VGA_WIDTH * CHAR_SIZE) / VGA_WIDTH == i / VGA_WIDTH + CHAR_SIZE;
  }

  lemma RowsOf(i: nat)
    requires i < PLANE
    ensures i / (VGA_WIDTH * CHAR_SIZE) < CHAR_ROWS
    ensures i / (VGA_WIDTH * CHAR_SIZE) == CHAR_ROWS - 1 <==> i >= PLANE - VGA_WIDTH * CHAR_SIZE
  {}

  /** Drawing into an empty cell, or clearing one. */
  lemma DrawShows(buf: seq<byte>, buf': seq<byte>, roll: map<nat, Glyph>, top: nat, font: Font, clear: nat,
                  c: byte, row: nat, col: nat, color: nat)
    requires Shows(buf, roll, top, font, clear) && DrawnAt(buf, buf', c, row, col, font, color, clear)
    requires row < CHAR_ROWS && col < CHAR_COLS && c != NEWLINE
    requires c != BACKSPACE ==> CHAR_COLS * (top + row) + col !in roll
    ensures Shows(buf', Draw(roll, CHAR_COLS * (top + row) + col, c, color), top, font, clear)
  {
    hide Ink, Stroke, PlaneColor, IsFont;
    forall j | 0 <= j < |buf'|
      ensures buf'[j] == CellByte(Draw(roll, CHAR_COLS * (top + row) + col, c, color),
              CHAR_COLS * (top + Row(j)) + Col(j), j, font, clear)
    {
      assert Col(j) < CHAR_COLS;
      assert buf[j] == CellByte(roll, CHAR_COLS * (top + Row(j)) + Col(j), j, font, clear);
    }
  }

  /** The roll after a character is drawn in a cell. */
  function Draw(roll: map<nat, Glyph>, cell: nat, c: byte, color: nat): map<nat, Glyph> {
    if c >= 128 then roll else if c == BACKSPACE then roll - {cell} else roll[cell := Glyph(c, color)]
  }

  /** DrawCharAt: the bytes of one cell are drawn on, and no others. */
  ghost predicate DrawnAt(buf: seq<byte>, buf': seq<byte>, c: byte, row: int, col: int, font: Font, color: nat,
                          clear: nat) {
    && |buf| == |buf'| == PLANE * VGA_PLANES && IsFont(font)
    && forall j :: 0 <= j < |buf| ==>
         buf'[j]
         == if c < 128 && Row(j) == row && Col(j) == col then DrawnByte(buf, j, c, font, color, clear) else buf[j]
  }

  // ----- pixels

  lemma InkSteps(old_: byte, mask: byte, color: byte)
    ensures Ink(old_, mask, color) == ByteOr(ByteAnd(old_, ByteNot(mask)), ByteAnd(mask, color))
  {}

  /** The colour of one pixel: its four planes' bits, in byte `k` of each plane. */
  function PixelColor(buf: seq<byte>, k: nat, b: nat): nat
    requires |buf| == 153600 && k < 38400
  {
    Bit(buf[k], b) + 2 * Bit(buf[38400 + k], b) + 4 * Bit(buf[76800 + k], b) + 8 * Bit(buf[115200 + k], b)
  }

  lemma InkBit(old_: byte, mask: byte, color: byte, b: nat)
    requires b < 8
    ensures Bit(Ink(old_, mask, color), b) == if Bit(mask, b) == 1 then Bit(color, b) else Bit(old_, b)
  {
    hide And, Or, Not, Bit;
    BitOfNot(mask, 8, b);
    BitOfAnd(old_, ByteNot(mask), 8, b);
    BitOfAnd(mask, color, 8, b);
    BitOfOr(ByteAnd(old_, ByteNot(mask)), ByteAnd(mask, color), 8, b);
  }

  lemma PlaneColorBit(color: nat, p: nat, b: nat)
    requires p < VGA_PLANES && b < 8
    ensures Bit(PlaneColor(color, p), b) == Bit(color, p)
  {
    hide Bit;
    BitOfFull(8, b);
    FitsByte();
    BitValues(color);
  }

  /** One bit of a byte of the cell. */
  lemma DrawnBit(buf: seq<byte>, buf': seq<byte>, c: byte, row: nat, col: nat, font: Font, color: nat, clear: nat,
                 p: nat, line: nat, b: nat)
    requires DrawnAt(buf, buf', c, row, col, font, color, clear) && c < 128
    requires p < 4 && row < 60 && line < 8 && col < 80 && b < 8
    ensures var j := p * 38400 + (row * 8 + line) * 80 + col;
            && j < 153600
            && Bit(buf'[j], b) == if c == 8 then Bit(clear, p)
                                  else if Bit(font.mirror[font.glyphs[c * 8 + line]], b) == 1 then Bit(color, p)
                                  else Bit(buf[j], b)
  {
    hide Ink, PlaneColor, Bit, Plane, Row, Col, Line;
    var j := p * 38400 + (row * 8 + line) * 80 + col;
    PlaceOf(p, row, line, col, j);
    PlaneColorBit(clear, p, b);
    PlaneColorBit(color, p, b);
    InkBit(buf[j], Stroke(font, c, line), PlaneColor(color, p), b);
  }

  /** DrawCharAt, pixel by pixel: an inked pixel of the cell takes the character's colour, any
      other keeps its own; a backspace gives the whole cell the clear colour. No byte outside the
      cell changes, and codes above 127 and cells off the screen change nothing. */
  lemma DrawnPixels(buf: seq<byte>, buf': seq<byte>, c: byte, row: int, col: int, font: Font, color: nat, clear: nat,
                    line: nat, b: nat)
    requires DrawnAt(buf, buf', c, row, col, font, color, clear) && line < 8 && b < 8
    ensures c < 128 && 0 <= row < 60 && 0 <= col < 80 ==>
              var k := (row * 8 + line) * 80 + col;
              && k < 38400
              && PixelColor(buf', k, b)
                 == if c == 8 then clear % 16
                    else if Bit(font.mirror[font.glyphs[c * 8 + line]], b) == 1 then color % 16
                    else PixelColor(buf, k, b)
    ensures forall j :: 0 <= j < 153600 && !(c < 128 && j % 38400 / 640 == row && j % 80 == col) ==> buf'[j] == buf[j]
    ensures !(c < 128 && 0 <= row < 60 && 0 <= col < 80) ==> buf' == buf
  {
    hide Ink, Stroke, PlaneColor, Bit;
    OutsideCell(buf, buf', c, row, col, font, color, clear);
    if c < 128 && 0 <= row < 60 && 0 <= col < 80 {
      hide DrawnAt;
      LowBits(clear);
      LowBits(color);
      DrawnBit(buf, buf', c, row, col, font, color, clear, 0, line, b);
      DrawnBit(buf, buf', c, row, col, font, color, clear, 1, line, b);
      DrawnBit(buf, buf', c, row, col, font, color, clear, 2, line, b);
      DrawnBit(buf, buf', c, row, col, font, color, clear, 3, line, b);
    }
  }

  lemma OutsideCell(buf: seq<byte>, buf': seq<byte>, c: byte, row: int, col: int, font: Font, color: nat, clear: nat)
    requires DrawnAt(buf, buf', c, row, col, font, color, clear)
    ensures |buf| == |buf'| == 153600 && IsFont(font)
    ensures forall j :: 0 <= j < 153600 && !(c < 128 && j % 38400 / 640 == row && j % 80 == col) ==> buf'[j] == buf[j]
    ensures !(c < 128 && 0 <= row < 60 && 0 <= col < 80) ==> buf' == buf
  {
    hide Ink, Stroke, PlaneColor, IsFont;
    forall j | 0 <= j < 153600
      ensures Row(j) == j % 38400 / 640 && Col(j) == j % 80 && 0 <= Row(j) < 60 && 0 <= Col(j) < 80
    {
      RowsOf(j % 38400);
    }
  }

  /** A screen that shows a roll, pixel by pixel: the ink of the character on the roll's cell in
      the character's colour, everything else in the clear colour. */
  lemma ShownPixels(buf: seq<byte>, roll: map<nat, Glyph>, top: nat, font: Font, clear: nat, row: nat, col: nat,
                    line: nat, b: nat)
    requires Shows(buf, roll, top, font, clear) && row < 60 && col < 80 && line < 8 && b < 8
    ensures var k, cell := (row * 8 + line) * 80 + col, 80 * (top + row) + col;
            && k < 38400
            && PixelColor(buf, k, b)
               == if cell in roll && roll[cell].c < 128
                    && Bit(font.mirror[font.glyphs[roll[cell].c * 8 + line]], b) == 1 then roll[cell].color % 16
                  else clear % 16
  {
    hide Shows, Bit;
    ShownBit(buf, roll, top, font, clear, row, col, 0, line, b);
    ShownBit(buf, roll, top, font, clear, row, col, 1, line, b);
    ShownBit(buf, roll, top, font, clear, row, col, 2, line, b);
    ShownBit(buf, roll, top, font, clear, row, col, 3, line, b);
    LowBits(clear);
    var cell := 80 * (top + row) + col;
    if cell in roll {
      LowBits(roll[cell].color);
    }
  }

  lemma ShownBit(buf: seq<byte>, roll: map<nat, Glyph>, top: nat, font: Font, clear: nat, row: nat, col: nat,
                 p: nat, line: nat, b: nat)
    requires Shows(buf, roll, top, font, clear) && row < 60 && col < 80 && p < 4 && line < 8 && b < 8
    ensures |buf| == 153600 && IsFont(font)
    ensures var j, cell := p * 38400 + (row * 8 + line) * 80 + col, 80 * (top + row) + col;
            && j < 153600
            && Bit(buf[j], b)
               == if cell in roll && roll[cell].c < 128
                    && Bit(font.mirror[font.glyphs[roll[cell].c * 8 + line]], b) == 1 then Bit(roll[cell].color, p)
                  else Bit(clear, p)
  {
    hide Ink, PlaneColor, Bit, Plane, Row, Col, Line;
    var j, cell := p * 38400 + (row * 8 + line) * 80 + col, 80 * (top + row) + col;
    PlaceOf(p, row, line, col, j);
    PlaneColorBit(clear, p, b);
    if cell in roll && roll[cell].c < 128 {
      PlaneColorBit(roll[cell].color, p, b);
      InkBit(PlaneColor(clear, p), Stroke(font, roll[cell].c, line), PlaneColor(roll[cell].color, p), b);
    }
  }

  /** Painting, pixel by pixel: of as many whole bytes as the size holds, from the first one on
      that starts at or after the range does (or at pixel 8, if that starts at 0). */
  lemma PaintedPixels(buf: seq<byte>, start: nat, size: nat, color: nat, k: nat, b: nat)
    requires |buf| == 153600 && StartByte(start) + size / PIXELS_PER_BYTE <= PLANE && k < 38400 && b < 8
    ensures var first := if start == 0 then 8 else start;
            PixelColor(PaintPlanes(buf, start, size, color, 4), k, b)
            == if first <= 8 * k < first + (size - size % 8) then color % 16 else PixelColor(buf, k, b)
  {
    hide PaintPlanes, Painted, Bit;
    PaintedIff(start, size, k);
    PaintedBit(buf, start, size, color, k, 0, b);
    PaintedBit(buf, start, size, color, k, 1, b);
    PaintedBit(buf, start, size, color, k, 2, b);
    PaintedBit(buf, start, size, color, k, 3, b);
    LowBits(color);
  }

  lemma PaintedIff(start: nat, size: nat, k: nat)
    ensures var first := if start == 0 then 8 else start;
            Painted(start, size, k) <==> first <= 8 * k < first + (size - size % 8)
  {
    PaintArithmetic(start, size);
  }

  lemma PaintedBit(buf: seq<byte>, start: nat, size: nat, color: nat, k: nat, p: nat, b: nat)
    requires |buf| == 153600 && StartByte(start) + size / PIXELS_PER_BYTE <= PLANE && k < 38400 && p < 4 && b < 8
    ensures var j := p * 38400 + k;
            Bit(PaintPlanes(buf, start, size, color, 4)[j], b)
            == if Painted(start, size, k) then Bit(color, p) else Bit(buf[j], b)
  {
    hide PaintPlanes, PlaneColor, Painted, Bit;
    PaintPlanesAt(buf, start, size, color, 4, p, k);
    PlaneColorBit(color, p, b);
  }

  /** Scrolling, pixel by pixel. */
  lemma ScrolledPixels(buf: seq<byte>, buf': seq<byte>, rows: nat, clear: nat, k: nat, b: nat)
    requires Scrolled(buf, buf', rows, clear) && k < 38400 && b < 8
    ensures PixelColor(buf', k, b)
            == if k + 80 * rows < 38400 then PixelColor(buf, k + 80 * rows, b) else clear % 16
  {
    hide Scrolled, Bit;
    ScrolledBit(buf, buf', rows, clear, k, 0, b);
    ScrolledBit(buf, buf', rows, clear, k, 1, b);
    ScrolledBit(buf, buf', rows, clear, k, 2, b);
    ScrolledBit(buf, buf', rows, clear, k, 3, b);
    LowBits(clear);
  }

  lemma ScrolledBit(buf: seq<byte>, buf': seq<byte>, rows: nat, clear: nat, k: nat, p: nat, b: nat)
    requires Scrolled(buf, buf', rows, clear) && k < 38400 && p < 4 && b < 8
    ensures |buf| == |buf'| == 153600
    ensures Bit(buf'[p * 38400 + k], b)
            == if k + 80 * rows < 38400 then Bit(buf[p * 38400 + (k + 80 * rows)], b) else Bit(clear, p)
  {
    hide PlaneColor, Bit;
    assert At(p, k) == p * 38400 + k;
    PlaneColorBit(clear, p, b);
  }

  /** A cleared screen has the clear colour everywhere. */
  lemma BlankPixels(buf: seq<byte>, clear: nat, k: nat, b: nat)
    requires Blank(buf, clear) && k < 38400 && b < 8
    ensures PixelColor(buf, k, b) == clear % 16
  {
    hide PlaneColor, Bit;
    PlaneColorBit(clear, 0, b);
    PlaneColorBit(clear, 1, b);
    PlaneColorBit(clear, 2, b);
    PlaneColorBit(clear, 3, b);
    LowBits(clear);
    assert Plane(k) == 0 && Plane(38400 + k) == 1 && Plane(76800 + k) == 2 && Plane(115200 + k) == 3;
  }

  class ScreenBuffer {
    const screenBuf: array<byte>
    var lastClearColor: nat

    constructor ()
      ensures Valid() && fresh(screenBuf) && lastClearColor == 0
    {
      screenBuf := new byte[PLANE * VGA_PLANES](_ => 0);
      lastClearColor := 0;
    }

    ghost predicate Valid() { screenBuf.Length == PLANE * VGA_PLANES }

    /** PaintRange; ranges off the screen are ignored. */
    method PaintRange(start: int, size: int, color: nat)
      requires Valid() && (start == 0 ==> size < PIXELS)
      modifies screenBuf
      ensures if !InScreen(start, size) then screenBuf[..] == old(screenBuf[..])
              else StartByte(start) + size / PIXELS_PER_BYTE <= PLANE
                   && screenBuf[..] == PaintPlanes(old(screenBuf[..]), start, size, color, VGA_PLANES)
    {
      if start < 0 || start > PIXELS {
        return;
      }
      if size < 0 || start + size > PIXELS {
        return;
      }
      var startByte := if start == 0 then 1 else (start - 1) / PIXELS_PER_BYTE + 1;
      var sizeBytes := size / PIXELS_PER_BYTE;
      PaintArithmetic(start, size);
      assert startByte + sizeBytes <= PLANE;
      var p := 0;
      while p < VGA_PLANES
        invariant p <= VGA_PLANES && screenBuf[..] == PaintPlanes(old(screenBuf[..]), start, size, color, p)
      {
        Bytes.MemSet(screenBuf, p * PLANE + startByte, PlaneColor(color, p), sizeBytes);
        p := p + 1;
      }
    }

    /** ScrollScreen by fewer rows than the screen has. */
    method ScrollScreen(rows: nat)
      requires Valid() && rows < VGA_HEIGHT
      modifies screenBuf
      ensures Scrolled(old(screenBuf[..]), screenBuf[..], rows, lastClearColor)
    {
      ghost var buf := screenBuf[..];
      FlatCopyScrolls(buf, rows, lastClearColor);
      hide Scrolled, CopyForward, PaintPlanes;
      Bytes.MemCopy(screenBuf, 0, VGA_WIDTH * rows, VGA_WIDTH * VGA_HEIGHT * VGA_PLANES - VGA_WIDTH * rows);
      PaintRange(VGA_WIDTH * PIXELS_PER_BYTE * (VGA_HEIGHT - rows), VGA_WIDTH * PIXELS_PER_BYTE * rows, lastClearColor);
    }

    /** DrawCharAt. The character is a signed byte: codes from 128 on draw nothing. */
    method DrawCharAt(c: byte, row: int, col: int, font: Font, color: nat)
      requires Valid() && IsFont(font)
      modifies screenBuf
      ensures DrawnAt(old(screenBuf[..]), screenBuf[..], c, row, col, font, color, lastClearColor)
    {
      hide Ink, Stroke, PlaneColor, IsFont, And, Or, Not;
      if c >= 128 {
        return;
      }
      if row < 0 || row >= CHAR_ROWS {
        RowsOnScreen();
        return;
      }
      if col < 0 || col >= CHAR_COLS {
        return;
      }
      ghost var buf := screenBuf[..];
      var start := row * CHAR_SIZE * VGA_WIDTH + col;
      for p := 0 to VGA_PLANES
        invariant forall j :: 0 <= j < screenBuf.Length ==>
                    screenBuf[j] == if Row(j) == row && Col(j) == col && Plane(j) < p
                                    then DrawnByte(buf, j, c, font, color, lastClearColor) else buf[j]
      {
        var offset := start + p * VGA_WIDTH * VGA_HEIGHT;
        for i := 0 to CHAR_SIZE
          invariant offset == start + p * VGA_WIDTH * VGA_HEIGHT + i * VGA_WIDTH
          invariant forall j :: 0 <= j < screenBuf.Length ==>
                      screenBuf[j] == if Row(j) == row && Col(j) == col
                        && (Plane(j) < p || (Plane(j) == p && Line(j) < i))
                                      then DrawnByte(buf, j, c, font, color, lastClearColor) else buf[j]
        {
          forall j | 0 <= j < screenBuf.Length
            ensures j == offset <==> Plane(j) == p && Row(j) == row && Line(j) == i && Col(j) == col
          {
            PlaceOf(p, row, i, col, j);
          }
          if c == BACKSPACE {
            screenBuf[offset] := PlaneColor(lastClearColor, p);
          } else {
            var mask := Stroke(font, c, i);
            InkSteps(screenBuf[offset], mask, PlaneColor(color, p));
            screenBuf[offset] := ByteAnd(screenBuf[offset], ByteNot(mask));
            screenBuf[offset] := ByteOr(screenBuf[offset], ByteAnd(mask, PlaneColor(color, p)));
          }
          offset := offset + VGA_WIDTH;
        }
        forall j | 0 <= j < screenBuf.Length ensures Line(j) < CHAR_SIZE {}
      }
      forall j | 0 <= j < screenBuf.Length ensures Plane(j) < VGA_PLANES {}
    }

    lemma RowsOnScreen()
      ensures forall j :: 0 <= j < PLANE * VGA_PLANES ==> 0 <= Row(j) < CHAR_ROWS
    {}

    /** ClearScreen, as far as the buffer goes. */
    method ClearScreen(color: nat)
      requires Valid()
      modifies this, screenBuf
      ensures lastClearColor == color && Blank(screenBuf[..], color)
    {
      hide PlaneColor;
      for p := 0 to VGA_PLANES
        invariant forall j :: 0 <= j < p * PLANE ==> screenBuf[j] == PlaneColor(color, Plane(j))
      {
        Bytes.MemSet(screenBuf, p * VGA_WIDTH * VGA_HEIGHT, PlaneColor(color, p), VGA_WIDTH * VGA_HEIGHT);
        forall j | 0 <= j < (p + 1) * PLANE ensures screenBuf[j] == PlaneColor(color, Plane(j)) {
          assert screenBuf[..][j] == screenBuf[j];
        }
      }
      lastClearColor := color;
    }
  }
}

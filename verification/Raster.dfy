/** The text rasterizer: glyphs drawn bit by bit into a packed buffer, and the picture that must come out. */
module Raster {
  import opened Bytes
  import opened Option
  import opened Text
  import Png
  import Zlib

  const CELL_W := 8
  const CELL_H := 10
  const MAX_LINES := 200
  const MAX_COLS := 200

  /** Eight rows of eight pixels, bit 7 leftmost. */
  type Glyph = g: seq<u8> | |g| == 8 witness [0, 0, 0, 0, 0, 0, 0, 0]

  const BLANK: Glyph := [0, 0, 0, 0, 0, 0, 0, 0]

  /** The printable ASCII characters, from the space on. */
  type Font = f: seq<Glyph> | |f| == 95 witness seq(95, _ => BLANK)

  datatype Error = Empty | TooLarge(lines: nat, max: nat)
  datatype Result = Ok(png: seq<u8>) | Err(error: Error)

  function GlyphFor(font: Font, ch: char): Glyph {
    var c := ch as int;
    if 0x20 <= c <= 0x7E then font[c - 0x20]
    else if ch == '\t' then font[0]
    else font['?' as int - 0x20]
  }

  // ----- What the picture must show -----

  /** Whether the character cell over (x, y) puts ink there. */
  predicate Ink(font: Font, lines: seq<string>, x: nat, y: nat) {
    && y / CELL_H < |lines| && x / CELL_W < |lines[y / CELL_H]|
    && y % CELL_H < 8
    && Png.BitSet(GlyphFor(font, lines[y / CELL_H][x / CELL_W])[y % CELL_H], 7 - x % CELL_W)
  }

  function Expected(font: Font, lines: seq<string>): Png.Image {
    Png.Image(MAX_COLS * CELL_W, |lines| * CELL_H,
              seq(|lines| * CELL_H, y requires 0 <= y < |lines| * CELL_H =>
                seq(MAX_COLS * CELL_W, x requires 0 <= x < MAX_COLS * CELL_W => !Ink(font, lines, x, y))))
  }

  // ----- Pixels in a packed buffer -----

  /** Whether the sample at (x, y) is set. */
  predicate White(buf: seq<u8>, rowBytes: nat, x: nat, y: nat)
    requires x / 8 < rowBytes && y * rowBytes + x / 8 < |buf|
  {
    Png.BitSet(buf[y * rowBytes + x / 8], 7 - x % 8)
  }

  lemma BitOf(b: u8, i: nat, j: nat, on: bool)
    requires i < 8 && j < 8
    ensures Png.BitSet(WithBit(b, i, on), j) == if i == j then on else Png.BitSet(b, j)
  {}

  function WithBit(b: u8, i: nat, on: bool): u8
    requires i < 8
  {
    if on then b | Png.Mask(i) else b & !Png.Mask(i)
  }

  lemma SameByte(rowBytes: nat, bx: nat, y: nat, bx': nat, y': nat)
    requires bx < rowBytes && bx' < rowBytes
    requires y * rowBytes + bx == y' * rowBytes + bx'
    ensures bx == bx' && y == y'
  {
    if y < y' {
      RowGap(rowBytes, y, y');
    } else if y' < y {
      RowGap(rowBytes, y', y);
    }
  }

  lemma RowGap(rowBytes: nat, y: nat, y': nat)
    requires y < y'
    ensures y * rowBytes + rowBytes <= y' * rowBytes
  {
    assert (y' - y - 1) * rowBytes >= 0;
    assert y' * rowBytes == y * rowBytes + rowBytes + (y' - y - 1) * rowBytes;
  }

  method SetPixel(buf: array<u8>, rowBytes: nat, x: nat, y: nat, on: bool)
    requires x / 8 < rowBytes && y * rowBytes + x / 8 < buf.Length
    modifies buf
    ensures forall x': nat, y': nat {:trigger White(buf[..], rowBytes, x', y')} ::
              x' / 8 < rowBytes && y' * rowBytes + x' / 8 < buf.Length ==>
                White(buf[..], rowBytes, x', y') ==
                if x' == x && y' == y then on else White(old(buf[..]), rowBytes, x', y')
  {
    hide White, Png.Mask, WithBit;
    var byte := y * rowBytes + x / 8;
    var bit := 7 - x % 8;
    var mask := Png.Mask(bit);
    ghost var was := buf[..];
    WrittenBit(buf[byte], bit, on);
    if on {
      buf[byte] := buf[byte] | mask;
    } else {
      buf[byte] := buf[byte] & !mask;
    }
    ghost var now := buf[..];
    assert now == was[byte := WithBit(was[byte], bit, on)];
    SamplesAfter(was, now, rowBytes, x, y, on);
  }

  lemma WrittenBit(b: u8, bit: nat, on: bool)
    requires bit < 8
    ensures WithBit(b, bit, on) == if on then b | Png.Mask(bit) else b & !Png.Mask(bit)
  {}

  lemma SamplesAfter(was: seq<u8>, buf: seq<u8>, rowBytes: nat, x: nat, y: nat, on: bool)
    requires x / 8 < rowBytes && y * rowBytes + x / 8 < |was|
    requires buf == was[y * rowBytes + x / 8 := WithBit(was[y * rowBytes + x / 8], 7 - x % 8, on)]
    ensures forall x': nat, y': nat {:trigger White(buf, rowBytes, x', y')} ::
              x' / 8 < rowBytes && y' * rowBytes + x' / 8 < |buf| ==>
                White(buf, rowBytes, x', y') == if x' == x && y' == y then on else White(was, rowBytes, x', y')
  {
    hide Png.BitSet, WithBit;
    forall x': nat, y': nat | x' / 8 < rowBytes && y' * rowBytes + x' / 8 < |buf|
      ensures White(buf, rowBytes, x', y') == if x' == x && y' == y then on else White(was, rowBytes, x', y')
    {
      OneSample(was, buf, rowBytes, x, y, on, x', y');
    }
  }

  lemma OneSample(was: seq<u8>, buf: seq<u8>, rowBytes: nat, x: nat, y: nat, on: bool, x': nat, y': nat)
    requires x / 8 < rowBytes && y * rowBytes + x / 8 < |was|
    requires buf == was[y * rowBytes + x / 8 := WithBit(was[y * rowBytes + x / 8], 7 - x % 8, on)]
    requires x' / 8 < rowBytes && y' * rowBytes + x' / 8 < |was|
    ensures White(buf, rowBytes, x', y') == if x' == x && y' == y then on else White(was, rowBytes, x', y')
  {
    hide Png.BitSet, WithBit;
    var byte, byte' := y * rowBytes + x / 8, y' * rowBytes + x' / 8;
    if byte' == byte {
      SameByte(rowBytes, x / 8, y, x' / 8, y');
      BitOf(was[byte], 7 - x % 8, 7 - x' % 8, on);
    } else {
      assert !(x' == x && y' == y);
    }
  }

  // ----- Drawing -----

  const ROW_BYTES := 200

  /** Whether the pixel (x, y) comes before bit `bit` of row `row` of the cell at (`line`, `col`). */
  predicate Before(x: nat, y: nat, line: nat, col: nat, row: nat, bit: nat) {
    || y / CELL_H < line
    || (y / CELL_H == line && (
        || x / CELL_W < col
        || (x / CELL_W == col && (y % CELL_H < row || (y % CELL_H == row && x % CELL_W < bit)))))
  }

  /** The buffer shows exactly the ink that comes before the given bit. */
  ghost predicate Canvas(buf: seq<u8>, font: Font, lines: seq<string>, line: nat, col: nat, row: nat, bit: nat) {
    && |buf| == ROW_BYTES * (|lines| * CELL_H)
    && forall x: nat, y: nat {:trigger White(buf, ROW_BYTES, x, y)} ::
         x < MAX_COLS * CELL_W && y < |lines| * CELL_H ==>
           (White(buf, ROW_BYTES, x, y) <==> !(Ink(font, lines, x, y) && Before(x, y, line, col, row, bit)))
  }

  method DrawGlyph(buf: array<u8>, font: Font, ghost lines: seq<string>, line: nat, col: nat, ch: char)
    requires line < |lines| && col < |lines[line]| && col < MAX_COLS && ch == lines[line][col]
    requires Canvas(buf[..], font, lines, line, col, 0, 0)
    modifies buf
    ensures Canvas(buf[..], font, lines, line, col + 1, 0, 0)
  {
    hide Canvas, Png.BitSet;
    var x0, y0 := col * CELL_W, line * CELL_H;
    var glyph := GlyphFor(font, ch);
    for row := 0 to 8
      invariant Canvas(buf[..], font, lines, line, col, row, 0)
    {
      var y := y0 + row;
      for bit := 0 to 8
        invariant Canvas(buf[..], font, lines, line, col, row, bit)
      {
        CanvasSize(buf[..], font, lines, line, col, row, bit);
        ghost var was := buf[..];
        if Png.BitSet(glyph[row], 7 - bit) {
          SetPixel(buf, ROW_BYTES, x0 + bit, y, false);
        }
        CanvasBit(was, buf[..], font, lines, line, col, row, bit);
      }
      CanvasRow(buf[..], font, lines, line, col, row);
    }
    CanvasCell(buf[..], font, lines, line, col);
  }

  lemma CanvasSize(buf: seq<u8>, font: Font, lines: seq<string>, line: nat, col: nat, row: nat, bit: nat)
    requires Canvas(buf, font, lines, line, col, row, bit)
    ensures |buf| == ROW_BYTES * (|lines| * CELL_H)
  {}

  lemma CanvasBit(was: seq<u8>, buf: seq<u8>, font: Font, lines: seq<string>, line: nat, col: nat, row: nat, bit: nat)
    requires line < |lines| && col < |lines[line]| && col < MAX_COLS && row < 8 && bit < 8
    requires Canvas(was, font, lines, line, col, row, bit)
    requires |buf| == |was|
    requires if Png.BitSet(GlyphFor(font, lines[line][col])[row], 7 - bit) then
               forall x: nat, y: nat {:trigger White(buf, ROW_BYTES, x, y)} ::
                 x / 8 < ROW_BYTES && y * ROW_BYTES + x / 8 < |buf| ==>
                   White(buf, ROW_BYTES, x, y) ==
                   if x == col * CELL_W + bit && y == line * CELL_H + row then false else White(was, ROW_BYTES, x, y)
             else buf == was
    ensures Canvas(buf, font, lines, line, col, row, bit + 1)
  {
    hide Png.BitSet, White, GlyphFor;
    forall x: nat, y: nat | x < MAX_COLS * CELL_W && y < |lines| * CELL_H
      ensures White(buf, ROW_BYTES, x, y) <==> !(Ink(font, lines, x, y) && Before(x, y, line, col, row, bit + 1))
    {
      assert y * ROW_BYTES + x / 8 < |buf|;
      assert White(was, ROW_BYTES, x, y) <==> !(Ink(font, lines, x, y) && Before(x, y, line, col, row, bit));
    }
  }

  lemma CanvasRow(buf: seq<u8>, font: Font, lines: seq<string>, line: nat, col: nat, row: nat)
    requires Canvas(buf, font, lines, line, col, row, 8)
    ensures Canvas(buf, font, lines, line, col, row + 1, 0)
  {
    hide White, Ink;
  }

  lemma CanvasCell(buf: seq<u8>, font: Font, lines: seq<string>, line: nat, col: nat)
    requires Canvas(buf, font, lines, line, col, 8, 0)
    ensures Canvas(buf, font, lines, line, col + 1, 0, 0)
  {
    hide White;
  }

  lemma CanvasLine(buf: seq<u8>, font: Font, lines: seq<string>, line: nat, col: nat)
    requires line < |lines|
    requires Canvas(buf, font, lines, line, col, 0, 0)
    requires col >= MAX_COLS || col >= |lines[line]|
    ensures Canvas(buf, font, lines, line + 1, 0, 0, 0)
  {
    hide White;
  }

  lemma CanvasStart(buf: seq<u8>, font: Font, lines: seq<string>)
    requires |buf| == ROW_BYTES * (|lines| * CELL_H) && forall i :: 0 <= i < |buf| ==> buf[i] == 0xFF
    ensures Canvas(buf, font, lines, 0, 0, 0, 0)
  {
    hide Ink;
    forall x: nat, y: nat | x < MAX_COLS * CELL_W && y < |lines| * CELL_H
      ensures White(buf, ROW_BYTES, x, y)
    {
      AllSet(7 - x % 8);
    }
  }

  lemma AllSet(bit: nat)
    requires bit < 8
    ensures Png.BitSet(0xFF, bit)
  {}

  lemma {:induction false} RowOfPicture(width: nat, height: nat, pixels: seq<u8>, x: nat, y: nat)
    requires height * Png.CeilDiv8(width) <= |pixels| && x < width && y < height
    ensures x / 8 < Png.CeilDiv8(width) && y * Png.CeilDiv8(width) + x / 8 < |pixels|
    ensures var row := Png.Rows(width, height, pixels)[y];
            |row| == width && row[x] == White(pixels, Png.CeilDiv8(width), x, y)
    decreases height
  {
    hide Png.BitSet;
    var n := Png.CeilDiv8(width);
    Png.RowEnd(height, n, |pixels|);
    if y < height - 1 {
      RowOfPicture(width, height - 1, pixels, x, y);
    }
  }

  lemma FinishedPicture(buf: seq<u8>, font: Font, lines: seq<string>)
    requires Canvas(buf, font, lines, |lines|, 0, 0, 0)
    ensures Png.Picture(MAX_COLS * CELL_W, |lines| * CELL_H, buf) == Expected(font, lines)
  {
    hide Png.Rows, White, Ink;
    var width, height := MAX_COLS * CELL_W, |lines| * CELL_H;
    var rows, expected := Png.Rows(width, height, buf), Expected(font, lines).white;
    forall y | 0 <= y < height
      ensures rows[y] == expected[y]
    {
      RowWidth(width, height, buf, y);
      forall x | 0 <= x < width
        ensures rows[y][x] == expected[y][x]
      {
        RowOfPicture(width, height, buf, x, y);
      }
    }
  }

  lemma {:induction false} RowWidth(width: nat, height: nat, pixels: seq<u8>, y: nat)
    requires height * Png.CeilDiv8(width) <= |pixels| && y < height
    ensures |Png.Rows(width, height, pixels)[y]| == width
    decreases height
  {
    hide Png.BitSet;
    Png.RowEnd(height, Png.CeilDiv8(width), |pixels|);
    if y < height - 1 {
      RowWidth(width, height - 1, pixels, y);
    }
  }

  // ----- The rasterizer -----

  predicate NothingToDraw(lines: seq<string>) {
    forall i :: 0 <= i < |lines| ==> Trim(lines[i]) == []
  }

  /** White space and nothing else, on every line. */
  ghost predicate AllBlank(lines: seq<string>) {
    forall i, k :: 0 <= i < |lines| && 0 <= k < |lines[i]| ==> IsWhitespace(lines[i][k])
  }

  lemma NothingIs(lines: seq<string>)
    ensures NothingToDraw(lines) <==> AllBlank(lines)
  {
    hide Trim, IsWhitespace;
    forall i | 0 <= i < |lines|
      ensures Trim(lines[i]) == [] <==> forall k :: 0 <= k < |lines[i]| ==> IsWhitespace(lines[i][k])
    {
      TrimNothingIff(lines[i]);
    }
  }

  /** The part of the rasterizer that draws and encodes. */
  method Draw(font: Font, lines: seq<string>) returns (png: seq<u8>)
    requires 0 < |lines| <= MAX_LINES
    ensures Png.Decode(png) == Some(Expected(font, lines))
  {
    hide Canvas, Png.PngBytes, Png.Decode, Png.Picture, Expected;
    var width := MAX_COLS * CELL_W;
    var height := |lines| * CELL_H;
    var rowBytes := Png.CeilDiv8(width);
    var pixels := new u8[rowBytes * height](_ => 0xFF);
    CanvasStart(pixels[..], font, lines);
    for i := 0 to |lines|
      invariant Canvas(pixels[..], font, lines, i, 0, 0, 0)
    {
      var line := lines[i];
      var cols := if |line| > MAX_COLS then MAX_COLS else |line|;
      for col := 0 to cols
        invariant Canvas(pixels[..], font, lines, i, col, 0, 0)
      {
        DrawGlyph(pixels, font, lines, i, col, line[col]);
      }
      CanvasLine(pixels[..], font, lines, i, cols);
    }
    CanvasSize(pixels[..], font, lines, |lines|, 0, 0, 0);
    png := Png.EncodeMonoPng(width, height, pixels[..], rowBytes);
    StoredFits(width, height, pixels[..]);
    Png.DecodeUndoesEncode(width, height, pixels[..]);
    FinishedPicture(pixels[..], font, lines);
  }

  method RasterizeToPng(font: Font, text: string) returns (result: Result)
    ensures var all := Lines(text);
            if AllBlank(if |all| > 200 then all[..200] else all) then result == Err(Empty)
            else if |all| > 200 then result == Err(TooLarge(|all|, 200))
            else result.Ok? && Png.Decode(result.png) == Some(Expected(font, all))
  {
    hide Lines, Png.Decode, Expected, AllBlank, NothingToDraw;
    var all := Lines(text);
    var lines := if |all| > MAX_LINES then all[..MAX_LINES] else all;
    NothingIs(lines);
    if NothingToDraw(lines) {
      return Err(Empty);
    }
    if |all| > MAX_LINES {
      return Err(TooLarge(|all|, MAX_LINES));
    }
    SomethingThere(lines);
    var png := Draw(font, lines);
    return Ok(png);
  }

  lemma SomethingThere(lines: seq<string>)
    ensures lines == [] ==> NothingToDraw(lines)
  {}

  lemma StoredFits(width: nat, height: nat, pixels: seq<u8>)
    requires width == MAX_COLS * CELL_W && height <= MAX_LINES * CELL_H
    requires height * Png.CeilDiv8(width) <= |pixels|
    ensures |Zlib.Stored(Png.Scanlines(pixels, Png.CeilDiv8(width), height))| <= Png.MAX_CHUNK
  {
    hide Png.Scanlines, Zlib.Blocks, Zlib.Adler32;
    Zlib.BlocksLength(Png.Scanlines(pixels, Png.CeilDiv8(width), height));
  }

  // ----- Lines longer than the picture -----

  /** A long line as the documentation has it: cut off with three dots at the end. */
  function Ellipsized(line: string): string {
    if |line| > MAX_COLS then line[..MAX_COLS - 3] + "..." else line
  }

  function AllEllipsized(lines: seq<string>): (r: seq<string>)
    ensures |r| == |lines|
    ensures forall i :: 0 <= i < |lines| ==> r[i] == Ellipsized(lines[i])
  {
    seq(|lines|, i requires 0 <= i < |lines| => Ellipsized(lines[i]))
  }

  /** The three characters before the cut look like dots. */
  ghost predicate EndsInDots(font: Font, lines: seq<string>) {
    forall l, c :: 0 <= l < |lines| && |lines[l]| > MAX_COLS && MAX_COLS - 3 <= c < MAX_COLS ==>
      GlyphFor(font, lines[l][c]) == GlyphFor(font, '.')
  }

  lemma SameBits(a: u8, b: u8)
    requires forall k :: 0 <= k < 8 ==> (Png.BitSet(a, k) <==> Png.BitSet(b, k))
    ensures a == b
  {
    assert Png.BitSet(a, 0) <==> Png.BitSet(b, 0);
    assert Png.BitSet(a, 1) <==> Png.BitSet(b, 1);
    assert Png.BitSet(a, 2) <==> Png.BitSet(b, 2);
    assert Png.BitSet(a, 3) <==> Png.BitSet(b, 3);
    assert Png.BitSet(a, 4) <==> Png.BitSet(b, 4);
    assert Png.BitSet(a, 5) <==> Png.BitSet(b, 5);
    assert Png.BitSet(a, 6) <==> Png.BitSet(b, 6);
    assert Png.BitSet(a, 7) <==> Png.BitSet(b, 7);
  }

  lemma PixelOf(x: nat, y: nat, font: Font, lines: seq<string>)
    requires x < MAX_COLS * CELL_W && y < |lines| * CELL_H
    ensures y < |Expected(font, lines).white| && x < |Expected(font, lines).white[y]|
    ensures Expected(font, lines).white[y][x] == !Ink(font, lines, x, y)
  {
    hide Ink;
  }

  /** The ink of one cell, pixel by pixel. */
  lemma CellInk(font: Font, lines: seq<string>, l: nat, c: nat, row: nat, bit: nat)
    requires l < |lines| && c < MAX_COLS && row < 8 && bit < 8
    ensures var x, y := c * CELL_W + (7 - bit), l * CELL_H + row;
            && x < MAX_COLS * CELL_W && y < |lines| * CELL_H
            && (Ink(font, lines, x, y) <==>
                c < |lines[l]| && Png.BitSet(GlyphFor(font, lines[l][c])[row], bit))
  {
    hide GlyphFor, Png.BitSet;
    var x, y := c * CELL_W + (7 - bit), l * CELL_H + row;
    assert x / CELL_W == c && x % CELL_W == 7 - bit && y / CELL_H == l && y % CELL_H == row;
  }

  lemma DotsSameInk(font: Font, lines: seq<string>, x: nat, y: nat)
    requires EndsInDots(font, lines) && x < MAX_COLS * CELL_W
    ensures Ink(font, lines, x, y) <==> Ink(font, AllEllipsized(lines), x, y)
  {
    hide GlyphFor, Png.BitSet;
    var l, c := y / CELL_H, x / CELL_W;
    if l < |lines| && |lines[l]| > MAX_COLS {
      if c >= MAX_COLS - 3 {
        assert Ellipsized(lines[l])[c] == '.';
      } else {
        assert Ellipsized(lines[l])[c] == lines[l][c];
      }
    }
  }

  lemma SamePicture(font: Font, a: seq<string>, b: seq<string>)
    requires |a| == |b|
    requires forall x: nat, y: nat :: x < MAX_COLS * CELL_W ==> (Ink(font, a, x, y) <==> Ink(font, b, x, y))
    ensures Expected(font, a) == Expected(font, b)
  {
    hide Ink;
    forall y: nat | y < |a| * CELL_H
      ensures Expected(font, a).white[y] == Expected(font, b).white[y]
    {}
  }

  /** The picture with long lines cut off is the documented one with an ellipsis exactly when, in every long line, the
      last three characters that show look like dots. */
  lemma CutIsEllipsisIff(font: Font, lines: seq<string>)
    ensures Expected(font, lines) == Expected(font, AllEllipsized(lines)) <==> EndsInDots(font, lines)
  {
    hide Expected, Ink, GlyphFor, Png.BitSet, EndsInDots;
    var dotted := AllEllipsized(lines);
    if EndsInDots(font, lines) {
      forall x: nat, y: nat | x < MAX_COLS * CELL_W
        ensures Ink(font, lines, x, y) <==> Ink(font, dotted, x, y)
      {
        DotsSameInk(font, lines, x, y);
      }
      SamePicture(font, lines, dotted);
    }
    if Expected(font, lines) == Expected(font, dotted) {
      SamePictureDots(font, lines);
    }
  }

  lemma SamePictureDots(font: Font, lines: seq<string>)
    requires Expected(font, lines) == Expected(font, AllEllipsized(lines))
    ensures EndsInDots(font, lines)
  {
    hide Expected, Ink, GlyphFor, Png.BitSet;
    var dotted := AllEllipsized(lines);
    forall l, c | 0 <= l < |lines| && |lines[l]| > MAX_COLS && MAX_COLS - 3 <= c < MAX_COLS
      ensures GlyphFor(font, lines[l][c]) == GlyphFor(font, '.')
    {
      assert Ellipsized(lines[l])[c] == '.';
      forall row | 0 <= row < 8
        ensures GlyphFor(font, lines[l][c])[row] == GlyphFor(font, '.')[row]
      {
        forall bit | 0 <= bit < 8
          ensures Png.BitSet(GlyphFor(font, lines[l][c])[row], bit) <==> Png.BitSet(GlyphFor(font, '.')[row], bit)
        {
          CellInk(font, lines, l, c, row, bit);
          CellInk(font, dotted, l, c, row, bit);
          PixelOf(c * CELL_W + (7 - bit), l * CELL_H + row, font, lines);
          PixelOf(c * CELL_W + (7 - bit), l * CELL_H + row, font, dotted);
        }
        SameBits(GlyphFor(font, lines[l][c])[row], GlyphFor(font, '.')[row]);
      }
    }
  }

  // ----- The picture in numbers -----

  /** The glyph of a printable ASCII character; a tab shows as a space, anything else as a question mark. */
  lemma GlyphIs(font: Font, ch: char)
    ensures 32 <= ch as int <= 126 ==> GlyphFor(font, ch) == font[ch as int - 32]
    ensures ch as int == 9 ==> GlyphFor(font, ch) == font[0]
    ensures !(32 <= ch as int <= 126) && ch as int != 9 ==> GlyphFor(font, ch) == font[31]
  {}

  /** The pixel of a glyph row in the given column, the leftmost one in the highest bit. */
  predicate Inked(row: u8, column: nat) {
    match column
    case 0 => row & 0x80 != 0
    case 1 => row & 0x40 != 0
    case 2 => row & 0x20 != 0
    case 3 => row & 0x10 != 0
    case 4 => row & 0x08 != 0
    case 5 => row & 0x04 != 0
    case 6 => row & 0x02 != 0
    case _ => row & 0x01 != 0
  }

  lemma InkedIs(row: u8, column: nat)
    requires column < 8
    ensures Png.BitSet(row, 7 - column) <==> Inked(row, column)
  {}

  /** The picture is 1600 pixels wide and ten high for each line; characters stand eight pixels apart. */
  lemma PixelIs(font: Font, lines: seq<string>, x: nat, y: nat)
    requires x < 1600 && y < 10 * |lines|
    ensures Expected(font, lines).width == 1600 && Expected(font, lines).height == 10 * |lines|
    ensures y < |Expected(font, lines).white| == 10 * |lines| && x < |Expected(font, lines).white[y]| == 1600
    ensures Expected(font, lines).white[y][x] ==
            !(y % 10 < 8 && x / 8 < |lines[y / 10]| && Inked(GlyphFor(font, lines[y / 10][x / 8])[y % 10], x % 8))
  {
    hide GlyphFor, Inked, Png.BitSet;
    if y % 10 < 8 && x / 8 < |lines[y / 10]| {
      InkedIs(GlyphFor(font, lines[y / 10][x / 8])[y % 10], x % 8);
    }
  }
}

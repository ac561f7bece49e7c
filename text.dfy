/** Model of the text rasteriser of src/main.rs: `alpha_to_number` numbers a
    letter by its position in the font's alphabet, `add_letter` copies a 3×5
    glyph out of an RGBA sheet into the 32×32 colour buffer, and `print_text`
    lays characters out on an 8-column grid of 4×6 cells. */
module Text {
  import opened Utils

  /** The alphabet of the font sheet, in sheet order: `n` comes before `m`. */
  const Alphabet: string := "abcdefghijklnmopqrstuvwxyz"

  /** Glyphs are 3 pixels wide and 5 high; a character cell is 4 by 6. */
  const GlyphWidth := 3
  const GlyphHeight := 5
  const CellWidth := 4
  const CellHeight := 6

  /** Cells per row of text. */
  const Columns := 8

  /** The colour buffer is 32 by 32 cells. */
  const ScreenWidth := 32
  const ScreenCells := 32 * 32

  // ---------------------------------------------------------------------------
  // Letters (`alpha_to_number`)

  /** `to_ascii_lowercase`: only `A`..`Z` change, each to its own lower-case
      letter, and no upper-case letter is left, so lower-casing twice changes
      nothing more. */
  function ToAsciiLower(c: char): (l: char)
    ensures 'A' <= c <= 'Z' ==> 'a' <= l <= 'z' && l as int - 'a' as int == c as int - 'A' as int
    ensures !('A' <= c <= 'Z') ==> l == c
    ensures 'a' <= l <= 'z' <==> 'a' <= c <= 'z' || 'A' <= c <= 'Z'
    ensures !('A' <= l <= 'Z')
  {
    if 'A' <= c <= 'Z' then (c as int + 32) as char else c
  }

  /** The first position of `c` in `s` (`chars().position`). */
  function Position(s: string, c: char): (k: Option<nat>)
    ensures k.Some? <==> c in s
    ensures k.Some? ==> k.value < |s| && s[k.value] == c
    ensures k.Some? ==> forall j :: 0 <= j < k.value ==> s[j] != c
  {
    if s == [] then None
    else if s[0] == c then Some(0)
    else match Position(s[1..], c)
      case None => None
      case Some(j) => Some(j + 1)
  }

  /** `alpha_to_number`: the position of the lower-cased character in the
      alphabet; None stands for the panic of `unwrap` on a character that is
      not a letter. */
  function AlphaToNumber(c: char): (k: Option<nat>)
    ensures k.Some? <==> ToAsciiLower(c) in Alphabet
    ensures k.Some? ==> k.value < |Alphabet| && Alphabet[k.value] == ToAsciiLower(c)
  {
    Position(Alphabet, ToAsciiLower(c))
  }

  /** The sheet has `n` and `m` swapped: 'n' is glyph 12 and 'm' glyph 13,
      whatever the case. */
  lemma SwappedLetters()
    ensures AlphaToNumber('n') == Some(12) && AlphaToNumber('N') == Some(12)
    ensures AlphaToNumber('m') == Some(13) && AlphaToNumber('M') == Some(13)
  {
    assert ToAsciiLower('N') == 'n' && ToAsciiLower('M') == 'm';
    assert Alphabet[12] == 'n' && Alphabet[13] == 'm';
    AlphabetDistinct(12);
    AlphabetDistinct(13);
  }

  /** No letter occurs twice in the alphabet, so its position is unique. */
  lemma AlphabetDistinct(k: nat)
    requires k < |Alphabet|
    ensures Position(Alphabet, Alphabet[k]) == Some(k)
  {
    var s := Alphabet;
    assert forall i, j :: 0 <= i < j < |s| ==> s[i] != s[j];
    PositionOfDistinct(s, k);
  }

  lemma {:induction false} PositionOfDistinct(s: string, k: nat)
    requires k < |s|
    requires forall i, j :: 0 <= i < j < |s| ==> s[i] != s[j]
    ensures Position(s, s[k]) == Some(k)
  {
    if k > 0 {
      assert s[1..][k - 1] == s[k];
      PositionOfDistinct(s[1..], k - 1);
    }
  }

  /** Every ASCII letter, in either case, gets a glyph number below 26. */
  lemma LettersNumbered(c: char)
    requires 'a' <= ToAsciiLower(c) <= 'z'
    ensures AlphaToNumber(c).Some? && AlphaToNumber(c).value < 26
  {
    var l := ToAsciiLower(c);
    var k := if l == 'm' then 13 else if l == 'n' then 12 else l as int - 'a' as int;
    assert Alphabet[k] == l;
  }

  // ---------------------------------------------------------------------------
  // Glyph sheets

  /** An RGBA8 image as `to_vec` lays it out: four bytes per pixel, row by
      row, `width` pixels to a row. */
  datatype Sheet = Sheet(rgba: seq<Byte>, width: nat)

  /** Where the red byte of pixel (x, y) of glyph `symbol` sits: glyph k
      starts 3k pixels into the first row. */
  function Offset(symbol: nat, x: nat, y: nat, width: nat): nat
  {
    symbol * 3 * 4 + (x + y * width) * 4
  }

  /** The offset is that of the pixel in column `3 * symbol + x`, row `y`, of
      a row-major image with four bytes per pixel. */
  lemma OffsetPixel(symbol: nat, x: nat, y: nat, width: nat)
    ensures var o := Offset(symbol, x, y, width);
      o % 4 == 0 && o / 4 == (3 * symbol + x) + y * width
  {
  }

  /** All four bytes of the pixel exist in the sheet. */
  predicate Readable(sheet: Sheet, symbol: nat, x: nat, y: nat)
  {
    Offset(symbol, x, y, sheet.width) + 3 < |sheet.rgba|
  }

  function Alpha(sheet: Sheet, symbol: nat, x: nat, y: nat): Byte
    requires Readable(sheet, symbol, x, y)
  {
    sheet.rgba[Offset(symbol, x, y, sheet.width) + 3]
  }

  function Ink(sheet: Sheet, symbol: nat, x: nat, y: nat): Color
    requires Readable(sheet, symbol, x, y)
  {
    var o := Offset(symbol, x, y, sheet.width);
    Color(sheet.rgba[o], sheet.rgba[o + 1], sheet.rgba[o + 2])
  }

  /** A glyph pixel is drawn unless its alpha is zero. */
  predicate Opaque(sheet: Sheet, symbol: nat, x: nat, y: nat)
  {
    Readable(sheet, symbol, x, y) && Alpha(sheet, symbol, x, y) != 0
  }

  /** The buffer cell of glyph pixel (x, y) placed at (placeX, placeY). */
  function Cell(placeX: nat, placeY: nat, x: nat, y: nat): nat
  {
    placeX + x + (placeY + y) * ScreenWidth
  }

  /** Within a buffer row, the cell lies in column `placeX + x` and row
      `placeY + y` of the 32-wide buffer. */
  lemma CellPosition(placeX: nat, placeY: nat, x: nat, y: nat)
    requires placeX + x < ScreenWidth
    ensures var c := Cell(placeX, placeY, x, y);
      c % ScreenWidth == placeX + x && c / ScreenWidth == placeY + y
  {
  }

  /** The glyph pixel, if any, that lands on buffer cell `i`. */
  function GlyphPixel(placeX: nat, placeY: nat, i: nat): (p: Option<(nat, nat)>)
    ensures p.Some? ==> p.value.0 < GlyphWidth && p.value.1 < GlyphHeight
    ensures p.Some? ==> Cell(placeX, placeY, p.value.0, p.value.1) == i
  {
    var base := placeX + placeY * ScreenWidth;
    if i < base then None
    else
      var d := i - base;
      if d % ScreenWidth < GlyphWidth && d / ScreenWidth < GlyphHeight
      then Some((d % ScreenWidth, d / ScreenWidth)) else None
  }

  /** Each glyph pixel lands on its own cell. */
  lemma GlyphPixelOfCell(placeX: nat, placeY: nat, x: nat, y: nat)
    requires x < GlyphWidth && y < GlyphHeight
    ensures GlyphPixel(placeX, placeY, Cell(placeX, placeY, x, y)) == Some((x, y))
  {
    var d := Cell(placeX, placeY, x, y) - (placeX + placeY * ScreenWidth);
    assert d == x + y * ScreenWidth;
  }

  /** Whether `add_letter` runs to the end: every glyph pixel it reads lies in
      the sheet and every pixel it draws lies in the buffer. */
  predicate Drawable(sheet: Sheet, symbol: nat, placeX: nat, placeY: nat, cells: nat)
  {
    forall x, y :: 0 <= x < GlyphWidth && 0 <= y < GlyphHeight ==>
      Readable(sheet, symbol, x, y) &&
      (Opaque(sheet, symbol, x, y) ==> Cell(placeX, placeY, x, y) < cells)
  }

  /** Pixel (x, y) comes before the first `done` pixels are finished, in the
      loop's row-by-row order. */
  predicate Before(x: nat, y: nat, done: nat)
  {
    y * GlyphWidth + x < done
  }

  /** The buffer after the first `done` glyph pixels, in loop order, have been
      drawn over `colors`. */
  function Painted(colors: seq<Color>, sheet: Sheet, symbol: nat, placeX: nat, placeY: nat, done: nat): (r: seq<Color>)
    ensures |r| == |colors|
  {
    seq(|colors|, i requires 0 <= i < |colors| =>
      match GlyphPixel(placeX, placeY, i)
      case Some((x, y)) =>
        if Before(x, y, done) && Opaque(sheet, symbol, x, y) then Ink(sheet, symbol, x, y) else colors[i]
      case None => colors[i])
  }

  /** What a finished `add_letter` leaves: each opaque glyph pixel's colour in
      its cell, and every other cell, including those under transparent
      pixels, unchanged. */
  lemma PaintedCells(colors: seq<Color>, sheet: Sheet, symbol: nat, placeX: nat, placeY: nat)
    ensures var r := Painted(colors, sheet, symbol, placeX, placeY, GlyphWidth * GlyphHeight);
      forall x, y :: 0 <= x < GlyphWidth && 0 <= y < GlyphHeight && Cell(placeX, placeY, x, y) < |colors| ==>
        r[Cell(placeX, placeY, x, y)] ==
          (if Opaque(sheet, symbol, x, y) then Ink(sheet, symbol, x, y) else colors[Cell(placeX, placeY, x, y)])
    ensures var r := Painted(colors, sheet, symbol, placeX, placeY, GlyphWidth * GlyphHeight);
      forall i :: 0 <= i < |colors| && GlyphPixel(placeX, placeY, i).None? ==> r[i] == colors[i]
  {
    forall x, y | 0 <= x < GlyphWidth && 0 <= y < GlyphHeight && Cell(placeX, placeY, x, y) < |colors|
      ensures Painted(colors, sheet, symbol, placeX, placeY, GlyphWidth * GlyphHeight)[Cell(placeX, placeY, x, y)] ==
          (if Opaque(sheet, symbol, x, y) then Ink(sheet, symbol, x, y) else colors[Cell(placeX, placeY, x, y)])
    {
      GlyphPixelOfCell(placeX, placeY, x, y);
    }
  }

  /** Drawing one more pixel changes at most its own cell. */
  lemma PaintStep(colors: seq<Color>, sheet: Sheet, symbol: nat, placeX: nat, placeY: nat, x: nat, y: nat)
    requires x < GlyphWidth && y < GlyphHeight
    ensures var next := Painted(colors, sheet, symbol, placeX, placeY, y * GlyphWidth + x + 1);
      var prev := Painted(colors, sheet, symbol, placeX, placeY, y * GlyphWidth + x);
      forall i :: 0 <= i < |colors| && i != Cell(placeX, placeY, x, y) ==> next[i] == prev[i]
    ensures var next := Painted(colors, sheet, symbol, placeX, placeY, y * GlyphWidth + x + 1);
      Cell(placeX, placeY, x, y) < |colors| ==>
        next[Cell(placeX, placeY, x, y)] ==
          (if Opaque(sheet, symbol, x, y) then Ink(sheet, symbol, x, y) else colors[Cell(placeX, placeY, x, y)])
  {
    GlyphPixelOfCell(placeX, placeY, x, y);
    var done := y * GlyphWidth + x;
    forall i | 0 <= i < |colors| && i != Cell(placeX, placeY, x, y)
      ensures Painted(colors, sheet, symbol, placeX, placeY, done + 1)[i] == Painted(colors, sheet, symbol, placeX, placeY, done)[i]
    {
      match GlyphPixel(placeX, placeY, i)
      case None =>
      case Some((x', y')) =>
        assert (x', y') != (x, y);
        RowMajor(x', y', x, y);
    }
  }

  /** Loop order visits each glyph pixel once. */
  lemma RowMajor(x': nat, y': nat, x: nat, y: nat)
    requires x' < GlyphWidth && x < GlyphWidth
    ensures y' * GlyphWidth + x' == y * GlyphWidth + x <==> x' == x && y' == y
  {
  }

  /** The first `done` pixels, in loop order, were read and drawn without a
      panic. */
  predicate CheckedBefore(sheet: Sheet, symbol: nat, placeX: nat, placeY: nat, cells: nat, done: nat)
  {
    forall x, y :: 0 <= x < GlyphWidth && 0 <= y < GlyphHeight && Before(x, y, done) ==>
      Readable(sheet, symbol, x, y) &&
      (Opaque(sheet, symbol, x, y) ==> Cell(placeX, placeY, x, y) < cells)
  }

  lemma CheckStep(sheet: Sheet, symbol: nat, placeX: nat, placeY: nat, cells: nat, x: nat, y: nat)
    requires x < GlyphWidth && y < GlyphHeight
    ensures CheckedBefore(sheet, symbol, placeX, placeY, cells, y * GlyphWidth + x + 1) <==>
      CheckedBefore(sheet, symbol, placeX, placeY, cells, y * GlyphWidth + x) &&
      Readable(sheet, symbol, x, y) &&
      (Opaque(sheet, symbol, x, y) ==> Cell(placeX, placeY, x, y) < cells)
  {
    forall x', y' | 0 <= x' < GlyphWidth && 0 <= y' < GlyphHeight
      ensures Before(x', y', y * GlyphWidth + x + 1) <==> Before(x', y', y * GlyphWidth + x) || (x', y') == (x, y)
    {
      RowMajor(x', y', x, y);
    }
  }

  lemma CheckedAll(sheet: Sheet, symbol: nat, placeX: nat, placeY: nat, cells: nat)
    ensures CheckedBefore(sheet, symbol, placeX, placeY, cells, GlyphWidth * GlyphHeight) <==>
      Drawable(sheet, symbol, placeX, placeY, cells)
  {
  }

  /** `add_letter`: copies glyph `symbol` of the sheet to (placeX, placeY),
      row by row, skipping pixels whose alpha is zero. It returns false where
      the source panics on an index out of bounds; the buffer's contents are
      then of no further interest. */
  method AddLetter(symbol: nat, placeX: nat, placeY: nat, sheet: Sheet, colors: array<Color>) returns (ok: bool)
    modifies colors
    ensures ok <==> Drawable(sheet, symbol, placeX, placeY, colors.Length)
    ensures ok ==> colors[..] == Painted(old(colors[..]), sheet, symbol, placeX, placeY, GlyphWidth * GlyphHeight)
  {
    ghost var start := colors[..];
    CheckedAll(sheet, symbol, placeX, placeY, colors.Length);
    for y := 0 to GlyphHeight
      invariant CheckedBefore(sheet, symbol, placeX, placeY, colors.Length, y * GlyphWidth)
      invariant colors[..] == Painted(start, sheet, symbol, placeX, placeY, y * GlyphWidth)
    {
      for x := 0 to GlyphWidth
        invariant CheckedBefore(sheet, symbol, placeX, placeY, colors.Length, y * GlyphWidth + x)
        invariant colors[..] == Painted(start, sheet, symbol, placeX, placeY, y * GlyphWidth + x)
      {
        var index := (x + y * sheet.width) * 4;
        var start_index := symbol * 3 * 4;
        CheckStep(sheet, symbol, placeX, placeY, colors.Length, x, y);
        PaintStep(start, sheet, symbol, placeX, placeY, x, y);
        if start_index + index + 3 >= |sheet.rgba| {
          return false;
        }
        var r := sheet.rgba[start_index + index + 0];
        var g := sheet.rgba[start_index + index + 1];
        var b := sheet.rgba[start_index + index + 2];
        var a := sheet.rgba[start_index + index + 3];
        if a == 0 {
          assert Painted(start, sheet, symbol, placeX, placeY, y * GlyphWidth + x + 1)
            == Painted(start, sheet, symbol, placeX, placeY, y * GlyphWidth + x);
          continue;
        }
        var cell := placeX + x + (placeY + y) * 32;
        if cell >= colors.Length {
          return false;
        }
        colors[cell] := Color(r, g, b);
        assert colors[..] == Painted(start, sheet, symbol, placeX, placeY, y * GlyphWidth + x + 1);
      }
    }
    ok := true;
  }

  // ---------------------------------------------------------------------------
  // Text (`print_text`)

  /** The 25 characters with the Unicode White_Space property, one by one. */
  const WhiteSpace: string :=
    "\t\n\U{000B}\U{000C}\r \U{0085}\U{00A0}\U{1680}"
    + "\U{2000}\U{2001}\U{2002}\U{2003}\U{2004}\U{2005}\U{2006}\U{2007}\U{2008}\U{2009}\U{200A}"
    + "\U{2028}\U{2029}\U{202F}\U{205F}\U{3000}"

  /** `char::is_whitespace`: the characters with the Unicode White_Space
      property. None of them is a digit or a letter. */
  predicate IsWhitespace(c: char): (b: bool)
    ensures b <==> c in WhiteSpace
    ensures b ==> !IsNumeric(c) && ToAsciiLower(c) == c && !('a' <= c <= 'z')
  {
    || '\t' <= c <= '\r' || c == ' ' || c == '\U{0085}' || c == '\U{00A0}' || c == '\U{1680}'
    || '\U{2000}' <= c <= '\U{200A}' || c == '\U{2028}' || c == '\U{2029}' || c == '\U{202F}'
    || c == '\U{205F}' || c == '\U{3000}'
  }

  /** `char::is_numeric`, restricted to the ASCII digits. */
  predicate IsNumeric(c: char): (b: bool)
    ensures b <==> c in "0123456789"
    ensures b ==> ToAsciiLower(c) == c && !('a' <= c <= 'z')
  {
    '0' <= c <= '9'
  }

  /** What a character draws: nothing, a glyph of one of the two sheets, or
      (for a character that is no letter) the panic of `alpha_to_number`. */
  datatype Glyph = Blank | Symbol(symbol: nat, sheet: Sheet) | Unknown

  /** Digits are looked up in the number sheet by their code point, every
      other character that is not whitespace in the font by its letter. */
  function GlyphFor(c: char, font: Sheet, numbers: Sheet): (g: Glyph)
    ensures g.Blank? <==> IsWhitespace(c)
    ensures g.Symbol? && !IsNumeric(c) ==> g.sheet == font && g.symbol < |Alphabet| && Alphabet[g.symbol] == ToAsciiLower(c)
    ensures g.Unknown? <==> !IsWhitespace(c) && !IsNumeric(c) && ToAsciiLower(c) !in Alphabet
    ensures !IsWhitespace(c) && IsNumeric(c) ==> g == Symbol(c as nat, numbers)
  {
    if IsWhitespace(c) then Blank
    else if IsNumeric(c) then Symbol(c as nat, numbers)
    else match AlphaToNumber(c)
      case None => Unknown
      case Some(k) => Symbol(k, font)
  }

  /** Character `index` of the text goes to column `index % 8`, row
      `index / 8` of the 4×6 cell grid. */
  function Column(index: nat): (x: nat)
    ensures x + GlyphWidth <= ScreenWidth
  {
    (index % Columns) * CellWidth
  }

  /** The first five rows of text keep their glyphs above the bottom edge. */
  function Row(index: nat): (y: nat)
    ensures index < Columns * 5 ==> y + GlyphHeight <= ScreenWidth
  {
    (index / Columns) * CellHeight
  }

  /** `add_letter` on a buffer of values: None where it panics. */
  function DrawGlyph(colors: seq<Color>, symbol: nat, placeX: nat, placeY: nat, sheet: Sheet): (r: Option<seq<Color>>)
    ensures r.Some? <==> Drawable(sheet, symbol, placeX, placeY, |colors|)
  {
    if Drawable(sheet, symbol, placeX, placeY, |colors|)
    then Some(Painted(colors, sheet, symbol, placeX, placeY, GlyphWidth * GlyphHeight))
    else None
  }

  /** One step of `print_text`. */
  function DrawChar(colors: seq<Color>, index: nat, c: char, font: Sheet, numbers: Sheet): (r: Option<seq<Color>>)
    ensures IsWhitespace(c) ==> r == Some(colors)
    ensures r.Some? ==> |r.value| == |colors|
    ensures r.None? <==>
      (|| GlyphFor(c, font, numbers).Unknown?
       || (GlyphFor(c, font, numbers).Symbol? &&
           !Drawable(GlyphFor(c, font, numbers).sheet, GlyphFor(c, font, numbers).symbol, Column(index), Row(index), |colors|)))
  {
    match GlyphFor(c, font, numbers)
    case Blank => Some(colors)
    case Unknown => None
    case Symbol(symbol, sheet) => DrawGlyph(colors, symbol, Column(index), Row(index), sheet)
  }

  /** The buffer after `print_text` has drawn `text` over `canvas`, or None
      where it panics. */
  function Render(canvas: seq<Color>, text: string, font: Sheet, numbers: Sheet): (r: Option<seq<Color>>)
    ensures r.Some? ==> |r.value| == |canvas|
  {
    if text == [] then Some(canvas)
    else match Render(canvas, text[..|text| - 1], font, numbers)
      case None => None
      case Some(colors) => DrawChar(colors, |text| - 1, text[|text| - 1], font, numbers)
  }

  /** Once a character panics, the whole text does. */
  lemma {:induction false} RenderStops(canvas: seq<Color>, text: string, n: nat, font: Sheet, numbers: Sheet)
    requires n <= |text|
    requires Render(canvas, text[..n], font, numbers).None?
    ensures Render(canvas, text, font, numbers).None?
    decreases |text| - n
  {
    if n < |text| {
      var t := text[..n + 1];
      assert t[..|t| - 1] == text[..n];
      RenderStops(canvas, text, n + 1, font, numbers);
    } else {
      assert text[..n] == text;
    }
  }

  /** Rendering one more character is one more `DrawChar`. */
  lemma RenderNext(canvas: seq<Color>, text: string, index: nat, font: Sheet, numbers: Sheet)
    requires index < |text|
    ensures Render(canvas, text[..index + 1], font, numbers) ==
      match Render(canvas, text[..index], font, numbers)
      case None => None
      case Some(colors) => DrawChar(colors, index, text[index], font, numbers)
  {
    var t := text[..index + 1];
    assert t[..|t| - 1] == text[..index];
  }

  /** `print_text`: draws the characters of `text` one after another; false
      where the source panics. */
  method PrintText(text: string, font: Sheet, numbers: Sheet, colors: array<Color>) returns (ok: bool)
    modifies colors
    ensures ok <==> Render(old(colors[..]), text, font, numbers).Some?
    ensures ok ==> colors[..] == Render(old(colors[..]), text, font, numbers).value
  {
    ghost var canvas := colors[..];
    for index := 0 to |text|
      invariant Render(canvas, text[..index], font, numbers) == Some(colors[..])
    {
      var c := text[index];
      var x := index % 8;
      var y := index / 8;
      RenderNext(canvas, text, index, font, numbers);
      if IsWhitespace(c) {
        continue;
      }
      var symbol: nat, sheet: Sheet;
      if IsNumeric(c) {
        symbol, sheet := c as nat, numbers;
      } else {
        var k := AlphaToNumber(c);
        if k.None? {
          RenderStops(canvas, text, index + 1, font, numbers);
          return false;
        }
        symbol, sheet := k.value, font;
      }
      assert GlyphFor(c, font, numbers) == Symbol(symbol, sheet);
      assert x * 4 == Column(index) && y * 6 == Row(index);
      var drawn := AddLetter(symbol, x * 4, y * 6, sheet, colors);
      if !drawn {
        RenderStops(canvas, text, index + 1, font, numbers);
        return false;
      }
    }
    assert text[..|text|] == text;
    ok := true;
  }

  // ---------------------------------------------------------------------------
  // Layout properties

  /** A cell index `a + b * base` with `a < base` determines `a` and `b`. */
  lemma Decompose(a1: nat, b1: nat, a2: nat, b2: nat, base: nat)
    requires a1 < base && a2 < base
    ensures a1 + b1 * base == a2 + b2 * base <==> a1 == a2 && b1 == b2
  {
    assert b1 < b2 ==> (b1 + 1) * base <= b2 * base;
    assert b2 < b1 ==> (b2 + 1) * base <= b1 * base;
  }

  /** The cell grid numbers characters row by row: the place of character
      `index` gives back its column, its row of text and the index itself. */
  lemma GridPlace(index: nat)
    ensures Column(index) % CellWidth == 0 && Column(index) / CellWidth == index % Columns
    ensures Row(index) % CellHeight == 0 && Row(index) / CellHeight == index / Columns
    ensures Column(index) / CellWidth + Row(index) / CellHeight * Columns == index
  {
  }

  /** The glyph of each of the first 40 characters (five rows of eight) lies
      inside the 32×32 buffer. */
  lemma {:induction false} ScreenFit(index: nat, x: nat, y: nat)
    requires index < Columns * 5 && x < GlyphWidth && y < GlyphHeight
    ensures Cell(Column(index), Row(index), x, y) < ScreenCells
  {
    assert Column(index) <= 28 && Row(index) <= 24;
  }

  /** Different characters never draw on the same cell. */
  lemma {:induction false} GlyphsApart(i: nat, j: nat, x: nat, y: nat, x': nat, y': nat)
    requires x < GlyphWidth && y < GlyphHeight && x' < GlyphWidth && y' < GlyphHeight
    ensures Cell(Column(i), Row(i), x, y) == Cell(Column(j), Row(j), x', y') ==> i == j
  {
    Decompose(Column(i) + x, Row(i) + y, Column(j) + x', Row(j) + y', ScreenWidth);
    Decompose(x, i % Columns, x', j % Columns, CellWidth);
    Decompose(y, i / Columns, y', j / Columns, CellHeight);
    assert i == i / Columns * Columns + i % Columns;
    assert j == j / Columns * Columns + j % Columns;
  }

  /** After `print_text`, every opaque pixel of every character's glyph shows
      in the buffer: later characters do not paint over earlier ones. */
  lemma {:induction false} RenderShowsEach(canvas: seq<Color>, text: string, font: Sheet, numbers: Sheet, i: nat, x: nat, y: nat)
    requires Render(canvas, text, font, numbers).Some?
    requires i < |text| && x < GlyphWidth && y < GlyphHeight
    requires GlyphFor(text[i], font, numbers).Symbol?
    requires Opaque(GlyphFor(text[i], font, numbers).sheet, GlyphFor(text[i], font, numbers).symbol, x, y)
    ensures Cell(Column(i), Row(i), x, y) < |canvas|
    ensures var g := GlyphFor(text[i], font, numbers);
      Render(canvas, text, font, numbers).value[Cell(Column(i), Row(i), x, y)] == Ink(g.sheet, g.symbol, x, y)
  {
    var n := |text| - 1;
    var init := text[..n];
    var prev := Render(canvas, init, font, numbers).value;
    var g := GlyphFor(text[i], font, numbers);
    var k := Cell(Column(i), Row(i), x, y);
    if i == n {
      PaintedCells(prev, g.sheet, g.symbol, Column(i), Row(i));
    } else {
      assert init[i] == text[i];
      RenderShowsEach(canvas, init, font, numbers, i, x, y);
      var last := GlyphFor(text[n], font, numbers);
      if last.Symbol? {
        OtherGlyphKeeps(prev, last.sheet, last.symbol, i, n, x, y);
      }
    }
  }

  /** Drawing the glyph of character `n` keeps the cells of character `i`. */
  lemma OtherGlyphKeeps(colors: seq<Color>, sheet: Sheet, symbol: nat, i: nat, n: nat, x: nat, y: nat)
    requires i != n && x < GlyphWidth && y < GlyphHeight
    requires Cell(Column(i), Row(i), x, y) < |colors|
    ensures Painted(colors, sheet, symbol, Column(n), Row(n), GlyphWidth * GlyphHeight)[Cell(Column(i), Row(i), x, y)]
      == colors[Cell(Column(i), Row(i), x, y)]
  {
    var k := Cell(Column(i), Row(i), x, y);
    PaintedCells(colors, sheet, symbol, Column(n), Row(n));
    match GlyphPixel(Column(n), Row(n), k)
    case None =>
    case Some((x', y')) =>
      GlyphsApart(i, n, x, y, x', y');
  }

  /** Cells outside every character's glyph keep the colour they had. */
  lemma {:induction false} RenderKeepsBackground(canvas: seq<Color>, text: string, font: Sheet, numbers: Sheet, k: nat)
    requires Render(canvas, text, font, numbers).Some?
    requires k < |canvas|
    requires forall j :: 0 <= j < |text| ==> GlyphPixel(Column(j), Row(j), k).None?
    ensures Render(canvas, text, font, numbers).value[k] == canvas[k]
  {
    if text != [] {
      var n := |text| - 1;
      var init := text[..n];
      var prev := Render(canvas, init, font, numbers).value;
      assert GlyphPixel(Column(n), Row(n), k).None?;
      RenderKeepsBackground(canvas, init, font, numbers, k);
      var last := GlyphFor(text[n], font, numbers);
      if last.Symbol? {
        PaintedCells(prev, last.sheet, last.symbol, Column(n), Row(n));
      }
    }
  }

  /** The sheet holds every pixel of glyph `symbol`. */
  predicate Covers(sheet: Sheet, symbol: nat)
  {
    forall x, y :: 0 <= x < GlyphWidth && 0 <= y < GlyphHeight ==> Readable(sheet, symbol, x, y)
  }

  /** A character `print_text` can draw: whitespace, a digit or an ASCII
      letter. */
  predicate Printable(c: char)
  {
    IsWhitespace(c) || IsNumeric(c) || 'a' <= ToAsciiLower(c) <= 'z'
  }

  /** `print_text` does not panic on a 32×32 buffer when the text has at most
      40 printable characters and the sheets hold all 26 letters and the ten
      digits (at their code points). */
  lemma {:induction false} RenderSucceeds(canvas: seq<Color>, text: string, font: Sheet, numbers: Sheet)
    requires |canvas| == ScreenCells && |text| <= Columns * 5
    requires forall j :: 0 <= j < |text| ==> Printable(text[j])
    requires forall symbol :: 0 <= symbol < |Alphabet| ==> Covers(font, symbol)
    requires forall symbol :: '0' as nat <= symbol <= '9' as nat ==> Covers(numbers, symbol)
    ensures Render(canvas, text, font, numbers).Some?
  {
    if text != [] {
      var n := |text| - 1;
      var init := text[..n];
      RenderSucceeds(canvas, init, font, numbers);
      var prev := Render(canvas, init, font, numbers).value;
      var c := text[n];
      var g := GlyphFor(c, font, numbers);
      if !IsWhitespace(c) && !IsNumeric(c) {
        LettersNumbered(c);
      }
      if g.Symbol? {
        assert Covers(g.sheet, g.symbol);
        forall x, y | 0 <= x < GlyphWidth && 0 <= y < GlyphHeight
          ensures Cell(Column(n), Row(n), x, y) < |prev|
        {
          ScreenFit(n, x, y);
        }
      }
    }
  }
}

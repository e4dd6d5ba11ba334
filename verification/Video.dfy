/** The framebuffer terminal: every byte of the framebuffer is what the line model says it is. */
module Video {
  import opened Machine
  import opened Terminal
  import Strings

  /** Where byte r of line y lies. */
  function At(pitch: nat, y: nat, r: nat): nat {
    y * pitch + r
  }

  lemma NextLine(pitch: nat, y: nat)
    ensures (y + 1) * pitch == y * pitch + pitch
  {
  }

  lemma {:induction false} LineEnd(pitch: nat, y: nat, y2: nat)
    requires y < y2
    ensures y * pitch + pitch <= y2 * pitch
  {
    NextLine(pitch, y2 - 1);
    if y + 1 < y2 {
      LineEnd(pitch, y, y2 - 1);
    }
  }

  lemma InBounds(pitch: nat, total: nat, y: nat, r: nat)
    requires y < total && r < pitch
    ensures At(pitch, y, r) < total * pitch
  {
    LineEnd(pitch, y, total);
  }

  /** A pixel's first byte. */
  function FirstByte(g: Geometry, x: nat): nat {
    if g.size == 3 then 3 * x else 4 * x
  }

  lemma PixelBytes(g: Geometry, x: nat)
    requires g.Valid() && x < g.w
    ensures FirstByte(g, x) + 3 <= g.pitch
    ensures forall r: nat :: g.Px(r) == x && g.Channel(r) < 3 <==> FirstByte(g, x) <= r < FirstByte(g, x) + 3
  {
  }

  /** Channel k of a colour. */
  function Part(color: u32, k: nat): u8 {
    if k == 0 then color % 0x100 else if k == 1 then color / 0x100 % 0x100 else color / 0x1_0000 % 0x100
  }

  /** Where the code looks up line y of a glyph: the signed character, widened and multiplied in 32 bits. */
  function GlyphLine(c: u8, y: nat): u32
    requires y < 16
  {
    ((if c < 0x80 then c else 0xffff_ff00 + c) * 16 + y) % 0x1_0000_0000
  }

  /** A line of a glyph lies in the font exactly when the character is a 7-bit one. */
  lemma GlyphInFontIff(c: u8, y: nat)
    requires y < 16
    ensures GlyphLine(c, y) < 4096 <==> c < 0x80
    ensures c < 0x80 ==> GlyphLine(c, y) == c * 16 + y
  {
    if c >= 0x80 {
      Remainder((0xffff_ff00 + c) * 16 + y, 15, 0x1_0000_0000 - 16 * (0x100 - c) + y, 0x1_0000_0000);
    }
  }

  /** What clear() wipes: pitch * height * bytes per pixel, more than the pixels take. */
  function WindowBytes(g: Geometry): nat {
    g.Total() * g.pitch
  }

  /** Source and length of scroll()'s copy. */
  function ScrollFrom(g: Geometry): nat {
    g.pitch * 16
  }

  function ScrollCount(g: Geometry): nat
    requires g.Valid()
  {
    g.pitch * (g.h - 16)
  }

  lemma ScrollFits(g: Geometry)
    requires g.Valid()
    ensures ScrollFrom(g) + ScrollCount(g) <= WindowBytes(g)
  {
    assert g.pitch * 16 + g.pitch * (g.h - 16) == g.h * g.pitch;
    LineEnd(g.pitch, g.h, g.Total());
  }

  lemma ScrollSource(g: Geometry, y: nat, r: nat)
    requires g.Valid() && y < g.h - 16 && r < g.pitch
    ensures At(g.pitch, y, r) < ScrollCount(g)
    ensures At(g.pitch, y + 16, r) == ScrollFrom(g) + At(g.pitch, y, r)
  {
    assert (y + 16) * g.pitch == y * g.pitch + 16 * g.pitch;
    InBounds(g.pitch, g.h - 16, y, r);
  }

  lemma ScrollKept(g: Geometry, y: nat, r: nat)
    requires g.Valid() && y >= g.h - 16 && r < g.pitch
    ensures At(g.pitch, y, r) >= ScrollCount(g)
  {
    var line := g.h - 16;
    assert ScrollCount(g) == line * g.pitch;
    if line < y {
      LineEnd(g.pitch, line, y);
    }
  }

  function AtIn(g: Geometry, y: nat, r: nat): (x: nat)
    requires y < g.Total() && r < g.pitch
    ensures x < WindowBytes(g)
  {
    InBounds(g.pitch, g.Total(), y, r);
    At(g.pitch, y, r)
  }

  /** The window is pitch * height * bytes per pixel long. */
  lemma WindowSize(g: Geometry)
    requires g.Valid()
    ensures WindowBytes(g) == g.pitch * g.h * g.size
  {
    if g.size == 3 {
      assert g.pitch * g.h * 3 == 3 * g.h * g.pitch;
    } else {
      assert g.pitch * g.h * 4 == 4 * g.h * g.pitch;
    }
  }

  /** The three bytes of a pixel make up the colour again, blue lowest. */
  lemma PartsMakeColor(color: u32)
    ensures Part(color, 0) + 0x100 * (Part(color, 1) as int) + 0x1_0000 * (Part(color, 2) as int) == color % 0x100_0000
  {
    assert color / 0x100 / 0x100 == color / 0x1_0000;
  }

  /** The byte at line y, offset r of a window's contents. */
  function ByteIn(m: seq<u8>, g: Geometry, y: nat, r: nat): u8
    requires |m| == WindowBytes(g) && y < g.Total() && r < g.pitch
  {
    m[AtIn(g, y, r)]
  }

  lemma OverwriteAt(m: seq<u8>, from: nat, n: nat, x: nat)
    requires n <= |m| && from + n <= |m| && x < |m|
    ensures Strings.Overwrite(m, 0, m, from, n)[x] == if x < n then m[from + x] else m[x]
  {
    hide Strings.Overwrite;
  }

  /** The overlapping upward copy is a true shift by one text line; the last 16 lines stay. */
  lemma ScrollShifts(m: seq<u8>, m': seq<u8>, g: Geometry, y: nat, r: nat)
    requires g.Valid() && |m| == WindowBytes(g) && y < g.Total() && r < g.pitch
    requires ScrollFrom(g) + ScrollCount(g) <= |m|
    requires m' == Strings.Overwrite(m, 0, m, ScrollFrom(g), ScrollCount(g))
    ensures ByteIn(m', g, y, r) == if y < g.h - 16 then ByteIn(m, g, y + 16, r) else ByteIn(m, g, y, r)
  {
    hide At, Strings.Overwrite, WindowBytes, ScrollFrom, ScrollCount;
    OverwriteAt(m, ScrollFrom(g), ScrollCount(g), AtIn(g, y, r));
    if y < g.h - 16 {
      ScrollSource(g, y, r);
    } else {
      ScrollKept(g, y, r);
    }
  }

  /** The last line with one more character. */
  function Extend(lines: seq<string>, c: char): seq<string>
    requires lines != []
  {
    lines[|lines| - 1 := lines[|lines| - 1] + [c]]
  }

  /** Extending the last line changes the picture in one character cell only. */
  lemma ExtendShown(g: Geometry, font: seq<u8>, lines: seq<string>, first: nat, c: char, y: nat, r: nat)
    requires |font| == 4096 && lines != [] && first < |lines| && c < 128 as char
    requires |lines| - 1 - first < g.Rows()
    ensures Shown(g, font, Extend(lines, c), first, y, r) ==
      if y / 16 == |lines| - 1 - first && g.Px(r) / 8 == |lines[|lines| - 1]| && g.Channel(r) < 3
      then Pixel(font, c, y % 16, g.Px(r) % 8) else Shown(g, font, lines, first, y, r)
  {
    hide Pixel;
  }

  /** An empty line shows as nothing. */
  lemma OpenShown(g: Geometry, font: seq<u8>, lines: seq<string>, first: nat, y: nat, r: nat)
    requires |font| == 4096
    ensures Shown(g, font, lines + [""], first, y, r) == Shown(g, font, lines, first, y, r)
  {
    hide Pixel;
  }

  /** Shifting the picture up one text line shows the next line first, when the line that comes into
      view is empty. */
  lemma ScrollShown(g: Geometry, font: seq<u8>, lines: seq<string>, first: nat, y: nat, r: nat)
    requires g.Valid() && |font| == 4096 && |lines| == first + g.Rows() + 1 && lines[|lines| - 1] == ""
    ensures Shown(g, font, lines, first + 1, y, r) ==
      if y < g.h - 16 then Shown(g, font, lines, first, y + 16, r) else Shown(g, font, lines, first, y, r)
  {
    hide Pixel;
    assert (y + 16) / 16 == y / 16 + 1 && (y + 16) % 16 == y % 16;
  }

  /** A window's contents show these lines, the first of them at the top. */
  ghost predicate ShowsIn(m: seq<u8>, g: Geometry, font: seq<u8>, lines: seq<string>, first: nat) {
    |m| == WindowBytes(g) && |font| == 4096 &&
    forall y: nat, r: nat :: y < g.Total() && r < g.pitch ==> ByteIn(m, g, y, r) == Shown(g, font, lines, first, y, r)
  }

  lemma ExtendShows(m: seq<u8>, m': seq<u8>, g: Geometry, font: seq<u8>, lines: seq<string>, first: nat, c: char)
    requires ShowsIn(m, g, font, lines, first) && |m'| == |m|
    requires lines != [] && first < |lines| && c < 128 as char && |lines| - 1 - first < g.Rows()
    requires forall y: nat, r: nat :: y < g.Total() && r < g.pitch ==>
      ByteIn(m', g, y, r) ==
      if y / 16 == |lines| - 1 - first && g.Px(r) / 8 == |lines[|lines| - 1]| && g.Channel(r) < 3
      then Pixel(font, c, y % 16, g.Px(r) % 8) else ByteIn(m, g, y, r)
    ensures ShowsIn(m', g, font, Extend(lines, c), first)
  {
    hide Shown, ByteIn, Pixel, WindowBytes;
    forall y: nat, r: nat | y < g.Total() && r < g.pitch
      ensures ByteIn(m', g, y, r) == Shown(g, font, Extend(lines, c), first, y, r)
    {
      ExtendShown(g, font, lines, first, c, y, r);
    }
  }

  lemma OpenShows(m: seq<u8>, g: Geometry, font: seq<u8>, lines: seq<string>, first: nat)
    requires ShowsIn(m, g, font, lines, first)
    ensures ShowsIn(m, g, font, lines + [""], first)
  {
    hide Shown, ByteIn;
    forall y: nat, r: nat | y < g.Total() && r < g.pitch
      ensures ByteIn(m, g, y, r) == Shown(g, font, lines + [""], first, y, r)
    {
      OpenShown(g, font, lines, first, y, r);
    }
  }

  /** Line y became line y + 16, the last 16 stayed. */
  ghost predicate MovedUp(m: seq<u8>, m': seq<u8>, g: Geometry) {
    g.Valid() && |m| == WindowBytes(g) && |m'| == |m| &&
    forall y: nat, r: nat {:trigger ByteIn(m', g, y, r)} :: y < g.Total() && r < g.pitch ==>
      ByteIn(m', g, y, r) == if y < g.h - 16 then ByteIn(m, g, y + 16, r) else ByteIn(m, g, y, r)
  }

  lemma ScrollShows(m: seq<u8>, m': seq<u8>, g: Geometry, font: seq<u8>, lines: seq<string>, first: nat)
    requires ShowsIn(m, g, font, lines, first) && MovedUp(m, m', g)
    requires |lines| == first + g.Rows() + 1 && lines[|lines| - 1] == ""
    ensures ShowsIn(m', g, font, lines, first + 1)
  {
    hide Shown, ByteIn, WindowBytes;
    forall y: nat, r: nat | y < g.Total() && r < g.pitch
      ensures ByteIn(m', g, y, r) == Shown(g, font, lines, first + 1, y, r)
    {
      ScrollShown(g, font, lines, first, y, r);
    }
  }

  /** Nothing is shown from the cursor's cell on. */
  lemma BlankPastCursor(g: Geometry, font: seq<u8>, text: string, y: nat, r: nat)
    requires g.Valid() && |font| == 4096
    requires var lines := Wrap(text, g.Cols());
      var cursorY, cursorX := |lines| - 1 - First(|lines|, g.Rows()), |lines[|lines| - 1]|;
      y / 16 > cursorY || (y / 16 == cursorY && g.Px(r) / 8 >= cursorX)
    ensures Shown(g, font, Wrap(text, g.Cols()), First(|Wrap(text, g.Cols())|, g.Rows()), y, r) == 0
  {
    hide Pixel;
  }

  lemma RowInside(g: Geometry, row: nat, y: nat)
    requires g.Valid() && row < g.h / 16 - 1 && y < 16
    ensures row * 16 + y < g.Total()
  {
  }

  lemma ChannelOf(g: Geometry, x: nat, k: nat)
    requires g.Valid() && x < g.w && k < 3
    ensures var r := x * g.size + k; g.Px(r) == x && g.Channel(r) == k && r < g.pitch
  {
    if g.size == 3 {
      Remainder(3 * x + k, x, k, 3);
    } else {
      Remainder(4 * x + k, x, k, 4);
    }
  }

  /** Pixel (x, y) of the character at column col of a line is set: bit 7 - x of the y-th byte of its glyph. */
  predicate CellLit(font: seq<u8>, lines: seq<string>, line: nat, col: nat, x: nat, y: nat)
    requires |font| == 4096 && x < 8 && y < 16
  {
    && line < |lines| && col < |lines[line]| && lines[line][col] < 128 as char
    && Halved(font[lines[line][col] as nat * 16 + y], 7 - x) % 2 == 1
  }

  lemma CellShown(g: Geometry, font: seq<u8>, lines: seq<string>, first: nat, row: nat, col: nat, x: nat, y: nat,
                  r: nat)
    requires |font| == 4096 && x < 8 && y < 16 && row < g.Rows() && g.Px(r) == col * 8 + x && g.Channel(r) < 3
    ensures Shown(g, font, lines, first, row * 16 + y, r)
      == if CellLit(font, lines, first + row, col, x, y) then 0xff else 0
  {
    hide Lit, Halved;
    assert (row * 16 + y) / 16 == row && (row * 16 + y) % 16 == y && (col * 8 + x) / 8 == col && (col * 8 + x) % 8 == x;
    var line := first + row;
    if line < |lines| && col < |lines[line]| && lines[line][col] < 128 as char {
      LitIsBit(font[lines[line][col] as nat * 16 + y], x);
    }
  }

  /** What a screen shows, byte by byte: of the text cut into lines the last ones that fit, of which row
      shows one and col one character; the colour bytes of a pixel are all 0xff or all 0. */
  lemma ScreenInPixels(m: seq<u8>, g: Geometry, font: seq<u8>, text: string, row: nat, col: nat, x: nat, y: nat, k: nat,
                       lines: seq<string>, line: nat, at: nat)
    requires g.Valid() && ShowsIn(m, g, font, Wrap(text, g.Cols()), First(|Wrap(text, g.Cols())|, g.Rows()))
    requires row < g.h / 16 - 1 && col < g.w / 8 && x < 8 && y < 16 && k < 3
    requires lines == Layout(text, g.w / 8)
    requires line == if |lines| > g.h / 16 - 1 then row + |lines| - (g.h / 16 - 1) else row
    requires at == (row * 16 + y) * g.pitch + ((col * 8 + x) * g.size + k)
    ensures at < |m| && m[at] == if CellLit(font, lines, line, col, x, y) then 0xff else 0
  {
    hide Wrap, Layout, Shown, CellLit, Geometry.Px, Geometry.Channel;
    WrapIsLayout(text, g.Cols());
    var first := First(|lines|, g.Rows());
    ChannelOf(g, col * 8 + x, k);
    var r := (col * 8 + x) * g.size + k;
    RowInside(g, row, y);
    InBounds(g.pitch, g.Total(), row * 16 + y, r);
    assert ByteIn(m, g, row * 16 + y, r) == Shown(g, font, lines, first, row * 16 + y, r);
    CellShown(g, font, lines, first, row, col, x, y, r);
  }

  lemma WrapNext(text: string, c: char, cols: nat)
    ensures Wrap(text + [c], cols) ==
      (var lines := Wrap(text, cols);
       if c == '\n' then lines + [""]
       else if |lines[|lines| - 1]| + 1 >= cols then Extend(lines, c) + [""] else Extend(lines, c))
  {
    assert (text + [c])[..|text|] == text;
  }

  class Screen {
    const fb: array<u8>
    const g: Geometry
    const font: seq<u8>
    var cursorX: nat
    var cursorY: nat
    /** Everything printed since the screen was cleared. */
    ghost var text: string

    ghost predicate Shape() {
      g.Valid() && |font| == 4096 && fb.Length == WindowBytes(g)
    }

    ghost predicate Valid()
      reads this, fb
    {
      && Shape()
      && var lines := Wrap(text, g.Cols());
         var first := First(|lines|, g.Rows());
         && ShowsIn(fb[..], g, font, lines, first)
         && cursorY == |lines| - 1 - first
         && cursorX == |lines[|lines| - 1]|
    }

    /** The screen globals as init leaves them, with the cursor in the upper left corner; what the window
        shows is up to clear(). */
    constructor (framebuffer: array<u8>, geometry: Geometry, displayFont: seq<u8>)
      requires geometry.Valid() && |displayFont| == 4096 && framebuffer.Length == WindowBytes(geometry)
      ensures Shape() && fb == framebuffer && g == geometry && font == displayFont
      ensures cursorX == 0 && cursorY == 0 && text == ""
    {
      fb, g, font := framebuffer, geometry, displayFont;
      cursorX, cursorY, text := 0, 0, "";
    }

    method PutPixel(x: nat, y: nat, color: u32)
      requires Shape() && x < g.w && y < g.h
      modifies fb
      ensures forall y2: nat, r: nat :: y2 < g.Total() && r < g.pitch ==>
        ByteIn(fb[..], g, y2, r) == if y2 == y && g.Px(r) == x && g.Channel(r) < 3
                       then Part(color, g.Channel(r)) else ByteIn(old(fb[..]), g, y2, r)
    {
      PixelBytes(g, x);
      var r0 := FirstByte(g, x);
      InBounds(g.pitch, g.Total(), y, r0);
      InBounds(g.pitch, g.Total(), y, r0 + 2);
      var offset := y * g.pitch + r0;
      fb[offset] := color % 0x100;
      fb[offset + 1] := color / 0x100 % 0x100;
      fb[offset + 2] := color / 0x1_0000 % 0x100;
      forall y2: nat, r: nat | y2 < g.Total() && r < g.pitch
        ensures ByteIn(fb[..], g, y2, r) == if y2 == y && g.Px(r) == x && g.Channel(r) < 3
                                then Part(color, g.Channel(r)) else ByteIn(old(fb[..]), g, y2, r)
      {
        InBounds(g.pitch, g.Total(), y2, r);
        if y2 < y {
          LineEnd(g.pitch, y2, y);
        } else if y < y2 {
          LineEnd(g.pitch, y, y2);
        }
        assert y2 == y && r0 <= r < r0 + 3 ==> g.Channel(r) == r - r0;
      }
    }

    method Clear()
      requires Shape()
      modifies fb, `text
      ensures forall y: nat, r: nat :: y < g.Total() && r < g.pitch ==> ByteIn(fb[..], g, y, r) == 0
      ensures text == "" && (cursorX == 0 && cursorY == 0 ==> Valid())
    {
      Strings.Memset(fb, 0, 0x00, WindowBytes(g));
      text := "";
      forall y: nat, r: nat | y < g.Total() && r < g.pitch ensures ByteIn(fb[..], g, y, r) == 0 {
        InBounds(g.pitch, g.Total(), y, r);
      }
    }

    /** Everything moves up one text line. */
    method Scroll()
      requires Shape()
      modifies fb
      ensures MovedUp(old(fb[..]), fb[..], g)
    {
      hide Strings.Overwrite, ByteIn, WindowBytes, ScrollFrom, ScrollCount;
      ScrollFits(g);
      ghost var m := fb[..];
      Strings.Memcpy(fb, 0, fb, ScrollFrom(g), ScrollCount(g));
      forall y: nat, r: nat {:trigger ByteIn(fb[..], g, y, r)} | y < g.Total() && r < g.pitch
        ensures ByteIn(fb[..], g, y, r) == if y < g.h - 16 then ByteIn(m, g, y + 16, r) else ByteIn(m, g, y, r)
      {
        ScrollShifts(m, fb[..], g, y, r);
      }
    }

    /** Line y of a glyph, 8 pixels, at text position (col, row). */
    method DrawLine(c: char, col: nat, row: nat, y: nat)
      requires Shape() && c < 128 as char && col < g.Cols() && row < g.Rows() && y < 16
      modifies fb
      ensures forall y2: nat, r: nat :: y2 < g.Total() && r < g.pitch ==>
        ByteIn(fb[..], g, y2, r) == if y2 == row * 16 + y && g.Px(r) / 8 == col && g.Channel(r) < 3
                      then Pixel(font, c, y, g.Px(r) % 8) else ByteIn(old(fb[..]), g, y2, r)
    {
      hide ByteIn, Lit, WindowBytes;
      var line := font[c as nat * CHAR_HEIGHT + y];
      var x := 0;
      while x < 8
        invariant 0 <= x <= 8
        invariant forall y2: nat, r: nat :: y2 < g.Total() && r < g.pitch ==>
          ByteIn(fb[..], g, y2, r) == if y2 == row * 16 + y && g.Px(r) / 8 == col && g.Px(r) % 8 < x && g.Channel(r) < 3
                         then Pixel(font, c, y, g.Px(r) % 8) else ByteIn(old(fb[..]), g, y2, r)
      {
        PutPixel(col * 8 + x, row * CHAR_HEIGHT + y, if Lit(line, x) then 0xff_ffff else 0);
        x := x + 1;
      }
    }

    /** One glyph, 16 lines of 8 pixels, at text position (col, row). */
    method DrawGlyph(c: char, col: nat, row: nat)
      requires Shape() && c < 128 as char && col < g.Cols() && row < g.Rows()
      modifies fb
      ensures forall y: nat, r: nat :: y < g.Total() && r < g.pitch ==>
        ByteIn(fb[..], g, y, r) == if y / 16 == row && g.Px(r) / 8 == col && g.Channel(r) < 3
                      then Pixel(font, c, y % 16, g.Px(r) % 8) else ByteIn(old(fb[..]), g, y, r)
    {
      hide ByteIn, Pixel, WindowBytes;
      var y := 0;
      while y < 16
        invariant 0 <= y <= 16
        invariant forall y2: nat, r: nat :: y2 < g.Total() && r < g.pitch ==>
          ByteIn(fb[..], g, y2, r) == if y2 / 16 == row && y2 % 16 < y && g.Px(r) / 8 == col && g.Channel(r) < 3
                         then Pixel(font, c, y2 % 16, g.Px(r) % 8) else ByteIn(old(fb[..]), g, y2, r)
      {
        DrawLine(c, col, row, y);
        y := y + 1;
      }
    }

    /** The first half of putc: draw the character, move the cursor, wrap at the right edge. */
    method Place(c: char) returns (x: nat, y: nat)
      requires Valid() && c < 128 as char
      modifies fb
      ensures var lines := Wrap(text + [c], g.Cols());
        var first := First(|Wrap(text, g.Cols())|, g.Rows());
        && ShowsIn(fb[..], g, font, lines, first)
        && y == |lines| - 1 - first <= g.Rows() && x == |lines[|lines| - 1]|
        && (y == g.Rows() ==> x == 0)
    {
      hide Wrap, Put, Shown, ShowsIn, ByteIn, Pixel;
      ghost var lines, m := Wrap(text, g.Cols()), fb[..];
      ghost var first := First(|lines|, g.Rows());
      WrapFits(text, g.Cols());
      WrapNext(text, c, g.Cols());
      x, y := cursorX, cursorY;
      if c == '\n' {
        x := 0;
        y := y + 1;
      } else {
        DrawGlyph(c, x, y);
        ExtendShows(m, fb[..], g, font, lines, first, c);
        lines := Extend(lines, c);
        x := x + 1;
      }
      OpenShows(fb[..], g, font, lines, first);
      if x >= g.w / 8 {
        x := 0;
        y := y + 1;
      }
    }

    /** Print one 7-bit character at the cursor. */
    method Putc(c: char)
      requires Valid() && c < 128 as char
      modifies fb, `cursorX, `cursorY, `text
      ensures Valid() && text == old(text) + [c]
      ensures cursorX < g.Cols() && cursorY < g.Rows()
    {
      hide Wrap, Shown, ShowsIn, ByteIn, MovedUp;
      WrapFits(text + [c], g.Cols());
      ghost var lines, first := Wrap(text + [c], g.Cols()), First(|Wrap(text, g.Cols())|, g.Rows());
      WrapNext(text, c, g.Cols());
      var x, y := Place(c);
      ghost var m := fb[..];
      if y >= g.h / CHAR_HEIGHT - 1 {
        y := y - 1;
        Scroll();
        ScrollShows(m, fb[..], g, font, lines, first);
      }
      cursorX, cursorY := x, y;
      text := text + [c];
    }
  }
}

/** The text screen as a value: lines of characters, wrapped as soon as they fill up, of which the last
    few are visible. */
module Terminal {
  import opened Machine

  const CHAR_HEIGHT: nat := 16

  /** A newline opens a line; any other character extends the last one, and a full line opens the next. */
  function Put(lines: seq<string>, c: char, cols: nat): (r: seq<string>)
    requires lines != []
    ensures r != []
  {
    var last := |lines| - 1;
    if c == '\n' then lines + [""]
    else
      var longer := lines[last := lines[last] + [c]];
      if |longer[last]| >= cols then longer + [""] else longer
  }

  function Wrap(text: string, cols: nat): (r: seq<string>)
    ensures r != []
  {
    if text == "" then [""] else Put(Wrap(text[..|text| - 1], cols), text[|text| - 1], cols)
  }

  /** The first visible line when rows lines fit. */
  function First(n: nat, rows: nat): nat {
    if n <= rows then 0 else n - rows
  }

  function WithoutNewlines(s: string): string {
    if s == "" then "" else WithoutNewlines(s[..|s| - 1]) + if s[|s| - 1] == '\n' then "" else [s[|s| - 1]]
  }

  function Flatten(lines: seq<string>): string {
    if lines == [] then "" else Flatten(lines[..|lines| - 1]) + lines[|lines| - 1]
  }

  lemma PutFlatten(lines: seq<string>, c: char, cols: nat)
    requires lines != []
    ensures Flatten(Put(lines, c, cols)) == Flatten(lines) + if c == '\n' then "" else [c]
  {
    var last := |lines| - 1;
    var longer := lines[last := lines[last] + [c]];
    assert longer[..last] == lines[..last];
    assert (lines + [""])[..|lines|] == lines;
    assert (longer + [""])[..|lines|] == longer;
    assert Flatten(longer) == Flatten(lines[..last]) + (lines[last] + [c]);
    assert Flatten(lines[..last]) + (lines[last] + [c]) == Flatten(lines) + [c];
  }

  /** Wrapping neither loses, adds nor reorders a character. */
  lemma {:induction false} WrapKeepsText(text: string, cols: nat)
    ensures Flatten(Wrap(text, cols)) == WithoutNewlines(text)
  {
    if text == "" {
      assert [""][..0] == [];
    } else {
      WrapKeepsText(text[..|text| - 1], cols);
      PutFlatten(Wrap(text[..|text| - 1], cols), text[|text| - 1], cols);
    }
  }

  /** No line is longer than the screen is wide, and there is always room for one more character. */
  lemma {:induction false} WrapFits(text: string, cols: nat)
    requires cols >= 1
    ensures forall i :: 0 <= i < |Wrap(text, cols)| ==> |Wrap(text, cols)[i]| <= cols
    ensures var lines := Wrap(text, cols); |lines[|lines| - 1]| < cols
  {
    if text != "" {
      WrapFits(text[..|text| - 1], cols);
    }
  }

  // ----- what wrapping means, read from the front -----

  /** How much of text goes on a line of cols columns: up to a newline or the end, cols at most. */
  function LineLength(text: string, cols: nat): (n: nat)
    ensures n <= cols && n <= |text|
  {
    if text == "" || cols == 0 || text[0] == '\n' then 0 else 1 + LineLength(text[1..], cols - 1)
  }

  /** The text cut into lines: a full line ends where it is full, any other at its newline. */
  function Layout(text: string, cols: nat): seq<string>
    requires cols >= 1
    decreases |text|
  {
    var n := LineLength(text, cols);
    if n == cols then [text[..n]] + Layout(text[n..], cols)
    else if n == |text| then [text]
    else [text[..n]] + Layout(text[n + 1..], cols)
  }

  function PutAll(lines: seq<string>, text: string, cols: nat): (r: seq<string>)
    requires lines != []
    ensures r != []
    decreases |text|
  {
    if text == "" then lines else PutAll(Put(lines, text[0], cols), text[1..], cols)
  }

  lemma {:induction false} PutOneMore(lines: seq<string>, text: string, c: char, cols: nat)
    requires lines != []
    ensures PutAll(lines, text + [c], cols) == Put(PutAll(lines, text, cols), c, cols)
    decreases |text|
  {
    if text == "" {
      assert (text + [c])[1..] == "" && (text + [c])[0] == c;
    } else {
      assert (text + [c])[1..] == text[1..] + [c];
      PutOneMore(Put(lines, text[0], cols), text[1..], c, cols);
    }
  }

  lemma {:induction false} WrapIsPutAll(text: string, cols: nat)
    ensures Wrap(text, cols) == PutAll([""], text, cols)
  {
    hide Put;
    if text != "" {
      var front, c := text[..|text| - 1], text[|text| - 1];
      WrapIsPutAll(front, cols);
      PutOneMore([""], front, c, cols);
      assert front + [c] == text;
    }
  }

  /** Lines already finished stay as they are. */
  lemma PutBehind(done: seq<string>, lines: seq<string>, c: char, cols: nat)
    requires lines != []
    ensures Put(done + lines, c, cols) == done + Put(lines, c, cols)
  {
    var last := |lines| - 1;
    var longer := lines[last := lines[last] + [c]];
    assert (done + lines)[|done| + last := lines[last] + [c]] == done + longer;
    assert done + lines + [""] == done + (lines + [""]) && done + longer + [""] == done + (longer + [""]);
  }

  lemma {:induction false} PutAllBehind(done: seq<string>, lines: seq<string>, text: string, cols: nat)
    requires lines != []
    ensures PutAll(done + lines, text, cols) == done + PutAll(lines, text, cols)
    decreases |text|
  {
    hide Put;
    if text != "" {
      PutBehind(done, lines, text[0], cols);
      PutAllBehind(done, Put(lines, text[0], cols), text[1..], cols);
    }
  }

  lemma PutFirst(p: string, c: char, cols: nat)
    ensures Put([p], c, cols) ==
      if c == '\n' then [p] + [""] else if |p| + 1 >= cols then [p + [c]] + [""] else [p + [c]]
  {
    assert [p][0 := p + [c]] == [p + [c]];
  }

  lemma LineStep(text: string, room: nat)
    requires text != "" && text[0] != '\n' && room > 0
    ensures var rest, n := text[1..], LineLength(text[1..], room - 1);
      && LineLength(text, room) == n + 1
      && text[..n + 1] == [text[0]] + rest[..n] && text[n + 1..] == rest[n..] && text == [text[0]] + rest
      && (n < |rest| ==> text[n + 2..] == rest[n + 1..])
  {
  }

  lemma LineStops(text: string, room: nat)
    ensures text == "" || room == 0 || text[0] == '\n' ==> LineLength(text, room) == 0
  {
  }

  /** One line of the text, begun as p. */
  lemma {:induction false} FillLine(p: string, text: string, cols: nat)
    requires |p| < cols
    ensures var n := LineLength(text, cols - |p|);
      PutAll([p], text, cols) ==
        if |p| + n == cols then [p + text[..n]] + PutAll([""], text[n..], cols)
        else if n == |text| then [p + text]
        else [p + text[..n]] + PutAll([""], text[n + 1..], cols)
    decreases |text|
  {
    hide Put, LineLength;
    LineStops(text, cols - |p|);
    if text == "" {
      assert p + text == p;
    } else {
      var c, rest := text[0], text[1..];
      PutFirst(p, c, cols);
      assert PutAll([p], text, cols) == PutAll(Put([p], c, cols), rest, cols);
      if c == '\n' {
        PutAllBehind([p], [""], rest, cols);
        assert p + text[..0] == p;
      } else {
        LineStep(text, cols - |p|);
        if |p| + 1 >= cols {
          PutAllBehind([p + [c]], [""], rest, cols);
          LineStops(rest, 0);
        } else {
          FillLine(p + [c], rest, cols);
          var n := LineLength(rest, cols - |p| - 1);
          assert p + [c] + rest[..n] == p + text[..n + 1] && p + [c] + rest == p + text;
        }
      }
    }
  }

  lemma LayoutStep(text: string, cols: nat)
    requires cols >= 1
    ensures var n := LineLength(text, cols);
      Layout(text, cols) ==
        if n == cols then [text[..n]] + Layout(text[n..], cols)
        else if n == |text| then [text]
        else [text[..n]] + Layout(text[n + 1..], cols)
  {
    hide LineLength;
  }

  /** Wrapping character by character, as the screen does, is cutting the text into lines. */
  lemma {:induction false} WrapIsLayout(text: string, cols: nat)
    requires cols >= 1
    ensures Wrap(text, cols) == Layout(text, cols)
    decreases |text|
  {
    hide Put, LineLength, PutAll, Wrap, Layout;
    WrapIsPutAll(text, cols);
    var n := LineLength(text, cols);
    FillLine("", text, cols);
    LayoutStep(text, cols);
    assert "" + text[..n] == text[..n] && "" + text == text;
    if n == cols {
      WrapIsPutAll(text[n..], cols);
      WrapIsLayout(text[n..], cols);
    } else if n < |text| {
      WrapIsPutAll(text[n + 1..], cols);
      WrapIsLayout(text[n + 1..], cols);
    }
  }

  // ----- pixels -----

  /** How a screen is laid out: w by h pixels of size bytes each, pitch bytes to a line; total counts
      the lines of the window that clear() wipes. */
  datatype Geometry = Geometry(w: nat, h: nat, size: nat, pitch: nat) {
    ghost predicate Valid() {
      && h / 16 >= 2 && w / 8 >= 1 && (size == 3 || size == 4)
      && (if size == 3 then 3 * w else 4 * w) <= pitch
    }

    /** Text columns, and rows that can hold text: the lowest one is never written. */
    function Cols(): nat {
      w / 8
    }

    function Rows(): int {
      h / 16 - 1
    }

    function Total(): nat {
      if size == 3 then 3 * h else 4 * h
    }

    /** Pixel and channel of byte r of a line. */
    function Px(r: nat): nat {
      if size == 3 then r / 3 else r / 4
    }

    function Channel(r: nat): nat {
      if size == 3 then r % 3 else r % 4
    }
  }

  /** Pixel x of a glyph line is set; the leftmost pixel is the top bit. */
  predicate Lit(line: u8, x: nat)
    requires x < 8
  {
    line / [0x80, 0x40, 0x20, 0x10, 0x08, 0x04, 0x02, 0x01][x] % 2 == 1
  }

  /** The byte every colour channel of a glyph's pixel gets. */
  function Pixel(font: seq<u8>, c: char, y: nat, x: nat): u8
    requires |font| == 4096 && c < 128 as char && y < 16 && x < 8
  {
    if Lit(font[c as nat * 16 + y], x) then 0xff else 0
  }

  /** A glyph line, halved n times. */
  function Halved(line: nat, n: nat): nat {
    if n == 0 then line else Halved(line, n - 1) / 2
  }

  lemma HalvedSeven(line: u8)
    ensures Halved(line, 0) == line && Halved(line, 1) == line / 0x02 && Halved(line, 2) == line / 0x04
    ensures Halved(line, 3) == line / 0x08 && Halved(line, 4) == line / 0x10 && Halved(line, 5) == line / 0x20
    ensures Halved(line, 6) == line / 0x40 && Halved(line, 7) == line / 0x80
  {
    assert line / 0x02 / 2 == line / 0x04 && line / 0x04 / 2 == line / 0x08 && line / 0x08 / 2 == line / 0x10;
    assert line / 0x10 / 2 == line / 0x20 && line / 0x20 / 2 == line / 0x40 && line / 0x40 / 2 == line / 0x80;
  }

  lemma LitIsBit(line: u8, x: nat)
    requires x < 8
    ensures Lit(line, x) <==> Halved(line, 7 - x) % 2 == 1
  {
    HalvedSeven(line);
    assert x == 0 || x == 1 || x == 2 || x == 3 || x == 4 || x == 5 || x == 6 || x == 7;
  }

  /** The first n pixels of a glyph line, read from left to right as a binary number. */
  function ReadPixels(font: seq<u8>, c: char, y: nat, n: nat): nat
    requires |font| == 4096 && c < 128 as char && y < 16 && n <= 8
  {
    if n == 0 then 0 else 2 * ReadPixels(font, c, y, n - 1) + if Pixel(font, c, y, n - 1) == 0xff then 1 else 0
  }

  lemma {:induction false} PixelsSoFar(font: seq<u8>, c: char, y: nat, n: nat)
    requires |font| == 4096 && c < 128 as char && y < 16 && n <= 8
    ensures ReadPixels(font, c, y, n) == Halved(font[c as nat * 16 + y], 8 - n)
  {
    hide Lit;
    var line := font[c as nat * 16 + y];
    if n == 0 {
      HalvedSeven(line);
      assert Halved(line, 8) == Halved(line, 7) / 2;
    } else {
      PixelsSoFar(font, c, y, n - 1);
      LitIsBit(line, n - 1);
      assert Halved(line, 9 - n) == Halved(line, 8 - n) / 2;
    }
  }

  /** A pixel is either full or empty, and the eight pixels of a glyph line spell its byte in the font, the
      leftmost pixel the highest bit. */
  lemma GlyphSpellsFont(font: seq<u8>, c: char, y: nat)
    requires |font| == 4096 && c < 128 as char && y < 16
    ensures forall x :: 0 <= x < 8 ==> Pixel(font, c, y, x) == 0 || Pixel(font, c, y, x) == 0xff
    ensures ReadPixels(font, c, y, 8) == font[c as nat * 16 + y]
  {
    hide Lit;
    PixelsSoFar(font, c, y, 8);
  }

  /** Byte r of pixel line y when the lines from first on are shown from the top. */
  function Shown(g: Geometry, font: seq<u8>, lines: seq<string>, first: nat, y: nat, r: nat): u8
    requires |font| == 4096
  {
    var row, col := y / 16, g.Px(r) / 8;
    if row < g.Rows() && first + row < |lines| && col < |lines[first + row]| && g.Channel(r) < 3
       && lines[first + row][col] < 128 as char
    then Pixel(font, lines[first + row][col], y % 16, g.Px(r) % 8) else 0
  }
}

/** printf, print_hex and print_dec: format scanning and backwards digit filling, onto the screen. */
module Printf {
  import opened Machine
  import opened Numbers
  import Video

  // ----- what a format prints -----

  predicate IsDigit(c: char) {
    '0' <= c <= '9'
  }

  /** How many digits the string starts with. */
  function DigitRun(s: string): (n: nat)
    ensures n <= |s|
    ensures forall i :: 0 <= i < n ==> IsDigit(s[i])
    ensures n < |s| ==> !IsDigit(s[n])
  {
    if s == "" || !IsDigit(s[0]) then 0 else 1 + DigitRun(s[1..])
  }

  /** %x pads to the given width; %d ignores it; any other letter prints nothing. */
  function Converted(conversion: char, arg: u32, width: nat): string {
    if conversion == 'x' then PaddedDigits(arg, Hex, width)
    else if conversion == 'd' then Digits(arg, Dec)
    else ""
  }

  /** Whether the code may convert: the width fits a C int, zeros up to it fit the digit buffer, and an
      argument is there to be read. */
  predicate Convertible(conversion: char, width: nat, args: seq<u32>) {
    && width < 0x8000_0000
    && (conversion == 'x' ==> width <= 8)
    && (conversion == 'x' || conversion == 'd' ==> args != [])
  }

  /** The arguments behind the next one. */
  function Rest(args: seq<u32>): seq<u32> {
    if args == [] then [] else args[1..]
  }

  /** complete is false when the scan stopped early because what the code would do is undefined: the format
      ends inside a directive, a directive is not convertible, or a character has no glyph. */
  datatype Rendered = Rendered(text: string, complete: bool)

  /** r printed behind what is already there. */
  function Prefixed(text: string, r: Rendered): Rendered {
    Rendered(text + r.text, r.complete)
  }

  /** The next argument, for directives that print one. */
  function Next(args: seq<u32>): u32 {
    if args == [] then 0 else args[0]
  }

  function Render(fmt: string, args: seq<u32>): Rendered
    decreases |fmt|
  {
    if fmt == "" then Rendered("", true)
    else if fmt[0] != '%' then
      if fmt[0] >= 128 as char then Rendered("", false) else Prefixed([fmt[0]], Render(fmt[1..], args))
    else
      var n := DigitRun(fmt[1..]);
      if n + 1 >= |fmt| || !Convertible(fmt[n + 1], Value(fmt[1..n + 1], Dec), args) then Rendered("", false)
      else Prefixed(Converted(fmt[n + 1], Next(args), Value(fmt[1..n + 1], Dec)), Render(fmt[n + 2..], Rest(args)))
  }

  function Percents(fmt: string): nat {
    if fmt == "" then 0 else (if fmt[0] == '%' then 1 else 0) + Percents(fmt[1..])
  }

  /** The string at i, up to its terminator. */
  function CString(s: seq<char>, i: nat): string
    requires i <= |s|
    decreases |s| - i
  {
    if i == |s| || s[i] == '\0' then "" else [s[i]] + CString(s, i + 1)
  }

  lemma {:induction false} CStringIs(s: seq<char>, i: nat, end: nat)
    requires i <= end < |s| && s[end] == '\0'
    requires forall k :: i <= k < end ==> s[k] != '\0'
    ensures CString(s, i) == s[i..end]
    decreases end - i
  {
    if i < end {
      CStringIs(s, i + 1, end);
    }
  }

  // ----- filling the digit buffers -----

  function Power(b: Base, n: nat): nat {
    if n == 0 then 1 else b.Times(Power(b, n - 1))
  }

  lemma QuotientBound(v: nat, b: Base, n: nat)
    requires v < Power(b, n + 1)
    ensures b.Quotient(v) < Power(b, n)
  {
  }

  lemma BufferLargeEnough(v: u32)
    ensures v < Power(Hex, 8) && v < Power(Dec, 10)
  {
    assert Power(Hex, 2) == 0x100 && Power(Hex, 4) == 0x1_0000 && Power(Hex, 6) == 0x100_0000;
    assert Power(Dec, 2) == 100 && Power(Dec, 4) == 10000 && Power(Dec, 6) == 1000000 && Power(Dec, 8) == 100000000;
  }

  lemma LastDigit(v: nat, b: Base)
    ensures Digits(v, b) == (if b.Quotient(v) == 0 then "" else Digits(b.Quotient(v), b)) + [DigitChar(b.Remainder(v))]
    ensures b.Quotient(v) < v || b.Quotient(v) == v == 0
  {
    Division(v, b);
  }

  /** With one position left there is at most one digit left to print. */
  lemma Room(v: nat, b: Base, n: nat)
    requires v < Power(b, n)
    ensures n == 1 ==> b.Quotient(v) == 0
  {
    assert Power(b, 0) == 1;
  }

  /** The buffer spells s at positions start to end and holds terminators everywhere else. */
  ghost predicate Holding(str: seq<char>, start: nat, end: nat, s: string) {
    && start <= end < |str| && str[start..end] == s
    && forall k :: 0 <= k < start || end <= k < |str| ==> str[k] == '\0'
  }

  lemma Prepended(str: seq<char>, start: nat, end: nat, s: string, c: char)
    requires Holding(str, start, end, s) && start > 0
    ensures Holding(str[start - 1 := c], start - 1, end, [c] + s)
  {
    assert str[start - 1 := c][start - 1..end] == [c] + str[start..end];
  }

  lemma StillEmpty(str: seq<char>, end: nat)
    requires end < |str| && forall k :: 0 <= k < |str| ==> str[k] == '\0'
    ensures Holding(str, end, end, "")
  {
  }

  /** Walking one position down: the offset wraps below zero, the address one above it does not. */
  lemma StepDown(start: nat)
    requires 0 < start < 0x100
    ensures Add32(start - 1, 1) == start && Add32(Sub32(start - 1, 1), 1) == start - 1
    ensures start > 1 ==> Sub32(start - 1, 1) == start - 2
  {
  }

  /** One character stored in front of those already there, and the offset moved on. */
  method Store(str: array<char>, offset0: u32, c: char, ghost start: nat, ghost end: nat, ghost tail: string)
    returns (offset: u32)
    requires str.Length < 0x100 && Holding(str[..], start, end, tail) && 0 < start && offset0 == start - 1
    modifies str
    ensures Holding(str[..], start - 1, end, [c] + tail)
    ensures Add32(offset, 1) == start - 1 && (start > 1 ==> offset == start - 2)
  {
    hide Add32, Sub32;
    StepDown(start);
    Prepended(str[..], start, end, tail, c);
    str[offset0] := c;
    offset := Sub32(offset0, 1);
  }

  /** One digit taken off a value that still fits in front of position start. */
  lemma OneDigit(val: nat, base: Base, start: nat, tail: string)
    requires 0 < start && val < Power(base, start)
    ensures var rest := base.Quotient(val);
      && rest < Power(base, start - 1) && (rest < val || rest == val == 0) && (start == 1 ==> rest == 0)
      && Digits(val, base) + tail
         == (if rest != 0 then Digits(rest, base) else "") + ([DigitChar(base.Remainder(val))] + tail)
  {
    hide Digits, Power, DigitChar, Base.Quotient, Base.Remainder;
    LastDigit(val, base);
    Room(val, base, start);
    QuotientBound(val, base, start - 1);
  }

  /** The do-while loop of both functions: digits from position end - 1 downwards. offset wraps to
      0xffffffff when the whole buffer is used. */
  method FillDigits(str: array<char>, end: nat, v: u32, base: Base) returns (offset: u32, printed: nat)
    requires 0 < end < str.Length < 0x100 && v < Power(base, end)
    requires Holding(str[..], end, end, "")
    modifies str
    ensures printed == |Digits(v, base)| <= end
    ensures Add32(offset, 1) == end - printed && (printed < end ==> offset == end - printed - 1)
    ensures Holding(str[..], end - printed, end, Digits(v, base))
  {
    hide Digits, Power, DigitChar, Add32, Sub32, Holding, Base.Quotient, Base.Remainder;
    var val: nat := v;
    offset := end - 1;
    printed := 0;
    ghost var tail := "";
    StepDown(end);
    assert Digits(v, base) + tail == Digits(v, base);
    var more := true;
    while more
      invariant |tail| == printed <= end && Add32(offset, 1) == end - printed && val < Power(base, end - printed)
      invariant (more ==> printed < end) && (printed < end ==> offset == end - printed - 1)
      invariant Digits(v, base) == (if more then Digits(val, base) else "") + tail
      invariant Holding(str[..], end - printed, end, tail)
      decreases more, val
    {
      var c := DigitChar(base.Remainder(val));
      OneDigit(val, base, end - printed, tail);
      offset := Store(str, offset, c, end - printed, end, tail);
      tail := [c] + tail;
      val := base.Quotient(val);
      printed := printed + 1;
      more := val != 0;
    }
    assert "" + tail == tail;
  }

  // ----- printing -----

  /** A string without directives prints as itself. */
  lemma {:induction false} PlainPrints(s: string, args: seq<u32>)
    requires forall i :: 0 <= i < |s| ==> s[i] != '%' && s[i] < 128 as char
    ensures Render(s, args) == Rendered(s, true) && Percents(s) == 0
  {
    if s != "" {
      PlainPrints(s[1..], args);
      assert s == [s[0]] + s[1..];
    }
  }

  lemma PaddedIsPlain(v: nat, base: Base, padding: nat)
    ensures forall i :: 0 <= i < |PaddedDigits(v, base, padding)| ==>
      var c := PaddedDigits(v, base, padding)[i]; c != '%' && '0' <= c < 128 as char
  {
    forall i | 0 <= i < |Digits(v, base)| ensures Digits(v, base)[i] != '%' && '0' <= Digits(v, base)[i] < 128 as char {
      DigitsArePlain(v, base, i);
    }
  }

  lemma MoreZeros(n: nat, s: string)
    ensures Zeros(0) + s == s && ['0'] + (Zeros(n) + s) == Zeros(n + 1) + s
  {
    assert ['0'] + Zeros(n) == Zeros(n + 1);
  }

  /** The padding loop of print_hex. It stays inside the buffer exactly for widths up to 8; where it
      would write in front of it, it stops here and says so. */
  method PadZeros(str: array<char>, offset0: u32, printed: nat, padding: nat, ghost digits: string)
    returns (offset: u32, inside: bool)
    requires str.Length == 9 && printed == |digits| <= 8
    requires Add32(offset0, 1) == 8 - printed && (printed < 8 ==> offset0 == 7 - printed)
    requires Holding(str[..], 8 - printed, 8, digits)
    modifies str
    ensures inside <==> padding <= 8
    ensures inside ==>
      var n := if printed < padding then padding - printed else 0;
      Add32(offset, 1) == 8 - printed - n && Holding(str[..], 8 - printed - n, 8, Zeros(n) + digits)
  {
    hide Sub32, Holding, Zeros;
    offset := offset0;
    MoreZeros(0, digits);
    var i := 0;
    while i < padding - printed
      invariant 0 <= i <= 8 - printed && (i <= padding - printed || i == 0)
      invariant Add32(offset, 1) == 8 - printed - i && (printed + i < 8 ==> offset == 7 - printed - i)
      invariant Holding(str[..], 8 - printed - i, 8, Zeros(i) + digits)
    {
      if offset >= str.Length {
        return offset, false;
      }
      MoreZeros(i, digits);
      offset := Store(str, offset, '0', 8 - printed - i, 8, Zeros(i) + digits);
      i := i + 1;
    }
    inside := true;
  }

  lemma CStringOf(s: seq<char>, start: nat, end: nat, text: string)
    requires Holding(s, start, end, text)
    requires forall i :: 0 <= i < |text| ==> '0' <= text[i]
    ensures CString(s, start) == text
  {
    forall k | start <= k < end ensures s[k] != '\0' {
      assert s[k] == text[k - start];
    }
    CStringIs(s, start, end);
  }

  /** printf on the buffer from start on; the text has no directives, so the recursion ends here. */
  method PrintBuffer(screen: Video.Screen, str: array<char>, start: nat, end: nat, ghost text: string)
    requires screen.Valid() && Holding(str[..], start, end, text)
    requires forall i :: 0 <= i < |text| ==> text[i] != '%' && '0' <= text[i] < 128 as char
    modifies screen, screen.fb
    ensures screen.Valid() && screen.text == old(screen.text) + text
    decreases 0, 2
  {
    hide Render, Percents;
    PlainPrints(text, []);
    CStringOf(str[..], start, end, text);
    var complete := Printf(screen, CString(str[..], start), []);
  }

  method PrintHex(screen: Video.Screen, v: u32, padding: nat) returns (inside: bool)
    requires screen.Valid()
    modifies screen, screen.fb
    ensures inside <==> padding <= 8
    ensures screen.Valid() && screen.text == old(screen.text) + if inside then PaddedDigits(v, Hex, padding) else ""
    decreases 0, 3
  {
    hide Digits, Power, Holding, Video.Screen.Valid;
    var str := new char[9](_ => '\0');
    StillEmpty(str[..], 8);
    BufferLargeEnough(v);
    var offset, printed := FillDigits(str, 8, v, Hex);
    offset, inside := PadZeros(str, offset, printed, padding, Digits(v, Hex));
    if !inside {
      return;
    }
    PaddedIsPlain(v, Hex, padding);
    MoreZeros(0, Digits(v, Hex));
    PrintBuffer(screen, str, Add32(offset, 1), 8, PaddedDigits(v, Hex, padding));
  }

  method PrintDec(screen: Video.Screen, v: u32)
    requires screen.Valid()
    modifies screen, screen.fb
    ensures screen.Valid() && screen.text == old(screen.text) + Digits(v, Dec)
    decreases 0, 3
  {
    hide Digits, Power, Holding, Video.Screen.Valid;
    var str := new char[11](_ => '\0');
    StillEmpty(str[..], 10);
    BufferLargeEnough(v);
    var offset, printed := FillDigits(str, 10, v, Dec);
    PaddedIsPlain(v, Dec, 0);
    assert PaddedDigits(v, Dec, 0) == Digits(v, Dec);
    PrintBuffer(screen, str, Add32(offset, 1), 10, Digits(v, Dec));
  }

  lemma StepPlain(s: string, args: seq<u32>)
    requires s != "" && s[0] != '%'
    ensures Render(s, args) ==
      if s[0] >= 128 as char then Rendered("", false) else Prefixed([s[0]], Render(s[1..], args))
    ensures Percents(s[1..]) == Percents(s)
  {
  }

  lemma {:induction false} PercentsSuffix(s: string, i: nat)
    requires i <= |s|
    ensures Percents(s[i..]) <= Percents(s)
  {
    if i > 0 {
      PercentsSuffix(s[1..], i - 1);
      assert s[1..][i - 1..] == s[i..];
    } else {
      assert s[0..] == s;
    }
  }

  lemma StepDirective(s: string, args: seq<u32>)
    requires s != "" && s[0] == '%'
    ensures var n := DigitRun(s[1..]);
      if n + 1 == |s| || !Convertible(s[n + 1], Value(s[1..n + 1], Dec), args)
      then Render(s, args) == Rendered("", false)
      else
        && Render(s, args)
           == Prefixed(Converted(s[n + 1], Next(args), Value(s[1..n + 1], Dec)), Render(s[n + 2..], Rest(args)))
        && Percents(s[n + 2..]) <= Percents(s)
    ensures Percents(s) > 0
  {
    hide Convertible, Converted, Value, Next, Rest, Prefixed, DigitRun;
    if DigitRun(s[1..]) + 1 < |s| {
      PercentsSuffix(s, DigitRun(s[1..]) + 2);
    }
  }

  lemma RenderNothing(args: seq<u32>)
    ensures Render("", args) == Rendered("", true)
  {
  }

  /** The digits between '%' and the conversion letter. */
  method ReadWidth(fmt: string, at: nat) returns (n: nat, width: nat)
    requires at < |fmt|
    ensures n == DigitRun(fmt[at + 1..]) && width == Value(fmt[at + 1..at + 1 + n], Dec)
  {
    n, width := 0, 0;
    var c := at;
    while c + 1 < |fmt| && '0' <= fmt[c + 1] <= '9'
      invariant c == at + n < |fmt| && n <= DigitRun(fmt[at + 1..])
      invariant width == Value(fmt[at + 1..at + 1 + n], Dec)
    {
      width := width * 10;
      width := width + (fmt[c + 1] as nat - '0' as nat);
      assert fmt[at + 1..at + 2 + n][..n] == fmt[at + 1..at + 1 + n];
      c := c + 1;
      n := n + 1;
    }
  }

  /** The inner switch on the conversion letter. */
  method Convert(screen: Video.Screen, conversion: char, args: seq<u32>, width: nat) returns (inside: bool)
    requires screen.Valid()
    modifies screen, screen.fb
    ensures inside <==> Convertible(conversion, width, args)
    ensures screen.Valid()
    ensures screen.text == old(screen.text) + if inside then Converted(conversion, Next(args), width) else ""
    decreases 0, 4
  {
    hide Digits, PaddedDigits, Video.Screen.Valid;
    inside := width < 0x8000_0000 && ((conversion == 'x' || conversion == 'd') ==> args != []);
    if inside && conversion == 'x' {
      inside := PrintHex(screen, args[0], width);
    } else if inside && conversion == 'd' {
      PrintDec(screen, args[0]);
    }
  }

  /** The rest of a format behind a '%' at c with n digits, cut in pieces. */
  lemma TailSlices(fmt: string, c: nat, n: nat)
    requires c + 1 + n <= |fmt|
    ensures fmt[c..][1..] == fmt[c + 1..] && fmt[c..][1..n + 1] == fmt[c + 1..c + 1 + n]
    ensures c + n + 2 <= |fmt| ==> fmt[c..][n + 2..] == fmt[c + n + 2..]
  {
    var x, y := fmt[c..][1..n + 1], fmt[c + 1..c + 1 + n];
    forall k | 0 <= k < n ensures x[k] == y[k] {
      assert x[k] == fmt[c..][1 + k] && y[k] == fmt[c + 1 + k];
    }
  }

  /** fmt is the format up to its terminator. False when what the code would do next is undefined; the
      scan stops there. */
  method Printf(screen: Video.Screen, fmt: string, args: seq<u32>) returns (complete: bool)
    requires screen.Valid()
    modifies screen, screen.fb
    ensures screen.Valid()
    ensures Rendered(screen.text, complete) == Prefixed(old(screen.text), Render(fmt, args))
    decreases Percents(fmt), 1
  {
    hide Render, Percents, Value, Digits, PaddedDigits, Converted, Convertible, DigitRun, Video.Screen.Valid;
    var c: nat, vaArgs := 0, args;
    ghost var left := fmt;
    while c < |fmt|
      invariant c <= |fmt| && left == fmt[c..] && screen.Valid()
      invariant Prefixed(screen.text, Render(left, vaArgs)) == Prefixed(old(screen.text), Render(fmt, args))
      invariant Percents(left) <= Percents(fmt)
    {
      if fmt[c] == '%' {
        var n, width := ReadWidth(fmt, c);
        StepDirective(left, vaArgs);
        TailSlices(fmt, c, n);
        if c + 1 + n == |fmt| {
          return false;
        }
        var inside := Convert(screen, fmt[c + 1 + n], vaArgs, width);
        if !inside {
          return false;
        }
        vaArgs := Rest(vaArgs);
        c := c + n + 2;
        left := left[n + 2..];
      } else {
        StepPlain(left, vaArgs);
        if fmt[c] >= 128 as char {
          return false;
        }
        screen.Putc(fmt[c]);
        c := c + 1;
        left := left[1..];
      }
    }
    RenderNothing(vaArgs);
    complete := true;
  }

  // ----- which formats are scanned safely -----

  /** A format as its author means it: 7-bit letters, and directives with a conversion letter and a width
      that for %x is at most 8. */
  datatype Item = Letter(c: char) | Directive(width: string, conversion: char) {
    predicate Proper() {
      if Letter? then c != '%' && c < 128 as char
      else
        && !IsDigit(conversion) && (forall i :: 0 <= i < |width| ==> IsDigit(width[i]))
        && Value(width, Dec) < 0x8000_0000 && (conversion == 'x' ==> Value(width, Dec) <= 8)
    }

    function Spelling(): (s: string)
      ensures s != ""
    {
      if Letter? then [c] else ['%'] + width + [conversion]
    }
  }

  function Spell(items: seq<Item>): string {
    if items == [] then "" else items[0].Spelling() + Spell(items[1..])
  }

  ghost predicate AllProper(items: seq<Item>) {
    forall i :: 0 <= i < |items| ==> items[i].Proper()
  }

  /** How many of the first n items are directives: each takes one argument, printed or not. */
  function DirectivesBefore(items: seq<Item>, n: nat): (k: nat)
    requires n <= |items|
    ensures k <= n
  {
    if n == 0 then 0 else DirectivesBefore(items, n - 1) + if items[n - 1].Directive? then 1 else 0
  }

  /** The argument of item i is there, if it prints one. */
  predicate Finds(items: seq<Item>, args: seq<u32>, i: nat)
    requires i < |items|
  {
    items[i].Directive? && (items[i].conversion == 'x' || items[i].conversion == 'd') ==>
      DirectivesBefore(items, i) < |args|
  }

  /** Every directive that prints finds its argument. */
  ghost predicate Supplied(items: seq<Item>, args: seq<u32>) {
    forall i {:trigger Finds(items, args, i)} :: 0 <= i < |items| ==> Finds(items, args, i)
  }

  /** What item i prints: a letter itself, %d its argument in decimal, %x its argument in hexadecimal with at
      least as many digits as its width says, any other directive nothing. The k-th directive takes args[k]. */
  function Piece(items: seq<Item>, args: seq<u32>, i: nat): string
    requires i < |items| && Finds(items, args, i)
  {
    if items[i].Letter? then [items[i].c]
    else if items[i].conversion == 'd' then Digits(args[DirectivesBefore(items, i)], Dec)
    else if items[i].conversion == 'x' then
      PaddedDigits(args[DirectivesBefore(items, i)], Hex, Value(items[i].width, Dec))
    else ""
  }

  /** The pieces of the items from i on. */
  ghost function Pieces(items: seq<Item>, args: seq<u32>, i: nat): string
    requires i <= |items| && Supplied(items, args)
    decreases |items| - i
  {
    if i == |items| then ""
    else
      assert Finds(items, args, i);
      Piece(items, args, i) + Pieces(items, args, i + 1)
  }

  /** The arguments left for the items from i on. */
  function ArgsLeft(items: seq<Item>, args: seq<u32>, i: nat): seq<u32>
    requires i <= |items|
  {
    if DirectivesBefore(items, i) <= |args| then args[DirectivesBefore(items, i)..] else []
  }

  lemma ArgsStep(items: seq<Item>, args: seq<u32>, i: nat)
    requires i < |items|
    ensures ArgsLeft(items, args, i + 1) ==
      if items[i].Letter? then ArgsLeft(items, args, i) else Rest(ArgsLeft(items, args, i))
    ensures ArgsLeft(items, args, i) != [] <==> DirectivesBefore(items, i) < |args|
    ensures DirectivesBefore(items, i) < |args| ==> Next(ArgsLeft(items, args, i)) == args[DirectivesBefore(items, i)]
  {
  }

  lemma {:induction false} RunLength(width: string, s: string)
    requires forall i :: 0 <= i < |width| ==> IsDigit(width[i])
    requires s != "" ==> !IsDigit(s[0])
    ensures DigitRun(width + s) == |width|
  {
    if width == "" {
      assert width + s == s;
    } else {
      assert (width + s)[1..] == width[1..] + s;
      RunLength(width[1..], s);
    }
  }

  lemma SpellingApart(d: Item, rest: string)
    requires d.Directive?
    ensures var s, n := d.Spelling() + rest, |d.width|;
      && s[1..] == d.width + ([d.conversion] + rest)
      && s[1..n + 1] == d.width && s[n + 1] == d.conversion && s[n + 2..] == rest
  {
    var s := d.Spelling() + rest;
    assert s == ['%'] + (d.width + ([d.conversion] + rest));
  }

  /** A directive in front of more format, taken apart by the scan. */
  lemma DirectiveRenders(d: Item, rest: string, args: seq<u32>)
    requires d.Directive? && d.Proper() && ((d.conversion == 'x' || d.conversion == 'd') ==> args != [])
    ensures Render(d.Spelling() + rest, args)
      == Prefixed(Converted(d.conversion, Next(args), Value(d.width, Dec)), Render(rest, Rest(args)))
  {
    hide Converted, Value, Prefixed, Next, Rest, DigitRun;
    var w, k := d.width, [d.conversion];
    var s := d.Spelling() + rest;
    RunLength(w, k + rest);
    SpellingApart(d, rest);
  }

  lemma LetterRenders(c: char, rest: string, args: seq<u32>)
    requires Letter(c).Proper()
    ensures Render([c] + rest, args) == Prefixed([c], Render(rest, args))
  {
    assert ([c] + rest)[1..] == rest;
  }

  lemma {:induction false} PiecesPrint(items: seq<Item>, args: seq<u32>, i: nat)
    requires i <= |items| && AllProper(items) && Supplied(items, args)
    ensures Render(Spell(items[i..]), ArgsLeft(items, args, i)) == Rendered(Pieces(items, args, i), true)
    decreases |items| - i
  {
    hide Render, Value, Item.Proper, ArgsLeft, Rest, Next, DirectivesBefore, PaddedDigits, Digits;
    if i == |items| {
      RenderNothing(ArgsLeft(items, args, i));
    } else {
      var rest := Spell(items[i + 1..]);
      assert items[i..][0] == items[i] && items[i..][1..] == items[i + 1..];
      assert items[i].Proper() && Finds(items, args, i);
      ArgsStep(items, args, i);
      PiecesPrint(items, args, i + 1);
      if items[i].Letter? {
        LetterRenders(items[i].c, rest, ArgsLeft(items, args, i));
      } else {
        DirectiveRenders(items[i], rest, ArgsLeft(items, args, i));
      }
    }
  }

  /** A well-spelled format whose directives find their arguments prints its pieces in order and stays inside
      the string. */
  lemma SpelledPrints(items: seq<Item>, args: seq<u32>)
    requires AllProper(items) && Supplied(items, args)
    ensures Render(Spell(items), args) == Rendered(Pieces(items, args, 0), true)
  {
    hide Render, Pieces, Spell, Supplied;
    PiecesPrint(items, args, 0);
    assert items[0..] == items && ArgsLeft(items, args, 0) == args;
  }

  /** The first directive of a format, taken apart. */
  lemma DirectiveApart(fmt: string, args: seq<u32>)
    requires fmt != "" && fmt[0] == '%' && DigitRun(fmt[1..]) + 1 < |fmt|
    requires Convertible(fmt[DigitRun(fmt[1..]) + 1], Value(fmt[1..DigitRun(fmt[1..]) + 1], Dec), args)
    ensures var n := DigitRun(fmt[1..]);
      && Directive(fmt[1..n + 1], fmt[n + 1]).Proper()
      && fmt == Directive(fmt[1..n + 1], fmt[n + 1]).Spelling() + fmt[n + 2..]
  {
    hide Value, DigitRun;
    var n := DigitRun(fmt[1..]);
    var tail, width := fmt[1..], fmt[1..n + 1];
    assert tail[n] == fmt[n + 1];
    assert fmt == ['%'] + width + [fmt[n + 1]] + fmt[n + 2..];
    forall i | 0 <= i < |width| ensures IsDigit(width[i]) {
      assert width[i] == tail[i];
    }
  }

  lemma SpellOne(first: Item, rest: seq<Item>)
    requires first.Proper() && AllProper(rest)
    ensures AllProper([first] + rest) && Spell([first] + rest) == first.Spelling() + Spell(rest)
  {
    assert ([first] + rest)[1..] == rest;
  }

  lemma {:induction false} CountBehind(first: Item, rest: seq<Item>, n: nat)
    requires n <= |rest|
    ensures DirectivesBefore([first] + rest, n + 1) == DirectivesBefore(rest, n) + if first.Directive? then 1 else 0
  {
    if n > 0 {
      CountBehind(first, rest, n - 1);
    }
  }

  /** One more item in front, supplied from one more argument. */
  lemma SupplyOne(first: Item, rest: seq<Item>, args: seq<u32>)
    requires first.Directive? && (first.conversion == 'x' || first.conversion == 'd') ==> args != []
    requires Supplied(rest, if first.Letter? then args else Rest(args))
    ensures Supplied([first] + rest, args)
  {
    var items := [first] + rest;
    forall i | 0 <= i < |items| ensures Finds(items, args, i) {
      if i > 0 {
        CountBehind(first, rest, i - 1);
        assert Finds(rest, if first.Letter? then args else Rest(args), i - 1);
      }
    }
  }

  lemma SpellNone(args: seq<u32>)
    ensures Spell([]) == "" && AllProper([]) && Supplied([], args)
  {
  }

  /** What a completed scan has read. */
  lemma {:induction false} ScanSpells(fmt: string, args: seq<u32>) returns (items: seq<Item>)
    requires Render(fmt, args).complete
    ensures AllProper(items) && Spell(items) == fmt && Supplied(items, args)
    decreases |fmt|
  {
    hide Converted, Value, DigitRun, Spell, AllProper, Supplied;
    if fmt == "" {
      items := [];
      SpellNone(args);
    } else if fmt[0] != '%' {
      var rest := ScanSpells(fmt[1..], args);
      SpellOne(Letter(fmt[0]), rest);
      SupplyOne(Letter(fmt[0]), rest, args);
      items := [Letter(fmt[0])] + rest;
    } else {
      DirectiveApart(fmt, args);
      var n := DigitRun(fmt[1..]);
      var rest := ScanSpells(fmt[n + 2..], Rest(args));
      SpellOne(Directive(fmt[1..n + 1], fmt[n + 1]), rest);
      SupplyOne(Directive(fmt[1..n + 1], fmt[n + 1]), rest, args);
      items := [Directive(fmt[1..n + 1], fmt[n + 1])] + rest;
    }
  }

  /** printf stays inside its format, its digit buffer, its arguments, the font and the range of int
      exactly when the format is a sequence of 7-bit letters and complete directives with widths below
      2^31, no %x is wider than 8, and there is an argument for each directive that prints. */
  lemma ScanStaysInsideIff(fmt: string, args: seq<u32>)
    ensures Render(fmt, args).complete
      <==> exists items :: AllProper(items) && Spell(items) == fmt && Supplied(items, args)
  {
    if Render(fmt, args).complete {
      var items := ScanSpells(fmt, args);
    }
    forall items | AllProper(items) && Spell(items) == fmt && Supplied(items, args) ensures Render(fmt, args).complete {
      SpelledPrints(items, args);
    }
  }

  /** Two numbers, the first argument first. */
  lemma TwoNumbers(a: u32, b: u32)
    ensures Render("%d.%x", [a, b]) == Rendered(Digits(a, Dec) + "." + Digits(b, Hex), true)
  {
    hide Digits;
    assert DigitRun("d.%x") == 0 == DigitRun("x");
    assert "%d.%x"[1..] == "d.%x" && "%d.%x"[1..1] == "" && "%d.%x"[2..] == ".%x" && ".%x"[1..] == "%x";
    assert "%x"[1..] == "x" && "%x"[1..1] == "" && "%x"[2..] == "" && [a, b][1..] == [b];
    assert PaddedDigits(b, Hex, 0) == Digits(b, Hex);
    assert Render("%x", [b]) == Rendered(Digits(b, Hex), true);
    assert Render(".%x", [b]) == Rendered("." + Digits(b, Hex), true);
    assert Digits(a, Dec) + ("." + Digits(b, Hex)) == Digits(a, Dec) + "." + Digits(b, Hex);
  }

  /** The shortest format that runs over its terminator. */
  lemma LonePercentOverruns()
    ensures !Render("%", []).complete
  {
  }

  /** The narrowest width whose zeros do not fit the buffer, with any argument. */
  lemma WidthNineOverruns(v: u32)
    ensures Render("%8x", [v]).complete && !Render("%9x", [v]).complete
  {
    assert DigitRun("8x") == 1 == DigitRun("9x");
    assert "%8x"[1..] == "8x" && "%9x"[1..] == "9x" && "%8x"[1..2] == "8" && "%9x"[1..2] == "9" && "%8x"[3..] == "";
    assert Value("", Dec) == 0 && "8"[..0] == "" == "9"[..0];
    assert Value("8", Dec) == 8 && Value("9", Dec) == 9;
  }
}

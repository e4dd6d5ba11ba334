/** Numbers as digit strings, most significant digit first. */
module Numbers {
  const HEX_DIGITS: string := "0123456789abcdef"

  /** hex_digits[d]; for d below 10 also d + '0'. */
  function DigitChar(d: nat): char
    requires d < 16
  {
    HEX_DIGITS[d]
  }

  /** The two bases printed. */
  datatype Base = Dec | Hex {
    function Count(): nat {
      if Hex? then 16 else 10
    }

    function Quotient(v: nat): nat {
      if Hex? then v / 16 else v / 10
    }

    function Remainder(v: nat): (d: nat)
      ensures d < 16 && (Dec? ==> d < 10)
    {
      if Hex? then v % 16 else v % 10
    }

    function Times(v: nat): nat {
      if Hex? then 16 * v else 10 * v
    }
  }

  lemma Division(v: nat, base: Base)
    ensures base.Times(base.Quotient(v)) + base.Remainder(v) == v
    ensures base.Quotient(v) < v || v == 0
    ensures base.Quotient(v) == 0 <==> v < base.Count()
  {
  }

  function Digits(v: nat, base: Base): (s: string)
    ensures s != ""
  {
    (if v < base.Count() then "" else Digits(base.Quotient(v), base)) + [DigitChar(base.Remainder(v))]
  }

  /** The value of one digit, and of a string of them. */
  function DigitValue(c: char): nat {
    if '0' <= c <= '9' then c as nat - '0' as nat else if 'a' <= c <= 'f' then c as nat - 'a' as nat + 10 else 0
  }

  function Value(s: string, base: Base): nat {
    if s == "" then 0 else base.Times(Value(s[..|s| - 1], base)) + DigitValue(s[|s| - 1])
  }

  function Zeros(n: nat): (s: string)
    ensures |s| == n
  {
    seq(n, _ => '0')
  }

  /** At least padding digits. */
  function PaddedDigits(v: nat, base: Base, padding: nat): string {
    var s := Digits(v, base);
    if |s| < padding then Zeros(padding - |s|) + s else s
  }

  lemma DigitOf(d: nat)
    requires d < 16
    ensures DigitValue(DigitChar(d)) == d && (DigitChar(d) == '0' <==> d == 0)
    ensures DigitChar(d) != '%' && DigitChar(d) != '\n' && '0' <= DigitChar(d) < 128 as char
    ensures d < 10 ==> DigitChar(d) == '0' + d as char
  {
  }

  /** Decimal and hexadecimal, spelled out: one more digit at the end is ten or sixteen times the rest plus
      that digit, printed with the characters 0 to 9 and a to f. */
  lemma DigitsStep(v: nat, d: nat)
    ensures d < 10 ==> Digits(10 * v + d, Dec) == (if v == 0 then "" else Digits(v, Dec)) + ["0123456789"[d]]
    ensures d < 16 ==> Digits(16 * v + d, Hex) == (if v == 0 then "" else Digits(v, Hex)) + ["0123456789abcdef"[d]]
  {
    if d < 10 {
      assert (10 * v + d) / 10 == v && (10 * v + d) % 10 == d;
    }
    if d < 16 {
      assert (16 * v + d) / 16 == v && (16 * v + d) % 16 == d;
    }
  }

  lemma ValueStep(s: string, c: char)
    ensures Value("", Dec) == 0 == Value("", Hex)
    ensures '0' <= c <= '9' ==> Value(s + [c], Dec) == 10 * Value(s, Dec) + (c as nat - '0' as nat)
    ensures '0' <= c <= '9' ==> Value(s + [c], Hex) == 16 * Value(s, Hex) + (c as nat - '0' as nat)
    ensures 'a' <= c <= 'f' ==> Value(s + [c], Hex) == 16 * Value(s, Hex) + 10 + (c as nat - 'a' as nat)
  {
    assert (s + [c])[..|s|] == s;
  }

  /** The digits read back to the value. */
  lemma {:induction false} DigitsRead(v: nat, base: Base)
    ensures Value(Digits(v, base), base) == v
  {
    DigitOf(base.Remainder(v));
    Division(v, base);
    var s := Digits(v, base);
    if v < base.Count() {
      assert s[..|s| - 1] == "";
    } else {
      DigitsRead(base.Quotient(v), base);
      assert s[..|s| - 1] == Digits(base.Quotient(v), base);
    }
  }

  /** No leading zero, except the single digit of zero. */
  lemma {:induction false} NoLeadingZero(v: nat, base: Base)
    ensures Digits(v, base)[0] == '0' <==> v == 0
    ensures v == 0 ==> |Digits(v, base)| == 1
  {
    DigitOf(base.Remainder(v));
    Division(v, base);
    if v >= base.Count() {
      NoLeadingZero(base.Quotient(v), base);
    }
  }

  lemma {:induction false} LeadingZeros(n: nat, s: string, base: Base)
    ensures Value(Zeros(n) + s, base) == Value(s, base)
  {
    var z := Zeros(n) + s;
    if s != "" {
      assert z[..|z| - 1] == Zeros(n) + s[..|s| - 1];
      LeadingZeros(n, s[..|s| - 1], base);
    } else if n > 0 {
      assert z[..|z| - 1] == Zeros(n - 1) + "";
      LeadingZeros(n - 1, "", base);
    } else {
      assert z == "";
    }
  }

  /** Padding keeps the value; the length is the larger of the padding and what the value needs. */
  lemma PaddedRead(v: nat, base: Base, padding: nat)
    ensures Value(PaddedDigits(v, base, padding), base) == v
    ensures |PaddedDigits(v, base, padding)| == if |Digits(v, base)| < padding then padding else |Digits(v, base)|
    ensures |PaddedDigits(v, base, padding)| > padding ==> (PaddedDigits(v, base, padding)[0] == '0' <==> v == 0)
  {
    DigitsRead(v, base);
    NoLeadingZero(v, base);
    var s := Digits(v, base);
    if |s| < padding {
      LeadingZeros(padding - |s|, s, base);
    }
  }

  /** No digit is a format directive. */
  lemma {:induction false} DigitsArePlain(v: nat, base: Base, i: nat)
    requires i < |Digits(v, base)|
    ensures Digits(v, base)[i] != '%' && '0' <= Digits(v, base)[i] < 128 as char
  {
    DigitOf(base.Remainder(v));
    Division(v, base);
    if v >= base.Count() && i < |Digits(base.Quotient(v), base)| {
      DigitsArePlain(base.Quotient(v), base, i);
    }
  }
}

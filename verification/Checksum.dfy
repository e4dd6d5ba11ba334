/** One's-complement checksums: the folded sum of RFC 1071, computed two ways. */
module Checksum {
  import opened Machine

  /** The word with its two bytes exchanged, as between host and network order. */
  function Swap(v: u16): u16 {
    v / 0x100 + v % 0x100 * 0x100
  }

  lemma SwapTwice(v: u16)
    ensures Swap(Swap(v)) == v
  {
    assert Swap(v) / 0x100 == v % 0x100 && Swap(v) % 0x100 == v / 0x100;
  }

  /** It exchanges the bytes. */
  lemma SwapExchanges(lo: u8, hi: u8)
    ensures Swap(LittleWord(lo, hi)) == LittleWord(hi, lo)
  {
    assert LittleWord(lo, hi) / 0x100 == hi && LittleWord(lo, hi) % 0x100 == lo;
  }

  /** The bytes of a 16-bit word as this little-endian machine stores it. */
  function Bytes16(v: u16): (b: seq<u8>)
    ensures |b| == 2
  {
    [v % 0x100, v / 0x100]
  }

  /** Sum of the 16-bit words of b read little-endian; an odd last byte does not count. */
  function SumLittle(b: seq<u8>): nat {
    if |b| < 2 then 0 else b[0] as int + 0x100 * (b[1] as int) + SumLittle(b[2..])
  }

  /** The same words in network order. */
  function SumBig(b: seq<u8>): nat {
    if |b| < 2 then 0 else 0x100 * (b[0] as int) + b[1] as int + SumBig(b[2..])
  }

  /** The one's-complement value of a sum: congruent to it modulo 65535, zero only for zero. */
  function Fold(x: nat): u16 {
    if x == 0 then 0 else 1 + (x - 1) % 0xffff
  }

  // ----- what Fold means -----

  lemma FoldMeaning(x: nat)
    ensures Fold(x) % 0xffff == x % 0xffff
    ensures Fold(x) == 0 <==> x == 0
    ensures forall r: u16 :: r % 0xffff == x % 0xffff && (r == 0 <==> x == 0) ==> r == Fold(x)
  {
  }

  lemma FoldSmall(x: u16)
    ensures Fold(x) == x
  {
  }

  lemma FoldShift(x: nat, k: nat)
    requires x > 0
    ensures Fold(x + 0xffff * k) == Fold(x)
  {
    assert (x - 1 + 0xffff * k) % 0xffff == (x - 1) % 0xffff;
  }

  /** How far a sum lies above its folded value. */
  lemma FoldExcess(x: nat) returns (k: nat)
    ensures x == Fold(x) + 0xffff * k
  {
    k := if x == 0 then 0 else (x - 1) / 0xffff;
  }

  /** A word sum plus the complement of its folded value folds to all ones. */
  lemma Verifies(s: nat)
    ensures Fold(s + (0xffff - Fold(s))) == 0xffff
  {
    var k := FoldExcess(s);
    FoldShift(0xffff, k);
  }

  lemma FillsUp(s: nat)
    ensures (s + (0xffff - Fold(s))) % 0xffff == 0
  {
    hide Fold;
    Verifies(s);
    FoldMeaning(s + (0xffff - Fold(s)));
  }

  // ----- the two algorithms -----

  /** One addition of the UDP loop: the carry is folded back at once. */
  function AddFold(c: u16, w: u16): u16 {
    var sum := c as int + w as int;
    if sum / 0x1_0000 % 2 == 1 then sum % 0x1_0000 + 1 else sum
  }

  lemma AddFoldStep(s: nat, w: u16)
    ensures AddFold(Fold(s), w) == Fold(s + w)
  {
    var k := FoldExcess(s);
    var sum := Fold(s) as int + w as int;
    if sum > 0 {
      FoldShift(sum, k);
      if sum >= 0x1_0000 {
        FoldShift(sum - 0xffff, 1);
        FoldSmall(sum - 0xffff);
      } else {
        FoldSmall(sum);
      }
    }
  }

  /** One round of the IP loop leaves the folded value alone and shrinks the sum. */
  lemma DeferredStep(sum: nat)
    requires sum >= 0x1_0000
    ensures Fold(sum % 0x1_0000 + sum / 0x1_0000) == Fold(sum)
    ensures sum % 0x1_0000 + sum / 0x1_0000 < sum
  {
    FoldShift(sum % 0x1_0000 + sum / 0x1_0000, sum / 0x1_0000);
  }

  lemma {:induction false} SumLittleAppend(a: seq<u8>, b: seq<u8>)
    requires |a| % 2 == 0
    ensures SumLittle(a + b) == SumLittle(a) + SumLittle(b)
  {
    if a == [] {
      assert a + b == b;
    } else {
      assert (a + b)[2..] == a[2..] + b;
      SumLittleAppend(a[2..], b);
    }
  }

  lemma {:induction false} SumBigAppend(a: seq<u8>, b: seq<u8>)
    requires |a| % 2 == 0
    ensures SumBig(a + b) == SumBig(a) + SumBig(b)
  {
    if a == [] {
      assert a + b == b;
    } else {
      assert (a + b)[2..] == a[2..] + b;
      SumBigAppend(a[2..], b);
    }
  }

  lemma OneWord(lo: u8, hi: u8)
    ensures SumLittle([lo, hi]) == LittleWord(lo, hi) && SumBig([lo, hi]) == Swap(LittleWord(lo, hi))
  {
    assert [lo, hi][2..] == [];
  }

  /** Summing one more word of data. */
  lemma NextWord(data: seq<u8>, i: nat)
    requires 2 * i + 2 <= |data|
    ensures SumLittle(data[..2 * i + 2]) == SumLittle(data[..2 * i]) + LittleWord(data[2 * i], data[2 * i + 1])
    ensures SumBig(data[..2 * i + 2]) == SumBig(data[..2 * i]) + Swap(LittleWord(data[2 * i], data[2 * i + 1]))
  {
    hide SumLittle, SumBig, Swap, LittleWord;
    var w := [data[2 * i], data[2 * i + 1]];
    assert data[..2 * i + 2] == data[..2 * i] + w;
    SumLittleAppend(data[..2 * i], w);
    SumBigAppend(data[..2 * i], w);
    OneWord(data[2 * i], data[2 * i + 1]);
  }

  ghost predicate AllZero(b: seq<u8>) {
    forall i :: 0 <= i < |b| ==> b[i] == 0
  }

  /** A sum of words is zero only when every byte is. */
  lemma {:induction false} ZeroSum(b: seq<u8>)
    requires |b| % 2 == 0
    ensures SumLittle(b) == 0 <==> AllZero(b)
  {
    if b != [] {
      ZeroSum(b[2..]);
      assert AllZero(b) ==> AllZero(b[2..]);
      if SumLittle(b) == 0 {
        forall i | 0 <= i < |b| ensures b[i] == 0 {
          assert i >= 2 ==> b[i] == b[2..][i - 2];
        }
      }
    }
  }

  // ----- byte order -----

  lemma {:induction false} ByteOrder(b: seq<u8>) returns (k: nat)
    requires |b| % 2 == 0
    ensures 0x100 * SumLittle(b) == SumBig(b) + 0xffff * k
    ensures SumLittle(b) == 0 <==> SumBig(b) == 0
  {
    if b == [] {
      k := 0;
    } else {
      var rest := ByteOrder(b[2..]);
      k := rest + b[1];
    }
  }

  lemma SwapIsShift(c: u16)
    ensures 0x100 * c == Swap(c) + 0xffff * (c / 0x100)
    ensures Swap(c) == 0 <==> c == 0
  {
  }

  /** Both folded sums are zero for all-zero bytes and for no others. */
  lemma FoldedZeroIff(b: seq<u8>)
    requires |b| % 2 == 0
    ensures Fold(SumLittle(b)) == 0 <==> AllZero(b)
    ensures Fold(SumBig(b)) == 0 <==> AllZero(b)
  {
    hide AllZero;
    ZeroSum(b);
    var k := ByteOrder(b);
    FoldMeaning(SumLittle(b));
    FoldMeaning(SumBig(b));
  }

  /** The two algorithms agree up to a byte swap on the same bytes (section 2(B) of RFC 1071). */
  lemma ByteOrderIndependent(b: seq<u8>)
    requires |b| % 2 == 0
    ensures Fold(SumBig(b)) == Swap(Fold(SumLittle(b)))
  {
    hide Fold, Swap, SumLittle, SumBig;
    var k := ByteOrder(b);
    var c := Fold(SumLittle(b));
    var e := FoldExcess(SumLittle(b));
    SwapIsShift(c);
    FoldMeaning(SumLittle(b));
    FoldMeaning(SumBig(b));
    if SumBig(b) > 0 {
      FoldShift(SumBig(b), k);
      FoldShift(Swap(c), c / 0x100 + 0x100 * e);
      FoldSmall(Swap(c));
    }
  }
}

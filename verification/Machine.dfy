/** Machine integers of the 32-bit target and little-endian access to byte memory. */
module Machine {
  type u8 = x: int | 0 <= x < 0x100
  type u16 = x: int | 0 <= x < 0x1_0000
  type u32 = x: int | 0 <= x < 0x1_0000_0000

  /** Unsigned 32-bit addition and subtraction wrap around. */
  function Add32(a: u32, b: u32): u32 {
    (a + b) % 0x1_0000_0000
  }

  function Sub32(a: u32, b: u32): u32 {
    (a - b) % 0x1_0000_0000
  }

  /** The word this machine loads from two bytes, the lower one first. */
  function LittleWord(lo: u8, hi: u8): u16 {
    lo as int + 0x100 * (hi as int)
  }

  /** The word stored at byte address a. */
  function Get16(m: seq<u8>, a: nat): u16
    requires a + 2 <= |m|
  {
    LittleWord(m[a], m[a + 1])
  }

  method Load16(mem: array<u8>, a: nat) returns (v: u16)
    requires a + 2 <= mem.Length
    ensures v == Get16(mem[..], a)
  {
    v := mem[a] as int + 0x100 * (mem[a + 1] as int);
  }

  /** The dword stored at byte address a, least significant byte first. */
  function Get32(m: seq<u8>, a: nat): u32
    requires a + 4 <= |m|
  {
    m[a] as int + 0x100 * (m[a + 1] as int) + 0x1_0000 * (m[a + 2] as int) + 0x100_0000 * (m[a + 3] as int)
  }

  /** The same load, performed on the machine's memory. */
  method Load32(mem: array<u8>, a: nat) returns (v: u32)
    requires a + 4 <= mem.Length
    ensures v == Get32(mem[..], a)
  {
    v := mem[a] as int + 0x100 * (mem[a + 1] as int) + 0x1_0000 * (mem[a + 2] as int)
         + 0x100_0000 * (mem[a + 3] as int);
  }

  /** The four bytes of a dword make it up again. */
  lemma FourBytes(v: u32)
    ensures v / 0x100_0000 < 0x100
    ensures v == v % 0x100 + 0x100 * (v / 0x100 % 0x100)
      + 0x1_0000 * (v / 0x1_0000 % 0x100) + 0x100_0000 * (v / 0x100_0000)
  {
    assert v == 0x100 * (v / 0x100) + v % 0x100;
    assert v / 0x100 == 0x100 * (v / 0x100 / 0x100) + v / 0x100 % 0x100;
    assert v / 0x100 / 0x100 == v / 0x1_0000;
    assert v / 0x1_0000 == 0x100 * (v / 0x1_0000 / 0x100) + v / 0x1_0000 % 0x100;
    assert v / 0x1_0000 / 0x100 == v / 0x100_0000;
  }

  /** The dword at a became v and no other byte changed. */
  ghost predicate Stored32(m: seq<u8>, m': seq<u8>, a: nat, v: u32) {
    && a + 4 <= |m| && |m'| == |m| && Get32(m', a) == v
    && forall x :: 0 <= x < |m| && !(a <= x < a + 4) ==> m'[x] == m[x]
  }

  method Store32(mem: array<u8>, a: nat, v: u32)
    requires a + 4 <= mem.Length
    modifies mem
    ensures Stored32(old(mem[..]), mem[..], a, v)
  {
    FourBytes(v);
    mem[a] := v % 0x100;
    mem[a + 1] := v / 0x100 % 0x100;
    mem[a + 2] := v / 0x1_0000 % 0x100;
    mem[a + 3] := v / 0x100_0000;
  }

  /** Only bytes of [lo, hi) changed. */
  ghost predicate OnlyWithin(m: seq<u8>, m': seq<u8>, lo: nat, hi: nat) {
    |m'| == |m| && forall x :: 0 <= x < |m| && !(lo <= x < hi) ==> m'[x] == m[x]
  }

  lemma WordKept(m: seq<u8>, m': seq<u8>, lo: nat, hi: nat, b: nat)
    requires OnlyWithin(m, m', lo, hi) && b + 4 <= |m| && (b + 4 <= lo || hi <= b)
    ensures |m'| == |m| && Get32(m', b) == Get32(m, b)
  {
  }

  // ----- division -----

  lemma Multiple(d: int, n: nat)
    ensures d >= 1 ==> d * n >= n
    ensures d <= -1 ==> d * n + n <= 0
  {
  }

  lemma Remainder(x: nat, q: nat, r: nat, n: nat)
    requires r < n && x == q * n + r
    ensures x % n == r
  {
    var d := x / n - q;
    assert d * n == r - x % n by {
      assert x == x / n * n + x % n;
      assert d * n == x / n * n - q * n;
    }
    Multiple(d, n);
  }
}

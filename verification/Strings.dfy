/** memcpy and memset as the string instructions perform them: one byte at a time, upwards. */
module Strings {
  import opened Machine

  /** dst with n bytes of src, from s on, written at d. */
  function Overwrite(dst: seq<u8>, d: nat, src: seq<u8>, s: nat, n: nat): (r: seq<u8>)
    requires d + n <= |dst| && s + n <= |src|
    ensures |r| == |dst|
    ensures forall x :: 0 <= x < |r| ==> r[x] == if d <= x < d + n then src[s + x - d] else dst[x]
  {
    dst[..d] + src[s..s + n] + dst[d + n..]
  }

  /** The ascending copy inside one buffer, byte by byte: a byte already written may be read again. */
  function Ascending(m: seq<u8>, d: nat, s: nat, n: nat): (r: seq<u8>)
    requires d + n <= |m| && s + n <= |m|
    ensures |r| == |m|
  {
    if n == 0 then m
    else
      var r := Ascending(m, d, s, n - 1);
      r[d + n - 1 := r[s + n - 1]]
  }

  function Modulo(k: nat, p: nat): (r: nat)
    requires p > 0
    ensures r <= k && (k < p ==> r == k)
  {
    k % p
  }

  /** Where byte k of the copy comes from: a target that starts p bytes inside its source repeats the
      first p bytes. */
  function Origin(d: nat, s: nat, k: nat): (j: nat)
    ensures j <= s + k
  {
    if d <= s then s + k else s + Modulo(k, d - s)
  }

  lemma Period(k: nat, p: nat)
    requires 0 < p <= k
    ensures Modulo(k - p, p) == Modulo(k, p)
  {
    var q, r := k / p, k % p;
    assert k - p == (q - 1) * p + r;
    Remainder(k - p, q - 1, r, p);
  }

  lemma OriginOfRead(d: nat, s: nat, k: nat)
    ensures s < d <= s + k ==> Origin(d, s, s + k - d) == Origin(d, s, k)
    ensures d <= s || s + k < d ==> Origin(d, s, k) == s + k
  {
    hide Modulo;
    if s < d <= s + k {
      Period(k, d - s);
    }
  }

  lemma {:induction false} AscendingByte(m: seq<u8>, d: nat, s: nat, n: nat, x: nat)
    requires d + n <= |m| && s + n <= |m| && x < |m|
    ensures Ascending(m, d, s, n)[x] == if d <= x < d + n then m[Origin(d, s, x - d)] else m[x]
  {
    hide Origin;
    if n > 0 {
      AscendingByte(m, d, s, n - 1, x);
      AscendingByte(m, d, s, n - 1, s + n - 1);
      OriginOfRead(d, s, n - 1);
    }
  }

  lemma AscendingIsTrue(m: seq<u8>, d: nat, s: nat, n: nat)
    requires d + n <= |m| && s + n <= |m| && (d <= s || s + n <= d)
    ensures Ascending(m, d, s, n) == Overwrite(m, d, m, s, n)
  {
    forall x: nat | x < |m| ensures Ascending(m, d, s, n)[x] == Overwrite(m, d, m, s, n)[x] {
      AscendingByte(m, d, s, n, x);
      if d <= x < d + n {
        OriginOfRead(d, s, x - d);
      }
    }
  }

  /** A true copy between buffers, and even within one as long as the target does not start inside the
      source. */
  method Memcpy(dst: array<u8>, d: nat, src: array<u8>, s: nat, n: nat)
    requires d + n <= dst.Length && s + n <= src.Length
    modifies dst
    ensures dst != src || d <= s || s + n <= d ==> dst[..] == Overwrite(old(dst[..]), d, old(src[..]), s, n)
    ensures dst == src ==> dst[..] == Ascending(old(dst[..]), d, s, n)
  {
    hide Overwrite;
    ghost var m := dst[..];
    var i := 0;
    while i < n
      invariant 0 <= i <= n
      invariant dst == src ==> dst[..] == Ascending(m, d, s, i)
      invariant dst != src ==>
        forall x :: 0 <= x < dst.Length ==> dst[x] == if d <= x < d + i then old(src[s + x - d]) else old(dst[x])
    {
      dst[d + i] := src[s + i];
      i := i + 1;
    }
    if dst == src && (d <= s || s + n <= d) {
      AscendingIsTrue(m, d, s, n);
    }
  }

  method Memset(dst: array<u8>, d: nat, c: u8, n: nat)
    requires d + n <= dst.Length
    modifies dst
    ensures forall x :: 0 <= x < dst.Length ==> dst[x] == if d <= x < d + n then c else old(dst[x])
  {
    var i := 0;
    while i < n
      invariant 0 <= i <= n
      invariant forall x :: 0 <= x < dst.Length ==> dst[x] == if d <= x < d + i then c else old(dst[x])
    {
      dst[d + i] := c;
      i := i + 1;
    }
  }

  predicate FirstDifference(a: seq<u8>, b: seq<u8>, i: nat, d: int) {
    i < |a| && i < |b| && a[..i] == b[..i] && a[i] != b[i] && d == a[i] as int - b[i] as int
  }

  ghost predicate DifferBy(a: seq<u8>, b: seq<u8>, d: int) {
    exists i: nat :: FirstDifference(a, b, i, d)
  }

  /** Zero exactly when the n bytes agree; otherwise the difference of the first pair that does not. */
  method Memcmp(lhs: array<u8>, l: nat, rhs: array<u8>, r: nat, n: nat) returns (d: int)
    requires l + n <= lhs.Length && r + n <= rhs.Length
    ensures d == 0 <==> lhs[l..l + n] == rhs[r..r + n]
    ensures d != 0 ==> DifferBy(lhs[l..l + n], rhs[r..r + n], d)
  {
    var i := 0;
    while i < n
      invariant 0 <= i <= n && lhs[l..l + i] == rhs[r..r + i]
    {
      if lhs[l + i] != rhs[r + i] {
        ghost var a, b := lhs[l..l + n], rhs[r..r + n];
        assert a[..i] == lhs[l..l + i] && b[..i] == rhs[r..r + i];
        assert FirstDifference(a, b, i, a[i] as int - b[i] as int);
        return lhs[l + i] as int - rhs[r + i] as int;
      }
      i := i + 1;
    }
    d := 0;
  }
}

/** Byte sequences, and the arithmetic of whole blocks, that several parts of the model share. */
module Common {

  type byte = x: int | 0 <= x < 0x100

  function Min(a: nat, b: nat): nat {
    if a <= b then a else b
  }

  /** b with the bytes s put at `at`. */
  function Splice(b: seq<byte>, at: nat, s: seq<byte>): (r: seq<byte>)
    requires at + |s| <= |b|
    ensures |r| == |b|
  {
    b[..at] + s + b[at + |s|..]
  }

  lemma SpliceTwice(b: seq<byte>, at: nat, x: seq<byte>, y: seq<byte>)
    requires at + |x| + |y| <= |b|
    ensures Splice(Splice(b, at, x), at + |x|, y) == Splice(b, at, x + y)
  {
  }

  lemma SpliceNothing(b: seq<byte>, at: nat)
    requires at <= |b|
    ensures Splice(b, at, []) == b
  {
  }

  lemma SubSlice(s: seq<byte>, a: nat, b: nat, i: nat, n: nat)
    requires a <= b <= |s| && a + i + n <= b
    ensures s[a..b][i..i + n] == s[a + i..a + i + n]
  {
    var x, y := s[a..b][i..i + n], s[a + i..a + i + n];
    assert forall j | 0 <= j < n :: x[j] == y[j];
  }

  lemma Slices(s: seq<byte>, a: nat, b: nat, c: nat)
    requires a <= b <= c <= |s|
    ensures s[a..c] == s[a..b] + s[b..c]
  {
  }

  lemma Divide(q: nat, d: nat)
    requires 0 < d
    ensures q == q / d * d + q % d && q % d < d
  {
  }

  lemma Grows(e: int, d: int)
    requires 0 < d
    ensures e >= 1 ==> e * d >= d
  {
  }

  /** The only multiple of d strictly between -d and d is 0. */
  lemma SmallMultiple(e: int, d: int, x: int)
    requires 0 < d && -d < x < d && e * d == x
    ensures e == 0
  {
    Grows(e, d);
    Grows(-e, d);
  }

  /** Quotient and remainder are determined by their equation. */
  lemma QuotientIs(n: nat, d: nat, q: nat, r: nat)
    requires n == q * d + r && r < d
    ensures n / d == q && n % d == r
  {
    Divide(n, d);
    var e := n / d - q;
    Distribute(n / d, q, d);
    SmallMultiple(e, d, r - n % d);
  }

  lemma Distribute(a: int, b: int, d: int)
    ensures (a - b) * d == a * d - b * d
  {
  }

  lemma NextMultiple(i: nat, n: nat)
    ensures (i + 1) * n == i * n + n
  {
  }

  lemma Multiples(a: nat, b: nat, n: nat)
    requires a <= b
    ensures a * n <= b * n
  {
  }

  /** 1 << i */
  function Pow2(i: nat): (r: nat)
    ensures r >= 1
  {
    if i == 0 then 1 else 2 * Pow2(i - 1)
  }
}

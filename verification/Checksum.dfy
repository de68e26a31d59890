/** The Internet checksum of net/inet/in_cksum.c over a chain of fragments.

    The specification is the one of RFC 1071 section 1: pair the bytes into 16-bit words, pad an
    odd tail with a zero byte, add the words with end-around carry and complement.  The routine
    works on 32-bit partial sums, folds carries late, and, when a fragment starts on an odd
    address, sums byte-swapped words between two left shifts by eight.

    `big` selects the byte order in which the machine loads a 16-bit word; every statement holds
    for both orders. */
module Checksum {

  import opened Common
  type u32 = x: int | 0 <= x < 0x1_0000_0000

  /** One mbuf of the chain: the address of its first data byte and its m_len bytes. */
  datatype Fragment = Fragment(addr: nat, data: seq<byte>)

  // ---------- Specification: RFC 1071 ----------

  function Word(b0: byte, b1: byte, big: bool): (w: nat)
    ensures w <= 0xffff
  {
    if big then b0 * 0x100 + b1 else b0 + b1 * 0x100
  }

  /** One's-complement addition of two 16-bit words: the carry is added back. */
  function OnesAdd(a: nat, b: nat): nat {
    if a + b > 0xffff then a + b - 0xffff else a + b
  }

  /** The one's-complement sum of the 16-bit words of s, an odd last byte padded with zero. */
  function OnesSum(s: seq<byte>, big: bool): nat {
    if s == [] then 0
    else if |s| == 1 then Word(s[0], 0, big)
    else OnesAdd(Word(s[0], s[1], big), OnesSum(s[2..], big))
  }

  function Flatten(m: seq<Fragment>): seq<byte> {
    if m == [] then [] else m[0].data + Flatten(m[1..])
  }

  function Prefix(s: seq<byte>, len: nat): seq<byte> {
    if len < |s| then s[..len] else s
  }

  // ---------- Weighted sums: what the partial sums mean ----------

  /** The bytes of s added with alternating weights; `hi` says that the first byte weighs 256. */
  ghost function Weigh(s: seq<byte>, hi: bool): nat {
    if s == [] then 0 else s[0] * (if hi then 0x100 else 1) + Weigh(s[1..], !hi)
  }

  /** A partial sum stands for v: they agree modulo 2^16 - 1, and one is zero iff the other is.
      The second half separates the two representations of zero. */
  ghost predicate Stands(sum: nat, v: nat) {
    sum % 0xffff == v % 0xffff && (sum == 0 <==> v == 0)
  }

  ghost function Parity(n: nat, hi: bool): bool {
    if n % 2 == 0 then hi else !hi
  }

  lemma WeighEmpty(hi: bool)
    ensures Weigh([], hi) == 0
  {
  }

  lemma {:induction false} WeighConcat(s: seq<byte>, t: seq<byte>, hi: bool)
    ensures Weigh(s + t, hi) == Weigh(s, hi) + Weigh(t, Parity(|s|, hi))
  {
    if s == [] {
      assert s + t == t;
    } else {
      assert (s + t)[1..] == s[1..] + t;
      WeighConcat(s[1..], t, !hi);
    }
  }

  lemma {:induction false} WeighPair(s: seq<byte>, hi: bool)
    requires |s| == 2
    ensures Weigh(s, hi) == Word(s[0], s[1], hi)
  {
    assert Weigh(s[1..], !hi) == s[1] * (if !hi then 0x100 else 1) + Weigh(s[1..][1..], hi);
  }

  lemma SwapStep(b: int, r: nat, r': nat, hi: bool)
    requires (r * 0x100) % 0xffff == r' % 0xffff
    ensures ((b * (if hi then 0x100 else 1) + r) * 0x100) % 0xffff == (b * (if !hi then 0x100 else 1) + r') % 0xffff
  {
    if hi {
      assert (b * 0x100 + r) * 0x100 == b + r * 0x100 + 0xffff * b;
      ModShift(b + r * 0x100, b, 0xffff);
    }
    ModAdd(r * 0x100, r', b * (if !hi then 0x100 else 1));
  }

  lemma ModAdd(x: int, y: int, k: int)
    requires x % 0xffff == y % 0xffff
    ensures (k + x) % 0xffff == (k + y) % 0xffff
  {
    var q := x / 0xffff - y / 0xffff;
    assert k + x == k + y + 0xffff * q;
    ModShift(k + y, q, 0xffff);
  }

  /** Shifting left by eight swaps the weights of all bytes, since 256 * 256 = 1 modulo 2^16 - 1. */
  lemma {:induction false} WeighSwap(s: seq<byte>, hi: bool)
    ensures (Weigh(s, hi) * 0x100) % 0xffff == Weigh(s, !hi) % 0xffff
    ensures Weigh(s, hi) == 0 <==> Weigh(s, !hi) == 0
  {
    if s != [] {
      WeighSwap(s[1..], !hi);
      SwapStep(s[0], Weigh(s[1..], !hi), Weigh(s[1..], hi), hi);
    }
  }

  lemma StandsAdd(sum: nat, v: nat, x: nat)
    requires Stands(sum, v)
    ensures Stands(sum + x, v + x)
  {
  }

  /** A sum scaled by 256 stands for the byte-swapped weighing. */
  lemma StandsShift(sum: nat, s: seq<byte>, t: seq<byte>, hi: bool)
    requires Stands(sum, Weigh(s, hi) * 0x100 + Weigh(t, hi))
    ensures Stands(sum * 0x100, Weigh(s, hi) + Weigh(t, !hi))
  {
    hide Weigh;
    WeighSwap(t, hi);
    StandsShiftSum(sum, Weigh(s, hi), Weigh(t, hi), Weigh(t, !hi));
  }

  lemma StandsShiftSum(sum: nat, a: nat, b: nat, b': nat)
    requires Stands(sum, a * 0x100 + b)
    requires (b * 0x100) % 0xffff == b' % 0xffff && (b == 0 <==> b' == 0)
    ensures Stands(sum * 0x100, a + b')
  {
    assert (sum * 0x100) % 0xffff == (a + b') % 0xffff by {
      ModScale(sum, a * 0x100 + b, 0x100);
      assert (a * 0x100 + b) * 0x100 == a + b * 0x100 + 0xffff * a;
      ModShift(a + b * 0x100, a, 0xffff);
      ModAdd(b * 0x100, b', a);
    }
  }

  lemma ModScale(x: nat, y: nat, k: nat)
    requires x % 0xffff == y % 0xffff
    ensures (x * k) % 0xffff == (y * k) % 0xffff
  {
    var q := x / 0xffff - y / 0xffff;
    assert x == y + 0xffff * q;
    assert x * k == y * k + 0xffff * (q * k);
    ModShift(y * k, q * k, 0xffff);
  }

  lemma ModShift(x: int, q: int, m: int)
    requires m > 0
    ensures (x + m * q) % m == x % m
  {
    var d := (x + m * q) / m - x / m - q;
    assert m * d == x % m - (x + m * q) % m;
    assert -m < m * d < m;
    assert d == 0;
  }

  // ---------- REDUCE and ADDCARRY ----------

  /** REDUCE: fold the upper half of the sum into the lower one, then ADDCARRY. */
  function Reduce(sum: u32): (r: u32)
    ensures r <= 0xffff
    ensures Stands(r, sum)
  {
    var s := sum % 0x1_0000 + sum / 0x1_0000;
    if s > 0xffff then s - 0xffff else s
  }

  lemma StandsReduce(sum: u32, v: nat)
    requires Stands(sum, v)
    ensures Stands(Reduce(sum), v)
  {
  }

  lemma StandsOnesAdd(w: nat, sum: nat, v: nat)
    requires w <= 0xffff && sum <= 0xffff && Stands(sum, v)
    ensures Stands(OnesAdd(w, sum), w + v) && OnesAdd(w, sum) <= 0xffff
  {
    StandsAdd(sum, v, w);
  }

  lemma {:induction false} OnesSumStands(s: seq<byte>, big: bool)
    ensures Stands(OnesSum(s, big), Weigh(s, big)) && OnesSum(s, big) <= 0xffff
  {
    if |s| >= 2 {
      OnesSumStands(s[2..], big);
      assert Weigh(s, big) == Word(s[0], s[1], big) + Weigh(s[2..], big) by {
        assert s == s[..2] + s[2..];
        WeighConcat(s[..2], s[2..], big);
        WeighPair(s[..2], big);
      }
      StandsOnesAdd(Word(s[0], s[1], big), OnesSum(s[2..], big), Weigh(s[2..], big));
    } else if |s| == 1 {
      assert Weigh(s[1..], !big) == 0;
    }
  }

  /** Two 16-bit values that stand for the same quantity are equal. */
  lemma StandsUnique(a: nat, b: nat, v: nat)
    requires a <= 0xffff && b <= 0xffff && Stands(a, v) && Stands(b, v)
    ensures a == b
  {
  }

  lemma Rejoin(taken: seq<byte>, c0: byte, load: seq<byte>, t: seq<byte>, more: bool)
    requires if more then |t| == |load| + 2 && t == [c0] + load + [t[|t| - 1]] else t == [c0] + load
    ensures taken + t == if more then taken + [c0] + load + [t[|t| - 1]] else taken + [c0] + load
  {
  }

  lemma WordIs(a: byte, b: byte, big: bool)
    ensures Word(a, b, big) == if big then 0x100 * a + b else a + 0x100 * b
  {
  }

  // ---------- The routine ----------

  /** The 16-bit load at byte i. */
  function Load(d: seq<byte>, i: nat, big: bool): (w: nat)
    requires i + 2 <= |d|
    ensures w <= 0xffff
  {
    Word(d[i], d[i + 1], big)
  }

  lemma AddWord(d: seq<byte>, start: nat, i: nat, big: bool)
    requires start <= i && i + 2 <= |d| && (i - start) % 2 == 0
    ensures Weigh(d[start..i + 2], big) == Weigh(d[start..i], big) + Load(d, i, big)
  {
    assert d[start..i + 2] == d[start..i] + d[i..i + 2];
    WeighConcat(d[start..i], d[i..i + 2], big);
    WeighPair(d[i..i + 2], big);
  }

  lemma AddFourWords(d: seq<byte>, start: nat, i: nat, big: bool)
    requires start <= i && i + 8 <= |d| && (i - start) % 2 == 0
    ensures Weigh(d[start..i + 8], big) == Weigh(d[start..i], big)
      + Load(d, i, big) + Load(d, i + 2, big) + Load(d, i + 4, big) + Load(d, i + 6, big)
  {
    hide Weigh, Load;
    AddWord(d, start, i, big);
    AddWord(d, start, i + 2, big);
    AddWord(d, start, i + 4, big);
    AddWord(d, start, i + 6, big);
  }

  lemma AddSixteenWords(d: seq<byte>, start: nat, i: nat, big: bool)
    requires start <= i && i + 32 <= |d| && (i - start) % 2 == 0
    ensures Weigh(d[start..i + 32], big) == Weigh(d[start..i], big)
      + Load(d, i, big) + Load(d, i + 2, big) + Load(d, i + 4, big) + Load(d, i + 6, big)
      + Load(d, i + 8, big) + Load(d, i + 10, big) + Load(d, i + 12, big) + Load(d, i + 14, big)
      + Load(d, i + 16, big) + Load(d, i + 18, big) + Load(d, i + 20, big) + Load(d, i + 22, big)
      + Load(d, i + 24, big) + Load(d, i + 26, big) + Load(d, i + 28, big) + Load(d, i + 30, big)
  {
    hide Weigh, Load;
    AddFourWords(d, start, i, big);
    AddFourWords(d, start, i + 8, big);
    AddFourWords(d, start, i + 16, big);
    AddFourWords(d, start, i + 24, big);
  }

  /** The unrolled loop over 32 bytes a turn. */
  method SumBlocks(d: seq<byte>, start: nat, count: nat, sum0: u32, big: bool) returns (sum: u32, mlen: int, i: nat)
    requires start + count <= |d| && sum0 + 0x8000 * count < 0x1_0000_0000
    ensures start <= i && (i - start) % 2 == 0 && 0 <= mlen && i + mlen == start + count && mlen % 2 == count % 2
    ensures sum == sum0 + Weigh(d[start..i], big)
    ensures sum <= sum0 + 0x8000 * (i - start)
  {
    hide Load, Weigh;
    sum, i, mlen := sum0, start, count;
    assert Weigh(d[start..start], big) == 0 by { WeighEmpty(big); assert d[start..start] == []; }
    mlen := mlen - 32;
    while mlen >= 0
      invariant start <= i && (i - start) % 2 == 0 && -32 <= mlen && i + mlen + 32 == start + count
      invariant sum == sum0 + Weigh(d[start..i], big)
      invariant sum <= sum0 + 0x8000 * (i - start)
    {
      AddSixteenWords(d, start, i, big);
      sum := sum + Load(d, i, big) + Load(d, i + 2, big) + Load(d, i + 4, big) + Load(d, i + 6, big);
      sum := sum + Load(d, i + 8, big) + Load(d, i + 10, big) + Load(d, i + 12, big) + Load(d, i + 14, big);
      sum := sum + Load(d, i + 16, big) + Load(d, i + 18, big) + Load(d, i + 20, big) + Load(d, i + 22, big);
      sum := sum + Load(d, i + 24, big) + Load(d, i + 26, big) + Load(d, i + 28, big) + Load(d, i + 30, big);
      i := i + 32;
      mlen := mlen - 32;
    }
    mlen := mlen + 32;
  }

  /** The unrolled loop over 8 bytes a turn. */
  method SumQuads(d: seq<byte>, start: nat, count: nat, sum0: u32, big: bool) returns (sum: u32, mlen: int, i: nat)
    requires start + count <= |d| && sum0 + 0x8000 * count < 0x1_0000_0000
    ensures start <= i && (i - start) % 2 == 0 && 0 <= mlen && i + mlen == start + count && mlen % 2 == count % 2
    ensures sum == sum0 + Weigh(d[start..i], big)
    ensures sum <= sum0 + 0x8000 * (i - start)
  {
    hide Load, Weigh;
    sum, i, mlen := sum0, start, count;
    assert Weigh(d[start..start], big) == 0 by { WeighEmpty(big); assert d[start..start] == []; }
    mlen := mlen - 8;
    while mlen >= 0
      invariant start <= i && (i - start) % 2 == 0 && -8 <= mlen && i + mlen + 8 == start + count
      invariant sum == sum0 + Weigh(d[start..i], big)
      invariant sum <= sum0 + 0x8000 * (i - start)
    {
      AddFourWords(d, start, i, big);
      sum := sum + Load(d, i, big) + Load(d, i + 2, big) + Load(d, i + 4, big) + Load(d, i + 6, big);
      i := i + 8;
      mlen := mlen - 8;
    }
    mlen := mlen + 8;
  }

  /** The last loop, one word a turn; mlen ends as -1 when one byte is left over and as -2 when none is. */
  method SumPairs(d: seq<byte>, start: nat, count: nat, sum0: u32, big: bool) returns (sum: u32, mlen: int, i: nat)
    requires start + count <= |d| && sum0 + 0x8000 * count < 0x1_0000_0000
    ensures i == start + count - count % 2 && mlen == count % 2 - 2
    ensures sum == sum0 + Weigh(d[start..i], big)
    ensures sum <= sum0 + 0x8000 * (i - start)
  {
    sum, i, mlen := sum0, start, count;
    mlen := mlen - 2;
    while mlen >= 0
      invariant start <= i && (i - start) % 2 == 0 && -2 <= mlen && i + mlen + 2 == start + count
      invariant sum == sum0 + Weigh(d[start..i], big)
      invariant sum <= sum0 + 0x8000 * (i - start)
    {
      AddWord(d, start, i, big);
      sum := sum + Load(d, i, big);
      i := i + 2;
      mlen := mlen - 2;
    }
  }

  lemma WeighSplit(d: seq<byte>, a: nat, b: nat, c: nat, hi: bool)
    requires a <= b <= c <= |d| && (b - a) % 2 == 0
    ensures Weigh(d[a..c], hi) == Weigh(d[a..b], hi) + Weigh(d[b..c], hi)
  {
    assert d[a..c] == d[a..b] + d[b..c];
    WeighConcat(d[a..b], d[b..c], hi);
  }

  // ---------- One fragment ----------

  function Weight(hi: bool): nat { if hi then 0x100 else 1 }

  /** What the routine keeps between fragments: `consumed` are the bytes taken so far.  When their
      number is odd (mlen is -1) one byte c0, at an even position but not necessarily the last one,
      is not part of the sum yet. */
  ghost predicate Running(sum: nat, mlen: int, c0: byte, consumed: seq<byte>, big: bool) {
    && (mlen == -1 <==> |consumed| % 2 == 1)
    && (mlen == -1 ==> c0 * Weight(big) <= Weigh(consumed, big))
    && Stands(sum, Weigh(consumed, big) - (if mlen == -1 then c0 * Weight(big) else 0))
    && sum <= 0x200_0000 + 0x8000 * (|consumed| - |consumed| % 2)
  }

  lemma WeighByte(s: seq<byte>, b: byte, hi: bool)
    ensures Weigh(s + [b], hi) == Weigh(s, hi) + b * Weight(Parity(|s|, hi))
  {
    WeighConcat(s, [b], hi);
    assert Weigh([b][1..], !Parity(|s|, hi)) == 0;
  }

  lemma StandsScale(sum: nat, v: nat)
    requires Stands(sum, v)
    ensures Stands(sum * 0x100, v * 0x100)
  {
    ModScale(sum, v, 0x100);
  }

  lemma StandsTrans(sum: nat, sum0: nat, v: nat, w: nat)
    requires Stands(sum, sum0 + w) && Stands(sum0, v)
    ensures Stands(sum, v + w)
  {
    StandsAdd(sum0, v, w);
  }

  function Max(a: nat, b: nat): nat { if a < b then b else a }

  /** The three summing loops in turn.  The carry is folded before the last of them unless the first
      two took everything and the bytes are not swapped. */
  method SumRun(d: seq<byte>, start: nat, count: nat, sum0: u32, swapped: bool, big: bool)
    returns (sum: u32, mlen: int, i: nat)
    requires start + count <= |d| && sum0 + 0x8000 * count < 0x1_0000_0000
    ensures i == start + count - count % 2
    ensures mlen == count % 2 - 2 || (mlen == 0 && !swapped && count % 2 == 0)
    ensures Stands(sum, sum0 + Weigh(d[start..i], big))
    ensures sum <= Max(sum0, 0xffff) + 0x8000 * (i - start)
  {
    hide Stands, Weigh, Reduce;
    sum, mlen, i := SumBlocks(d, start, count, sum0, big);
    ghost var i1 := i;
    sum, mlen, i := SumQuads(d, i, mlen, sum, big);
    WeighSplit(d, start, i1, i, big);
    StandsSelf(sum);
    if mlen != 0 || swapped {
      ghost var full, i2 := sum, i;
      StandsReduce(sum, full);
      sum := Reduce(sum);
      ghost var folded := sum;
      sum, mlen, i := SumPairs(d, i, mlen, sum, big);
      WeighSplit(d, start, i2, i, big);
      StandsAdd(folded, full, Weigh(d[i2..i], big));
    }
  }

  lemma StandsSelf(v: nat)
    ensures Stands(v, v)
  {
  }

  /** The bytes of a fragment from an even address on: nothing is pending before them. */
  method AddAligned(d: seq<byte>, w0: nat, count: nat, sum0: u32, ghost consumed: seq<byte>, big: bool)
    returns (sum: u32, mlen: int, c0: byte)
    requires w0 + count <= |d| && |consumed| + count <= 0xffff && |consumed| % 2 == 0
    requires Stands(sum0, Weigh(consumed, big)) && sum0 <= 0x200_0000 + 0x8000 * |consumed|
    ensures mlen == -1 <==> count % 2 == 1
    ensures mlen == -1 ==> c0 == d[w0 + count - 1]
    ensures Stands(sum, Weigh(consumed + d[w0..w0 + count - count % 2], big))
    ensures sum <= 0x200_0000 + 0x8000 * (|consumed| + count - count % 2)
  {
    hide Stands, Weigh;
    var i;
    sum, mlen, i := SumRun(d, w0, count, sum0, false, big);
    StandsTrans(sum, sum0, Weigh(consumed, big), Weigh(d[w0..i], big));
    WeighConcat(consumed, d[w0..i], big);
    c0 := if mlen == -1 then d[i] else 0;
  }

  /** The bytes of a fragment from an odd address on.  The first byte is put aside in c0, the words
      after it are summed byte-swapped, and a second shift puts them right.  On return `load` are
      the bytes summed in between; a last byte, if any, completes the word begun by c0. */
  method AddSwapped(d: seq<byte>, w0: nat, count: nat, sum0: u32, ghost consumed: seq<byte>, big: bool)
    returns (sum: u32, mlen: int, c0: byte, ghost load: seq<byte>)
    requires 0 < count && w0 + count <= |d| && |consumed| + count <= 0xffff
    requires Stands(sum0, Weigh(consumed, big))
    ensures |load| % 2 == 0 && |load| < count && c0 == d[w0] && load == d[w0 + 1..w0 + 1 + |load|]
    ensures mlen == -1 ==> |load| == count - 1 && Stands(sum, Weigh(consumed, big) + Weigh(load, !big))
    ensures mlen != -1 ==> mlen == 0 && |load| == count - 2
    ensures mlen != -1 ==>
      Stands(sum, Weigh(consumed, big) + Weigh(load, !big) + Word(c0, d[w0 + count - 1], big))
    ensures sum <= 0x200_0000
  {
    hide Stands, Weigh, Reduce, Word;
    c0 := d[w0];
    var i;
    sum, mlen, i := SumScaled(d, w0, count, sum0, consumed, big);
    load := d[w0 + 1..i];
    if mlen == -1 {
      StandsAdd(sum, Weigh(consumed, big) + Weigh(load, !big), Word(c0, d[i], big));
      sum := sum + Word(c0, d[i], big);
      mlen := 0;
    } else {
      mlen := -1;
    }
  }

  /** The words behind the first byte: the sum is shifted before and after them. */
  method SumScaled(d: seq<byte>, w0: nat, count: nat, sum0: u32, ghost consumed: seq<byte>, big: bool)
    returns (sum: u32, mlen: int, i: nat)
    requires 0 < count && w0 + count <= |d| && |consumed| + count <= 0xffff
    requires Stands(sum0, Weigh(consumed, big))
    ensures i == w0 + count - (count - 1) % 2 && mlen == (if (count - 1) % 2 == 0 then -2 else -1)
    ensures Stands(sum, Weigh(consumed, big) + Weigh(d[w0 + 1..i], !big)) && sum <= 0x1ff_0000
  {
    hide Stands, Weigh, Reduce;
    ghost var v := Weigh(consumed, big);
    StandsReduce(sum0, v);
    sum := Reduce(sum0);
    StandsScale(sum, v);
    sum := sum * 0x100;
    ghost var sum1 := sum;
    sum, mlen, i := SumRun(d, w0 + 1, count - 1, sum, true, big);
    StandsTrans(sum, sum1, v * 0x100, Weigh(d[w0 + 1..i], big));
    StandsReduce(sum, v * 0x100 + Weigh(d[w0 + 1..i], big));
    sum := Reduce(sum);
    StandsShift(sum, consumed, d[w0 + 1..i], big);
    sum := sum * 0x100;
  }

  /** The bytes w..w+count of a fragment, none pending before them: the alignment of their address
      decides how they are summed. */
  method AddBytes(d: seq<byte>, addr: nat, w: nat, count: nat, sum0: u32, ghost taken: seq<byte>, big: bool)
    returns (sum: u32, mlen: int, c0: byte)
    requires w + count <= |d| && |taken| + count <= 0xffff && |taken| % 2 == 0
    requires Stands(sum0, Weigh(taken, big)) && sum0 <= 0x200_0000 + 0x8000 * |taken|
    ensures Running(sum, mlen, c0, taken + d[w..w + count], big)
  {
    hide Running, Stands, Weigh, Reduce, Word;
    if (addr + w) % 2 == 1 && count != 0 {
      ghost var load;
      sum, mlen, c0, load := AddSwapped(d, w, count, sum0, taken, big);
      assert mlen == -1 ==> d[w..w + count] == [c0] + load;
      SwappedRunning(sum, mlen, c0, taken, load, d[w..w + count], big);
    } else {
      sum, mlen, c0 := AddAligned(d, w, count, sum0, taken, big);
      assert d[w..w + count][..count - count % 2] == d[w..w + count - count % 2];
      AlignedRunning(sum, mlen, c0, taken, d[w..w + count], big);
    }
  }

  /** One turn of the outer loop for a non-empty mbuf. */
  method AddFragment(f: Fragment, sum0: u32, mlen0: int, c00: byte, len0: nat, ghost consumed: seq<byte>, big: bool)
    returns (sum: u32, mlen: int, c0: byte, len: nat)
    requires f.data != [] && len0 > 0 && |consumed| + len0 <= 0xffff
    requires Running(sum0, mlen0, c00, consumed, big)
    ensures len == len0 - |Prefix(f.data, len0)|
    ensures Running(sum, mlen, c0, consumed + Prefix(f.data, len0), big)
  {
    hide Running, Stands, Weigh, Reduce, Word;
    RunningFacts(sum0, mlen0, c00, consumed, big);
    var d := f.data;
    var w := 0;
    sum, c0, len := sum0, c00, len0;
    ghost var taken := consumed;
    if mlen0 == -1 {
      TakePending(sum, c0, consumed, d[0], big);
      taken := consumed + [d[0]];
      sum := sum + Word(c0, d[0], big);
      w := 1;
      mlen := |d| - 1;
      len := len - 1;
    } else {
      mlen := |d|;
    }
    if mlen > len {
      mlen := len;
    }
    len := len - mlen;
    ghost var count := mlen;
    assert consumed + Prefix(d, len0) == taken + d[w..w + count];
    sum, mlen, c0 := AddBytes(d, f.addr, w, mlen, sum, taken, big);
  }

  lemma RunningFacts(sum: nat, mlen: int, c0: byte, consumed: seq<byte>, big: bool)
    requires Running(sum, mlen, c0, consumed, big)
    ensures mlen == -1 <==> |consumed| % 2 == 1
    ensures mlen != -1 ==> Stands(sum, Weigh(consumed, big))
    ensures sum <= 0x200_0000 + 0x8000 * (|consumed| - |consumed| % 2)
  {
  }

  /** The pending byte and the first byte of the next fragment make one word. */
  lemma TakePending(sum: nat, c0: byte, consumed: seq<byte>, b: byte, big: bool)
    requires Running(sum, -1, c0, consumed, big)
    ensures Stands(sum + Word(c0, b, big), Weigh(consumed + [b], big))
  {
    hide Weigh, Stands;
    WeighByte(consumed, b, big);
    StandsAdd(sum, Weigh(consumed, big) - c0 * Weight(big), Word(c0, b, big));
  }

  lemma AlignedRunning(sum: nat, mlen: int, c0: byte, taken: seq<byte>, t: seq<byte>, big: bool)
    requires |taken| % 2 == 0 && (mlen == -1 <==> |t| % 2 == 1)
    requires mlen == -1 ==> c0 == t[|t| - 1]
    requires Stands(sum, Weigh(taken + t[..|t| - |t| % 2], big))
    requires sum <= 0x200_0000 + 0x8000 * (|taken| + |t| - |t| % 2)
    ensures Running(sum, mlen, c0, taken + t, big)
  {
    hide Weigh, Stands;
    var n := |t| - |t| % 2;
    if mlen == -1 {
      assert taken + t == taken + t[..n] + [c0];
      WeighByte(taken + t[..n], c0, big);
    } else {
      assert t[..n] == t;
    }
  }

  lemma SwappedRunning(sum: nat, mlen: int, c0: byte, taken: seq<byte>, load: seq<byte>, t: seq<byte>, big: bool)
    requires |taken| % 2 == 0 && |load| % 2 == 0 && sum <= 0x200_0000
    requires mlen == -1 ==> t == [c0] + load && Stands(sum, Weigh(taken, big) + Weigh(load, !big))
    requires mlen != -1 ==> |t| == |load| + 2 && t == [c0] + load + [t[|t| - 1]]
    requires mlen != -1 ==> Stands(sum, Weigh(taken, big) + Weigh(load, !big) + Word(c0, t[|t| - 1], big))
    ensures Running(sum, mlen, c0, taken + t, big)
  {
    hide Weigh, Stands, Word;
    var a := taken + [c0];
    WeighByte(taken, c0, big);
    WeighConcat(a, load, big);
    Rejoin(taken, c0, load, t, mlen != -1);
    if mlen != -1 {
      WordIs(c0, t[|t| - 1], big);
      WeighByte(a + load, t[|t| - 1], big);
    }
  }

  // ---------- The routine ----------

  /** `consumed` are the first bytes of the chain, those of the mbufs before k as far as len0 allows. */
  ghost predicate Covers(m: seq<Fragment>, k: nat, consumed: seq<byte>, len: nat) {
    && k <= |m| && |consumed| <= |Flatten(m)| && consumed == Flatten(m)[..|consumed|]
    && (len != 0 ==> consumed + Flatten(m[k..]) == Flatten(m))
  }

  lemma CoversStart(m: seq<Fragment>, len: nat)
    ensures Covers(m, 0, [], len)
  {
    assert m[0..] == m;
  }

  lemma CoversStep(m: seq<Fragment>, k: nat, consumed: seq<byte>, len: nat)
    requires k < |m| && len != 0 && Covers(m, k, consumed, len)
    ensures Covers(m, k + 1, consumed + Prefix(m[k].data, len), len - |Prefix(m[k].data, len)|)
  {
    var t := Prefix(m[k].data, len);
    assert Flatten(m[k..]) == m[k].data + Flatten(m[k + 1..]) by { assert m[k..][1..] == m[k + 1..]; }
    assert consumed + (m[k].data + Flatten(m[k + 1..])) == consumed + m[k].data + Flatten(m[k + 1..]);
    assert m[k].data == t + m[k].data[|t|..];
  }

  lemma PrefixIs(d: seq<byte>, consumed: seq<byte>, len: nat)
    ensures |Prefix(d, len)| == if len < |d| then len else |d|
    ensures d == [] ==> consumed + Prefix(d, len) == consumed
  {
  }

  lemma CoversEnd(m: seq<Fragment>, k: nat, consumed: seq<byte>, len: nat)
    requires Covers(m, k, consumed, len) && (k == |m| || len == 0)
    ensures consumed == Prefix(Flatten(m), |consumed| + len)
  {
  }

  /** Fold the last carry, with the pending byte padded by zero: the result is the RFC 1071 sum. */
  lemma FinalSum(sum: u32, mlen: int, c0: byte, consumed: seq<byte>, big: bool)
    requires Running(sum, mlen, c0, consumed, big) && |consumed| <= 0xffff
    ensures var total := sum + (if mlen == -1 then Word(c0, 0, big) else 0);
      0 <= total < 0x1_0000_0000 && Reduce(total) == OnesSum(consumed, big)
  {
    var total := sum + (if mlen == -1 then Word(c0, 0, big) else 0);
    assert Stands(total, Weigh(consumed, big)) by {
      if mlen == -1 {
        StandsAdd(sum, Weigh(consumed, big) - c0 * Weight(big), Word(c0, 0, big));
      }
    }
    StandsReduce(total, Weigh(consumed, big));
    OnesSumStands(consumed, big);
    StandsUnique(Reduce(total), OnesSum(consumed, big), Weigh(consumed, big));
  }

  lemma RunningStart(big: bool)
    ensures Running(0, 0, 0, [], big)
  {
  }

  /** in_cksum: the complement of the RFC 1071 sum of the first len bytes of the chain, for every
      split of those bytes into fragments and every start address of each fragment. */
  method InCksum(m: seq<Fragment>, len0: nat, big: bool) returns (r: nat)
    requires len0 <= 0xffff
    ensures r == 0xffff - OnesSum(Prefix(Flatten(m), len0), big)
  {
    var sum: u32, mlen: int, c0: byte, len, k := 0, 0, 0, len0, 0;
    ghost var consumed: seq<byte> := [];
    hide Running, Weigh, Stands, Reduce, OnesSum, Flatten, Word, Covers, Prefix;
    CoversStart(m, len);
    RunningStart(big);
    while k < |m| && len != 0
      invariant k <= |m| && |consumed| + len == len0
      invariant Covers(m, k, consumed, len)
      invariant Running(sum, mlen, c0, consumed, big)
      decreases |m| - k
    {
      CoversStep(m, k, consumed, len);
      PrefixIs(m[k].data, consumed, len);
      if m[k].data != [] {
        ghost var before, len1 := consumed, len;
        consumed := consumed + Prefix(m[k].data, len);
        sum, mlen, c0, len := AddFragment(m[k], sum, mlen, c0, len, before, big);
      }
      k := k + 1;
    }
    CoversEnd(m, k, consumed, len);
    RunningFacts(sum, mlen, c0, consumed, big);
    FinalSum(sum, mlen, c0, consumed, big);
    if mlen == -1 {
      sum := sum + Word(c0, 0, big);
    }
    sum := Reduce(sum);
    r := 0xffff - sum;
  }

  // ---------- What the result is for ----------

  /** The bytes with the 16-bit word at byte offset i replaced by the stored value c. */
  function Store(s: seq<byte>, i: nat, c: nat, big: bool): seq<byte>
    requires i + 2 <= |s| && c <= 0xffff
  {
    if big then s[..i] + [c / 0x100, c % 0x100] + s[i + 2..] else s[..i] + [c % 0x100, c / 0x100] + s[i + 2..]
  }

  lemma WeighStore(s: seq<byte>, i: nat, c: nat, big: bool)
    requires i + 2 <= |s| && i % 2 == 0 && c <= 0xffff && s[i] == 0 && s[i + 1] == 0
    ensures Weigh(Store(s, i, c, big), big) == Weigh(s, big) + c
  {
    var w: seq<byte> := if big then [c / 0x100, c % 0x100] else [c % 0x100, c / 0x100];
    assert s == s[..i] + [0, 0] + s[i + 2..];
    WeighConcat(s[..i] + [0, 0], s[i + 2..], big);
    WeighConcat(s[..i], [0, 0], big);
    WeighConcat(s[..i] + w, s[i + 2..], big);
    WeighConcat(s[..i], w, big);
    WeighPair([0, 0], big);
    WeighPair(w, big);
  }

  /** A receiver that checksums a packet together with its stored checksum gets zero: storing the
      complement of the sum in a zeroed field at an even offset makes the sum 0xffff. */
  lemma Recheck(s: seq<byte>, i: nat, big: bool)
    requires i + 2 <= |s| && i % 2 == 0 && s[i] == 0 && s[i + 1] == 0
    ensures OnesSum(s, big) <= 0xffff
    ensures 0xffff - OnesSum(Store(s, i, 0xffff - OnesSum(s, big), big), big) == 0
  {
    OnesSumStands(s, big);
    var c := 0xffff - OnesSum(s, big);
    WeighStore(s, i, c, big);
    OnesSumStands(Store(s, i, c, big), big);
    RecheckSum(OnesSum(s, big), Weigh(s, big), OnesSum(Store(s, i, c, big), big));
  }

  lemma RecheckSum(a: nat, v: nat, b: nat)
    requires a <= 0xffff && b <= 0xffff && Stands(a, v) && Stands(b, v + 0xffff - a)
    ensures b == 0xffff
  {
    var q := v / 0xffff - a / 0xffff;
    assert v + 0xffff - a == 0 + 0xffff * (q + 1);
    ModShift(0, q + 1, 0xffff);
  }

  /** The sum does not depend on the byte order of the machine that computes it, up to swapping the
      bytes of the result (RFC 1071 section 2(B)): this is why the routine may load native words. */
  lemma {:induction false} ByteOrderIndependence(s: seq<byte>)
    ensures OnesSum(s, true) <= 0xffff
    ensures OnesSum(s, false) == OnesSum(s, true) / 0x100 + OnesSum(s, true) % 0x100 * 0x100
  {
    OnesSumStands(s, true);
    OnesSumStands(s, false);
    WeighSwap(s, true);
    SwapUnique(OnesSum(s, true), OnesSum(s, false), Weigh(s, true), Weigh(s, false));
  }

  lemma SwapUnique(a: nat, b: nat, v: nat, v': nat)
    requires a <= 0xffff && b <= 0xffff && Stands(a, v) && Stands(b, v')
    requires (v * 0x100) % 0xffff == v' % 0xffff && (v == 0 <==> v' == 0)
    ensures b == a / 0x100 + a % 0x100 * 0x100
  {
    var c := a / 0x100 + a % 0x100 * 0x100;
    ModScale(a, v, 0x100);
    SwapShift(a);
    SameResidue(b, c);
  }

  lemma SwapShift(a: nat)
    requires a <= 0xffff
    ensures var c := a / 0x100 + a % 0x100 * 0x100;
      c <= 0xffff && (c == 0 <==> a == 0) && (a * 0x100) % 0xffff == c % 0xffff
  {
    var c := a / 0x100 + a % 0x100 * 0x100;
    assert a * 0x100 == c + 0xffff * (a / 0x100);
    ModShift(c, a / 0x100, 0xffff);
  }

  lemma SameResidue(b: nat, c: nat)
    requires b <= 0xffff && c <= 0xffff && b % 0xffff == c % 0xffff && (b == 0 <==> c == 0)
    ensures b == c
  {
  }
}

/** What hangs in the trie of net/radix.c besides keys: chains of leaves that share a key and differ
    in their masks, and on test nodes lists of the masks under them.  Masks are contiguous. */
module RadixRoutes {
  import opened RadixBits
  import opened RadixTrie

  /** struct radix_mask of a normal mask: rm_b is the 16-bit pattern of -1 - index. */
  datatype RMask = RMask(b: int, leaf: Addr, next: Addr)

  /** The trie, the mask cells, the chain of every key, the mask list of every test node and the test
      node that every cell belongs to. */
  datatype Table = Table(t: Trie, rm: map<Addr, RMask>, chain: map<Key, seq<Addr>>,
                         lists: map<Addr, seq<Addr>>, owner: map<Addr, Addr>)

  /** A contiguous mask of index idx as rn_addmask keeps it: cut behind its last nonzero byte, its
      length in the first byte and ones in the other bytes that are skipped. */
  ghost predicate IsMask(off: nat, klen: nat, m: Key, idx: int) {
    && off < |m| <= klen && m[0] as nat == |m| && 8 * off < idx <= 8 * |m| && 8 * (|m| - 1) < idx
    && (forall i | 1 <= i < off :: m[i] == 0xff)
    && forall i | 8 * off <= i < 8 * |m| :: Bit(m, i) <==> i < idx
  }

  /** The address v and the key agree wherever the mask has a one. */
  predicate Covers(off: nat, v: Key, key: Key, m: Key) {
    forall i | off <= i < |m| :: i < |v| && i < |key| && (v[i] ^ key[i]) & m[i] == 0
  }

  /** The destination is within the route of a leaf: under its mask, or equal to a host key. */
  ghost predicate Within(off: nat, v: Key, n: Node) {
    if n.mask == [] then off <= |v| && off <= |n.key| && Suffix(v, off) == Suffix(n.key, off) else Covers(off, v, n.key, n.mask)
  }

  ghost predicate LeafOk(t: Trie, a: Addr) {
    && a in t.node
    && var n := t.node[a];
    && -0x8000 <= n.b < 0 && |n.key| == t.klen && t.off <= t.klen
    && (if n.normal then !n.root && IsMask(t.off, t.klen, n.mask, -1 - n.b) else n.mask == [])
  }

  /** The element behind position i of a linked list. */
  ghost function After(c: seq<Addr>, i: int): Addr {
    if 0 <= i && i + 1 < |c| then c[i + 1] else NULL
  }

  /** The leaves of one key, linked through rn_dupedkey from the head that hangs in the tree, the
      longest mask first.  A key with an unmasked leaf has no other leaf. */
  ghost predicate ChainOk(b: Table, s: Key) {
    && s in b.chain
    && var c := b.chain[s];
    && |c| > 0 && c[0] in b.t.heads
    && (forall i | 0 <= i < |c| :: LeafOk(b.t, c[i]) && Suffix(b.t.node[c[i]].key, b.t.off) == s)
    && (forall i | 0 <= i < |c| :: c[i] in b.t.node && b.t.node[c[i]].dupedkey == After(c, i))
    && (forall i, j | 0 <= i < j < |c| :: c[i] in b.t.node && c[j] in b.t.node && b.t.node[c[i]].b < b.t.node[c[j]].b)
    && (|c| > 1 ==> forall i | 0 <= i < |c| :: c[i] in b.t.node && b.t.node[c[i]].normal)
  }

  /** A cell on the list of test node x names a masked leaf under x whose index is at most x's bit. */
  ghost predicate CellOk(t: Trie, m: RMask, x: Addr) {
    && LeafOk(t, m.leaf) && t.node[m.leaf].normal
    && m.b == 0x1_0000 + t.node[m.leaf].b
    && x in t.below && x in t.node && Suffix(t.node[m.leaf].key, t.off) in t.below[x]
    && -1 - t.node[m.leaf].b <= t.node[x].b
  }

  ghost predicate ListOk(b: Table, x: Addr) {
    && x in b.lists && x in b.t.node
    && var l := b.lists[x];
    && b.t.node[x].masklist == (if |l| > 0 then l[0] else NULL)
    && (forall i | 0 <= i < |l| :: l[i] in b.rm && CellOk(b.t, b.rm[l[i]], x) && l[i] in b.owner && b.owner[l[i]] == x)
    && (forall i | 0 <= i < |l| :: l[i] in b.rm && b.rm[l[i]].next == After(l, i))
    && (forall i, j | 0 <= i < j < |l| :: l[i] != l[j])
  }

  /** A leaf in the tree is the first of the chain of its key. */
  ghost predicate HeadChained(b: Table, h: Addr) {
    h in b.t.node && b.t.off <= |b.t.node[h].key| &&
    var s := Suffix(b.t.node[h].key, b.t.off);
    s in b.chain && b.chain[s] != [] && b.chain[s][0] == h
  }

  ghost predicate HeadsChained(b: Table) {
    forall h | h in b.t.heads :: HeadChained(b, h)
  }

  ghost predicate TableOk(b: Table) {
    && Ok(b.t) && NULL !in b.rm
    && HeadsChained(b)
    && (forall s | s in b.chain :: ChainOk(b, s))
    && (forall x | x in b.t.inner :: ListOk(b, x))
  }

  // ---------- Masks and bits ----------

  lemma CoversByte(x: Byte, y: Byte, m: Byte)
    requires forall j | 0 <= j < 8 :: ByteBit(m, j) ==> ByteBit(x, j) == ByteBit(y, j)
    ensures (x ^ y) & m == 0
  {
    assert ByteBit(m, 0) ==> ByteBit(x, 0) == ByteBit(y, 0);
    assert ByteBit(m, 1) ==> ByteBit(x, 1) == ByteBit(y, 1);
    assert ByteBit(m, 2) ==> ByteBit(x, 2) == ByteBit(y, 2);
    assert ByteBit(m, 3) ==> ByteBit(x, 3) == ByteBit(y, 3);
    assert ByteBit(m, 4) ==> ByteBit(x, 4) == ByteBit(y, 4);
    assert ByteBit(m, 5) ==> ByteBit(x, 5) == ByteBit(y, 5);
    assert ByteBit(m, 6) ==> ByteBit(x, 6) == ByteBit(y, 6);
    assert ByteBit(m, 7) ==> ByteBit(x, 7) == ByteBit(y, 7);
  }

  /** Agreement on the bits before the index of a contiguous mask is agreement under the mask. */
  lemma PrefixCovers(t: Trie, v: Key, key: Key, m: Key, idx: int)
    requires t.off <= t.klen == |v| == |key| && IsMask(t.off, t.klen, m, idx)
    requires Agree(t.off, t.klen, Suffix(v, t.off), Suffix(key, t.off), idx)
    ensures Covers(t.off, v, key, m)
  {
    forall i | t.off <= i < |m| ensures (v[i] ^ key[i]) & m[i] == 0 {
      forall j | 0 <= j < 8 ensures ByteBit(m[i], j) ==> ByteBit(v[i], j) == ByteBit(key[i], j) {
        MaskBit(t, v, key, m, idx, i, j);
      }
      CoversByte(v[i], key[i], m[i]);
    }
  }

  lemma MaskBit(t: Trie, v: Key, key: Key, m: Key, idx: int, i: nat, j: nat)
    requires t.off <= t.klen == |v| == |key| && IsMask(t.off, t.klen, m, idx)
    requires Agree(t.off, t.klen, Suffix(v, t.off), Suffix(key, t.off), idx)
    requires t.off <= i < |m| && j < 8
    ensures ByteBit(m[i], j) ==> ByteBit(v[i], j) == ByteBit(key[i], j)
  {
    var c := 8 * i + j;
    assert c / 8 == i && c % 8 == j;
    assert Bit(m, c) <==> c < idx;
    TestSuffix(v, t.off, c);
    TestSuffix(key, t.off, c);
    if c < idx {
      assert TestAt(t.off, t.klen, Suffix(v, t.off), c) == TestAt(t.off, t.klen, Suffix(key, t.off), c);
    }
  }

  lemma AgreeTrans(off: nat, klen: nat, s1: Key, s2: Key, s3: Key, b: int, c: int, idx: int)
    requires Agree(off, klen, s1, s2, b) && Agree(off, klen, s2, s3, c) && idx <= b && idx <= c
    ensures Agree(off, klen, s1, s3, idx)
  {
    forall i | 8 * off <= i < idx ensures TestAt(off, klen, s1, i) == TestAt(off, klen, s3, i) {
      assert TestAt(off, klen, s1, i) == TestAt(off, klen, s2, i);
      assert TestAt(off, klen, s2, i) == TestAt(off, klen, s3, i);
    }
  }

  /** The reason a mask list found while climbing is sound: a cell on the list of x whose index does
      not exceed the first bit in which the address and the leaf reached by the search differ names
      a route that covers the address, as long as that leaf is under x as well. */
  lemma ListCovers(t: Trie, m: RMask, x: Addr, v: Key, u: Key, matched: int)
    requires Ok(t) && x in t.inner && CellOk(t, m, x) && |v| == t.klen
    requires x in t.below && u in t.below[x] && Agree(t.off, t.klen, Suffix(v, t.off), u, matched)
    requires -1 - t.node[m.leaf].b <= matched
    ensures Covers(t.off, v, t.node[m.leaf].key, t.node[m.leaf].mask)
  {
    assert InnerOk(t, x);
    var n := t.node[m.leaf];
    var k := Suffix(n.key, t.off);
    assert Agree(t.off, t.klen, u, k, t.node[x].b);
    hide Agree, Ok, InnerOk;
    AgreeTrans(t.off, t.klen, Suffix(v, t.off), u, k, matched, t.node[x].b, -1 - n.b);
    PrefixCovers(t, v, n.key, n.mask, -1 - n.b);
  }

  /** Equality on all bytes up to the mask's length is agreement under the mask. */
  lemma EqualCovers(off: nat, v: Key, key: Key, m: Key)
    requires |m| <= |v| && |m| <= |key| && (off < |m| ==> v[off..|m|] == key[off..|m|])
    ensures Covers(off, v, key, m)
  {
    forall i | off <= i < |m| ensures (v[i] ^ key[i]) & m[i] == 0 {
      assert v[i] == v[off..|m|][i - off] == key[off..|m|][i - off] == key[i];
      XorSelf(v[i], m[i]);
    }
  }

  /** The bytes of the address that rn_match compares first, up to the length of the leaf's mask or all of
      them, are those of the leaf's key. */
  ghost predicate Direct(off: nat, v: Key, n: Node) {
    var len := if n.mask == [] then |v| else |n.mask|;
    off <= len <= |v| && len <= |n.key| && v[off..len] == n.key[off..len]
  }

  /** Under a contiguous mask these are the bytes under the mask, and all bits of the last one. */
  lemma DirectIff(off: nat, v: Key, n: Node, idx: int)
    requires IsMask(off, |v|, n.mask, idx) && |n.key| == |v|
    ensures var last := |n.mask| - 1;
      Direct(off, v, n) <==> Covers(off, v, n.key, n.mask) && v[last] == n.key[last]
    ensures idx % 8 == 0 ==> (Direct(off, v, n) <==> Covers(off, v, n.key, n.mask))
  {
    hide Covers, IsMask;
    MaskSize(off, |v|, n.mask, idx);
    if Direct(off, v, n) {
      EqualCovers(off, v, n.key, n.mask);
      SameBytes(v, n.key, off, |n.mask|);
    }
    if Covers(off, v, n.key, n.mask) && (idx % 8 == 0 || v[|n.mask| - 1] == n.key[|n.mask| - 1]) {
      CoveredBytes(off, v, n.key, n.mask, idx);
    }
  }

  lemma MaskSize(off: nat, klen: nat, m: Key, idx: int)
    requires IsMask(off, klen, m, idx)
    ensures off < |m| <= klen
  {
  }

  lemma SameBytes(v: Key, k: Key, i: nat, j: nat)
    requires i <= j <= |v| && j <= |k| && v[i..j] == k[i..j]
    ensures forall x | i <= x < j :: v[x] == k[x]
  {
    forall x | i <= x < j ensures v[x] == k[x] { assert v[i..j][x - i] == k[i..j][x - i]; }
  }

  lemma CoveredBytes(off: nat, v: Key, k: Key, m: Key, idx: int)
    requires IsMask(off, |v|, m, idx) && |k| == |v| && Covers(off, v, k, m)
    requires idx % 8 == 0 || v[|m| - 1] == k[|m| - 1]
    ensures v[off..|m|] == k[off..|m|]
  {
    forall i | off <= i < |m| ensures v[i] == k[i] {
      if i < |m| - 1 || idx % 8 == 0 {
        FullByte(off, |v|, m, idx, i);
        UnderOnes(v[i], k[i], m[i]);
      }
    }
  }

  lemma FullByte(off: nat, klen: nat, m: Key, idx: int, i: nat)
    requires IsMask(off, klen, m, idx) && off <= i < |m| && (i < |m| - 1 || idx % 8 == 0)
    ensures m[i] == 0xff
  {
    forall j | 0 <= j < 8 ensures ByteBit(m[i], j) {
      assert (8 * i + j) / 8 == i && (8 * i + j) % 8 == j;
      assert Bit(m, 8 * i + j);
    }
    AllBits(m[i]);
  }

  lemma AllBits(x: Byte)
    requires forall j | 0 <= j < 8 :: ByteBit(x, j)
    ensures x == 0xff
  {
    assert ByteBit(x, 0) && ByteBit(x, 1) && ByteBit(x, 2) && ByteBit(x, 3);
    assert ByteBit(x, 4) && ByteBit(x, 5) && ByteBit(x, 6) && ByteBit(x, 7);
  }

  lemma UnderOnes(x: Byte, y: Byte, m: Byte)
    requires (x ^ y) & m == 0 && m == 0xff
    ensures x == y
  {
  }

  lemma XorSelf(x: Byte, m: Byte)
    ensures (x ^ x) & m == 0
  {
  }

  // ---------- The comparisons that order a chain ----------

  /** rn_refines on two masks: n has no bit that m has not, and they differ. */
  predicate Refines(m: Key, n: Key)
    requires 0 < |m| == m[0] as nat && 0 < |n| == n[0] as nat
  {
    var common := if |n| < |m| then |n| else |m|;
    && (forall i | 1 <= i < common :: n[i] & !m[i] == 0)
    && (forall i | common <= i < |n| :: n[i] == 0)
    && ((exists i | 1 <= i < common :: n[i] != m[i]) || (exists i | common <= i < |m| :: m[i] != 0))
  }

  /** rn_lexobetter: the longer mask, or one with a larger byte. */
  predicate LexoBetter(m: Key, n: Key)
    requires 0 < |m| == m[0] as nat && 0 < |n| == n[0] as nat
  {
    |m| > |n| || (|m| == |n| && exists i | 1 <= i < |n| :: m[i] > n[i])
  }

  lemma MaskBitAt(off: nat, klen: nat, m: Key, idx: int, i: nat, j: nat)
    requires IsMask(off, klen, m, idx) && off <= i < |m| && j < 8
    ensures ByteBit(m[i], j) <==> 8 * i + j < idx
  {
    var c := 8 * i + j;
    assert c / 8 == i && c % 8 == j;
    assert Bit(m, c) <==> c < idx;
  }

  /** A contiguous mask is determined by its index. */
  lemma MaskUnique(off: nat, klen: nat, m: Key, n: Key, idx: int)
    requires 0 < off && IsMask(off, klen, m, idx) && IsMask(off, klen, n, idx)
    ensures m == n
  {
    assert |m| == |n|;
    forall i | off <= i < |m| ensures m[i] == n[i] {
      hide IsMask;
      MaskUniqueByte(off, klen, m, n, idx, i);
    }
  }

  lemma MaskUniqueByte(off: nat, klen: nat, m: Key, n: Key, idx: int, i: nat)
    requires IsMask(off, klen, m, idx) && IsMask(off, klen, n, idx) && off <= i < |m| && i < |n|
    ensures m[i] == n[i]
  {
    forall j | 0 <= j < 8 ensures ByteBit(m[i], j) == ByteBit(n[i], j) {
      hide IsMask;
      MaskBitAt(off, klen, m, idx, i, j);
      MaskBitAt(off, klen, n, idx, i, j);
    }
    SameBits(m[i], n[i]);
  }

  lemma SubBits(x: Byte, y: Byte)
    requires forall j | 0 <= j < 8 :: ByteBit(x, j) ==> ByteBit(y, j)
    ensures x <= y
  {
    assert ByteBit(x, 0) ==> ByteBit(y, 0);
    assert ByteBit(x, 1) ==> ByteBit(y, 1);
    assert ByteBit(x, 2) ==> ByteBit(y, 2);
    assert ByteBit(x, 3) ==> ByteBit(y, 3);
    assert ByteBit(x, 4) ==> ByteBit(y, 4);
    assert ByteBit(x, 5) ==> ByteBit(y, 5);
    assert ByteBit(x, 6) ==> ByteBit(y, 6);
    assert ByteBit(x, 7) ==> ByteBit(y, 7);
  }

  lemma LostBit(x: Byte, y: Byte, j: nat)
    requires ByteBit(x, j) && !ByteBit(y, j)
    ensures x & !y != 0
  {
  }

  /** A shorter mask has no byte larger than a longer one. */
  lemma MaskBelow(off: nat, klen: nat, m: Key, n: Key, im: int, ic: int, i: nat)
    requires IsMask(off, klen, m, im) && IsMask(off, klen, n, ic) && im <= ic && 1 <= i < |m| && i < |n|
    ensures m[i] <= n[i]
  {
    if i >= off {
      forall j | 0 <= j < 8 ensures ByteBit(m[i], j) ==> ByteBit(n[i], j) {
        hide IsMask;
        MaskBitAt(off, klen, m, im, i, j);
        MaskBitAt(off, klen, n, ic, i, j);
      }
      SubBits(m[i], n[i]);
    }
  }

  /** rn_refines and rn_lexobetter only ever prefer the mask with the larger index. */
  lemma RefinesLonger(off: nat, klen: nat, m: Key, n: Key, im: int, ic: int)
    requires 0 < off && IsMask(off, klen, m, im) && IsMask(off, klen, n, ic) && Refines(m, n)
    ensures im > ic
  {
    if im == ic {
      MaskUnique(off, klen, m, n, im);
    } else if im < ic {
      assert |m| <= |n|;
      var q := im / 8;
      if q < |m| {
        MaskBitAt(off, klen, m, im, q, im % 8);
        MaskBitAt(off, klen, n, ic, q, im % 8);
        LostBit(n[q], m[q], im % 8);
      } else {
        MaskBitAt(off, klen, n, ic, q, im % 8);
        ZeroBits(im % 8);
      }
    }
  }

  lemma ZeroBits(j: nat)
    ensures !ByteBit(0, j)
  {
  }

  lemma LexoLonger(off: nat, klen: nat, m: Key, n: Key, im: int, ic: int)
    requires IsMask(off, klen, m, im) && IsMask(off, klen, n, ic) && LexoBetter(m, n)
    ensures im > ic
  {
    if im <= ic && |m| == |n| {
      forall i | 1 <= i < |n| ensures m[i] <= n[i] {
        MaskBelow(off, klen, m, n, im, ic, i);
      }
    }
  }
}

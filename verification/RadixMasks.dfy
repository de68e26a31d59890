/** rn_addmask of net/radix.c: netmasks are kept once each, as the keys of a trie of their own, and
    each is classified as contiguous or not. */
module RadixMasks {
  import Common
  import opened RadixBits
  import opened RadixTrie
  import opened RadixRoutes
  import opened RadixUpdates
  import opened RadixClimb
  import opened RadixLists
  import opened Radix

  /** A key of the mask trie: its length, then the mask, then zeros up to the length of the buffer. */
  ghost predicate Canonical(k: Key, klen: nat) {
    && |k| == klen && 0 < klen && 0 < k[0] as nat <= klen
    && forall i | k[0] as nat <= i < klen :: k[i] == 0
  }

  /** The mask itself, as the leaf of a route refers to it. */
  ghost function MaskOf(k: Key): Key
    requires 0 < |k| && k[0] as nat <= |k|
  {
    k[..k[0] as nat]
  }

  /** The entries of normal_chars. */
  function NormalChar(b: nat): Byte {
    if b == 0 then 0x00 else if b == 1 then 0x80 else if b == 2 then 0xc0 else if b == 3 then 0xe0
    else if b == 4 then 0xf0 else if b == 5 then 0xf8 else if b == 6 then 0xfc else if b == 7 then 0xfe else 0xff
  }

  lemma NormalCharBits(b: nat, j: nat)
    requires b <= 8 && j < 8
    ensures ByteBit(NormalChar(b), j) <==> j < b
  {
  }

  /** `for(bit = 0x80; bit && (bit & *cp); bit >>= 1) ++b`: the leading ones of a byte. */
  method LeadingOnes(x: Byte) returns (b: nat)
    ensures b <= 8 && (forall j | 0 <= j < b :: ByteBit(x, j)) && (b < 8 ==> !ByteBit(x, b))
  {
    b := 0;
    while b < 8 && x & BitMask(b) != 0
      invariant b <= 8 && forall j | 0 <= j < b :: ByteBit(x, j)
    {
      b := b + 1;
    }
  }

  /** The bytes of ones behind the skipped ones. */
  method FullBytes(k: Key, skip: nat, mlen: nat) returns (cp: nat)
    requires skip <= mlen <= |k|
    ensures skip <= cp <= mlen && (forall i | skip <= i < cp :: k[i] == 0xff) && (cp < mlen ==> k[cp] != 0xff)
  {
    cp := skip;
    while cp < mlen && k[cp] == 0xff
      invariant skip <= cp <= mlen && forall i | skip <= i < cp :: k[i] == 0xff
    {
      cp := cp + 1;
    }
  }

  /** The scan of rn_addmask: whole bytes of ones, then one byte of leading ones, then nothing. */
  method Classify(k: Key, skip: nat, mlen: nat) returns (normal: bool, idx: nat)
    requires 0 < skip < mlen <= |k| && mlen == k[0] as nat && k[mlen - 1] != 0
    requires forall i | 1 <= i < skip :: k[i] == 0xff
    ensures normal ==> IsMask(skip, |k|, k[..mlen], idx)
    ensures forall i | IsMask(skip, |k|, k[..mlen], i) :: normal && idx == i
    ensures idx <= 8 * |k|
  {
    hide IsMask, ByteBit, NormalChar;
    var cp := FullBytes(k, skip, mlen);
    var b := 0;
    normal := true;
    if cp != mlen {
      b := LeadingOnes(k[cp]);
      if k[cp] != NormalChar(b) || cp != mlen - 1 {
        normal := false;
      }
    }
    idx := b + 8 * cp;
    if normal { ScanSound(k, skip, mlen, cp, b); }
    forall i | IsMask(skip, |k|, k[..mlen], i) ensures normal && idx == i { ScanComplete(k, skip, mlen, cp, b, i); }
  }

  lemma ScanSound(k: Key, skip: nat, mlen: nat, cp: nat, b: nat)
    requires 0 < skip < mlen <= |k| && mlen == k[0] as nat && k[mlen - 1] != 0 && skip <= cp <= mlen && b <= 8
    requires forall i | 1 <= i < cp :: k[i] == 0xff
    requires if cp == mlen then b == 0 else cp == mlen - 1 && k[cp] == NormalChar(b)
    ensures IsMask(skip, |k|, k[..mlen], b + 8 * cp)
  {
    var m, idx := k[..mlen], b + 8 * cp;
    assert b == 0 ==> cp == mlen;
    forall i | 8 * skip <= i < 8 * |m| ensures Bit(m, i) <==> i < idx {
      if i / 8 < cp { NormalCharBits(8, i % 8); } else { NormalCharBits(b, i % 8); }
    }
  }

  lemma ScanComplete(k: Key, skip: nat, mlen: nat, cp: nat, b: nat, idx: int)
    requires 0 < skip < mlen <= |k| && skip <= cp <= mlen && b <= 8
    requires forall i | skip <= i < cp :: k[i] == 0xff
    requires if cp == mlen then b == 0 else k[cp] != 0xff && (forall j | 0 <= j < b :: ByteBit(k[cp], j)) && (b < 8 ==> !ByteBit(k[cp], b))
    requires IsMask(skip, |k|, k[..mlen], idx)
    ensures idx == b + 8 * cp && (cp < mlen ==> cp == mlen - 1 && k[cp] == NormalChar(b))
  {
    var m := k[..mlen];
    if cp < mlen {
      hide IsMask;
      MaskEnds(skip, |k|, m, idx);
      forall j | 0 <= j < 8 ensures ByteBit(k[cp], j) <==> 8 * cp + j < idx { MaskBitAt(skip, |k|, m, idx, cp, j); }
      if idx >= 8 * cp + 8 { AllBits(k[cp]); }
      var c := idx - 8 * cp;
      assert !ByteBit(k[cp], c);
      forall j | 0 <= j < 8 ensures ByteBit(k[cp], j) == ByteBit(NormalChar(b), j) { NormalCharBits(b, j); }
      SameBits(k[cp], NormalChar(b));
    } else {
      hide IsMask;
      MaskEnds(skip, |k|, m, idx);
      MaskBitAt(skip, |k|, m, idx, mlen - 1, 7);
      NormalCharBits(8, 7);
    }
  }

  lemma MaskEnds(off: nat, klen: nat, m: Key, idx: int)
    requires IsMask(off, klen, m, idx)
    ensures 8 * (|m| - 1) < idx <= 8 * |m|
  {
  }

  /** The length of the first n bytes of m without trailing zero bytes, but at least skip. */
  function TrimLen(m: Key, n: nat, skip: nat): (r: nat)
    requires skip <= n <= |m|
    ensures skip <= r <= n
    decreases n
  {
    if n > skip && m[n - 1] == 0 then TrimLen(m, n - 1, skip) else n
  }

  lemma {:induction false} TrimFacts(m: Key, n: nat, skip: nat)
    requires skip <= n <= |m|
    ensures var r := TrimLen(m, n, skip); (forall i | r <= i < n :: m[i] == 0) && (r > skip ==> m[r - 1] != 0)
    decreases n
  {
    if n > skip && m[n - 1] == 0 { TrimFacts(m, n - 1, skip); }
  }

  /** The key under which a netmask is kept. */
  function Canon(m: Key, n: nat, skip: nat, klen: nat): Key
    requires 0 < skip <= n <= |m| && n <= klen < 0x100
  {
    var len := TrimLen(m, n, skip);
    [len as Byte] + Ones(skip - 1) + m[skip..len] + Zeros(klen - len)
  }

  /** The loop that cuts the trailing zeros; the skipped bytes are ones, so that it stops behind them. */
  method Trim(k: Key, m: Key, mlen0: nat, skip: nat) returns (mlen: nat)
    requires 2 <= skip <= mlen0 <= |k| && mlen0 <= |m|
    requires k[skip - 1] == 0xff && k[skip..mlen0] == m[skip..mlen0]
    ensures skip <= mlen <= mlen0 && mlen == TrimLen(m, mlen0, skip)
    ensures forall i | mlen <= i < mlen0 :: k[i] == 0
    ensures mlen > skip ==> k[mlen - 1] != 0
  {
    mlen := mlen0;
    assert forall i | skip <= i < mlen0 :: k[i] == k[skip..mlen0][i - skip] == m[i];
    while k[mlen - 1] == 0
      invariant skip <= mlen <= mlen0 && TrimLen(m, mlen, skip) == TrimLen(m, mlen0, skip)
      invariant forall i | mlen <= i < mlen0 :: k[i] == 0
      decreases mlen
    {
      mlen := mlen - 1;
    }
  }

  /** The buffer after the mask was copied: ones in the skipped bytes, the mask, and what was left. */
  ghost predicate BufFilled(buf0: Key, k: Key, m: Key, mlen0: nat, skip: nat) {
    && |k| == |buf0| && mlen0 <= |buf0| && mlen0 <= |m|
    && (forall i | 1 <= i < skip && i < |k| :: k[i] == 0xff)
    && (forall i | skip <= i < mlen0 :: k[i] == m[i])
    && forall i | mlen0 <= i < |buf0| :: k[i] == buf0[i]
  }

  lemma FillBuf(buf0: Key, m: Key, mlen0: nat, skip: nat)
    requires 2 <= skip < mlen0 <= |buf0| && mlen0 <= |m|
    ensures BufFilled(buf0, [buf0[0]] + Ones(skip - 1) + m[skip..mlen0] + buf0[mlen0..], m, mlen0, skip)
  {
  }

  lemma FilledFront(buf0: Key, k: Key, m: Key, mlen0: nat, skip: nat)
    requires 2 <= skip < mlen0 && BufFilled(buf0, k, m, mlen0, skip)
    ensures mlen0 <= |k| == |buf0| && mlen0 <= |m| && k[skip - 1] == 0xff && k[skip..mlen0] == m[skip..mlen0]
  {
  }

  /** What stands behind the mask when its trailing zeros are cut. */
  lemma FilledEnd(buf0: Key, k: Key, m: Key, mlen0: nat, skip: nat, mlen: nat, zeros: nat, klen: nat)
    requires 2 <= skip < mlen0 && BufFilled(buf0, k, m, mlen0, skip) && BufOk(buf0, zeros, klen) && mlen <= mlen0
    requires skip <= mlen && forall i | mlen <= i < mlen0 :: k[i] == 0
    ensures if mlen0 >= zeros then BufOk(k, mlen, klen) else BufOk(k, zeros, klen)
  {
  }

  /** What the skipped bytes, the mask and the zeros behind it amount to. */
  lemma ClearedCanon(buf0: Key, k: Key, k': Key, m: Key, mlen0: nat, skip: nat, mlen: nat, zeros: nat, klen: nat)
    requires 2 <= skip < mlen <= mlen0 && BufFilled(buf0, k, m, mlen0, skip) && BufOk(buf0, zeros, klen)
    requires mlen0 <= klen < 0x100 && mlen == TrimLen(m, mlen0, skip) && forall i | mlen <= i < mlen0 :: k[i] == 0
    requires k' == (if mlen0 < zeros then k[..mlen0] + Zeros(zeros - mlen0) + k[zeros..] else k)[0 := mlen as Byte]
    ensures k' == Canon(m, mlen0, skip, klen) && BufOk(k', mlen, klen)
  {
    hide TrimLen;
    assert forall i | mlen <= i < klen :: k'[i] == 0;
  }

  /** Every leaf but the roots holds a canonical mask, classified. */
  ghost predicate LeafClassified(t: Trie, skip: nat, h: Addr) {
    && h in t.node && |t.node[h].key| == t.klen && 0 < t.klen
    && if t.node[h].root then t.node[h].key[0] == 0 || t.node[h].key[0] == 0xff
       else Canonical(t.node[h].key, t.klen) && Classified(t.node[h], skip, t.klen)
  }

  ghost predicate AllClassified(t: Trie, skip: nat) {
    forall h | h in t.heads :: LeafClassified(t, skip, h)
  }

  /** The two roots need no mask. */
  lemma InitClassified(klen: nat, skip: nat, top: Addr, l: Addr, r: Addr)
    requires InitArgs(0, klen, top, l, r)
    ensures var t := InitTable(0, klen, top, l, r).t;
      AllClassified(t, skip) && l in t.heads && l in t.node && t.node[l].root && t.node[l].key == Zeros(klen)
    ensures |Zeros(klen)| == klen && BufOk(Zeros(klen), 0, klen)
  {
    hide Suffix;
    var t := InitTable(0, klen, top, l, r).t;
    assert LeafClassified(t, skip, l) && LeafClassified(t, skip, r);
  }

  ghost predicate BufOk(k: Key, lastZeros: nat, klen: nat) {
    |k| == klen && lastZeros <= klen && (forall i | lastZeros <= i < klen && 1 <= i :: k[i] == 0)
  }

  /** r is the leaf of the mask key c, classified. */
  ghost predicate IsLeafOf(t: Trie, skip: nat, r: Addr, c: Key) {
    r in t.heads && r in t.node && t.node[r].key == c && !t.node[r].root && LeafClassified(t, skip, r)
  }

  class MaskTable {
    const head: Head
    const skip: nat
    const zeroRoot: Addr
    var keyBuf: Key      // rn_addrmaskkey
    var lastZeros: nat   // last_zeros: the bytes of keyBuf from here on are zero

    ghost predicate Valid()
      reads this, head
    {
      && Ok(head.T()) && head.off == 0 && 2 <= skip < head.klen
      && BufOk(keyBuf, lastZeros, head.klen)
      && AllClassified(head.T(), skip)
      && zeroRoot in head.heads && zeroRoot in head.node && head.node[zeroRoot].root
    }

    /** rn_init: the two roots are the only masks. */
    constructor (klen: nat, skip: nat, top: Addr, l: Addr, r: Addr)
      requires InitArgs(0, klen, top, l, r) && 2 <= skip < klen
      ensures Valid() && fresh(head) && head.klen == klen && this.skip == skip
      ensures Keys(head.T()) == {Zeros(klen), Ones(klen)}
      ensures zeroRoot in head.node && head.node[zeroRoot].key == Zeros(klen)
    {
      hide TableOk, Ok, AllClassified, Zeros, Ones, Unmasked;
      head := new Head(0, klen, top, l, r);
      this.skip, zeroRoot := skip, l;
      keyBuf, lastZeros := Zeros(klen), 0;
      new;
      InitClassified(klen, skip, top, l, r);
      TableParts(head.B());
      assert Suffix(Zeros(klen), 0) == Zeros(klen) && Suffix(Ones(klen), 0) == Ones(klen);
    }

    /** The first half of rn_addmask: copy the mask behind the skipped bytes, cut its trailing zeros
        and clear what an earlier, longer mask left behind. */
    method Prepare(m: Key, mlen0: nat) returns (mlen: nat)
      requires Valid() && skip < mlen0 <= head.klen && mlen0 <= |m|
      modifies this
      ensures Valid()
      ensures mlen == TrimLen(m, mlen0, skip)
      ensures mlen > skip ==> keyBuf == Canon(m, mlen0, skip, head.klen)
    {
      hide Ok, AllClassified, TrimLen, Canon, BufFilled;
      KlenBound();
      ghost var klen, buf0 := head.klen, keyBuf;
      FillBuf(buf0, m, mlen0, skip);
      keyBuf := [keyBuf[0]] + Ones(skip - 1) + m[skip..mlen0] + keyBuf[mlen0..];
      ghost var buf1 := keyBuf;
      FilledFront(buf0, buf1, m, mlen0, skip);
      mlen := Trim(keyBuf, m, mlen0, skip);
      FilledEnd(buf0, buf1, m, mlen0, skip, mlen, lastZeros, klen);
      if mlen <= skip {
        if mlen0 >= lastZeros {
          lastZeros := mlen;
        }
      } else {
        if mlen0 < lastZeros {
          keyBuf := keyBuf[..mlen0] + Zeros(lastZeros - mlen0) + keyBuf[lastZeros..];
        }
        keyBuf := keyBuf[0 := mlen as Byte];
        ClearedCanon(buf0, buf1, keyBuf, m, mlen0, skip, mlen, lastZeros, klen);
        lastZeros := mlen;
      }
    }

    /** rn_addmask: the leaf that holds the mask, looked up or made; the root of zeros for a mask
        without bits behind the skipped bytes. */
    method AddMask(m: Key, ti: Addr, tt: Addr) returns (r: Addr)
      requires Valid() && 0 < |m| && (m[0] as nat <= |m| || head.klen <= |m|)
      requires ti != tt && ti != NULL && tt != NULL && ti !in head.node && tt !in head.node
      modifies this, head
      ensures Valid()
      ensures var n := Common.Min(m[0] as nat, head.klen);
        if n <= skip || TrimLen(m, n, skip) == skip then r == zeroRoot && head.T() == old(head.T())
        else IsLeafOf(head.T(), skip, r, Canon(m, n, skip, head.klen)) &&
             head.top in old(head.below) && head.top in head.below &&
             Keys(head.T()) == old(Keys(head.T())) + {Canon(m, n, skip, head.klen)} &&
             (Canon(m, n, skip, head.klen) in old(Keys(head.T())) ==> head.T() == old(head.T()))
    {
      hide Ok, AllClassified, TrimLen, Canon, Classified;
      KlenBound();
      ghost var klen := head.klen;
      var mlen := Common.Min(m[0] as nat, head.klen);
      ghost var n := mlen;
      if mlen <= skip {
        return zeroRoot;
      }
      mlen := Prepare(m, mlen);
      if mlen <= skip {
        return zeroRoot;
      }
      r := FindOrInsert(m, n, mlen, ti, tt);
    }

    /** rn_addmask for a contiguous netmask: the mask that is kept, and its index. */
    method KeepMask(m: Key, ti: Addr, tt: Addr, ghost klen': nat, ghost idx: int) returns (netmask: Key, b: int)
      requires Valid() && 0 < |m| && (m[0] as nat <= |m| || head.klen <= |m|)
      requires Contiguous(m, Common.Min(m[0] as nat, head.klen), skip, idx) && idx <= 8 * klen'
      requires ti != tt && ti != NULL && tt != NULL && ti !in head.node && tt !in head.node
      modifies this, head
      ensures Valid() && b == idx && netmask != [] && IsMask(skip, klen', netmask, idx)
    {
      hide Ok, AllClassified, IsMask, Canon, TrimLen, Contiguous, Classified, LeafClassified;
      KlenBound();
      ghost var n, klen := Common.Min(m[0] as nat, head.klen), head.klen;
      NotShort(m, n, skip, idx);
      CanonMask(m, n, skip, klen, klen', idx);
      var leaf := AddMask(m, ti, tt);
      LeafMaskIs(head.T(), skip, leaf, Canon(m, n, skip, klen), idx);
      b := -1 - head.node[leaf].b;
      netmask := head.node[leaf].key[..head.node[leaf].key[0] as nat];
    }

    /** The second half of rn_addmask: search for the key, and link in a new leaf when it is not there. */
    method FindOrInsert(ghost m: Key, ghost n: nat, mlen: nat, ti: Addr, tt: Addr) returns (r: Addr)
      requires Valid() && skip < mlen <= n <= |m| && n <= head.klen <= MAX_KEY
      requires mlen == TrimLen(m, n, skip) && keyBuf == Canon(m, n, skip, head.klen)
      requires ti != tt && ti != NULL && tt != NULL && ti !in head.node && tt !in head.node
      modifies head
      ensures Valid() && IsLeafOf(head.T(), skip, r, keyBuf)
      ensures head.top in old(head.below) && head.top in head.below
      ensures Keys(head.T()) == old(Keys(head.T())) + {keyBuf}
      ensures keyBuf in old(Keys(head.T())) ==> head.T() == old(head.T())
    {
      hide Ok, AllClassified, TrimLen, Canon, Classified, LeafClassified, SearchPath, Canonical, LeafAdded;
      CanonShape(m, n, skip, head.klen);
      assert Suffix(keyBuf, 0) == keyBuf;
      ghost var t0 := head.T();
      var t;
      ghost var Q;
      t, Q := head.Search(keyBuf);
      LeafCompare(t0, skip, t, keyBuf, mlen);
      if head.node[t].key[..mlen] == keyBuf[..mlen] {
        r := t;
        return;
      }
      Distinguished(t0, skip, keyBuf, mlen);
      var duped;
      r, duped := head.Insert(keyBuf, ti, tt);
      var normal, idx := Classify(keyBuf, skip, mlen);
      ghost var t1 := head.T();
      LinkedFacts(t0, t1, keyBuf, ti, tt);
      var b: int := idx;
      head.node := head.node[ti := head.node[ti].(b := -1 - b, normal := normal)];
      FreshClassified(t0, t1, keyBuf, ti, tt, normal, idx, skip);
      assert head.T() == t1.(node := head.node);
    }

    lemma KlenBound()
      requires Valid()
      ensures head.klen <= MAX_KEY
    {
      OkFitsKlen(head.T());
    }
  }

  /** The flag says whether the mask is contiguous, and then rn_b is that of its index. */
  ghost predicate Classified(n: Node, skip: nat, klen: nat)
    requires Canonical(n.key, klen)
  {
    && (n.normal ==> IsMask(skip, klen, MaskOf(n.key), -1 - n.b))
    && (forall i | IsMask(skip, klen, MaskOf(n.key), i) :: n.normal && n.b == -1 - i)
  }

  lemma LinkedFacts(t0: Trie, t: Trie, v: Key, ti: Addr, tt: Addr)
    requires LeafAdded(t0, t, ti, tt)
    ensures forall a | a in t0.node :: a in t.node && t.node[a].root == t0.node[a].root
    ensures ti in t.node && ti in t.heads && t.heads == t0.heads + {ti} && ti !in t0.node && t.off == t0.off && t.klen == t0.klen
  {
    forall a | a in t0.node ensures a in t.node && t.node[a].root == t0.node[a].root { assert SameButLinks(t0.node[a], t.node[a]); }
  }

  /** What a canonical key looks like. */
  lemma CanonShape(m: Key, n: nat, skip: nat, klen: nat)
    requires 2 <= skip <= n <= |m| && n <= klen <= MAX_KEY && skip < TrimLen(m, n, skip)
    ensures var c, len := Canon(m, n, skip, klen), TrimLen(m, n, skip);
      && Canonical(c, klen) && |c| == klen && c[0] as nat == len && len <= klen && c[len - 1] != 0
      && (forall i | 1 <= i < skip :: c[i] == 0xff) && (forall i | skip <= i < len :: c[i] == m[i])
  {
    TrimFacts(m, n, skip);
    ByteRoundTrip(TrimLen(m, n, skip));
    hide TrimLen, Canonical;
    CanonBytes(m, n, skip, klen);
    assert Canonical(Canon(m, n, skip, klen), klen) by { hide Canon; IsCanonical(Canon(m, n, skip, klen), TrimLen(m, n, skip), klen); }
  }

  lemma IsCanonical(c: Key, len: nat, klen: nat)
    requires 0 < len <= klen && |c| == klen && c[0] as nat == len && (forall i | len <= i < klen :: c[i] == 0)
    ensures Canonical(c, klen)
  {
  }

  lemma ByteRoundTrip(n: nat)
    requires n <= MAX_KEY
    ensures (n as Byte) as nat == n
  {
  }

  lemma CanonBytes(m: Key, n: nat, skip: nat, klen: nat)
    requires 2 <= skip <= n <= |m| && n <= klen <= MAX_KEY
    ensures var c, len := Canon(m, n, skip, klen), TrimLen(m, n, skip);
      && |c| == klen && c[0] == len as Byte && (forall i | 1 <= i < skip :: c[i] == 0xff)
      && (forall i | skip <= i < len :: c[i] == m[i]) && (forall i | len <= i < klen :: c[i] == 0)
  {
    hide TrimLen;
  }

  /** A leaf that agrees with a canonical key on that key's length holds that key. */
  lemma LeafCompare(t: Trie, skip: nat, h: Addr, c: Key, mlen: nat)
    requires AllClassified(t, skip) && h in t.heads && Canonical(c, t.klen) && c[0] as nat == mlen && t.klen <= MAX_KEY
    ensures h in t.node && |t.node[h].key| == t.klen && mlen <= t.klen
    ensures t.node[h].key[..mlen] == c[..mlen] ==> t.node[h].key == c && !t.node[h].root && LeafClassified(t, skip, h)
  {
    assert LeafClassified(t, skip, h);
    var k := t.node[h].key;
    if k[..mlen] == c[..mlen] {
      assert k[0] == k[..mlen][0] == c[..mlen][0] == c[0];
      assert c[0] != 0xff && c[0] != 0;
      assert k == k[..mlen] + k[mlen..] && c == c[..mlen] + c[mlen..];
    }
  }

  lemma Distinguished(t: Trie, skip: nat, c: Key, mlen: nat)
    requires AllClassified(t, skip) && Canonical(c, t.klen) && c[0] as nat == mlen && t.klen <= MAX_KEY && t.off == 0
    ensures mlen <= |c|
    ensures forall u | u in t.heads && u in t.node && |t.node[u].key| == t.klen && t.node[u].key[0..mlen] == c[0..mlen] ::
      Suffix(t.node[u].key, 0) == Suffix(c, 0)
  {
    hide AllClassified, LeafClassified;
    forall u | u in t.heads && u in t.node && |t.node[u].key| == t.klen && t.node[u].key[0..mlen] == c[0..mlen]
      ensures Suffix(t.node[u].key, 0) == Suffix(c, 0)
    {
      LeafCompare(t, skip, u, c, mlen);
    }
  }

  lemma FreshClassified(t0: Trie, t: Trie, v: Key, ti: Addr, tt: Addr, normal: bool, idx: nat, skip: nat)
    requires Ok(t0) && Ok(t) && LeafAdded(t0, t, ti, tt) && AllClassified(t0, skip)
    requires ti in t.node && t.node[ti] == LeafNode(v, tt) && idx <= 8 * MAX_KEY
    requires Canonical(v, t.klen) && v[0] as nat <= |v| && 0 < |v|
    requires normal ==> IsMask(skip, t.klen, MaskOf(v), idx)
    requires forall i | IsMask(skip, t.klen, MaskOf(v), i) :: normal && idx == i
    ensures var t' := t.(node := t.node[ti := t.node[ti].(b := -1 - idx, normal := normal)]);
      Ok(t') && AllClassified(t', skip) && IsLeafOf(t', skip, ti, v)
  {
    hide Ok, IsMask, Canonical, LeafClassified, LeafAdded, AllClassified;
    FreshOk(t0, t, v, ti, tt, normal, idx);
    LinkedFacts(t0, t, v, ti, tt);
    var t' := t.(node := t.node[ti := t.node[ti].(b := -1 - idx, normal := normal)]);
    FreshLeaf(t', v, ti, normal, idx, skip);
    forall h | h in t'.heads ensures LeafClassified(t', skip, h) {
      if h != ti {
        OldClassified(t0, t, ti, tt, skip, h);
        StillClassified(t, t', skip, h);
      }
    }
    assert AllClassified(t', skip) by { JoinClassified(t', skip); }
  }

  lemma JoinClassified(t: Trie, skip: nat)
    requires forall h | h in t.heads :: LeafClassified(t, skip, h)
    ensures AllClassified(t, skip)
  {
    hide LeafClassified;
  }

  lemma StillClassified(t: Trie, t': Trie, skip: nat, h: Addr)
    requires LeafClassified(t, skip, h) && t'.klen == t.klen && h in t'.node && t'.node[h] == t.node[h]
    ensures LeafClassified(t', skip, h)
  {
  }

  lemma OldClassified(t0: Trie, t: Trie, ti: Addr, tt: Addr, skip: nat, h: Addr)
    requires LeafAdded(t0, t, ti, tt) && AllClassified(t0, skip) && h in t.heads && h != ti
    ensures h in t.node && LeafClassified(t, skip, h)
  {
    hide IsMask, Canonical;
    assert LeafClassified(t0, skip, h) && SameButLinks(t0.node[h], t.node[h]);
  }

  lemma FreshLeaf(t: Trie, v: Key, ti: Addr, normal: bool, idx: nat, skip: nat)
    requires ti in t.node && t.node[ti].key == v && !t.node[ti].root && t.node[ti].b == -1 - idx && t.node[ti].normal == normal
    requires Canonical(v, t.klen) && v[0] as nat <= |v| && 0 < |v|
    requires normal ==> IsMask(skip, t.klen, MaskOf(v), idx)
    requires forall i | IsMask(skip, t.klen, MaskOf(v), i) :: normal && idx == i
    ensures LeafClassified(t, skip, ti)
  {
    hide IsMask;
  }

  lemma FreshOk(t0: Trie, t: Trie, v: Key, ti: Addr, tt: Addr, normal: bool, idx: nat)
    requires Ok(t0) && Ok(t) && LeafAdded(t0, t, ti, tt) && ti in t.node && t.node[ti] == LeafNode(v, tt) && idx <= 8 * MAX_KEY
    ensures Ok(t.(node := t.node[ti := t.node[ti].(b := -1 - idx, normal := normal)]))
  {
    hide Ok;
    OkDomain(t0);
    OkTop(t);
    InnerBits(t);
    HeadBits(t);
    FrameOk(t, t.node[ti := t.node[ti].(b := -1 - idx, normal := normal)]);
  }

  /** Interning: a mask has one leaf, so that two routes refer to the same mask exactly when their
      masks are equal, which is what the pointer comparisons of rn_addroute rely on. */
  lemma Interned(t: Trie, skip: nat, r1: Addr, r2: Addr, c1: Key, c2: Key, Q: set<Addr>)
    requires Ok(t) && t.off == 0 && IsLeafOf(t, skip, r1, c1) && IsLeafOf(t, skip, r2, c2)
    requires SearchPath(t, Suffix(c1, 0), Q, r1)
    ensures r1 == r2 <==> c1 == c2
  {
    hide Ok, LeafClassified, SearchPath;
    OkHead(t, r1);
    OkHead(t, r2);
    if c1 == c2 {
      HeadUnique(t, Suffix(c1, 0), Q, r1, r2);
    }
  }

  // ---------- From a netmask to a route ----------

  /** Of the first n bytes of a netmask as a caller gives it, the bits behind the skipped bytes are ones
      before idx and zeros from there on. */
  ghost predicate Contiguous(m: Key, n: nat, skip: nat, idx: int) {
    skip <= n <= |m| && 8 * skip < idx <= 8 * n && forall i | 8 * skip <= i < 8 * n :: Bit(m, i) <==> i < idx
  }

  lemma SomeBit(x: Byte)
    requires x != 0
    ensures exists j :: 0 <= j < 8 && ByteBit(x, j)
  {
    if forall j | 0 <= j < 8 :: !ByteBit(x, j) {
      forall j | 0 <= j < 8 ensures ByteBit(x, j) == ByteBit(0, j) { NormalCharBits(0, j); }
      SameBits(x, 0);
    }
  }

  /** The trimmed length is the number of bytes that the ones take up. */
  lemma TrimIndex(m: Key, n: nat, skip: nat, idx: int)
    requires Contiguous(m, n, skip, idx)
    ensures var r := TrimLen(m, n, skip); skip < r && 8 * (r - 1) < idx <= 8 * r
  {
    hide ByteBit, TrimLen;
    TrimFacts(m, n, skip);
    var r := TrimLen(m, n, skip);
    assert Bit(m, idx - 1);
    NormalCharBits(0, (idx - 1) % 8);
    assert (idx - 1) / 8 < r;
    SomeBit(m[r - 1]);
    var j :| 0 <= j < 8 && ByteBit(m[r - 1], j);
    assert Bit(m, 8 * (r - 1) + j);
  }

  lemma NotShort(m: Key, n: nat, skip: nat, idx: int)
    requires Contiguous(m, n, skip, idx)
    ensures skip < n <= |m|
  {
  }

  lemma SameBytes(m: Key, k: Key, n: nat, skip: nat, idx: int)
    requires Contiguous(m, n, skip, idx) && skip <= |k| <= n && forall i | skip <= i < |k| :: k[i] == m[i]
    ensures forall i | 8 * skip <= i < 8 * |k| :: Bit(k, i) <==> i < idx
  {
    hide ByteBit;
    forall i | 8 * skip <= i < 8 * |k| ensures Bit(k, i) <==> i < idx {
      assert k[i / 8] == m[i / 8];
      assert Bit(m, i) <==> i < idx;
    }
  }

  /** A contiguous netmask is kept as a contiguous mask with the same index. */
  lemma CanonMask(m: Key, n: nat, skip: nat, klen: nat, klen': nat, idx: int)
    requires 2 <= skip && Contiguous(m, n, skip, idx) && n <= klen <= MAX_KEY && idx <= 8 * klen'
    ensures skip < TrimLen(m, n, skip) && Canonical(Canon(m, n, skip, klen), klen)
    ensures IsMask(skip, klen, MaskOf(Canon(m, n, skip, klen)), idx) && IsMask(skip, klen', MaskOf(Canon(m, n, skip, klen)), idx)
  {
    hide Bit, TrimLen, Canon, Canonical;
    TrimIndex(m, n, skip, idx);
    CanonShape(m, n, skip, klen);
    var r, c := TrimLen(m, n, skip), Canon(m, n, skip, klen);
    var k := c[..r];
    assert forall i | 0 <= i < r :: k[i] == c[i];
    SameBytes(m, k, n, skip, idx);
  }

  lemma LeafMaskIs(t: Trie, skip: nat, r: Addr, c: Key, idx: int)
    requires IsLeafOf(t, skip, r, c) && Canonical(c, t.klen) && IsMask(skip, t.klen, MaskOf(c), idx)
    ensures r in t.node && t.node[r].key == c && t.node[r].b == -1 - idx && t.node[r].normal
  {
    hide IsMask;
  }

  /** rn_addroute with a netmask: the netmask is kept as a leaf of the mask trie, whose key and index the
      new route takes.  For a contiguous netmask the route is to the destinations under the mask of the
      same index. */
  method AddRoute(table: MaskTable, rnh: Head, v: Key, m: Key, ghost idx: int, mi: Addr, mt: Addr, ti: Addr, tt: Addr)
    returns (r: Addr, netmask: Key, ghost up: Addr, ghost x: Addr)
    requires table.Valid() && table.head != rnh && table.skip == rnh.off && TableOk(rnh.B())
    requires rnh.off <= rnh.klen == |v| && v[0] as nat == rnh.klen
    requires 0 < |m| && (m[0] as nat <= |m| || table.head.klen <= |m|)
    requires Contiguous(m, Common.Min(m[0] as nat, table.head.klen), rnh.off, idx) && idx <= 8 * rnh.klen
    requires rnh.NotMixed(Suffix(v, rnh.off), m)
    requires mi != mt && mi != NULL && mt != NULL && mi !in table.head.node && mt !in table.head.node
    requires ti != tt && ti != NULL && tt != NULL && ti !in rnh.node && tt !in rnh.node
    modifies table, table.head, rnh
    ensures table.Valid() && TableOk(rnh.B()) && IsMask(rnh.off, rnh.klen, netmask, idx)
    ensures r == NULL <==> old(rnh.HasRoute(Suffix(v, rnh.off), netmask))
    ensures r == NULL ==> rnh.B() == old(rnh.B())
    ensures r != NULL ==> r == ti && rnh.Added(old(rnh.B()), v, netmask, ti) && ListsGrow(old(rnh.B()), rnh.B())
    ensures r != NULL ==> ParentOf(rnh.B(), Suffix(v, rnh.off), up) && up in rnh.node
    ensures r != NULL && idx <= rnh.node[up].b ==> Listed(rnh.B(), x, ti)
    ensures r != NULL && Suffix(v, rnh.off) !in old(rnh.chain) ==> SiblingsListed(old(rnh.B()), rnh.B(), up, ti)
  {
    hide TableOk, Ok, AllClassified, IsMask, Contiguous, ListsGrow, Listed, SiblingsListed, ParentOf, Unmasked;
    var b;
    netmask, b := table.KeepMask(m, mi, mt, rnh.klen, idx);
    r, up, x := rnh.AddRoute(v, netmask, b, ti, tt);
  }
}

/** net/radix.c: the routing trie in memory, its insertion and its match. */
module Radix {
  import opened RadixBits
  import opened RadixTrie
  import opened RadixRoutes
  import opened RadixUpdates
  import opened RadixClimb
  import opened RadixLists

  class Head {
    const off: nat
    const klen: nat
    const top: Addr
    var node: map<Addr, Node>
    var rm: map<Addr, RMask>
    ghost var inner: set<Addr>
    ghost var heads: set<Addr>
    ghost var below: map<Addr, set<Key>>
    ghost var chain: map<Key, seq<Addr>>
    ghost var lists: map<Addr, seq<Addr>>
    ghost var owner: map<Addr, Addr>

    ghost function T(): Trie
      reads this
    {
      Trie(off, klen, top, node, inner, heads, below)
    }

    ghost function B(): Table
      reads this
    {
      Table(T(), rm, chain, lists, owner)
    }

    /** rn_inithead: a table with the two roots only. */
    constructor (off: nat, klen: nat, top: Addr, l: Addr, r: Addr)
      requires InitArgs(off, klen, top, l, r)
      ensures TableOk(B()) && B() == InitTable(off, klen, top, l, r) && node.Keys == {top, l, r}
      ensures this.off == off && this.klen == klen
      ensures Keys(T()) == {Suffix(Zeros(klen), off), Suffix(Ones(klen), off)}
      ensures Unmasked(B(), Suffix(Zeros(klen), off)) && Unmasked(B(), Suffix(Ones(klen), off))
    {
      hide TableOk, Ok, Zeros, Ones, Suffix;
      this.off, this.klen, this.top := off, klen, top;
      var tn := Node(8 * off, 8 * off / 8, BitMask(8 * off % 8), true, false, l, r, top, [], [], NULL, NULL);
      var ln := Node(-1 - 8 * off, 0, 0, true, false, NULL, NULL, top, Zeros(klen), [], NULL, NULL);
      node := map[top := tn, l := ln, r := ln.(key := Ones(klen))];
      rm := map[];
      ghost var b := InitTable(off, klen, top, l, r);
      inner, heads, below, chain, lists, owner := b.t.inner, b.t.heads, b.t.below, b.chain, b.lists, b.owner;
      new;
      InitShape(off, klen);
      InitOk(off, klen, top, l, r);
      assert B() == b;
      InitUnmasked(off, klen, top, l, r);
    }

    /** rn_search: test one bit a step until a leaf is reached.  A key that is in the trie is found. */
    method Search(v: Key) returns (x: Addr, ghost Q: set<Addr>)
      requires Ok(T()) && |v| == klen && off <= klen
      ensures x in heads && SearchPath(T(), Suffix(v, off), Q, x)
      ensures x in node && x in below && |node[x].key| == klen && node[x].b < 0
      ensures below[x] == {Suffix(node[x].key, off)}
      ensures top in below && (Suffix(node[x].key, off) == Suffix(v, off) <==> Suffix(v, off) in Keys(T()))
    {
      hide Ok, TestAt;
      ghost var t := T();
      OkTop(t);
      ghost var s := Suffix(v, off);
      OkDomain(t);
      x, Q := top, {};
      while node[x].b >= 0
        invariant SearchPath(t, s, Q, x)
        invariant s in below[top] ==> s in below[x]
        invariant below[x] <= below[top]
        invariant node[x].b < 8 * klen
        decreases if node[x].b >= 0 then 8 * klen - node[x].b else 0
      {
        LeafOrInner(t, x);
        NextBelow(t, x, s);
        SearchStep(t, s, Q, x);
        TestLoad(t, v, x);
        Q := Q + {x};
        if v[node[x].off] & node[x].bmask != 0 {
          x := node[x].r;
        } else {
          x := node[x].l;
        }
        LeafOrInner(t, x);
      }
      LeafOrInner(t, x);
    }

    /** rn_match: the answer is the leaf found by the search, if the bytes compared agree, and otherwise the
        first covering route listed on the nearest test node above it that lists one, or null when none
        does.  So every answer but a root covers the destination, a key that is itself in the table is
        answered by the head of its chain, the leaf found answers for its route when the mask ends with a
        byte, and no covering route is missed that is listed on the topmost test node for its mask. */
    method Match(v: Key) returns (r: Addr, ghost leaf: Addr, ghost at: Addr)
      requires TableOk(B()) && |v| == klen && v[0] as nat == klen
      ensures r != NULL ==> r in node && LeafOk(T(), r) && (node[r].root || Within(off, v, node[r]))
      ensures top in below && off <= klen && leaf in heads && leaf in node && off <= |node[leaf].key|
      ensures Direct(off, v, node[leaf]) ==> r == leaf
      ensures !Direct(off, v, node[leaf]) && r != NULL ==> Nearest(Suffix(node[leaf].key, off), v, at, r)
      ensures node[leaf].normal && node[leaf].b % 8 == 7 && Covers(off, v, node[leaf].key, node[leaf].mask) ==> r == leaf
      ensures r == NULL ==> forall x, a | Listed(B(), x, a) :: !Covers(off, v, node[a].key, node[a].mask)
      ensures FoundBy(T(), Suffix(v, off), leaf)
      ensures r == NULL <==> !Direct(off, v, node[leaf]) && Unanswered(v, Suffix(node[leaf].key, off))
      ensures Suffix(v, off) in Keys(T()) ==> Suffix(v, off) in chain && chain[Suffix(v, off)] != [] && r == chain[Suffix(v, off)][0]
    {
      hide TableOk, Ok, LeafOk, ChainOk, TestAt, SearchPath, Within, Covers, InTree, BitLength, Suffix, IsMask, Direct;
      hide Nearest, NoAnswer;
      TableParts(B());
      TopFacts(T());
      var rn;
      ghost var Q;
      rn, Q := Search(v);
      leaf, at := rn, NULL;
      HeadChain(B(), rn);
      LeafMask(T(), rn);
      var vlen := v[0] as nat;
      if node[rn].mask != [] {
        vlen := node[rn].mask[0] as nat;
      }
      var i := Mismatch(v, node[rn].key, vlen);
      Compared(T(), v, rn, vlen, i);
      if i == vlen {
        DirectHit(off, klen, v, node[rn], vlen);
        if node[rn].root && node[rn].dupedkey != NULL {
          assert false;  // a root's key has no second leaf
        }
        r := rn;
      } else {
        NotSame(v, node[rn].key, off, i);
        r, at := Climb(v, rn, i);
        if r != NULL {
          MaskedWithin(T(), v, r);
          NearestAnswers(v, Suffix(node[rn].key, off), at, r);
        } else {
          NothingListed(v, Q, rn);
        }
      }
    }

    /** r is the first covering route listed on x, and the test nodes between x and the key u list none. */
    ghost predicate Nearest(u: Key, v: Key, x: Addr, r: Addr)
      reads this
    {
      && x in inner && x in node && x in below && u in below[x] && FirstAnswer(B(), v, x, r)
      && forall a | a in inner && a in node && a in below && u in below[a] && node[x].b < node[a].b :: NoAnswer(B(), v, a)
    }

    /** No test node above the key u lists a route that covers the destination. */
    ghost predicate Unanswered(v: Key, u: Key)
      reads this
    {
      forall x | x in inner && x in node && x in below && u in below[x] :: NoAnswer(B(), v, x)
    }

    lemma NearestAnswers(v: Key, u: Key, x: Addr, r: Addr)
      requires Nearest(u, v, x, r)
      ensures x in inner && x in node && x in below && u in below[x] && !NoAnswer(B(), v, x)
    {
    }

    lemma NothingListed(v: Key, Q: set<Addr>, rn: Addr)
      requires TableOk(B()) && off <= klen == |v| && SearchPath(T(), Suffix(v, off), Q, rn) && rn in heads
      requires rn in node && rn in below && |node[rn].key| == klen && below[rn] == {Suffix(node[rn].key, off)}
      requires Unanswered(v, Suffix(node[rn].key, off))
      ensures forall x, a | Listed(B(), x, a) :: !Covers(off, v, node[a].key, node[a].mask)
    {
      hide TableOk, Ok, SearchPath, Covers, TestAt, InTree, NoAnswer, HasCell, Topmost;
      TableParts(B());
      OkDomain(T());
      forall x, a | Listed(B(), x, a) ensures !Covers(off, v, node[a].key, node[a].mask) {
        SameWay(T(), Suffix(v, off), Q, rn, Suffix(node[rn].key, off), x);
        ListedFound(B(), v, Q, rn, x, a);
      }
    }

    /** The byte compare of rn_insert and rn_match: the first byte in off..len that differs. */
    method Mismatch(v: Key, k: Key, len: nat) returns (i: nat)
      requires off <= len <= |v| && len <= |k|
      ensures off <= i <= len && v[off..i] == k[off..i] && (i < len ==> v[i] != k[i])
    {
      i := off;
      while i < len && v[i] == k[i]
        invariant off <= i <= len
        invariant v[off..i] == k[off..i]
      {
        assert v[off..i + 1] == v[off..i] + [v[i]] && k[off..i + 1] == k[off..i] + [k[i]];
        i := i + 1;
      }
    }

    /** rn_match after the first compare failed in byte i: the chain, then the mask lists on the way up. */
    method Climb(v: Key, saveRn: Addr, i: nat) returns (r: Addr, ghost at: Addr)
      requires TableOk(B()) && off <= i < klen == |v| && saveRn in heads && saveRn in node && |node[saveRn].key| == klen
      requires v[off..i] == node[saveRn].key[off..i] && v[i] != node[saveRn].key[i]
      ensures r != NULL ==> r in node && LeafOk(T(), r) && node[r].normal && Covers(off, v, node[r].key, node[r].mask)
      ensures r != NULL ==> Nearest(Suffix(node[saveRn].key, off), v, at, r)
      ensures r == NULL ==> Unanswered(v, Suffix(node[saveRn].key, off))
    {
      hide TableOk, Ok, HeadsChained, LeafOk, TestAt, Covers, FirstDiff, NoAnswer, Nearest;
      TableParts(B());
      TopFacts(T());
      HeadChain(B(), saveRn);
      var b := FirstBit(v, node[saveRn].key, i);
      var rnB := 0xffff - b;
      ghost var u := Suffix(node[saveRn].key, off);
      r := SkipChain(saveRn, rnB);
      if r == NULL { r, at := WalkUp(v, saveRn, rnB, u, b); }
    }

    /** The mask lists of the test nodes above the leaf, from the nearest one on. */
    method WalkUp(v: Key, saveRn: Addr, rnB: nat, ghost u: Key, b: nat) returns (r: Addr, ghost at: Addr)
      requires TableOk(B()) && off <= klen == |v| && saveRn in heads && saveRn in node && |node[saveRn].key| == klen
      requires u == Suffix(node[saveRn].key, off) && |u| == klen - off
      requires b <= 0xffff && rnB == 0xffff - b && FirstDiff(T(), Suffix(v, off), u, b)
      ensures r != NULL ==> r in node && LeafOk(T(), r) && node[r].normal && Covers(off, v, node[r].key, node[r].mask)
      ensures r != NULL ==> Nearest(u, v, at, r)
      ensures r == NULL ==> Unanswered(v, u)
    {
      hide TableOk, Ok, HeadsChained, LeafOk, TestAt, InTree, Covers, Walked, FirstDiff, NoAnswer, FirstAnswer, Suffix;
      TableParts(B());
      TopFacts(T());
      HeadChain(B(), saveRn);
      var rn := saveRn;
      WalkStart(T(), u, saveRn);
      rn := node[rn].p;
      ghost var W := {rn};
      WalkFacts(T(), u, W, rn, saveRn);
      r := ScanList(v, rn, rnB, u, b);
      while r == NULL && node[rn].p != rn
        invariant rn in inner && rn in node && rn in below && u in below[rn] && Walked(T(), u, W, rn, saveRn)
        invariant forall a | a in W && (a != rn || r == NULL) :: NoAnswer(B(), v, a)
        invariant r != NULL ==> FirstAnswer(B(), v, rn, r)
        invariant r != NULL ==> r in node && LeafOk(T(), r) && node[r].normal && Covers(off, v, node[r].key, node[r].mask)
        decreases r == NULL, node[rn].b
      {
        InnerBit(T(), rn);
        WalkStep(T(), u, W, rn, saveRn);
        rn := node[rn].p;
        W := W + {rn};
        WalkFacts(T(), u, W, rn, saveRn);
        r := ScanList(v, rn, rnB, u, b);
        InnerBit(T(), rn);
      }
      at := rn;
      forall a | a in inner && a in node && a in below && u in below[a] && node[rn].b <= node[a].b ensures a in W {
        WalkAll(T(), u, W, rn, saveRn, a);
      }
      if r == NULL { TopFirst(T(), rn); }
    }

    /** The first bit in which the destination and the key of the leaf differ. */
    method FirstBit(v: Key, k: Key, i: nat) returns (b: nat)
      requires off <= i < klen == |v| == |k| && klen <= MAX_KEY && v[off..i] == k[off..i] && v[i] != k[i]
      ensures FirstDiff(T(), Suffix(v, off), Suffix(k, off), b) && b < 8 * klen
    {
      hide TestAt, FirstDiff, BitLength, Suffix;
      b := MatchBit(v, k, i);
      BytesFirstDiff(T(), v, k, i, b);
    }

    /** The bit of the first difference, as rn_match counts it, in an unsigned char. */
    method MatchBit(v: Key, k: Key, i: nat) returns (b: nat)
      requires i < |v| == |k| <= MAX_KEY && v[i] != k[i]
      ensures b == 8 * i + 8 - BitLength(v[i] ^ k[i])
    {
      var test := v[i] ^ k[i];
      b := 7;
      ghost var d := test;
      ShiftShortens(test);
      test := test >> 1;
      while test != 0
        invariant BitLength(test) <= b && b - BitLength(test) == 8 - BitLength(d)
        decreases BitLength(test)
      {
        ShiftShortens(test);
        b := b - 1;
        test := test >> 1;
      }
      b := (b + 8 * i) % 0x100;
    }

    /** The walk along the chain finds nothing: rn_b of a leaf is negative, and compared with an
        unsigned short it is never the larger one.  Every leaf met has a contiguous mask. */
    method SkipChain(saveRn: Addr, rnB: nat) returns (r: Addr)
      requires TableOk(B()) && saveRn in heads
      ensures r == NULL
    {
      hide TableOk, Ok, LeafOk;
      HeadChain(B(), saveRn);
      LeafMask(T(), saveRn);
      ghost var s, j := Suffix(node[saveRn].key, off), 0;
      ghost var c := chain[s];
      var rn := saveRn;
      if node[rn].mask == [] {
        rn := node[rn].dupedkey;
        j := |c|;
      }
      r := NULL;
      while rn != NULL && r == NULL
        invariant rn != NULL ==> j < |c| && rn == c[j] && rn in node && node[rn].normal && node[rn].b < 0
        invariant r == NULL
        decreases |c| - j
      {
        if node[rn].normal && node[rn].b >= rnB {
          r := rn;
        } else {
          ChainLink(B(), s, j);
          rn := node[rn].dupedkey;
          j := j + 1;
          if rn != NULL { ChainLink(B(), s, j); LeafMask(T(), rn); }
        }
      }
    }

    /** The mask list of one test node on the way up: the first cell that covers the destination. */
    method ScanList(v: Key, rn: Addr, rnB: nat, ghost u: Key, b: nat) returns (r: Addr)
      requires TableOk(B()) && rn in inner && rn in node && rn in below && u in below[rn] && |v| == klen && off <= klen
      requires b <= 0xffff && rnB == 0xffff - b && FirstDiff(T(), Suffix(v, off), u, b)
      ensures r == NULL ==> NoAnswer(B(), v, rn)
      ensures r != NULL ==> FirstAnswer(B(), v, rn, r)
      ensures r != NULL ==> r in node && LeafOk(T(), r) && node[r].normal && Covers(off, v, node[r].key, node[r].mask)
    {
      hide TableOk, Ok, LeafOk, Agree, Covers, InnerOk, ListOk, CellOk, FirstDiff, IsMask;
      TableParts(B());
      TableList(B(), rn);
      ListShape(B(), rn);
      TopFacts(T());
      ghost var l, j := lists[rn], 0;
      var cell := node[rn].masklist;
      if l != [] { ListCell(B(), rn, 0); }
      r := NULL;
      while cell != NULL && r == NULL
        invariant j <= |l| && (cell != NULL <==> j < |l|)
        invariant cell != NULL ==> cell == l[j]
        invariant forall i | 0 <= i < j :: !CellCovers(B(), v, l[i])
        invariant r != NULL ==> cell != NULL && CellCovers(B(), v, cell) && rm[cell].leaf == r && LeafOk(T(), r) && node[r].normal
        decreases r == NULL, |l| - j
      {
        ListCell(B(), rn, j);
        CellFacts(T(), rm[cell], rn);
        CellDecides(T(), rm[cell], rn, v, u, b);
        CellLeafOk(T(), rm[cell], rn);
        if rm[cell].b >= rnB {
          r := rm[cell].leaf;
        } else {
          cell := rm[cell].next;
          j := j + 1;
          if j < |l| { ListCell(B(), rn, j); }
        }
      }
    }

    /** Every leaf of the key agrees with the new route on whether it has a mask. */
    ghost predicate NotMixed(s: Key, netmask: Key)
      reads this
    {
      s in chain ==> forall i | 0 <= i < |chain[s]| :: chain[s][i] in node && (node[chain[s][i]].normal <==> netmask != [])
    }

    /** The route (v, netmask) is the new leaf a; everything that was there is there still. */
    ghost predicate Added(b: Table, v: Key, netmask: Key, a: Addr)
      reads this
    {
      && off <= |v| && a in node && node[a].key == v && node[a].mask == netmask && a !in b.t.node
      && Grows(b.t, T())
      && ChainLinked(b, Suffix(v, off), a, chain)
    }

    /** The new leaf of a key that was not there: set its mask. */
    method SetMask(v: Key, netmask: Key, idx: int, ti: Addr, tt: Addr, ghost b0: Table)
      requires TableOk(b0) && Ok(T()) && Linked(b0.t, v, ti, tt) && Suffix(v, off) !in b0.chain
      requires |v| == klen && b0.t.klen == klen && b0.t.off == off && (netmask == [] || IsMask(off, klen, netmask, idx))
      requires B() == b0.(t := T())
      modifies `node, `chain, `lists
      ensures TableOk(B()) && Added(b0, v, netmask, ti) && ti in node && LeafOk(T(), ti) && node[ti].p == tt
      ensures node[ti].b == (if netmask == [] then -1 else -1 - idx)
      ensures tt in inner && tt in node && tt in below && Suffix(v, off) in below[tt] && tt in lists && lists[tt] == []
      ensures b0.t.inner <= inner
      ensures inner == old(inner) && below == old(below) && heads == old(heads)
      ensures lists == b0.lists[tt := []] && chain == b0.chain[Suffix(v, off) := [ti]] && LeafAdded(b0.t, T(), ti, tt)
    {
      hide TableOk, Ok, IsMask, LeafOk, Grows, LeafAdded;
      ghost var s := Suffix(v, off);
      TableParts(b0);
      MaskFresh(b0.t, T(), v, ti, tt, netmask, idx);
      LinkedIn(b0.t, T(), ti, tt);
      if netmask != [] {
        node := node[ti := node[ti].(b := -1 - idx, mask := netmask, normal := true)];
      }
      assert node == old(node)[ti := Masked(old(node)[ti], netmask, idx)];
      WithLeafOk(b0, T(), ti, tt, s);
      AddedGrows(b0.t, T(), ti, tt);
      OkDomain(b0.t);
      chain, lists := chain[s := [ti]], lists[tt := []];
      assert B() == WithLeaf(b0, T(), ti, tt, s);
      assert InsertAt([], 0, ti) == [ti];
      ChainLinkedAt(b0, s, ti, chain, 0);
    }

    /** The walk over the chain of a key that is there already: where the new mask goes, or that it
        is there. */
    method ChainPlace(head: Addr, netmask: Key, idx: int, ghost s: Key) returns (j: nat, prev: Addr, next: Addr, same: bool)
      requires TableOk(B()) && s in chain && chain[s] != [] && chain[s][0] == head && NotMixed(s, netmask)
      requires (netmask == [] || IsMask(off, klen, netmask, idx)) && 0 < off
      ensures same ==> exists i :: 0 <= i < |chain[s]| && chain[s][i] in node && node[chain[s][i]].mask == netmask
      ensures !same ==> netmask != [] && j <= |chain[s]|
      ensures !same ==> next == (if j < |chain[s]| then chain[s][j] else NULL)
      ensures !same && j > 0 ==> prev == chain[s][j - 1]
      ensures !same ==> SortedAt(T(), chain[s], j, -1 - idx) && !HasRoute(s, netmask)
    {
      hide TableOk, LeafOk, IsMask, Refines, LexoBetter, Suffix, NotMixed, Ok;
      ghost var c := chain[s];
      var t := head;
      prev, j, same := head, 0, false;
      var stop := false;
      while t != NULL && !same && !stop
        invariant j <= |c| && t == (if j < |c| then c[j] else NULL)
        invariant j > 0 ==> prev == c[j - 1] && netmask != []
        invariant same ==> j < |c| && c[j] in node && node[c[j]].mask == netmask
        invariant stop ==> j < |c| && c[j] in node && node[c[j]].mask != netmask && -1 - idx < node[c[j]].b
        invariant forall i | 0 <= i < j :: c[i] in node && node[c[i]].b < -1 - idx
        decreases !same && !stop, |c| - j
      {
        PlaceLeaf(s, j, netmask, idx);
        PlaceOrder(s, j, netmask, idx);
        if node[t].mask == netmask {
          same := true;
        } else if ULong(-1 - idx) < ULong(node[t].b) || Refines(netmask, node[t].mask) || LexoBetter(netmask, node[t].mask) {
          stop := true;
        } else {
          prev := t;
          t := node[t].dupedkey;
          j := j + 1;
        }
      }
      if j < |c| { PlaceLeaf(s, j, netmask, idx); }
      if !same { PlaceDone(s, j, netmask, idx); }
      next := t;
    }

    lemma PlaceLeaf(s: Key, j: nat, netmask: Key, idx: int)
      requires TableOk(B()) && s in chain && j < |chain[s]| && NotMixed(s, netmask)
      requires netmask == [] || IsMask(off, klen, netmask, idx)
      ensures var a := chain[s][j]; a in node && a != NULL && node[a].dupedkey == (if j + 1 < |chain[s]| then chain[s][j + 1] else NULL)
      ensures var m := node[chain[s][j]].mask;
        m != netmask ==> 0 < |m| == m[0] as nat && 0 < |netmask| == netmask[0] as nat
    {
      hide TableOk, LeafOk, IsMask, Ok;
      ChainLink(B(), s, j);
      TableParts(B());
      TopFacts(T());
      LeafMask(T(), chain[s][j]);
      MaskLength(off, klen, netmask, idx);
    }

    /** What the comparisons with the leaf at position j decide: which of the two masks is longer. */
    lemma PlaceOrder(s: Key, j: nat, netmask: Key, idx: int)
      requires TableOk(B()) && s in chain && j < |chain[s]| && NotMixed(s, netmask) && 0 < off
      requires netmask == [] || IsMask(off, klen, netmask, idx)
      ensures chain[s][j] in node
      ensures var n := node[chain[s][j]]; n.mask != netmask ==>
        && 0 < |n.mask| == n.mask[0] as nat && 0 < |netmask| == netmask[0] as nat
        && ((ULong(-1 - idx) < ULong(n.b) || Refines(netmask, n.mask) || LexoBetter(netmask, n.mask)) <==> -1 - idx < n.b)
        && n.b != -1 - idx
    {
      hide TableOk, Ok, LeafOk, IsMask, Refines, LexoBetter, NotMixed;
      TableParts(B());
      TopFacts(T());
      PlaceLeaf(s, j, netmask, idx);
      ChainLink(B(), s, j);
      var n := node[chain[s][j]];
      LeafMask(T(), chain[s][j]);
      LeafIndex(T(), chain[s][j]);
      if n.mask != netmask {
        OrderMasks(off, klen, netmask, n.mask, idx, n.b);
      }
    }

    lemma PlaceDone(s: Key, j: nat, netmask: Key, idx: int)
      requires TableOk(B()) && s in chain && chain[s] != [] && NotMixed(s, netmask) && 0 < off
      requires (netmask == [] || IsMask(off, klen, netmask, idx)) && j <= |chain[s]| && (j > 0 ==> netmask != [])
      requires forall i | 0 <= i < j :: chain[s][i] in node && node[chain[s][i]].b < -1 - idx
      requires j < |chain[s]| ==> chain[s][j] in node && node[chain[s][j]].mask != netmask && -1 - idx < node[chain[s][j]].b
      ensures netmask != [] && SortedAt(T(), chain[s], j, -1 - idx) && !HasRoute(s, netmask)
    {
      hide TableOk, Ok, IsMask, ChainOk, Refines, LexoBetter;
      TableChain(B(), s);
      var c := chain[s];
      forall i | 0 <= i < |c| ensures c[i] in node && (if i < j then node[c[i]].b < -1 - idx else -1 - idx < node[c[i]].b)
      {
        if i > j { ChainSorted(B(), s, j, i); }
      }
      ChainLink(B(), s, 0);
      LeafMask(T(), c[0]);
      forall i | 0 <= i < |c| ensures c[i] in node && node[c[i]].mask != netmask {
        ChainLink(B(), s, i);
        LeafMask(T(), c[i]);
        LeafIndex(T(), c[i]);
        if node[c[i]].mask == netmask { MaskIndexUnique(off, klen, netmask, idx, -1 - node[c[i]].b); }
      }
    }

    /** A further leaf for the key: link it into the chain, at its front by taking the head's place in
        the tree. */
    method DupLink(v: Key, netmask: Key, idx: int, ti: Addr, head: Addr, j: nat, prev: Addr, next: Addr, ghost s: Key)
      requires TableOk(B()) && |v| == klen && off <= klen && s == Suffix(v, off) && IsMask(off, klen, netmask, idx)
      requires s in chain && j <= |chain[s]| && chain[s] != [] && chain[s][0] == head && NotMixed(s, netmask)
      requires next == (if j < |chain[s]| then chain[s][j] else NULL) && (j > 0 ==> prev == chain[s][j - 1])
      requires ti != NULL && ti !in node && SortedAt(T(), chain[s], j, -1 - idx)
      modifies `node, `heads, `below, `chain
      ensures TableOk(B()) && Added(old(B()), v, netmask, ti) && LeafOk(T(), ti)
      ensures node[ti].b == -1 - idx && s in chain && chain[s] != [] && chain[s][0] == if j == 0 then ti else head
      ensures inner == old(inner) && lists == old(lists) && rm == old(rm)
    {
      hide TableOk, LeafOk, IsMask, Grows, DupTrie, DupReady, Suffix, ChainLinked, SortedAt;
      ghost var b0 := B();
      DupHeadFacts(b0, s);
      MaskLength(off, klen, netmask, idx);
      assert forall i | 0 <= i < |chain[s]| :: chain[s][i] in node && node[chain[s][i]].normal;
      var p := node[head].p;
      var n := LeafNode(v, if j == 0 then p else NULL).(dupedkey := next, b := -1 - idx, mask := netmask, normal := true);
      DupAll(b0, s, j, ti, n, idx);
      if j == 0 {
        node := node[p := if node[p].l == head then node[p].(l := ti) else node[p].(r := ti)][ti := n];
        heads, below := heads - {head} + {ti}, below[ti := below[head]];
      } else {
        node := node[prev := node[prev].(dupedkey := ti)][ti := n];
      }
      chain := chain[s := InsertAt(chain[s], j, ti)];
      assert B() == DupTable(b0, s, j, ti, n);
      ChainLinkedAt(b0, s, ti, chain, j);
    }

    /** rn_new_radix_mask for a leaf, put behind the last cell of the list of x: the pointer to the
        link to fill, rmp, is given as that cell, or NULL for the list head itself. */
    method NewMask(x: Addr, leaf: Addr, last: Addr) returns (cell: Addr)
      requires TableOk(B()) && x in inner && x in node && x in lists && leaf in node
      requires last == (if lists[x] == [] then NULL else lists[x][|lists[x]| - 1])
      requires LeafOk(T(), leaf) && node[leaf].normal && x in below && Suffix(node[leaf].key, off) in below[x]
      requires -1 - node[leaf].b <= node[x].b && off <= |node[leaf].key|
      modifies `node, `rm, `lists, `owner
      ensures TableOk(B()) && Grows(old(T()), T()) && LeafOk(T(), leaf)
      ensures cell != NULL && NewCell(old(B()), B(), x, leaf, cell)
    {
      hide TableOk, LeafOk, Grows, Appended, AppendedNodes, AppendedCells, NewCell;
      cell := FreshCell();
      ghost var b0 := B();
      AppendAll(b0, x, leaf, cell, last);
      AppendFields(b0, x, leaf, cell, last);
      AppendEffect(b0, x, leaf, cell, last);
      node := node[leaf := node[leaf].(masklist := cell)];
      if last == NULL {
        node := node[x := node[x].(masklist := cell)];
      } else {
        rm := rm[last := rm[last].(next := cell)];
      }
      rm := rm[cell := RMask(0x1_0000 + node[leaf].b, leaf, NULL)];
      lists, owner := lists[x := lists[x] + [cell]], owner[cell := x];
      assert B() == Appended(b0, x, leaf, cell);
    }

    /** The walk to the end of a mask list.  The loops of rn_addroute compare the 16-bit rm_b with a
        short converted to unsigned long, which is always the larger one, so that they never stop
        before the end. */
    method ListEnd(x: Addr, limit: int) returns (last: Addr, rest: Addr)
      requires TableOk(B()) && x in inner && x in node && x in lists && limit >= 0x1_0000
      ensures rest == NULL && last == (if lists[x] == [] then NULL else lists[x][|lists[x]| - 1])
    {
      hide TableOk, Ok, CellOk;
      TableParts(B());
      TableList(B(), x);
      ghost var l, j := lists[x], 0;
      last, rest := NULL, node[x].masklist;
      if l != [] { ListCell(B(), x, 0); CellSize(T(), rm[rest], x); }
      while rest != NULL && rm[rest].b < limit
        invariant j <= |l| && (if j < |l| then rest == l[j] else rest == NULL)
        invariant last == (if j == 0 then NULL else l[j - 1])
        invariant rest != NULL ==> rest in rm && rm[rest].b < limit
        decreases |l| - j
      {
        ListCell(B(), x, j);
        CellSize(T(), rm[rest], x);
        last, rest := rest, rm[rest].next;
        j := j + 1;
        if j < |l| { ListCell(B(), x, j); CellSize(T(), rm[rest], x); }
      }
    }

    /** Promote the masks of the new leaf's sibling: those of a leaf and its chain whose index is at
        most the new test bit get cells on the new test node; a sibling test node keeps its list. */
    method Promote(p: Addr, ti: Addr)
      requires TableOk(B()) && p in inner && p in node && p in below && p in lists && lists[p] == []
      modifies `node, `rm, `lists, `owner
      ensures TableOk(B()) && Grows(old(T()), T()) && OnlyLists(old(node), node) && ListsGrow(old(B()), B())
      ensures p in old(node)
      ensures var n := old(node)[p]; var x := if n.l == ti then n.r else n.l;
        && x in old(node)
        && (if old(node)[x].b >= 0 then B() == old(B())
            else off <= |old(node)[x].key| && Promoted(old(B()), B(), p, Suffix(old(node)[x].key, off)))
    {
      hide TableOk, Ok, LeafOk, Grows, Promoting;
      TableParts(B());
      SiblingFacts(T(), p);
      GrowsRefl(T());
      GrowRefl(B());
      var rnB := ULong(-1 - node[p].b);
      var x := if node[p].l == ti then node[p].r else node[p].l;
      if node[x].b < 0 {
        HeadChain(B(), x);
        PromoteChain(p, x, rnB);
      } else if node[x].masklist != NULL {
        TableList(B(), x);
        var last, rest := ListEnd(x, rnB);
        TableList(B(), p);
        ListShape(B(), p);
        assert node[p].masklist == rest;
        node := node[p := node[p].(masklist := rest)];
        assert node == old(node);
      }
    }

    method PromoteChain(p: Addr, x0: Addr, rnB: int)
      requires TableOk(B()) && p in inner && p in node && p in below && p in lists && lists[p] == [] && node[p].b >= 0
      requires x0 in heads && x0 in below && below[x0] <= below[p] && rnB == ULong(-1 - node[p].b)
      modifies `node, `rm, `lists, `owner
      ensures TableOk(B()) && Grows(old(T()), T()) && OnlyLists(old(node), node) && ListsGrow(old(B()), B())
      ensures x0 in old(node) && off <= |old(node)[x0].key| && Promoted(old(B()), B(), p, Suffix(old(node)[x0].key, off))
    {
      hide TableOk, Ok, HeadsChained, LeafOk, Grows, Promoting, ListsGrow, NewCell, OnlyLists, Moves;
      HeadChain(B(), x0);
      TableParts(B());
      GrowsRefl(T());
      GrowRefl(B());
      ghost var b0, s := B(), Suffix(node[x0].key, off);
      ghost var c, j := chain[s], 0;
      PromoteStart(b0, p, s);
      PromotingFacts(b0, B(), p, s, 0);
      var x, last := x0, NULL;
      while x != NULL
        invariant TableOk(B()) && Grows(old(T()), T()) && ListsGrow(b0, B()) && Promoting(b0, B(), p, s, j)
        invariant OnlyLists(b0.t.node, node) && chain == b0.chain && p in node && node[p].b == b0.t.node[p].b
        invariant j <= |c| && x == (if j < |c| then c[j] else NULL)
        invariant p in lists && last == (if lists[p] == [] then NULL else lists[p][|lists[p]| - 1])
        decreases |c| - j
      {
        ChainLink(B(), s, j);
        ChainSuffix(B(), s, j);
        LeafMask(T(), x);
        PromotingFacts(b0, B(), p, s, j);
        MovesIff(b0, p, s, j);
        if node[x].mask != [] && node[x].masklist == NULL && ULong(node[x].b) >= rnB {
          ghost var b1 := B();
          last := NewMask(p, x, last);
          GrowsTrans(old(T()), b1.t, T());
          PromoteOne(b0, b1, B(), p, s, j, last);
          ChainLink(B(), s, j);
        } else {
          PromoteSkip(b0, B(), p, s, j);
        }
        x := node[x].dupedkey;
        j := j + 1;
      }
      TableParts(B());
      TopFacts(T());
      if j < |c| { ChainLink(B(), s, j); }
    }

    /** The highest test node on the way up whose bit is not before b. */
    method Highest(p0: Addr, b: int, ghost s: Key) returns (x: Addr)
      requires TableOk(B()) && p0 in inner && p0 in node && p0 in below && b <= node[p0].b && s in below[p0]
      ensures x in inner && x in node && x in below && s in below[x] && b <= node[x].b && Topmost(T(), x, b)
    {
      hide TableOk, Ok;
      TableParts(B());
      TopFacts(T());
      var p := node[p0].p;
      x := p0;
      UpFacts(T(), p0);
      while b <= node[p].b && x != top
        invariant x in inner && x in node && x in below && s in below[x] && b <= node[x].b
        invariant p == node[x].p && p in node
        decreases node[x].b + 0x8000
      {
        UpFacts(T(), x);
        x := p;
        p := node[p].p;
        UpFacts(T(), x);
      }
    }

    /** Promote the new leaf's own mask to that test node. */
    method Raise(p: Addr, b: int, t: Addr) returns (x: Addr)
      requires TableOk(B()) && p in inner && p in node && p in below && b <= node[p].b
      requires LeafOk(T(), t) && t in node && node[t].normal && b == -1 - node[t].b && off <= |node[t].key|
      requires Suffix(node[t].key, off) in below[p]
      modifies `node, `rm, `lists, `owner
      ensures TableOk(B()) && Grows(old(T()), T()) && OnlyLists(old(node), node) && LeafOk(T(), t) && ListsGrow(old(B()), B())
      ensures Listed(B(), x, t) && CellsBut(old(B()), B(), t) && chain == old(chain)
      ensures old(NoCell(B(), t)) ==> OnlyAt(B(), t, x)
    {
      hide TableOk, Ok, LeafOk, Grows, CellOk, ListsGrow, NewCell, Topmost, OnlyLists, CellsBut, NoCell, OnlyAt;
      x := Highest(p, b, Suffix(node[t].key, off));
      TableList(B(), x);
      ListShape(B(), x);
      LeafBit(T(), t);
      ghost var b0 := B();
      GrowRefl(b0);
      var last, rest := ListEnd(x, ULong(node[t].b));
      last := NewMask(x, t, last);
      NewCellGrows(b0, b0, B(), x, t, last);
      NewCellBut(b0, B(), x, t, last);
      if NoCell(b0, t) { NewCellOnly(b0, B(), x, t, last); }
      NewCellFacts(b0, B(), x, t, last);
      StillTopmost(b0.t, T(), x, b);
    }

    /** MKGet: a cell that is not in use. */
    method FreshCell() returns (cell: Addr)
      ensures cell != NULL && cell !in rm
    {
      cell := 1;
      ghost var used := rm.Keys;
      while cell in rm
        invariant 1 <= cell
        invariant forall a | a in used :: a in rm
        invariant forall a | a in rm && a !in used :: 1 <= a < cell
        invariant used <= rm.Keys && forall a | 1 <= a < cell :: a !in used
        decreases |used|
      {
        assert cell in used;
        used := used - {cell};
        cell := cell + 1;
      }
    }

    /** rn_addroute: add the route to the destinations under (v, netmask), or to the host v when the
        mask is absent.  It is refused exactly when the table has that route already.  A mask that has a
        place on the test node above its key is listed on the topmost one that it has a place on, and the
        routes of a leaf that gets a new sibling are listed on the test node between them. */
    method AddRoute(v: Key, netmask: Key, idx: int, ti: Addr, tt: Addr) returns (r: Addr, ghost up: Addr, ghost x: Addr)
      requires TableOk(B()) && 0 < off <= klen == |v| && v[0] as nat == klen
      requires (netmask == [] || IsMask(off, klen, netmask, idx)) && NotMixed(Suffix(v, off), netmask)
      requires ti != tt && ti != NULL && tt != NULL && ti !in node && tt !in node
      modifies this
      ensures TableOk(B())
      ensures r == NULL <==> old(HasRoute(Suffix(v, off), netmask))
      ensures r == NULL ==> B() == old(B())
      ensures r != NULL ==> r == ti && Added(old(B()), v, netmask, ti) && ListsGrow(old(B()), B())
      ensures r != NULL ==> ParentOf(B(), Suffix(v, off), up) && up in node
      ensures r != NULL && netmask != [] && idx <= node[up].b ==> Listed(B(), x, ti)
      ensures r != NULL && Suffix(v, off) !in old(chain) ==> SiblingsListed(old(B()), B(), up, ti)
      ensures r != NULL ==> CellsStay(old(B()), B())
      ensures r != NULL ==> if netmask != [] && idx <= node[up].b then OnlyAt(B(), ti, x) else NoCell(B(), ti)
      ensures Suffix(v, off) !in old(chain) ==> top in old(below) && top in below && Keys(T()) == old(Keys(T())) + {Suffix(v, off)}
      ensures forall s | Unmasked(old(B()), s) :: Unmasked(B(), s)
    {
      hide TableOk, Ok, LeafOk, Grows, IsMask, LeafAdded, ChainLinked, Listed, ListsGrow, SortedAt, SiblingsListed, ParentOf, Unmasked;
      hide CellsStay, CellsBut, NoCell, OnlyAt;
      up, x := NULL, NULL;
      ghost var b0, s := B(), Suffix(v, off);
      TableParts(b0);
      TopFacts(b0.t);
      WholeKey(b0.t, v);
      var head, duped := Insert(v, ti, tt);
      var p, same := NULL, false;
      if duped {
        DupChainOf(b0, s, head);
        p, same := AddDup(v, netmask, idx, ti, head);
        GrowSame(b0, B());
        if !same {
          SameStay(b0, B());
          NoCellYet(b0, ti);
          SameNoCell(b0, B(), ti);
        }
      } else {
        NewChain(b0, s);
        p := AddNew(v, netmask, idx, ti, tt, b0);
      }
      if same {
        r := NULL;
      } else {
        LeafMask(T(), ti);
        ghost var t2, b2 := T(), B();
        if netmask != [] && idx <= node[p].b {
          x := Raise(p, idx, ti);
          GrowsTrans(b0.t, t2, T());
          GrowTrans(b0, b2, B());
          StillParent(b2, B(), s, p);
          StayBut(b0, b2, B(), ti);
          if !duped { StillListed(b0, b2, B(), p, ti); }
        }
        r, up := ti, p;
        forall s' | Unmasked(b0, s') ensures Unmasked(B(), s') { StillUnmasked(b0, B(), s, ti, s'); }
      }
    }

    /** A route with a mask to a key that has an unmasked leaf is not covered by AddRoute. */
    lemma MixedKey(s: Key, netmask: Key)
      requires Unmasked(B(), s) && netmask != []
      ensures !NotMixed(s, netmask)
    {
    }

    /** A further mask for a key that is there; p is the test node above the key's chain. */
    method AddDup(v: Key, netmask: Key, idx: int, ti: Addr, head0: Addr) returns (p: Addr, same: bool)
      requires TableOk(B()) && 0 < off <= klen == |v| && head0 in heads && head0 in below && below[head0] == {Suffix(v, off)}
      requires (netmask == [] || IsMask(off, klen, netmask, idx)) && NotMixed(Suffix(v, off), netmask)
      requires ti != NULL && ti !in node
      modifies `node, `heads, `below, `chain
      ensures same <==> old(HasRoute(Suffix(v, off), netmask))
      ensures same ==> B() == old(B())
      ensures !same ==> TableOk(B()) && Added(old(B()), v, netmask, ti) && LeafOk(T(), ti) && node[ti].b == -1 - idx
      ensures !same ==> p in inner && p in node && p in below && Suffix(v, off) in below[p] && old(inner) == inner
      ensures !same ==> ParentOf(B(), Suffix(v, off), p) && lists == old(lists) && rm == old(rm)
    {
      hide TableOk, Ok, LeafOk, Grows, IsMask, ChainLinked;
      ghost var s := Suffix(v, off);
      var head := head0;
      p := NULL;
      DupChainOf(B(), s, head);
      var j, prev, next;
      j, prev, next, same := ChainPlace(head, netmask, idx, s);
      if !same {
        DupLink(v, netmask, idx, ti, head, j, prev, next, s);
        if j == 0 {
          head := ti;
        }
        HeadUp(B(), s);
        p := node[head].p;
      }
    }

    /** The first mask of a new key, and the masks of its sibling. */
    method AddNew(v: Key, netmask: Key, idx: int, ti: Addr, tt: Addr, ghost b0: Table) returns (p: Addr)
      requires TableOk(b0) && Ok(T()) && Linked(b0.t, v, ti, tt) && Suffix(v, off) !in b0.chain
      requires |v| == klen && b0.t.klen == klen && b0.t.off == off && (netmask == [] || IsMask(off, klen, netmask, idx))
      requires B() == b0.(t := T())
      modifies `node, `chain, `lists, `rm, `owner
      ensures TableOk(B()) && Added(b0, v, netmask, ti) && LeafOk(T(), ti)
      ensures node[ti].b == (if netmask == [] then -1 else -1 - idx)
      ensures p in inner && p in node && p in below && Suffix(v, off) in below[p] && b0.t.inner <= inner
      ensures ParentOf(B(), Suffix(v, off), p) && ListsGrow(b0, B()) && SiblingsListed(b0, B(), p, ti)
      ensures CellsStay(b0, B()) && NoCell(B(), ti)
    {
      hide NoCell;
      hide TableOk, Ok, LeafOk, Grows, IsMask, LeafAdded, ChainLinked, ListsGrow, Promoted, SiblingsListed, CellsStay;
      SetMask(v, netmask, idx, ti, tt, b0);
      p := node[ti].p;
      ghost var t1 := T();
      ghost var b1 := B();
      LinkedIn(b0.t, t1, ti, tt);
      OkDomain(b0.t) by { TableParts(b0); }
      FreshList(b0, b1, tt);
      Promote(p, ti);
      SiblingsMoved(b0, b1, B(), Suffix(v, off), p, ti, tt);
      AddedStay(b0, b1, B(), p, ti, tt);
      NewLeafNoCell(b0, b1, B(), p, ti, tt, Suffix(v, off));
      GrowsTrans(b0.t, t1, T());
      GrowTrans(b0, b1, B());
      LeafKeep(t1, T(), ti);
    }

    /** The chain of the key has a leaf with that mask. */
    ghost predicate HasRoute(s: Key, netmask: Key)
      reads this
    {
      s in chain && exists i :: 0 <= i < |chain[s]| && chain[s][i] in node && node[chain[s][i]].mask == netmask
    }

    /** rn_insert: find the leaf the key leads to; compare the bytes off..v[0]; when they differ, link
        the leaf ti and the test node tt in at the first differing bit. */
    method Insert(v: Key, ti: Addr, tt: Addr) returns (r: Addr, duped: bool)
      requires Ok(T()) && |v| == klen && off < v[0] as nat <= klen
      requires forall u | u in heads && u in node && |node[u].key| == klen && node[u].key[off..v[0] as nat] == v[off..v[0] as nat] ::
        Suffix(node[u].key, off) == Suffix(v, off)
      requires ti != tt && ti != NULL && tt != NULL && ti !in node && tt !in node
      modifies `node, `inner, `heads, `below
      ensures Ok(T())
      ensures top in old(below) && top in below
      ensures duped <==> Suffix(v, off) in old(Keys(T()))
      ensures Keys(T()) == old(Keys(T())) + {Suffix(v, off)}
      ensures duped ==> T() == old(T()) && r in heads && r in node && r in below && below[r] == {Suffix(v, off)}
      ensures !duped ==> r == ti && Linked(old(T()), v, ti, tt)
      ensures rm == old(rm) && chain == old(chain) && lists == old(lists) && owner == old(owner)
    {
      hide Ok, TestAt, SearchPath, LeafAdded;
      ghost var t := T();
      OkTop(t);
      ghost var Q;
      r, Q := Search(v);
      var len := v[0] as nat;
      var k := node[r].key;
      var i := Mismatch(v, k, len);
      duped := i == len;
      if !duped {
        var b := DiffBit(v, k, i);
        BytesFirstDiff(t, v, k, i, b);
        Link(v, b, ti, tt, r, Q);
        r := ti;
      }
    }

    /** The byte index i holds the first difference: count down from its end to the bit. */
    method DiffBit(v: Key, k: Key, i: nat) returns (b: nat)
      requires i < |v| == |k| && v[i] != k[i]
      ensures b == 8 * i + 8 - BitLength(v[i] ^ k[i])
    {
      b := (i + 1) * 8;
      var diff := v[i] ^ k[i];
      while diff != 0
        invariant b == (i + 1) * 8 - (BitLength(v[i] ^ k[i]) - BitLength(diff))
        decreases BitLength(diff)
      {
        ShiftShortens(diff);
        diff := diff >> 1;
        b := b - 1;
      }
    }

    /** The descent of rn_insert's second half: to the first node that does not test before b. */
    method Descend(v: Key, b: nat, ghost u: Key, ghost found: Addr, ghost Q: set<Addr>)
      returns (p: Addr, x: Addr, ghost P: set<Addr>)
      requires Ok(T()) && off <= |v| == klen && found in heads && found in below && below[found] == {u}
      requires SearchPath(T(), Suffix(v, off), Q, found) && FirstDiff(T(), Suffix(v, off), u, b) && b < 8 * klen
      ensures Place(T(), Suffix(v, off), u, b, Q, found, P, p, x)
      ensures p in node && x in node && ULong(node[x].b) >= b
    {
      hide Ok, TestAt, SearchPath, FirstDiff, Place, InTree;
      ghost var t, s := T(), Suffix(v, off);
      OkTop(t);
      p, P := top, {top};
      PlaceStart(t, s, u, b, Q, found);
      TestLoad(t, v, p);
      x := if v[node[p].off] & node[p].bmask != 0 then node[p].r else node[p].l;
      PlaceFacts(t, s, u, b, Q, found, P, p, x);
      while b > ULong(node[x].b)
        invariant Place(t, s, u, b, Q, found, P, p, x)
        invariant p in node && x in node && -0x8000 <= node[x].b < 8 * klen <= 8 * MAX_KEY && InTree(t, x)
        decreases if node[x].b >= 0 then 8 * klen - node[x].b else 0
      {
        LeafOrInner(t, x);
        PlaceStep(t, s, u, b, Q, found, P, p, x);
        TestLoad(t, v, x);
        NextBelow(t, x, s);
        P := P + {x};
        p := x;
        x := if v[node[x].off] & node[x].bmask != 0 then node[x].r else node[x].l;
        PlaceFacts(t, s, u, b, Q, found, P, p, x);
        LeafOrInner(t, x);
      }
    }

    /** The leaf ti with key v and the test node tt above it are new in the trie. */
    ghost predicate Linked(t: Trie, v: Key, ti: Addr, tt: Addr)
      reads this
    {
      LeafAdded(t, T(), ti, tt) && ti in node && node[ti] == LeafNode(v, tt) &&
      tt in below && off <= |v| && Suffix(v, off) in below[tt]
    }

    /** The second half of rn_insert: put the new test node tt, with the new leaf ti, above the node
        where the second descent stops. */
    method Link(v: Key, b: nat, ti: Addr, tt: Addr, ghost found: Addr, ghost Q: set<Addr>)
      requires Ok(T()) && off <= |v| == klen && found in heads && found in node && found in below
      requires SearchPath(T(), Suffix(v, off), Q, found)
      requires |node[found].key| == klen && below[found] == {Suffix(node[found].key, off)}
      requires FirstDiff(T(), Suffix(v, off), Suffix(node[found].key, off), b) && b < 8 * klen
      requires ti != tt && ti != NULL && tt != NULL && ti !in node && tt !in node
      modifies `node, `inner, `heads, `below
      ensures Ok(T()) && top in old(below) && top in below && Keys(T()) == old(Keys(T())) + {Suffix(v, off)}
      ensures Linked(old(T()), v, ti, tt)
    {
      hide Ok, TestAt, SearchPath, FirstDiff, Place, InTree, LeafAdded, InsertedBelow, InnerNode, BitMask;
      ghost var t, u := T(), Suffix(node[found].key, off);
      var p, x;
      ghost var P;
      p, x, P := Descend(v, b, u, found, Q);
      LinkOk(t, v, u, b, Q, found, P, p, x, ti, tt);
      var tn := if v[b / 8] & BitMask(b % 8) != 0 then InnerNode(b, x, ti, p) else InnerNode(b, ti, x, p);
      node := node[ti := LeafNode(v, tt)][tt := tn];
      node := node[p := if v[node[p].off] & node[p].bmask != 0 then node[p].(r := tt) else node[p].(l := tt)];
      node := node[x := node[x].(p := tt)];
      inner, heads, below := inner + {tt}, heads + {ti}, InsertedBelow(t, v, P, x, ti, tt);
    }
  }

  /** The records that the assignments of rn_insert leave behind, with the byte tests as written. */
  ghost function LinkedNodes(t: Trie, v: Key, b: nat, p: Addr, x: Addr, ti: Addr, tt: Addr): map<Addr, Node>
    requires p in t.node && x in t.node && t.node[p].off < |v| && b / 8 < |v| && p != ti && p != tt && x != ti && x != tt && x != p
  {
    var tn := if v[b / 8] & BitMask(b % 8) != 0 then InnerNode(b, x, ti, p) else InnerNode(b, ti, x, p);
    var node1 := t.node[ti := LeafNode(v, tt)][tt := tn];
    var node2 := node1[p := if v[node1[p].off] & node1[p].bmask != 0 then node1[p].(r := tt) else node1[p].(l := tt)];
    node2[x := node2[x].(p := tt)]
  }

  lemma LinkOk(t: Trie, v: Key, u: Key, b: nat, Q: set<Addr>, found: Addr, P: set<Addr>, p: Addr, x: Addr, ti: Addr, tt: Addr)
    requires Ok(t) && t.off <= t.klen == |v| && FirstDiff(t, Suffix(v, t.off), u, b)
    requires SearchPath(t, Suffix(v, t.off), Q, found) && found in t.heads && found in t.below && t.below[found] == {u}
    requires Place(t, Suffix(v, t.off), u, b, Q, found, P, p, x) && p in t.node && x in t.node && ULong(t.node[x].b) >= b
    requires ti != tt && ti != NULL && tt != NULL && ti !in t.node && tt !in t.node
    ensures t.node[p].off < |v| && b / 8 < |v| && p != ti && p != tt && x != ti && x != tt && x != p && x in t.below
    ensures var t' := t.(node := LinkedNodes(t, v, b, p, x, ti, tt), inner := t.inner + {tt}, heads := t.heads + {ti},
                         below := InsertedBelow(t, v, P, x, ti, tt));
      && Ok(t') && t.top in t.below && t.top in t'.below && Keys(t') == Keys(t) + {Suffix(v, t.off)}
      && LeafAdded(t, t', ti, tt) && t'.node[ti] == LeafNode(v, tt) && tt in t'.below && Suffix(v, t.off) in t'.below[tt]
  {
    hide Ok, TestAt, SearchPath, FirstDiff, Place, Ready, Next, InTree, LeafAdded;
    PlaceReady(t, v, u, b, Q, found, P, p, x, ti, tt);
    ReadyFacts(t, v, u, b, P, p, x, ti, tt);
    InsertOk(t, v, u, b, P, p, x, ti, tt);
    InsertedAdds(t, v, u, b, P, p, x, ti, tt);
    TestLoad(t, v, p);
    BitLoad(t, v, b);
  }

  // ---------- Match ----------

  lemma MaskedWithin(t: Trie, v: Key, a: Addr)
    requires LeafOk(t, a) && t.node[a].normal && Covers(t.off, v, t.node[a].key, t.node[a].mask)
    ensures Within(t.off, v, t.node[a])
  {
    LeafMask(t, a);
  }

  lemma UpFacts(t: Trie, x: Addr)
    requires Ok(t) && x in t.inner
    ensures x in t.node && x in t.below && t.node[x].p in t.inner && t.node[x].p in t.node && t.node[x].p in t.below
    ensures t.below[x] <= t.below[t.node[x].p] && t.node[x].b >= 0 && (x != t.top ==> t.node[t.node[x].p].b < t.node[x].b)
  {
    hide Ok;
    InnerBit(t, x);
    OkTop(t);
    if x != t.top { RadixTrie.Climb(t, x); }
  }

  /** With keys of full length the compare of rn_insert covers the whole key. */
  lemma WholeKey(t: Trie, v: Key)
    requires t.off <= t.klen == |v|
    ensures forall u | u in t.heads && u in t.node && |t.node[u].key| == t.klen && t.node[u].key[t.off..t.klen] == v[t.off..t.klen] ::
      Suffix(t.node[u].key, t.off) == Suffix(v, t.off)
  {
    forall u | u in t.heads && u in t.node && |t.node[u].key| == t.klen && t.node[u].key[t.off..t.klen] == v[t.off..t.klen]
      ensures Suffix(t.node[u].key, t.off) == Suffix(v, t.off)
    {
      assert t.node[u].key[t.off..t.klen] == t.node[u].key[t.off..] && v[t.off..t.klen] == v[t.off..];
    }
  }

  lemma DupChainOf(b: Table, s: Key, head: Addr)
    requires TableOk(b) && head in b.t.heads && head in b.t.below && b.t.below[head] == {s}
    ensures s in b.chain && b.chain[s] != [] && b.chain[s][0] == head
  {
    hide TableOk;
    HeadChain(b, head);
  }

  /** The test node above the leaf that holds a key's chain has the key below it. */
  lemma HeadUp(b: Table, s: Key)
    requires TableOk(b) && s in b.chain && b.chain[s] != []
    ensures b.chain[s][0] in b.t.node
    ensures var p := b.t.node[b.chain[s][0]].p; p in b.t.inner && p in b.t.node && p in b.t.below && s in b.t.below[p]
  {
    hide TableOk, Ok;
    TableParts(b);
    DupHeadFacts(b, s);
    TopFacts(b.t);
    RadixTrie.Climb(b.t, b.chain[s][0]);
  }

  lemma NewChain(b: Table, s: Key)
    requires TableOk(b) && b.t.top in b.t.below && s !in b.t.below[b.t.top]
    ensures s !in b.chain
  {
    hide TableOk;
    if s in b.chain { ChainHasKey(b, s); }
  }

  lemma ChainSuffix(b: Table, s: Key, i: nat)
    requires TableOk(b) && s in b.chain && i < |b.chain[s]|
    ensures var a := b.chain[s][i]; a in b.t.node && b.t.off <= |b.t.node[a].key| && Suffix(b.t.node[a].key, b.t.off) == s
    ensures -0x8000 <= b.t.node[b.chain[s][i]].b < 0
  {
    hide TableOk;
    TableChain(b, s);
    ChainElement(b, s, i);
    LeafBit(b.t, b.chain[s][i]);
  }

  lemma GrowsTrans(t: Trie, t': Trie, t'': Trie)
    requires Grows(t, t') && Grows(t', t'') && t.inner <= t'.inner
    ensures Grows(t, t'')
  {
  }

  lemma CellSize(t: Trie, m: RMask, x: Addr)
    requires CellOk(t, m, x)
    ensures 0 <= m.b < 0x1_0000
  {
  }

  lemma GrowsRefl(t: Trie)
    ensures Ok(t) ==> Grows(t, t)
  {
    if Ok(t) { OkDomain(t); }
  }

  lemma SiblingFacts(t: Trie, p: Addr)
    requires Ok(t) && p in t.inner
    ensures p in t.node && p in t.below && 0 <= t.node[p].b < 8 * MAX_KEY
    ensures forall x | x == t.node[p].l || x == t.node[p].r ::
      x in t.node && x in t.below && t.below[x] <= t.below[p] && x != p && x != NULL &&
      if t.node[x].b < 0 then x in t.heads else x in t.inner
  {
    assert InnerOk(t, p);
    forall x | x == t.node[p].l || x == t.node[p].r ensures if t.node[x].b < 0 then x in t.heads else x in t.inner {
      if x in t.inner { assert InnerOk(t, x); } else { assert HeadOk(t, x); }
    }
  }

  lemma AppendAll(b: Table, x: Addr, leaf: Addr, cell: Addr, last: Addr)
    requires TableOk(b) && x in b.t.inner && x in b.t.node && x in b.lists && leaf in b.t.node && cell !in b.rm && cell != NULL
    requires LeafOk(b.t, leaf) && b.t.node[leaf].normal && x in b.t.below && b.t.off <= |b.t.node[leaf].key|
    requires Suffix(b.t.node[leaf].key, b.t.off) in b.t.below[x] && -1 - b.t.node[leaf].b <= b.t.node[x].b
    requires last == (if b.lists[x] == [] then NULL else b.lists[x][|b.lists[x]| - 1])
    ensures var b' := Appended(b, x, leaf, cell); TableOk(b') && Grows(b.t, b'.t) && LeafOk(b'.t, leaf)
    ensures x != leaf && (last != NULL ==> last in b.rm) && (b.lists[x] == [] <==> last == NULL)
  {
    hide TableOk, Ok, HeadsChained, LeafOk, CellOk, Grows, ListOk, AppendReady, Appended, Suffix;
    IsAppendReady(b, x, leaf, cell);
    TableList(b, x);
    ListShape(b, x);
    TableParts(b);
    if b.lists[x] != [] { ListCell(b, x, |b.lists[x]| - 1); }
    AppendOk(b, x, leaf, cell);
    AppendLeafNotTest(b, x, leaf);
    LeafKeep(b.t, Appended(b, x, leaf, cell).t, leaf);
  }

  lemma AppendFields(b: Table, x: Addr, leaf: Addr, cell: Addr, last: Addr)
    requires x in b.t.node && x in b.lists && leaf in b.t.node && x != leaf
    requires last == (if b.lists[x] == [] then NULL else b.lists[x][|b.lists[x]| - 1])
    requires (last != NULL ==> last in b.rm) && (b.lists[x] == [] <==> last == NULL)
    ensures var b' := Appended(b, x, leaf, cell);
      && b' == b.(t := b.t.(node := b'.t.node), rm := b'.rm, lists := b.lists[x := b.lists[x] + [cell]], owner := b.owner[cell := x])
      && b'.t.node == (var node1 := b.t.node[leaf := b.t.node[leaf].(masklist := cell)];
                       if last == NULL then node1[x := node1[x].(masklist := cell)] else node1)
      && b'.rm == (if last == NULL then b.rm else b.rm[last := b.rm[last].(next := cell)])
                  [cell := RMask(0x1_0000 + b.t.node[leaf].b, leaf, NULL)]
      && (forall a | a in b.t.node :: a in b'.t.node && b'.t.node[a] == b.t.node[a].(masklist := b'.t.node[a].masklist))
      && b'.t.node.Keys == b.t.node.Keys
  {
  }

  lemma AppendEffect(b: Table, x: Addr, leaf: Addr, cell: Addr, last: Addr)
    requires x in b.t.node && x in b.lists && leaf in b.t.node && x != leaf && cell != NULL && cell !in b.rm
    requires last == (if b.lists[x] == [] then NULL else b.lists[x][|b.lists[x]| - 1])
    requires (last != NULL ==> last in b.rm) && (b.lists[x] == [] <==> last == NULL)
    ensures NewCell(b, Appended(b, x, leaf, cell), x, leaf, cell)
  {
    hide Appended;
    AppendFields(b, x, leaf, cell, last);
  }

  lemma IsAppendReady(b: Table, x: Addr, leaf: Addr, cell: Addr)
    requires x in b.t.inner && x in b.t.node && x in b.lists && leaf in b.t.node && cell !in b.rm && cell != NULL
    requires LeafOk(b.t, leaf) && b.t.node[leaf].normal && x in b.t.below && b.t.off <= |b.t.node[leaf].key|
    requires Suffix(b.t.node[leaf].key, b.t.off) in b.t.below[x] && -1 - b.t.node[leaf].b <= b.t.node[x].b
    ensures AppendReady(b, x, leaf, cell)
  {
  }

  lemma AppendLeafNotTest(b: Table, x: Addr, leaf: Addr)
    requires TableOk(b) && x in b.t.inner && LeafOk(b.t, leaf)
    ensures x != leaf
  {
    hide TableOk;
    TableParts(b);
    InnerBit(b.t, x);
  }

  lemma LeafIndex(t: Trie, a: Addr)
    requires LeafOk(t, a)
    ensures a in t.node && (t.node[a].mask != [] ==> IsMask(t.off, t.klen, t.node[a].mask, -1 - t.node[a].b))
  {
  }

  /** The index of a contiguous mask is determined by the mask. */
  lemma MaskIndexUnique(off: nat, klen: nat, m: Key, i1: int, i2: int)
    requires IsMask(off, klen, m, i1) && IsMask(off, klen, m, i2)
    ensures i1 == i2
  {
    var i := if i1 < i2 then i1 else i2;
    var bit := i < 8 * |m| && Bit(m, i);
  }

  /** The three comparisons of rn_addroute that find a place in a chain amount to one: which mask is longer. */
  lemma OrderMasks(off: nat, klen: nat, m: Key, n: Key, idx: int, nb: int)
    requires 0 < off && klen <= MAX_KEY && IsMask(off, klen, m, idx) && IsMask(off, klen, n, -1 - nb) && m != n
    ensures 0 < |m| == m[0] as nat && 0 < |n| == n[0] as nat
    ensures (ULong(-1 - idx) < ULong(nb) || Refines(m, n) || LexoBetter(m, n)) <==> -1 - idx < nb
    ensures nb != -1 - idx
  {
    hide IsMask, Refines, LexoBetter;
    MaskLength(off, klen, m, idx);
    MaskLength(off, klen, n, -1 - nb);
    if -1 - nb == idx { MaskUnique(off, klen, m, n, idx); }
    if Refines(m, n) { RefinesLonger(off, klen, m, n, idx, -1 - nb); }
    if LexoBetter(m, n) { LexoLonger(off, klen, m, n, idx, -1 - nb); }
  }

  lemma MaskLength(off: nat, klen: nat, m: Key, idx: int)
    requires m == [] || IsMask(off, klen, m, idx)
    ensures m != [] ==> off < |m| == m[0] as nat <= klen && 0 < idx <= 8 * klen
    ensures IsMask(off, klen, m, idx) ==> m != []
  {
  }

  lemma DupHeadFacts(b: Table, s: Key)
    requires TableOk(b) && s in b.chain && b.chain[s] != []
    ensures var h := b.chain[s][0];
      h in b.t.node && h in b.t.heads && h in b.t.below && b.t.node[h].p in b.t.inner && b.t.node[h].p in b.t.node &&
      h != b.t.node[h].p && b.t.below[h] == {s}
  {
    hide TableOk, Ok, LeafOk, ChainOk;
    TableParts(b);
    TableChain(b, s);
    ChainHead(b, s);
    ChainElement(b, s, 0);
    OkHead(b.t, b.chain[s][0]);
    TopFacts(b.t);
    OkParent(b.t, b.chain[s][0]);
    InnerBit(b.t, b.t.node[b.chain[s][0]].p);
  }

  lemma DupIsReady(b: Table, s: Key, j: nat, a: Addr, n: Node, idx: int)
    requires TableOk(b) && s in b.chain && b.chain[s] != [] && j <= |b.chain[s]| && a !in b.t.node && a != NULL
    requires b.t.off <= b.t.klen == |n.key| && Suffix(n.key, b.t.off) == s
    requires n.normal && !n.root && n.b == -1 - idx && IsMask(b.t.off, b.t.klen, n.mask, idx)
    requires n.dupedkey == (if j < |b.chain[s]| then b.chain[s][j] else NULL)
    requires b.chain[s][0] in b.t.node && (j == 0 ==> n.p == b.t.node[b.chain[s][0]].p)
    requires SortedAt(b.t, b.chain[s], j, n.b)
    requires forall i | 0 <= i < |b.chain[s]| :: b.chain[s][i] in b.t.node && b.t.node[b.chain[s][i]].normal
    ensures DupReady(b, s, j, a, n)
  {
    hide TableOk;
    TableParts(b);
    OkFitsKlen(b.t);
  }

  /** The key has a leaf without a mask; the two roots are such leaves. */
  ghost predicate Unmasked(b: Table, s: Key) {
    s in b.chain && exists i :: 0 <= i < |b.chain[s]| && UnmaskedLeaf(b.t, b.chain[s][i])
  }

  ghost predicate UnmaskedLeaf(t: Trie, a: Addr) {
    a in t.node && t.node[a].b < 0 && !t.node[a].normal
  }

  lemma InitUnmasked(off: nat, klen: nat, top: Addr, l: Addr, r: Addr)
    requires InitArgs(off, klen, top, l, r)
    ensures var b := InitTable(off, klen, top, l, r);
      Unmasked(b, Suffix(Zeros(klen), off)) && Unmasked(b, Suffix(Ones(klen), off))
  {
    var b := InitTable(off, klen, top, l, r);
    InitSplits(off, klen);
    assert b.chain[Suffix(Zeros(klen), off)][0] == l && UnmaskedLeaf(b.t, l);
    assert b.chain[Suffix(Ones(klen), off)][0] == r && UnmaskedLeaf(b.t, r);
  }

  /** No route takes an unmasked leaf out of the chain of its key. */
  lemma StillUnmasked(b: Table, b': Table, s: Key, a: Addr, s': Key)
    requires Unmasked(b, s') && Grows(b.t, b'.t) && ChainLinked(b, s, a, b'.chain)
    ensures Unmasked(b', s')
  {
    var i: nat :| i < |b.chain[s']| && UnmaskedLeaf(b.t, b.chain[s'][i]);
    var leaf := b.chain[s'][i];
    assert UnmaskedLeaf(b'.t, leaf);
    var j: nat :| j <= |ChainOf(b, s)| && b'.chain == b.chain[s := InsertAt(ChainOf(b, s), j, a)];
    if s' == s {
      assert b'.chain[s][if i < j then i else i + 1] == leaf;
    } else {
      assert b'.chain[s'][i] == leaf;
    }
  }

  /** The chain of s got the leaf a somewhere; the other chains are as before. */
  ghost predicate ChainLinked(b: Table, s: Key, a: Addr, chain: map<Key, seq<Addr>>) {
    exists j: nat :: j <= |ChainOf(b, s)| && chain == b.chain[s := InsertAt(ChainOf(b, s), j, a)]
  }

  lemma ChainLinkedAt(b: Table, s: Key, a: Addr, chain: map<Key, seq<Addr>>, j: nat)
    requires j <= |ChainOf(b, s)| && chain == b.chain[s := InsertAt(ChainOf(b, s), j, a)]
    ensures ChainLinked(b, s, a, chain)
  {
  }

  lemma DupAll(b: Table, s: Key, j: nat, a: Addr, n: Node, idx: int)
    requires TableOk(b) && s in b.chain && b.chain[s] != [] && j <= |b.chain[s]| && a !in b.t.node && a != NULL
    requires b.t.off <= b.t.klen == |n.key| && Suffix(n.key, b.t.off) == s
    requires n.normal && !n.root && n.b == -1 - idx && IsMask(b.t.off, b.t.klen, n.mask, idx)
    requires n.dupedkey == (if j < |b.chain[s]| then b.chain[s][j] else NULL)
    requires b.chain[s][0] in b.t.node && (j == 0 ==> n.p == b.t.node[b.chain[s][0]].p)
    requires SortedAt(b.t, b.chain[s], j, n.b)
    requires forall i | 0 <= i < |b.chain[s]| :: b.chain[s][i] in b.t.node && b.t.node[b.chain[s][i]].normal
    ensures TableOk(DupTable(b, s, j, a, n)) && Grows(b.t, DupTrie(b, s, j, a, n)) && LeafOk(DupTrie(b, s, j, a, n), a)
    ensures b.chain[s][0] in b.t.below && b.t.node[b.chain[s][0]].p in b.t.node && (j > 0 ==> b.chain[s][j - 1] in b.t.node)
    ensures var h := b.chain[s][0]; var p := b.t.node[h].p;
      DupTrie(b, s, j, a, n) ==
        if j == 0 then
          b.t.(node := b.t.node[p := if b.t.node[p].l == h then b.t.node[p].(l := a) else b.t.node[p].(r := a)][a := n],
               heads := b.t.heads - {h} + {a}, below := b.t.below[a := b.t.below[h]])
        else
          b.t.(node := b.t.node[b.chain[s][j - 1] := b.t.node[b.chain[s][j - 1]].(dupedkey := a)][a := n])
  {
    hide TableOk, DupTrie, Grows, IsMask, LeafOk;
    DupIsReady(b, s, j, a, n, idx);
    DupHeadFacts(b, s);
    DupTableOk(b, s, j, a, n);
    DupTrieOk(b, s, j, a, n);
    DupTrieFields(b, s, j, a, n);
    DupGets(b, s, j, a, n);
    assert LeafOk(DupTable(b, s, j, a, n).t, a);
  }

  lemma DupTrieFields(b: Table, s: Key, j: nat, a: Addr, n: Node)
    requires s in b.chain && j <= |b.chain[s]| && |b.chain[s]| > 0
    requires var c := b.chain[s]; c[0] in b.t.node && c[0] in b.t.below && b.t.node[c[0]].p in b.t.node
    requires j > 0 ==> b.chain[s][j - 1] in b.t.node
    ensures var h := b.chain[s][0]; var p := b.t.node[h].p;
      DupTrie(b, s, j, a, n) ==
        if j == 0 then
          b.t.(node := b.t.node[p := if b.t.node[p].l == h then b.t.node[p].(l := a) else b.t.node[p].(r := a)][a := n],
               heads := b.t.heads - {h} + {a}, below := b.t.below[a := b.t.below[h]])
        else
          b.t.(node := b.t.node[b.chain[s][j - 1] := b.t.node[b.chain[s][j - 1]].(dupedkey := a)][a := n])
  {
  }

  ghost function ChainOf(b: Table, s: Key): seq<Addr> {
    if s in b.chain then b.chain[s] else []
  }

  lemma LinkedIn(t0: Trie, t: Trie, ti: Addr, tt: Addr)
    requires LeafAdded(t0, t, ti, tt)
    ensures t0.inner <= t.inner && tt in t.inner && tt in t.node && ti in t.heads && ti in t.node && ti !in t0.node && tt !in t0.node && t.off == t0.off
  {
  }

  lemma NotSame(v: Key, k: Key, off: nat, i: nat)
    requires off <= i < |v| == |k| && v[i] != k[i]
    ensures Suffix(v, off) != Suffix(k, off)
  {
    assert Suffix(v, off)[i - off] != Suffix(k, off)[i - off];
  }

  lemma TopFacts(t: Trie)
    requires Ok(t)
    ensures NULL !in t.node && t.off < t.klen <= MAX_KEY && t.top in t.below && t.top !in t.heads
    ensures t.top in t.inner && t.top in t.node && t.node[t.top].p == t.top
  {
    assert InnerOk(t, t.top);
  }

  lemma SiblingsMoved(b0: Table, b1: Table, b2: Table, s: Key, p: Addr, ti: Addr, tt: Addr)
    requires TableOk(b1) && p in b1.t.inner && LeafAdded(b0.t, b1.t, ti, tt) && s !in b0.chain && b1.chain == b0.chain[s := [ti]]
    requires p in b1.t.node && OnlyLists(b1.t.node, b2.t.node)
    requires var n := b1.t.node[p]; var x := if n.l == ti then n.r else n.l;
      && x in b1.t.node
      && (if b1.t.node[x].b >= 0 then b2 == b1
          else b1.t.off <= |b1.t.node[x].key| && Promoted(b1, b2, p, Suffix(b1.t.node[x].key, b1.t.off)))
    ensures SiblingsListed(b0, b2, p, ti)
  {
    hide TableOk, Ok, LeafOk;
    TableParts(b1);
    SiblingFacts(b1.t, p);
    TwoChildren(b1.t, p);
    var n := b1.t.node[p];
    var x := if n.l == ti then n.r else n.l;
    if b1.t.node[x].b < 0 {
      HeadChain(b1, x);
      var u := Suffix(b1.t.node[x].key, b1.t.off);
      assert u != s;
      if x in b0.t.node {
        assert b1.t.node[x].key == b0.t.node[x].key && u in b0.chain && b0.chain[u] == b1.chain[u];
        forall j: nat | j < |b0.chain[u]| && Stays(b0, b2, p, b0.chain[u][j]) ensures HasCell(b2, p, b0.chain[u][j]) {
          assert Moves(b1, p, u, j);
        }
      }
    }
  }

  lemma OneChain(b: Table, u: Key, s: Key, a: Addr)
    requires TableOk(b) && u in b.chain && s in b.chain && b.chain[s] == [a]
    ensures a in b.chain[u] ==> u == s
  {
    hide TableOk;
    if a in b.chain[u] {
      var j: nat :| j < |b.chain[u]| && b.chain[u][j] == a;
      ChainSuffix(b, u, j);
      ChainSuffix(b, s, 0);
    }
  }

  lemma NewLeafNoCell(b0: Table, b1: Table, b2: Table, p: Addr, ti: Addr, tt: Addr, s: Key)
    requires TableOk(b0) && TableOk(b1) && LeafAdded(b0.t, b1.t, ti, tt) && b1.lists == b0.lists[tt := []] && b1.rm == b0.rm
    requires p in b1.t.inner && p in b1.t.node && b2.t.inner == b1.t.inner && s !in b0.chain && b1.chain == b0.chain[s := [ti]]
    requires var n := b1.t.node[p]; var x := if n.l == ti then n.r else n.l;
      && x in b1.t.node
      && (if b1.t.node[x].b >= 0 then b2 == b1
          else b1.t.off <= |b1.t.node[x].key| && Promoted(b1, b2, p, Suffix(b1.t.node[x].key, b1.t.off)))
    ensures NoCell(b2, ti)
  {
    hide TableOk, Ok, Promoted, NoCell;
    TableParts(b1);
    SiblingFacts(b1.t, p);
    TwoChildren(b1.t, p);
    NoCellYet(b0, ti);
    FreshNoCell(b0, b1, tt, ti);
    var x := if b1.t.node[p].l == ti then b1.t.node[p].r else b1.t.node[p].l;
    if b1.t.node[x].b >= 0 {
      SameNoCell(b1, b2, ti);
    } else {
      HeadChain(b1, x);
      var u := Suffix(b1.t.node[x].key, b1.t.off);
      OneChain(b1, u, s, ti);
      PromotedNoCell(b1, b2, p, u, ti);
    }
  }

  lemma AddedStay(b0: Table, b1: Table, b2: Table, p: Addr, ti: Addr, tt: Addr)
    requires TableOk(b1) && LeafAdded(b0.t, b1.t, ti, tt) && b1.lists == b0.lists[tt := []] && b1.rm == b0.rm
    requires p in b1.t.node && b2.t.inner == b1.t.inner
    requires var n := b1.t.node[p]; var x := if n.l == ti then n.r else n.l;
      && x in b1.t.node
      && (if b1.t.node[x].b >= 0 then b2 == b1
          else b1.t.off <= |b1.t.node[x].key| && Promoted(b1, b2, p, Suffix(b1.t.node[x].key, b1.t.off)))
    ensures CellsStay(b0, b2)
  {
    hide TableOk, Promoted, CellsStay;
    FreshStay(b0, b1, tt);
    var x := if b1.t.node[p].l == ti then b1.t.node[p].r else b1.t.node[p].l;
    if b1.t.node[x].b >= 0 {
      SameStay(b1, b2);
    } else {
      PromotedStay(b1, b2, p, Suffix(b1.t.node[x].key, b1.t.off));
    }
    StayTrans(b0, b1, b2);
  }

  lemma TwoChildren(t: Trie, p: Addr)
    requires Ok(t) && p in t.inner
    ensures p in t.node && t.node[p].l != t.node[p].r
  {
    assert InnerOk(t, p);
  }

  /** A leaf, masked or not, has a key of full length and a mask that fits. */
  lemma LeafMask(t: Trie, a: Addr)
    requires LeafOk(t, a)
    ensures a in t.node && |t.node[a].key| == t.klen && t.off <= t.klen && t.node[a].b < 0
    ensures t.node[a].mask != [] ==> t.node[a].normal && t.off < |t.node[a].mask| == t.node[a].mask[0] as nat <= t.klen
    ensures t.node[a].mask == [] ==> !t.node[a].normal
    ensures t.node[a].root ==> t.node[a].mask == []
  {
  }

  /** The first compare of rn_match: the leaf reached by the bit tests, byte by byte up to the length
      of its mask or of the address. */
  lemma DirectHit(off: nat, klen: nat, v: Key, n: Node, vlen: nat)
    requires |v| == klen == |n.key| && off <= vlen <= klen
    requires vlen == (if n.mask == [] then klen else |n.mask|)
    requires v[off..vlen] == n.key[off..vlen]
    ensures Within(off, v, n)
  {
    if n.mask != [] {
      EqualCovers(off, v, n.key, n.mask);
    } else {
      assert v[off..vlen] == v[off..] && n.key[off..vlen] == n.key[off..];
    }
  }

  /** What the compare has found out when it stops at byte i. */
  lemma Compared(t: Trie, v: Key, a: Addr, vlen: nat, i: nat)
    requires LeafOk(t, a) && |v| == t.klen && vlen == (if t.node[a].mask == [] then t.klen else |t.node[a].mask|)
    requires t.off <= i <= vlen <= |v| && v[t.off..i] == t.node[a].key[t.off..i] && (i < vlen ==> v[i] != t.node[a].key[i])
    ensures Direct(t.off, v, t.node[a]) <==> i == vlen
    ensures t.node[a].normal && t.node[a].b % 8 == 7 && Covers(t.off, v, t.node[a].key, t.node[a].mask) ==> i == vlen
  {
    var n := t.node[a];
    if i < vlen { assert v[t.off..vlen][i - t.off] != n.key[t.off..vlen][i - t.off]; }
    hide Covers, IsMask, Direct;
    if n.normal { DirectIff(t.off, v, n, -1 - n.b); }
  }

  /** What a leaf in the tree says about its chain. */
  lemma HeadChain(b: Table, x: Addr)
    requires TableOk(b) && x in b.t.heads
    ensures x in b.t.node && x in b.t.below && LeafOk(b.t, x) && b.t.off <= b.t.klen == |b.t.node[x].key|
    ensures var s := Suffix(b.t.node[x].key, b.t.off);
      s in b.chain && |b.chain[s]| > 0 && b.chain[s][0] == x && b.t.below[x] == {s}
    ensures b.t.node[x].mask == [] ==> b.t.node[x].dupedkey == NULL
  {
    hide TableOk, Ok, LeafOk;
    TableParts(b);
    assert HeadChained(b, x);
    OkHead(b.t, x);
    var s := Suffix(b.t.node[x].key, b.t.off);
    TableChain(b, s);
    LeafMask(b.t, b.chain[s][0]);
  }

  lemma ChainLink(b: Table, s: Key, i: nat)
    requires TableOk(b) && s in b.chain && i < |b.chain[s]|
    ensures b.chain[s][i] in b.t.node && LeafOk(b.t, b.chain[s][i])
    ensures b.t.node[b.chain[s][i]].dupedkey == if i + 1 < |b.chain[s]| then b.chain[s][i + 1] else NULL
    ensures |b.chain[s]| > 1 ==> b.t.node[b.chain[s][i]].normal
  {
    hide TableOk, LeafOk;
    TableChain(b, s);
  }

  lemma PlaceFacts(t: Trie, s: Key, u: Key, b: int, Q: set<Addr>, found: Addr, P: set<Addr>, p: Addr, x: Addr)
    requires Ok(t) && Place(t, s, u, b, Q, found, P, p, x)
    ensures p in t.node && x in t.node && InTree(t, x) && -0x8000 <= t.node[x].b < 8 * t.klen <= 8 * MAX_KEY
  {
    LeafOrInner(t, x);
  }

  lemma PlaceReady(t: Trie, v: Key, u: Key, b: nat, Q: set<Addr>, found: Addr, P: set<Addr>, p: Addr, x: Addr, ti: Addr, tt: Addr)
    requires Ok(t) && t.off <= t.klen == |v| && FirstDiff(t, Suffix(v, t.off), u, b)
    requires SearchPath(t, Suffix(v, t.off), Q, found) && found in t.heads && found in t.below && t.below[found] == {u}
    requires Place(t, Suffix(v, t.off), u, b, Q, found, P, p, x) && ULong(t.node[x].b) >= b
    requires ti != tt && ti != NULL && tt != NULL && ti !in t.node && tt !in t.node
    ensures Ready(t, v, u, b, P, p, x, ti, tt) && InTree(t, x)
  {
    hide Ok, FirstDiff, TestAt;
    LeafOrInner(t, x);
    if x in t.inner {
      InnerBit(t, x);
      PlaceEnd(t, Suffix(v, t.off), u, b, Q, found, P, p, x);
    }
  }

  lemma BitLoad(t: Trie, v: Key, b: nat)
    requires |v| == t.klen && t.off <= t.klen && 8 * t.off <= b < 8 * t.klen
    ensures (v[b / 8] & BitMask(b % 8) != 0) <==> TestAt(t.off, t.klen, Suffix(v, t.off), b)
  {
    TestSuffix(v, t.off, b);
  }

  /** The conversion to a 32-bit unsigned long that the C code applies to a signed short. */
  function ULong(x: int): int {
    if x < 0 then x + 0x1_0000_0000 else x
  }

  lemma SameByte(v: Key, k: Key, off: nat, i: nat, j: nat)
    requires off <= j < i <= |v| && i <= |k| && v[off..i] == k[off..i]
    ensures v[j] == k[j]
  {
    assert v[j] == v[off..i][j - off] && k[j] == k[off..i][j - off];
  }

  lemma TestKey(off: nat, klen: nat, v: Key, c: nat)
    requires off <= klen == |v| && 8 * off <= c < 8 * klen
    ensures TestAt(off, klen, Suffix(v, off), c) == ByteBit(v[c / 8], c % 8)
  {
    TestSuffix(v, off, c);
  }

  lemma DiffAt(off: nat, klen: nat, v: Key, k: Key, i: nat, b: nat)
    requires off <= i < klen == |v| == |k| && v[i] != k[i] && b == 8 * i + 8 - BitLength(v[i] ^ k[i])
    ensures 8 * i <= b < 8 * i + 8
    ensures TestAt(off, klen, Suffix(v, off), b) != TestAt(off, klen, Suffix(k, off), b)
    ensures |Suffix(v, off)| == klen - off && |Suffix(k, off)| == klen - off
  {
    hide ByteBit, BitLength, TestAt;
    FirstDifference(v[i], k[i], 8 - BitLength(v[i] ^ k[i]));
    TestKey(off, klen, v, b);
    TestKey(off, klen, k, b);
  }

  lemma AgreeAt(off: nat, klen: nat, v: Key, k: Key, i: nat, b: nat, c: nat)
    requires off <= i < klen == |v| == |k| && v[off..i] == k[off..i] && v[i] != k[i]
    requires b == 8 * i + 8 - BitLength(v[i] ^ k[i]) && 8 * off <= c < b
    ensures TestAt(off, klen, Suffix(v, off), c) == TestAt(off, klen, Suffix(k, off), c)
  {
    hide ByteBit, BitLength, TestAt, Suffix;
    TestKey(off, klen, v, c);
    TestKey(off, klen, k, c);
    if c < 8 * i {
      SameByte(v, k, off, i, c / 8);
    } else {
      FirstDifference(v[i], k[i], 8 - BitLength(v[i] ^ k[i]));
    }
  }

  lemma BytesFirstDiff(t: Trie, v: Key, k: Key, i: nat, b: nat)
    requires t.off <= i < t.klen == |v| == |k| && v[t.off..i] == k[t.off..i] && v[i] != k[i]
    requires b == 8 * i + 8 - BitLength(v[i] ^ k[i])
    ensures FirstDiff(t, Suffix(v, t.off), Suffix(k, t.off), b) && b < 8 * t.klen
  {
    hide TestAt, ByteBit, BitLength, Suffix;
    DiffAt(t.off, t.klen, v, k, i, b);
    forall c | 8 * t.off <= c < b
      ensures TestAt(t.off, t.klen, Suffix(v, t.off), c) == TestAt(t.off, t.klen, Suffix(k, t.off), c)
    {
      AgreeAt(t.off, t.klen, v, k, i, b, c);
    }
  }

  lemma LeafOrInner(t: Trie, x: Addr)
    requires Ok(t) && InTree(t, x)
    ensures if t.node[x].b >= 0 then x in t.inner else x in t.heads && HeadOk(t, x)
    ensures -0x8000 <= t.node[x].b < 8 * t.klen <= 8 * MAX_KEY
  {
    if x in t.inner { assert InnerOk(t, x); } else { assert HeadOk(t, x); }
  }

  /** The byte test of the C code reads the node's bit of the key. */
  lemma TestLoad(t: Trie, v: Key, x: Addr)
    requires Ok(t) && x in t.inner && |v| == t.klen && t.off <= t.klen
    ensures x in t.node && t.node[x].off < |v|
    ensures (v[t.node[x].off] & t.node[x].bmask != 0) <==> TestAt(t.off, t.klen, Suffix(v, t.off), t.node[x].b)
  {
    assert InnerOk(t, x);
    TestSuffix(v, t.off, t.node[x].b);
  }
}

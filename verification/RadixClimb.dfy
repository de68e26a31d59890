/** net/radix.c: what the climb of rn_match sees, and which routes it cannot miss. */
module RadixClimb {
  import opened RadixBits
  import opened RadixTrie
  import opened RadixRoutes
  import opened RadixUpdates

  // ---------- When a cell covers the destination ----------

  /** The cell names a route that covers the destination. */
  ghost predicate CellCovers(b: Table, v: Key, cell: Addr) {
    && cell in b.rm && b.rm[cell].leaf in b.t.node
    && var n := b.t.node[b.rm[cell].leaf];
    Covers(b.t.off, v, n.key, n.mask)
  }

  ghost predicate NoAnswer(b: Table, v: Key, x: Addr) {
    x in b.lists && forall i | 0 <= i < |b.lists[x]| :: !CellCovers(b, v, b.lists[x][i])
  }

  /** The list of x has cells that cover the destination, and the first of them names r. */
  ghost predicate FirstAnswer(b: Table, v: Key, x: Addr, r: Addr) {
    x in b.lists && exists i ::
      && 0 <= i < |b.lists[x]| && CellCovers(b, v, b.lists[x][i]) && b.rm[b.lists[x][i]].leaf == r
      && forall j | 0 <= j < i :: !CellCovers(b, v, b.lists[x][j])
  }

  /** The list of x has a cell for the leaf, and x is the topmost test node not before the mask's index. */
  ghost predicate Listed(b: Table, x: Addr, leaf: Addr) {
    && x in b.t.inner && x in b.lists && leaf in b.t.node && Topmost(b.t, x, -1 - b.t.node[leaf].b)
    && HasCell(b, x, leaf)
  }

  ghost predicate HasCell(b: Table, x: Addr, leaf: Addr) {
    x in b.lists && exists i :: 0 <= i < |b.lists[x]| && b.lists[x][i] in b.rm && b.rm[b.lists[x][i]].leaf == leaf
  }

  ghost predicate Topmost(t: Trie, x: Addr, idx: int) {
    x == t.top || (x in t.node && t.node[x].p in t.node && t.node[t.node[x].p].b < idx)
  }

  /** A test node that is linked in above x later, and does not test before the mask's index, takes the
      topmost place away from x: a destination w that goes to its new leaf is covered by the prefixes of
      length idx of the keys under x, and its way does not come by x. */
  lemma Overtaken(t: Trie, v: Key, u: Key, b: nat, P: set<Addr>, p: Addr, x: Addr, ti: Addr, tt: Addr, idx: int, w: Key)
    requires Ok(t) && Ready(t, v, u, b, P, p, x, ti, tt) && x in t.inner && Topmost(t, x, idx) && idx <= b
    requires Fits(t, w) && Agree(t.off, t.klen, w, Suffix(v, t.off), b + 1)
    ensures var t' := Inserted(t, v, b, P, p, x, ti, tt);
      && tt in t'.node && !Topmost(t', x, idx) && Topmost(t', tt, idx)
      && Next(t', tt, w) == ti && Agree(t.off, t.klen, w, u, idx)
  {
    hide Ok, TestAt;
    OkTop(t);
    ReadyFacts(t, v, u, b, P, p, x, ti, tt);
    var s := Suffix(v, t.off);
    assert TestAt(t.off, t.klen, w, b) == TestAt(t.off, t.klen, s, b);
    forall c | 8 * t.off <= c < idx ensures TestAt(t.off, t.klen, w, c) == TestAt(t.off, t.klen, u, c) {
      assert TestAt(t.off, t.klen, w, c) == TestAt(t.off, t.klen, s, c);
    }
  }

  lemma SameBit(x: Byte, y: Byte, m: Byte, j: nat)
    requires (x ^ y) & m == 0 && ByteBit(m, j)
    ensures ByteBit(x, j) == ByteBit(y, j)
  {
  }

  /** Agreement under a contiguous mask is agreement on the bits before its index. */
  lemma CoversPrefix(t: Trie, v: Key, key: Key, m: Key, idx: int)
    requires t.off <= t.klen == |v| == |key| && IsMask(t.off, t.klen, m, idx)
    requires Covers(t.off, v, key, m)
    ensures Agree(t.off, t.klen, Suffix(v, t.off), Suffix(key, t.off), idx)
  {
    forall c | 8 * t.off <= c < idx
      ensures TestAt(t.off, t.klen, Suffix(v, t.off), c) == TestAt(t.off, t.klen, Suffix(key, t.off), c)
    {
      var i, j := c / 8, c % 8;
      MaskBitAt(t.off, t.klen, m, idx, i, j);
      SameBit(v[i], key[i], m[i], j);
      TestSuffix(v, t.off, c);
      TestSuffix(key, t.off, c);
    }
  }

  /** Cells on the way up are judged by one comparison: the route covers the destination just when its
      index does not exceed the first bit in which the destination and the leaf found differ. */
  lemma CellDecides(t: Trie, m: RMask, x: Addr, v: Key, u: Key, b: nat)
    requires Ok(t) && x in t.inner && CellOk(t, m, x) && t.off <= t.klen == |v|
    requires x in t.below && u in t.below[x] && FirstDiff(t, Suffix(v, t.off), u, b)
    ensures var n := t.node[m.leaf]; Covers(t.off, v, n.key, n.mask) <==> -1 - n.b <= b
  {
    hide Ok, Agree, Covers, IsMask, TestAt, CellOk;
    CellFacts(t, m, x);
    var n := t.node[m.leaf];
    var s, k := Suffix(v, t.off), Suffix(n.key, t.off);
    if -1 - n.b <= b {
      ListCovers(t, m, x, v, u, b);
    } else if Covers(t.off, v, n.key, n.mask) {
      CoversPrefix(t, v, n.key, n.mask, -1 - n.b);
      UnderAgree(t, x, u, k);
      AgreeOn(t, u, k, t.node[x].b, b);
      AgreeOn(t, s, k, -1 - n.b, b);
      assert false;
    }
  }

  lemma AgreeOn(t: Trie, s1: Key, s2: Key, c: int, b: int)
    requires Agree(t.off, t.klen, s1, s2, c) && 8 * t.off <= b < c
    ensures TestAt(t.off, t.klen, s1, b) == TestAt(t.off, t.klen, s2, b)
  {
  }

  lemma UnderAgree(t: Trie, x: Addr, u: Key, k: Key)
    requires Ok(t) && x in t.inner && x in t.below && u in t.below[x] && k in t.below[x]
    ensures x in t.node && Agree(t.off, t.klen, u, k, t.node[x].b)
  {
    assert InnerOk(t, x);
  }

  // ---------- The test nodes above a leaf ----------

  /** W are test nodes on the way from the leaf x up to rn. */
  ghost predicate Walked(t: Trie, u: Key, W: set<Addr>, rn: Addr, x: Addr) {
    && InTree(t, x) && W <= t.inner && rn in W && rn in t.node
    && forall a | a in W :: a in t.node && t.node[a].b >= t.node[rn].b && InTree(t, Next(t, a, u)) &&
                            Next(t, a, u) in W + {x} && t.below[x] <= t.below[Next(t, a, u)]
  }

  lemma WalkStart(t: Trie, u: Key, x: Addr)
    requires Ok(t) && Fits(t, u) && x in t.heads && x in t.below && t.below[x] == {u}
    ensures x in t.node && t.node[x].p in t.inner && Walked(t, u, {t.node[x].p}, t.node[x].p, x)
  {
    hide Ok;
    OkTop(t);
    OkHead(t, x);
    Climb(t, x);
    OnlyChild(t, t.node[x].p, x, u);
  }

  lemma WalkFacts(t: Trie, u: Key, W: set<Addr>, rn: Addr, x: Addr)
    requires Ok(t) && Fits(t, u) && Walked(t, u, W, rn, x) && t.below[x] == {u}
    ensures rn in t.inner && rn in t.node && rn in t.below && u in t.below[rn]
  {
    hide Ok, TestAt;
    NextBelow(t, rn, u);
  }

  /** The top of the trie tests the first bit of all. */
  lemma TopFirst(t: Trie, rn: Addr)
    requires Ok(t) && rn in t.inner && rn in t.node && t.node[rn].p == rn
    ensures rn == t.top && forall a | a in t.inner && a in t.node :: t.node[rn].b <= t.node[a].b
  {
    hide Ok;
    OkTop(t);
    OkInner(t, rn);
    if rn != t.top { Climb(t, rn); }
    forall a | a in t.inner && a in t.node ensures t.node[t.top].b <= t.node[a].b {
      OkInner(t, a);
    }
  }

  lemma WalkStep(t: Trie, u: Key, W: set<Addr>, rn: Addr, x: Addr)
    requires Ok(t) && Fits(t, u) && Walked(t, u, W, rn, x) && t.below[x] == {u} && rn != t.top
    ensures rn in t.below && u in t.below[rn]
    ensures var p := t.node[rn].p;
      p in t.inner && p in t.node && t.node[p].b < t.node[rn].b && Walked(t, u, W + {p}, p, x)
  {
    hide Ok, TestAt;
    OkTop(t);
    NextBelow(t, rn, u);
    Climb(t, rn);
    OnlyChild(t, t.node[rn].p, rn, u);
  }

  /** Every test node above the leaf that tests no earlier bit than rn was met on the way. */
  lemma {:induction false} WalkAll(t: Trie, u: Key, W: set<Addr>, rn: Addr, x: Addr, a: Addr)
    requires Ok(t) && Fits(t, u) && Walked(t, u, W, rn, x) && x in t.heads && t.below[x] == {u}
    requires a in t.inner && a in t.node && a in t.below && u in t.below[a] && t.node[rn].b <= t.node[a].b
    ensures a in W
    decreases t.node[rn].b + 0x8000
  {
    hide Ok, TestAt;
    OkTop(t);
    if rn == t.top {
      assert SearchPath(t, u, W, x);
      OnPath(t, u, W, x, a);
    } else {
      WalkStep(t, u, W, rn, x);
      NextBelow(t, t.node[rn].p, u);
      WalkAll(t, u, W + {t.node[rn].p}, t.node[rn].p, x, a);
    }
  }

  /** The search for s and the climb from the leaf it found meet the same test nodes. */
  lemma SameWay(t: Trie, s: Key, Q: set<Addr>, x: Addr, u: Key, a: Addr)
    requires Ok(t) && Fits(t, s) && Fits(t, u) && SearchPath(t, s, Q, x) && x in t.heads && t.below[x] == {u}
    ensures a in Q <==> a in t.inner && a in t.below && u in t.below[a]
  {
    hide Ok, TestAt;
    OkTop(t);
    forall q | q in Q ensures q in t.node && q in t.below && Next(t, q, u) == Next(t, q, s) && u in t.below[q] {
      NextBelow(t, q, s);
      OnlyChild(t, q, Next(t, q, s), u);
    }
    assert SearchPath(t, u, Q, x);
    if a in t.inner && a in t.below && u in t.below[a] {
      NextBelow(t, a, u);
      OnPath(t, u, Q, x, a);
    }
  }

  /** A destination that agrees with a key up to an index comes by the topmost test node above the key
      that tests no earlier bit than the index. */
  lemma {:induction false} Reached(t: Trie, s: Key, Q: set<Addr>, x0: Addr, x: Addr, k: Key, idx: int)
    requires Ok(t) && Fits(t, s) && Fits(t, k) && SearchPath(t, s, Q, x0) && x0 in t.heads
    requires x in t.inner && x in t.node && x in t.below && k in t.below[x]
    requires Agree(t.off, t.klen, s, k, idx) && Topmost(t, x, idx)
    ensures x in Q
    decreases t.node[x].b
  {
    hide Ok, TestAt, Agree;
    OkTop(t);
    NextBelow(t, x, k);
    if x != t.top {
      Climb(t, x);
      var p := t.node[x].p;
      NextBelow(t, p, k);
      if p != t.top { Climb(t, p); }
      Reached(t, s, Q, x0, p, k, idx);
      AgreeOn(t, s, k, idx, t.node[p].b);
      OnlyChild(t, p, x, k);
    }
  }

  lemma CellFacts(t: Trie, m: RMask, x: Addr)
    requires CellOk(t, m, x)
    ensures m.leaf in t.node && x in t.node && x in t.below && m.b == 0x1_0000 + t.node[m.leaf].b
    ensures t.off <= t.klen == |t.node[m.leaf].key| && Suffix(t.node[m.leaf].key, t.off) in t.below[x]
    ensures IsMask(t.off, t.klen, t.node[m.leaf].mask, -1 - t.node[m.leaf].b) && -1 - t.node[m.leaf].b <= t.node[x].b
  {
  }

  lemma CellLeafOk(t: Trie, m: RMask, x: Addr)
    requires CellOk(t, m, x)
    ensures LeafOk(t, m.leaf) && m.leaf in t.node && t.node[m.leaf].normal
  {
  }

  /** No route that is listed on the topmost test node for its mask is missed: if no cell on the way of
      the destination covers it, no such route does. */
  lemma ListedFound(b: Table, v: Key, Q: set<Addr>, x0: Addr, x: Addr, leaf: Addr)
    requires TableOk(b) && b.t.off <= b.t.klen == |v| && SearchPath(b.t, Suffix(v, b.t.off), Q, x0) && x0 in b.t.heads
    requires Listed(b, x, leaf) && (x in Q ==> NoAnswer(b, v, x))
    ensures !Covers(b.t.off, v, b.t.node[leaf].key, b.t.node[leaf].mask)
  {
    hide TableOk, Ok, Covers, IsMask, Agree, SearchPath, Topmost, CellOk, ListOk;
    TableParts(b);
    TableList(b, x);
    var n := b.t.node[leaf];
    if Covers(b.t.off, v, n.key, n.mask) {
      var i: nat :| i < |b.lists[x]| && b.lists[x][i] in b.rm && b.rm[b.lists[x][i]].leaf == leaf;
      ListCell(b, x, i);
      CellFacts(b.t, b.rm[b.lists[x][i]], x);
      CoversPrefix(b.t, v, n.key, n.mask, -1 - n.b);
      assert CellCovers(b, v, b.lists[x][i]);
      Reached(b.t, Suffix(v, b.t.off), Q, x0, x, Suffix(n.key, b.t.off), -1 - n.b);
      assert false;
    }
  }
}

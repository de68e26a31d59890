/** net/radix.c: how rn_match comes to miss a route that covers the destination. */
module RadixMiss {
  import opened RadixBits
  import opened RadixTrie
  import opened RadixRoutes
  import opened RadixUpdates
  import opened RadixClimb
  import opened RadixLists
  import opened Radix

  /** The keys under x do not all agree with s before x's bit. */
  ghost predicate Behind(t: Trie, x: Addr, s: Key) {
    x in t.node && x in t.below && exists k :: k in t.below[x] && !Agree(t.off, t.klen, s, k, t.node[x].b)
  }

  /** The leaf a is listed, and all its cells are on test nodes that the key s does not come below. */
  ghost predicate ListedBehind(b: Table, a: Addr, s: Key) {
    Held(b, a) && b.t.node[a].b < 0 && forall x | x in b.t.inner && HasCell(b, x, a) :: Behind(b.t, x, s)
  }

  /** No other key agrees with s on the bits before c. */
  ghost predicate Alone(t: Trie, s: Key, c: int) {
    t.top in t.below && forall k | k in t.below[t.top] :: k == s || !Agree(t.off, t.klen, s, k, c)
  }

  /** Every node on the way of a search for w holds s, if w agrees with s where no other key does. */
  lemma {:induction false} WayHolds(t: Trie, s: Key, w: Key, Q: set<Addr>, x: Addr, u: Key, c: int, a: Addr)
    requires Ok(t) && Fits(t, s) && Fits(t, w) && Fits(t, u) && SearchPath(t, w, Q, x) && x in t.heads && t.below[x] == {u}
    requires Alone(t, s, c) && s in t.below[t.top] && Agree(t.off, t.klen, w, s, c)
    requires InTree(t, a) && u in t.below[a] && u != s
    ensures s in t.below[a]
    decreases a in t.heads, if a in t.node then t.node[a].b + 0x8000 else 0
  {
    hide Ok, TestAt, Agree;
    OkTop(t);
    if a != t.top {
      RadixTrie.Climb(t, a);
      var p := t.node[a].p;
      AtWay(t, w, Q, x, u, a);
      NextBelow(t, p, w);
      InnerTree(t, p);
      WayHolds(t, s, w, Q, x, u, c, p);
      UnderTop(t, p);
      if c <= t.node[p].b { AgreeBefore(t, p, s, u, c); }
      AgreeTest(t, w, s, c, t.node[p].b);
    }
  }

  lemma InnerTree(t: Trie, p: Addr)
    requires Ok(t) && p in t.inner
    ensures InTree(t, p) && p !in t.heads && t.node[p].b >= 8 * t.off
  {
    OkInner(t, p);
  }

  /** The search goes from the parent of a, which holds the key of the leaf found, to a. */
  lemma AtWay(t: Trie, w: Key, Q: set<Addr>, x: Addr, u: Key, a: Addr)
    requires Ok(t) && Fits(t, w) && Fits(t, u) && SearchPath(t, w, Q, x) && x in t.heads && t.below[x] == {u}
    requires InTree(t, a) && u in t.below[a] && a != t.top
    ensures t.node[a].p in t.node && a == Next(t, t.node[a].p, w)
  {
    hide Ok, TestAt;
    RadixTrie.Climb(t, a);
    var p := t.node[a].p;
    SameWay(t, w, Q, x, u, p);
    NextBelow(t, p, w);
    OnlyChild(t, p, a, u);
    OnlyChild(t, p, Next(t, p, w), u);
  }

  lemma {:induction false} UnderTop(t: Trie, a: Addr)
    requires Ok(t) && InTree(t, a)
    ensures t.top in t.below && t.below[a] <= t.below[t.top]
    decreases a in t.heads, if a in t.node then t.node[a].b + 0x8000 else 0
  {
    hide Ok;
    OkTop(t);
    OkDomain(t);
    if a != t.top {
      RadixTrie.Climb(t, a);
      InnerTree(t, t.node[a].p);
      UnderTop(t, t.node[a].p);
    }
  }

  lemma AgreeBefore(t: Trie, x: Addr, s: Key, u: Key, c: int)
    requires Ok(t) && x in t.inner && x in t.below && s in t.below[x] && u in t.below[x] && x in t.node && c <= t.node[x].b
    ensures Agree(t.off, t.klen, s, u, c)
  {
    hide Ok, TestAt;
    OkInner(t, x);
    assert Agree(t.off, t.klen, s, u, t.node[x].b);
  }

  lemma AgreeTest(t: Trie, w: Key, s: Key, c: int, b: int)
    requires Agree(t.off, t.klen, w, s, c) && 8 * t.off <= b
    ensures b < c ==> TestAt(t.off, t.klen, w, b) == TestAt(t.off, t.klen, s, b)
  {
  }

  /** A search for w ends at the leaf of s, if w agrees with s where no other key does. */
  lemma FoundKey(t: Trie, s: Key, w: Key, Q: set<Addr>, x: Addr, u: Key, c: int)
    requires Ok(t) && Fits(t, s) && Fits(t, w) && Fits(t, u) && SearchPath(t, w, Q, x) && x in t.heads && t.below[x] == {u}
    requires Alone(t, s, c) && s in t.below[t.top] && Agree(t.off, t.klen, w, s, c)
    ensures u == s
  {
    hide Ok, TestAt, Agree;
    if u != s { WayHolds(t, s, w, Q, x, u, c, x); }
  }

  /** After another key was added, no test node that holds it has a cell of the leaf a. */
  lemma StaysBehind(b: Table, b': Table, a: Addr, s: Key, x: Addr)
    requires ListedBehind(b, a, s) && CellsStay(b, b') && Grows(b.t, b'.t) && Ok(b'.t)
    requires x in b'.t.inner && x in b'.t.below && s in b'.t.below[x]
    ensures !HasCell(b', x, a)
  {
    hide Ok, TestAt, HasCell, Agree;
    if HasCell(b', x, a) {
      assert Behind(b.t, x, s);
      var k :| k in b.t.below[x] && !Agree(b.t.off, b.t.klen, s, k, b.t.node[x].b);
      AgreeBefore(b'.t, x, s, k, b.t.node[x].b);
    }
  }

  /** Add a route to a new key v, then look w up, which agrees with v where no other key does.  The
      route of the leaf a covers w, and its cells are on test nodes that test bits after the first one in
      which v differs from their keys: rn_match no longer comes by them, and does not answer with a. */
  method AddThenMatch(h: Head, v: Key, netmask: Key, idx: int, ti: Addr, tt: Addr, w: Key, ghost a: Addr, ghost c: int)
    returns (r: Addr)
    requires TableOk(h.B()) && 0 < h.off <= h.klen == |v| == |w| && v[0] as nat == w[0] as nat == h.klen
    requires netmask == [] || IsMask(h.off, h.klen, netmask, idx)
    requires ti != tt && ti != NULL && tt != NULL && ti !in h.node && tt !in h.node
    requires Suffix(v, h.off) !in h.chain && Alone(h.T(), Suffix(v, h.off), c)
    requires Agree(h.off, h.klen, Suffix(w, h.off), Suffix(v, h.off), c)
    requires ListedBehind(h.B(), a, Suffix(v, h.off)) && Covers(h.off, w, h.node[a].key, h.node[a].mask)
    modifies h
    ensures TableOk(h.B()) && a in h.node && Covers(h.off, w, h.node[a].key, h.node[a].mask)
    ensures r != a && (r == NULL || (r in h.node && (h.node[r].root || Within(h.off, w, h.node[r]))))
  {
    hide TableOk, Ok, LeafOk, IsMask, Agree, Alone, ListedBehind, Covers, SiblingsListed, Listed, ListsGrow, CellsStay, Unmasked, Within;
    hide NoAnswer, TestAt, Grows, Keys, FoundBy, FirstAnswer, Direct;
    ghost var b0, s := h.B(), Suffix(v, h.off);
    var t, up, x := h.AddRoute(v, netmask, idx, ti, tt);
    OldLeaf(b0, h.B(), a, s);
    OwnChain(b0, s, ti, h.chain);
    ghost var leaf, at;
    r, leaf, at := h.Match(w);
    NewLeafFound(b0, h.B(), s, w, ti, leaf, c);
    if r == a && r != leaf {
      TableParts(h.B());
      AnswerHasCell(h.B(), w, at, r);
      StaysBehind(b0, h.B(), a, s, at);
      assert false;
    }
  }

  lemma OldLeaf(b: Table, b': Table, a: Addr, s: Key)
    requires TableOk(b) && ListedBehind(b, a, s) && Grows(b.t, b'.t)
    ensures a in b.t.node && a in b'.t.node && b'.t.node[a].key == b.t.node[a].key && b'.t.node[a].mask == b.t.node[a].mask
    ensures a != NULL && b'.t.off == b.t.off && b'.t.klen == b.t.klen
  {
    hide TableOk, Ok;
    TableParts(b);
    OkTop(b.t);
  }

  lemma OwnChain(b: Table, s: Key, ti: Addr, chain: map<Key, seq<Addr>>)
    requires s !in b.chain && ChainLinked(b, s, ti, chain)
    ensures s in chain && chain[s] == [ti]
  {
  }

  lemma AnswerHasCell(b: Table, v: Key, x: Addr, r: Addr)
    requires FirstAnswer(b, v, x, r)
    ensures HasCell(b, x, r)
  {
    hide Covers;
  }

  lemma NewLeafFound(b: Table, b': Table, s: Key, w: Key, ti: Addr, leaf: Addr, c: int)
    requires TableOk(b) && TableOk(b') && b'.t.off == b.t.off <= b'.t.klen == b.t.klen == |w| && |s| == b.t.klen - b.t.off
    requires b.t.top in b.t.below && b'.t.top in b'.t.below && Keys(b'.t) == Keys(b.t) + {s}
    requires Alone(b.t, s, c) && Agree(b.t.off, b.t.klen, Suffix(w, b.t.off), s, c) && leaf in b'.t.heads
    requires FoundBy(b'.t, Suffix(w, b.t.off), leaf) && s in b'.chain && b'.chain[s] == [ti]
    ensures leaf == ti && leaf in b'.t.node && b'.t.off <= |b'.t.node[leaf].key| && Suffix(b'.t.node[leaf].key, b'.t.off) == s
  {
    hide TableOk, Ok, LeafOk, TestAt, Agree, SearchPath;
    TableParts(b');
    HeadChain(b', leaf);
    var Q :| SearchPath(b'.t, Suffix(w, b.t.off), Q, leaf);
    FoundKey(b'.t, s, Suffix(w, b.t.off), Q, leaf, Suffix(b'.t.node[leaf].key, b'.t.off), c);
  }
}

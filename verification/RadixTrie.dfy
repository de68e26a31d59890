/** The Patricia trie underneath net/radix.c as a value: the node records of memory, and the sets
    that say what they mean.  A key takes part in comparisons from byte `off` on; `Suffix` cuts the
    skipped bytes off. */
module RadixTrie {
  import opened RadixBits

  type Addr = int
  const NULL: Addr := 0

  /** struct radix_node.  A negative b marks a leaf; an absent mask is the empty string. */
  datatype Node = Node(b: int, off: nat, bmask: Byte, root: bool, normal: bool, l: Addr, r: Addr, p: Addr,
                       key: Key, mask: Key, dupedkey: Addr, masklist: Addr)

  /** `inner` are the test nodes, `heads` the leaves that hang in the tree (further leaves with the
      same key are chained behind them), and below[x] the keys under x. */
  datatype Trie = Trie(off: nat, klen: nat, top: Addr, node: map<Addr, Node>,
                       inner: set<Addr>, heads: set<Addr>, below: map<Addr, set<Key>>)

  function Suffix(k: Key, off: nat): Key
    requires off <= |k|
  {
    k[off..]
  }

  /** Bit b, counted from the start of the whole key, of a key given by its suffix. */
  ghost predicate Test(off: nat, s: Key, b: int)
    requires 8 * off <= b < 8 * (off + |s|)
  {
    Bit(s, b - 8 * off)
  }

  lemma TestSuffix(k: Key, off: nat, b: nat)
    requires off <= |k| && 8 * off <= b < 8 * |k|
    ensures Test(off, Suffix(k, off), b) == Bit(k, b)
  {
    assert (b - 8 * off) / 8 == b / 8 - off && (b - 8 * off) % 8 == b % 8;
  }

  ghost predicate TestAt(off: nat, klen: nat, s: Key, b: int) {
    off <= klen && |s| == klen - off && 8 * off <= b < 8 * klen && Test(off, s, b)
  }

  /** The two keys agree on all bits before b. */
  ghost predicate Agree(off: nat, klen: nat, s1: Key, s2: Key, b: int) {
    forall i | 8 * off <= i < b :: TestAt(off, klen, s1, i) == TestAt(off, klen, s2, i)
  }

  ghost predicate AllAgree(off: nat, klen: nat, S: set<Key>, b: int) {
    forall s1, s2 | s1 in S && s2 in S :: Agree(off, klen, s1, s2, b)
  }

  ghost predicate AllTest(off: nat, klen: nat, S: set<Key>, b: int, bit: bool) {
    forall s | s in S :: |s| == klen - off && TestAt(off, klen, s, b) == bit
  }

  ghost predicate Fits(t: Trie, s: Key) {
    |s| == t.klen - t.off
  }

  ghost predicate InTree(t: Trie, x: Addr) {
    x in t.node && x in t.below && (x in t.inner || x in t.heads)
  }

  /** c is a proper child of x. */
  ghost predicate ChildOk(t: Trie, x: Addr, c: Addr)
    requires x in t.node
  {
    InTree(t, c) && t.node[c].p == x && (c in t.inner ==> t.node[x].b < t.node[c].b)
  }

  /** All keys under a test node agree before its bit b, and b splits them between its children. */
  ghost predicate Splits(off: nat, klen: nat, S: set<Key>, L: set<Key>, R: set<Key>, b: int) {
    && S == L + R
    && AllTest(off, klen, L, b, false) && AllTest(off, klen, R, b, true)
    && AllAgree(off, klen, S, b)
  }

  ghost predicate InnerOk(t: Trie, x: Addr) {
    && x in t.node && x in t.below
    && var n := t.node[x];
    && 8 * t.off <= n.b < 8 * t.klen && n.off == n.b / 8 && n.bmask == BitMask(n.b % 8)
    && n.l != n.r && ChildOk(t, x, n.l) && ChildOk(t, x, n.r)
    && Splits(t.off, t.klen, t.below[x], t.below[n.l], t.below[n.r], n.b)
  }

  ghost predicate HeadOk(t: Trie, x: Addr) {
    && x in t.node && x in t.below
    && -0x8000 <= t.node[x].b < 0 && |t.node[x].key| == t.klen && t.off <= t.klen
    && t.below[x] == {Suffix(t.node[x].key, t.off)}
  }

  ghost predicate ParentOk(t: Trie, x: Addr) {
    x in t.node && t.node[x].p in t.inner && t.node[x].p in t.node &&
    (t.node[t.node[x].p].l == x || t.node[t.node[x].p].r == x)
  }

  /** Keys have at most MAX_KEY bytes: rn_match keeps a bit index in an unsigned char. */
  const MAX_KEY: nat := 32

  ghost predicate Ok(t: Trie) {
    && t.off < t.klen <= MAX_KEY
    && t.inner !! t.heads && NULL !in t.node
    && t.top in t.inner && t.top in t.node && t.node[t.top].b == 8 * t.off && t.node[t.top].p == t.top
    && (forall x | x in t.inner :: InnerOk(t, x))
    && (forall x | x in t.heads :: HeadOk(t, x))
    && (forall x | (x in t.inner || x in t.heads) && x != t.top :: ParentOk(t, x))
  }

  ghost function Keys(t: Trie): set<Key>
    requires t.top in t.below
  {
    t.below[t.top]
  }

  /** Where a search for s goes from the test node x. */
  ghost function Next(t: Trie, x: Addr, s: Key): Addr
    requires x in t.node
  {
    if TestAt(t.off, t.klen, s, t.node[x].b) then t.node[x].r else t.node[x].l
  }

  // ---------- Search ----------

  /** Q are the test nodes a search for s went through before it ended at x. */
  ghost predicate SearchPath(t: Trie, s: Key, Q: set<Addr>, x: Addr) {
    && InTree(t, x)
    && Q <= t.inner && (t.top in Q || x == t.top)
    && forall a | a in Q :: a in t.node && InTree(t, Next(t, a, s)) && Next(t, a, s) in Q + {x} &&
                            t.below[x] <= t.below[Next(t, a, s)]
  }

  /** A search for s ends at x. */
  ghost predicate FoundBy(t: Trie, s: Key, x: Addr) {
    exists Q :: SearchPath(t, s, Q, x)
  }

  lemma NextBelow(t: Trie, x: Addr, s: Key)
    requires Ok(t) && x in t.inner && Fits(t, s)
    ensures x in t.node && x in t.below && InTree(t, Next(t, x, s))
    ensures t.below[Next(t, x, s)] <= t.below[x]
    ensures s in t.below[x] ==> s in t.below[Next(t, x, s)]
    ensures forall u | u in t.below[x] :: u in t.below[Next(t, x, s)] <==> TestAt(t.off, t.klen, u, t.node[x].b) == TestAt(t.off, t.klen, s, t.node[x].b)
    ensures Next(t, x, s) in t.inner ==> t.node[x].b < t.node[Next(t, x, s)].b
    ensures t.node[Next(t, x, s)].p == x
    ensures 8 * t.off <= t.node[x].b < 8 * t.klen
  {
    assert InnerOk(t, x);
  }

  lemma SearchStep(t: Trie, s: Key, Q: set<Addr>, x: Addr)
    requires Ok(t) && Fits(t, s) && SearchPath(t, s, Q, x) && x in t.inner
    ensures x in t.node && SearchPath(t, s, Q + {x}, Next(t, x, s))
  {
    hide Ok;
    NextBelow(t, x, s);
  }

  // ---------- Insertion ----------

  /** The place of a new key s whose first difference from the found key u is bit b: P are the test
      nodes before b on the search path, p the last of them, and x the node behind p. */
  ghost predicate Place(t: Trie, s: Key, u: Key, b: int, Q: set<Addr>, found: Addr, P: set<Addr>, p: Addr, x: Addr) {
    && P <= Q && t.top in P && p in P && x !in P && x in Q + {found}
    && InTree(t, x) && p in t.node && Next(t, p, s) == x && t.node[x].p == p
    && u in t.below[x]
    && (forall a | a in P :: a in t.node && a in t.below && t.node[a].b < b && u in t.below[a] && Next(t, a, s) in P + {x})
    && (forall a | a in P && a != t.top :: a in t.node && t.node[a].p in P)
  }

  /** s and u differ at b for the first time. */
  ghost predicate FirstDiff(t: Trie, s: Key, u: Key, b: int) {
    && Fits(t, s) && Fits(t, u) && 8 * t.off <= b < 8 * t.klen
    && Agree(t.off, t.klen, s, u, b) && TestAt(t.off, t.klen, s, b) != TestAt(t.off, t.klen, u, b)
  }

  lemma PlaceStart(t: Trie, s: Key, u: Key, b: int, Q: set<Addr>, found: Addr)
    requires Ok(t) && SearchPath(t, s, Q, found) && found in t.heads && t.below[found] == {u} && FirstDiff(t, s, u, b)
    ensures t.top in t.node && Place(t, s, u, b, Q, found, {t.top}, t.top, Next(t, t.top, s))
  {
    hide Ok, Agree;
    OkTop(t);
    NextBelow(t, t.top, s);
    assert t.top in Q;
  }

  lemma PlaceStep(t: Trie, s: Key, u: Key, b: int, Q: set<Addr>, found: Addr, P: set<Addr>, p: Addr, x: Addr)
    requires Ok(t) && SearchPath(t, s, Q, found) && found in t.heads && t.below[found] == {u} && FirstDiff(t, s, u, b)
    requires Place(t, s, u, b, Q, found, P, p, x) && x in t.inner && t.node[x].b < b
    ensures Place(t, s, u, b, Q, found, P + {x}, x, Next(t, x, s))
  {
    hide Ok;
    OkTop(t);
    NextBelow(t, x, s);
  }

  lemma OkTop(t: Trie)
    requires Ok(t)
    ensures t.top in t.inner && t.top in t.node && t.node[t.top].p == t.top && t.node[t.top].b == 8 * t.off
    ensures t.inner !! t.heads && t.off < t.klen <= MAX_KEY && NULL !in t.node
  {
  }

  /** Where the descent stops, a test node tests a bit behind b. */
  lemma PlaceEnd(t: Trie, s: Key, u: Key, b: int, Q: set<Addr>, found: Addr, P: set<Addr>, p: Addr, x: Addr)
    requires Ok(t) && SearchPath(t, s, Q, found) && found in t.heads && t.below[found] == {u} && FirstDiff(t, s, u, b)
    requires Place(t, s, u, b, Q, found, P, p, x) && x in t.inner && b <= t.node[x].b
    ensures b < t.node[x].b
  {
    hide Ok, Agree, TestAt;
    OkTop(t);
    NextBelow(t, x, s);
    assert u in t.below[Next(t, x, s)];
  }

  function LeafNode(key: Key, parent: Addr): Node {
    Node(-1, 0, 0, false, false, NULL, NULL, parent, key, [], NULL, NULL)
  }

  function InnerNode(b: nat, l: Addr, r: Addr, parent: Addr): Node {
    Node(b, b / 8, BitMask(b % 8), false, false, l, r, parent, [], [], NULL, NULL)
  }

  /** The node records after key v has been linked in with the leaf ti and the test node tt. */
  ghost function InsertedNodes(t: Trie, v: Key, b: nat, p: Addr, x: Addr, ti: Addr, tt: Addr): map<Addr, Node>
    requires p in t.node && x in t.node && t.off <= |v|
  {
    var s := Suffix(v, t.off);
    var pn := t.node[p];
    var pn' := if TestAt(t.off, t.klen, s, pn.b) then pn.(r := tt) else pn.(l := tt);
    var tn := if TestAt(t.off, t.klen, s, b) then InnerNode(b, x, ti, p) else InnerNode(b, ti, x, p);
    t.node[ti := LeafNode(v, tt)][tt := tn][p := pn'][x := t.node[x].(p := tt)]
  }

  /** The new key is below the test nodes on its path, the new test node and the new leaf. */
  ghost function InsertedBelow(t: Trie, v: Key, P: set<Addr>, x: Addr, ti: Addr, tt: Addr): map<Addr, set<Key>>
    requires x in t.below && t.off <= |v|
  {
    var s := Suffix(v, t.off);
    (map a | a in t.below :: if a in P then t.below[a] + {s} else t.below[a])[tt := t.below[x] + {s}][ti := {s}]
  }

  ghost function Inserted(t: Trie, v: Key, b: nat, P: set<Addr>, p: Addr, x: Addr, ti: Addr, tt: Addr): Trie
    requires p in t.node && x in t.node && x in t.below && t.off <= |v|
  {
    t.(node := InsertedNodes(t, v, b, p, x, ti, tt),
       inner := t.inner + {tt}, heads := t.heads + {ti},
       below := InsertedBelow(t, v, P, x, ti, tt))
  }

  /** The facts about the place of insertion that the lemmas below share. */
  ghost predicate Ready(t: Trie, v: Key, u: Key, b: nat, P: set<Addr>, p: Addr, x: Addr, ti: Addr, tt: Addr) {
    && t.off <= t.klen == |v|
    && FirstDiff(t, Suffix(v, t.off), u, b)
    && P <= t.inner && t.top in P && p in P && x !in P && x != p && p in t.inner
    && InTree(t, x) && p in t.node && Next(t, p, Suffix(v, t.off)) == x && t.node[x].p == p
    && u in t.below[x] && (x in t.inner ==> b < t.node[x].b)
    && (forall a | a in P :: a in t.node && a in t.below && t.node[a].b < b && u in t.below[a] && Next(t, a, Suffix(v, t.off)) in P + {x})
    && (forall a | a in P && a != t.top :: a in t.node && t.node[a].p in P)
    && ti != tt && ti != NULL && tt != NULL && ti !in t.node && tt !in t.node
  }

  lemma ReadyFacts(t: Trie, v: Key, u: Key, b: nat, P: set<Addr>, p: Addr, x: Addr, ti: Addr, tt: Addr)
    requires Ready(t, v, u, b, P, p, x, ti, tt)
    ensures p in t.inner && p in t.node && x in t.node && x in t.below && 8 * t.off <= b < 8 * t.klen
    ensures p != x && p != ti && p != tt && x != ti && x != tt
  {
  }

  /** Test nodes off the path keep their children and their keys. */
  lemma KeepOffPath(t: Trie, v: Key, u: Key, b: nat, P: set<Addr>, p: Addr, x: Addr, ti: Addr, tt: Addr, a: Addr)
    requires Ok(t) && Ready(t, v, u, b, P, p, x, ti, tt) && a in t.inner && a !in P
    ensures InnerOk(Inserted(t, v, b, P, p, x, ti, tt), a)
  {
    hide Ok, Splits, FirstDiff, TestAt;
    var t' := Inserted(t, v, b, P, p, x, ti, tt);
    OkTop(t);
    OkInner(t, a);
    var n := t.node[a];
    ChildrenAway(t, v, u, b, P, p, x, ti, tt, a);
    assert t'.node[a] == n.(p := t'.node[a].p);
    assert t'.node[n.l] == t.node[n.l] && t'.node[n.r] == t.node[n.r];
    assert t'.below[a] == t.below[a] && t'.below[n.l] == t.below[n.l] && t'.below[n.r] == t.below[n.r];
  }

  /** The children of a test node off the path are off it too. */
  lemma ChildrenAway(t: Trie, v: Key, u: Key, b: nat, P: set<Addr>, p: Addr, x: Addr, ti: Addr, tt: Addr, a: Addr)
    requires Ok(t) && Ready(t, v, u, b, P, p, x, ti, tt) && a in t.inner && a !in P
    ensures a in t.node && t.node[a].l in t.node && t.node[a].r in t.node
    ensures forall c | c == t.node[a].l || c == t.node[a].r :: c !in P && c != x && c != ti && c != tt && c != p
    ensures a != p && a != ti && a != tt
  {
    hide Ok, Splits, FirstDiff, TestAt;
    OkTop(t);
    OkInner(t, a);
  }

  lemma AgreeExtend(off: nat, klen: nat, S: set<Key>, s: Key, u: Key, b: nat, c: nat)
    requires AllAgree(off, klen, S, c) && u in S && Agree(off, klen, s, u, b) && c <= b
    ensures AllAgree(off, klen, S + {s}, c)
  {
    forall s1, s2 | s1 in S + {s} && s2 in S + {s} ensures Agree(off, klen, s1, s2, c) {
      assert s1 in S ==> Agree(off, klen, s1, u, c);
      assert s2 in S ==> Agree(off, klen, u, s2, c);
    }
  }

  lemma SplitsExtend(off: nat, klen: nat, S: set<Key>, L: set<Key>, R: set<Key>, c: nat, s: Key)
    requires Splits(off, klen, S, L, R, c) && AllAgree(off, klen, S + {s}, c) && off <= klen && |s| == klen - off
    ensures if TestAt(off, klen, s, c) then Splits(off, klen, S + {s}, L, R + {s}, c) else Splits(off, klen, S + {s}, L + {s}, R, c)
  {
  }

  /** Of the two children of a test node on the path, the one the search takes is on the path or is
      x, and the other one is neither. */
  lemma PathChildren(t: Trie, v: Key, u: Key, b: nat, P: set<Addr>, p: Addr, x: Addr, ti: Addr, tt: Addr, a: Addr)
    requires Ok(t) && Ready(t, v, u, b, P, p, x, ti, tt) && a in P
    ensures a in t.node && t.node[a].l in t.node && t.node[a].r in t.node
    ensures var s := Suffix(v, t.off); var n := t.node[a];
      var (c, o) := if TestAt(t.off, t.klen, s, n.b) then (n.r, n.l) else (n.l, n.r);
      && o !in P && o != x && (c in P <==> c != x) && (c == x <==> a == p)
  {
    OkTop(t);
    assert InnerOk(t, a);
    var s := Suffix(v, t.off);
    var n := t.node[a];
    NextBelow(t, a, s);
    assert TestAt(t.off, t.klen, s, n.b) == TestAt(t.off, t.klen, u, n.b);
  }

  /** Test nodes on the path get the new key on the side the search takes. */
  lemma ExtendOnPath(t: Trie, v: Key, u: Key, b: nat, P: set<Addr>, p: Addr, x: Addr, ti: Addr, tt: Addr, a: Addr)
    requires Ok(t) && Ready(t, v, u, b, P, p, x, ti, tt) && a in P
    ensures InnerOk(Inserted(t, v, b, P, p, x, ti, tt), a)
  {
    hide *;
    if a == p {
      ExtendAtPlace(t, v, u, b, P, p, x, ti, tt);
    } else {
      ExtendAbove(t, v, u, b, P, p, x, ti, tt, a);
    }
  }

  lemma ExtendAtPlace(t: Trie, v: Key, u: Key, b: nat, P: set<Addr>, p: Addr, x: Addr, ti: Addr, tt: Addr)
    requires Ok(t) && Ready(t, v, u, b, P, p, x, ti, tt)
    ensures InnerOk(Inserted(t, v, b, P, p, x, ti, tt), p)
  {
    hide Ok, Splits, Agree, AllAgree, TestAt, FirstDiff;
    OkTop(t);
    OkInner(t, p);
    var n := t.node[p];
    PathChildren(t, v, u, b, P, p, x, ti, tt, p);
    PathSplits(t, v, u, b, P, p, x, ti, tt, p);
    SplitsExtend(t.off, t.klen, t.below[p], t.below[n.l], t.below[n.r], n.b, Suffix(v, t.off));
  }

  lemma ExtendAbove(t: Trie, v: Key, u: Key, b: nat, P: set<Addr>, p: Addr, x: Addr, ti: Addr, tt: Addr, a: Addr)
    requires Ok(t) && Ready(t, v, u, b, P, p, x, ti, tt) && a in P && a != p
    ensures InnerOk(Inserted(t, v, b, P, p, x, ti, tt), a)
  {
    hide Ok, Splits, Agree, AllAgree, TestAt, FirstDiff;
    OkTop(t);
    OkInner(t, a);
    var n := t.node[a];
    PathChildren(t, v, u, b, P, p, x, ti, tt, a);
    PathSplits(t, v, u, b, P, p, x, ti, tt, a);
    SplitsExtend(t.off, t.klen, t.below[a], t.below[n.l], t.below[n.r], n.b, Suffix(v, t.off));
  }

  lemma OkInner(t: Trie, a: Addr)
    requires Ok(t) && a in t.inner
    ensures InnerOk(t, a)
  {
  }

  lemma PathSplits(t: Trie, v: Key, u: Key, b: nat, P: set<Addr>, p: Addr, x: Addr, ti: Addr, tt: Addr, a: Addr)
    requires Ok(t) && Ready(t, v, u, b, P, p, x, ti, tt) && a in P
    ensures a in t.node && a in t.below && t.node[a].b >= 0
    ensures AllAgree(t.off, t.klen, t.below[a] + {Suffix(v, t.off)}, t.node[a].b)
  {
    hide Ok, TestAt, Agree;
    OkInner(t, a);
    AgreeExtend(t.off, t.klen, t.below[a], Suffix(v, t.off), u, b, t.node[a].b);
  }

  /** The new test node splits the keys under x from the new key. */
  lemma NewInner(t: Trie, v: Key, u: Key, b: nat, P: set<Addr>, p: Addr, x: Addr, ti: Addr, tt: Addr)
    requires Ok(t) && Ready(t, v, u, b, P, p, x, ti, tt)
    ensures InnerOk(Inserted(t, v, b, P, p, x, ti, tt), tt)
  {
    hide Ok, Agree, TestAt, Splits;
    var s := Suffix(v, t.off);
    OkTop(t);
    OkDomain(t);
    UnderX(t, s, u, b, x);
    AgreeExtend(t.off, t.klen, t.below[x], s, u, b, b);
    NewSplits(t.off, t.klen, t.below[x], s, u, b);
    var t' := Inserted(t, v, b, P, p, x, ti, tt);
    assert x !in P && x != ti && x != tt && x != p;
    assert t'.below[x] == t.below[x] && t'.below[ti] == {s} && t'.below[tt] == t.below[x] + {s};
    assert ChildOk(t', tt, x) && ChildOk(t', tt, ti);
    assert 8 * t.off <= b < 8 * t.klen;
    assert t'.node[tt].off == b / 8;
  }

  /** All keys under x agree with u up to b, and on b itself. */
  lemma UnderX(t: Trie, s: Key, u: Key, b: nat, x: Addr)
    requires Ok(t) && InTree(t, x) && FirstDiff(t, s, u, b) && u in t.below[x] && (x in t.inner ==> b < t.node[x].b)
    ensures AllAgree(t.off, t.klen, t.below[x], b)
    ensures AllTest(t.off, t.klen, t.below[x], b, TestAt(t.off, t.klen, u, b))
  {
    if x in t.inner {
      assert InnerOk(t, x);
      forall w | w in t.below[x] ensures TestAt(t.off, t.klen, w, b) == TestAt(t.off, t.klen, u, b) && |w| == t.klen - t.off {
        assert Agree(t.off, t.klen, w, u, t.node[x].b);
      }
      forall w1, w2 | w1 in t.below[x] && w2 in t.below[x] ensures Agree(t.off, t.klen, w1, w2, b) {
        assert Agree(t.off, t.klen, w1, w2, t.node[x].b);
      }
    } else {
      assert HeadOk(t, x);
    }
  }

  lemma NewSplits(off: nat, klen: nat, S: set<Key>, s: Key, u: Key, b: nat)
    requires AllTest(off, klen, S, b, TestAt(off, klen, u, b)) && AllAgree(off, klen, S + {s}, b)
    requires TestAt(off, klen, s, b) != TestAt(off, klen, u, b) && off <= klen && |s| == klen - off
    ensures if TestAt(off, klen, s, b) then Splits(off, klen, S + {s}, S, {s}, b) else Splits(off, klen, S + {s}, {s}, S, b)
  {
    assert S + {s} == {s} + S;
  }

  lemma HeadsKept(t: Trie, v: Key, u: Key, b: nat, P: set<Addr>, p: Addr, x: Addr, ti: Addr, tt: Addr, a: Addr)
    requires Ok(t) && Ready(t, v, u, b, P, p, x, ti, tt) && (a in t.heads || a == ti)
    ensures HeadOk(Inserted(t, v, b, P, p, x, ti, tt), a)
  {
    hide Ok, FirstDiff, TestAt;
    OkTop(t);
    assert a !in P;
    if a in t.heads { OkHead(t, a); }
  }

  lemma ParentsKept(t: Trie, v: Key, u: Key, b: nat, P: set<Addr>, p: Addr, x: Addr, ti: Addr, tt: Addr, a: Addr)
    requires Ok(t) && Ready(t, v, u, b, P, p, x, ti, tt)
    requires (a in t.inner || a in t.heads || a == ti || a == tt) && a != t.top
    ensures ParentOk(Inserted(t, v, b, P, p, x, ti, tt), a)
  {
    hide Ok, FirstDiff, TestAt;
    OkTop(t);
    if a != ti && a != tt && a != x {
      OkParent(t, a);
    }
  }

  lemma OkParent(t: Trie, a: Addr)
    requires Ok(t) && (a in t.inner || a in t.heads) && a != t.top
    ensures ParentOk(t, a)
  {
  }

  lemma OkHead(t: Trie, a: Addr)
    requires Ok(t) && a in t.heads
    ensures HeadOk(t, a)
  {
  }

  /** rn_insert keeps the Patricia invariant and adds exactly the new key. */
  lemma InsertOk(t: Trie, v: Key, u: Key, b: nat, P: set<Addr>, p: Addr, x: Addr, ti: Addr, tt: Addr)
    requires Ok(t) && Ready(t, v, u, b, P, p, x, ti, tt)
    ensures var t' := Inserted(t, v, b, P, p, x, ti, tt);
      t.top in t.below && t.top in t'.below && Ok(t') && Keys(t') == Keys(t) + {Suffix(v, t.off)}
  {
    hide InnerOk, HeadOk, ParentOk, FirstDiff;
    var t' := Inserted(t, v, b, P, p, x, ti, tt);
    InsertTop(t, v, u, b, P, p, x, ti, tt);
    forall a | a in t'.inner ensures InnerOk(t', a) {
      hide *;
      if a == tt {
        NewInner(t, v, u, b, P, p, x, ti, tt);
      } else if a in P {
        ExtendOnPath(t, v, u, b, P, p, x, ti, tt, a);
      } else {
        KeepOffPath(t, v, u, b, P, p, x, ti, tt, a);
      }
    }
    forall a | a in t'.heads ensures HeadOk(t', a) {
      hide *;
      HeadsKept(t, v, u, b, P, p, x, ti, tt, a);
    }
    forall a | (a in t'.inner || a in t'.heads) && a != t.top ensures ParentOk(t', a) {
      hide *;
      ParentsKept(t, v, u, b, P, p, x, ti, tt, a);
    }
  }

  lemma InsertTop(t: Trie, v: Key, u: Key, b: nat, P: set<Addr>, p: Addr, x: Addr, ti: Addr, tt: Addr)
    requires Ok(t) && Ready(t, v, u, b, P, p, x, ti, tt)
    ensures var t' := Inserted(t, v, b, P, p, x, ti, tt);
      t.top in t.below && t.top in t'.below && Keys(t') == Keys(t) + {Suffix(v, t.off)} &&
      t'.inner !! t'.heads && NULL !in t'.node &&
      t'.top in t'.inner && t'.top in t'.node && t'.node[t'.top].b == 8 * t'.off && t'.node[t'.top].p == t'.top
  {
    hide Ok, FirstDiff, TestAt, InnerOk, HeadOk, ParentOk;
    OkTop(t);
    OkDomain(t);
  }

  lemma OkDomain(t: Trie)
    requires Ok(t)
    ensures forall a | a in t.inner || a in t.heads :: a in t.node && a in t.below
  {
    forall a | a in t.inner || a in t.heads ensures a in t.node && a in t.below {
      if a in t.inner { assert InnerOk(t, a); } else { assert HeadOk(t, a); }
    }
  }

  /** The parent of a node has all its keys and tests an earlier bit. */
  lemma Climb(t: Trie, x: Addr)
    requires Ok(t) && InTree(t, x) && x != t.top
    ensures var p := t.node[x].p;
      p in t.inner && p in t.node && p in t.below && t.below[x] <= t.below[p] &&
      (x in t.inner ==> t.node[p].b < t.node[x].b)
  {
    assert ParentOk(t, x);
    assert InnerOk(t, t.node[x].p);
  }

  /** Whatever holds s is on the way of a search for s. */
  lemma {:induction false} OnPath(t: Trie, s: Key, Q: set<Addr>, x: Addr, a: Addr)
    requires Ok(t) && Fits(t, s) && SearchPath(t, s, Q, x) && x in t.heads
    requires InTree(t, a) && s in t.below[a]
    ensures a in Q + {x}
    decreases a in t.heads, if a in t.node then t.node[a].b + 0x8000 else 0
  {
    hide Ok;
    OkTop(t);
    if a != t.top {
      Climb(t, a);
      var p := t.node[a].p;
      OkInner(t, p);
      NextBelow(t, p, s);
      OnPath(t, s, Q, x, p);
      OnlyChild(t, p, a, s);
    }
  }

  /** Of two children only one holds a key: the one the search for it takes. */
  lemma OnlyChild(t: Trie, p: Addr, a: Addr, s: Key)
    requires Ok(t) && p in t.inner && InTree(t, a) && a != t.top && t.node[a].p == p && s in t.below[a] && Fits(t, s)
    ensures p in t.node && a == Next(t, p, s)
  {
    assert InnerOk(t, p) && ParentOk(t, a);
  }

  /** No key has two leaves in the tree. */
  lemma HeadUnique(t: Trie, s: Key, Q: set<Addr>, x: Addr, a: Addr)
    requires Ok(t) && Fits(t, s) && SearchPath(t, s, Q, x) && x in t.heads
    requires a in t.heads && InTree(t, a) && s in t.below[a]
    ensures a == x
  {
    hide Ok;
    OkTop(t);
    OnPath(t, s, Q, x, a);
  }
}

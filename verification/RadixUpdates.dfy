/** How the table of net/radix.c stays well-formed under the updates rn_addroute makes. */
module RadixUpdates {
  import opened RadixBits
  import opened RadixTrie
  import opened RadixRoutes

  lemma OkFitsKlen(t: Trie)
    requires Ok(t)
    ensures t.off < t.klen <= MAX_KEY && NULL !in t.node && t.inner !! t.heads
  {
  }

  lemma TableChain(b: Table, s: Key)
    requires TableOk(b) && s in b.chain
    ensures ChainOk(b, s)
  {
    hide Ok, ChainOk, ListOk, HeadsChained;
  }

  lemma TableList(b: Table, x: Addr)
    requires TableOk(b) && x in b.t.inner
    ensures ListOk(b, x)
  {
    hide Ok, ChainOk, ListOk, HeadsChained;
  }

  lemma TableParts(b: Table)
    requires TableOk(b)
    ensures Ok(b.t) && NULL !in b.rm && HeadsChained(b)
  {
    hide Ok, ChainOk, ListOk, HeadsChained;
  }

  lemma TableJoin(b: Table)
    requires Ok(b.t) && NULL !in b.rm && HeadsChained(b)
    requires forall s | s in b.chain :: ChainOk(b, s)
    requires forall x | x in b.t.inner :: ListOk(b, x)
    ensures TableOk(b)
  {
    hide Ok, ChainOk, ListOk, HeadsChained;
  }

  // ---------- Changing records without changing the trie ----------

  ghost predicate SameTest(n: Node, n': Node) {
    n'.b == n.b && n'.off == n.off && n'.bmask == n.bmask && n'.l == n.l && n'.r == n.r && n'.p == n.p
  }

  ghost predicate SameLeaf(n: Node, n': Node) {
    n'.b == n.b && n'.key == n.key && n'.mask == n.mask && n'.normal == n.normal && n'.root == n.root
  }

  ghost predicate Frame(t: Trie, node': map<Addr, Node>) {
    && NULL !in node'
    && (forall a | a in t.inner :: a in t.node && a in node' && SameTest(t.node[a], node'[a]))
    && (forall a | a in t.heads :: a in t.node && a in node' && node'[a].key == t.node[a].key && node'[a].p == t.node[a].p &&
                                   -0x8000 <= node'[a].b < 0)
  }

  lemma FrameOk(t: Trie, node': map<Addr, Node>)
    requires Ok(t) && Frame(t, node')
    ensures Ok(t.(node := node'))
  {
    var t' := t.(node := node');
    forall a | a in t.inner ensures InnerOk(t', a) { FrameInner(t, node', a); }
    forall a | a in t.heads ensures HeadOk(t', a) { FrameHead(t, node', a); }
    forall a | (a in t.inner || a in t.heads) && a != t.top ensures ParentOk(t', a) { FrameParent(t, node', a); }
    hide InnerOk, HeadOk, ParentOk;
    OkFitsKlen(t);
    OkTop(t);
  }

  lemma FrameInner(t: Trie, node': map<Addr, Node>, a: Addr)
    requires Ok(t) && Frame(t, node') && a in t.inner
    ensures InnerOk(t.(node := node'), a)
  {
    hide Ok, Splits;
    OkInner(t, a);
  }

  lemma FrameHead(t: Trie, node': map<Addr, Node>, a: Addr)
    requires Ok(t) && Frame(t, node') && a in t.heads
    ensures HeadOk(t.(node := node'), a)
  {
    hide Ok;
    OkHead(t, a);
  }

  lemma FrameParent(t: Trie, node': map<Addr, Node>, a: Addr)
    requires Ok(t) && Frame(t, node') && (a in t.inner || a in t.heads) && a != t.top
    ensures ParentOk(t.(node := node'), a)
  {
    hide Ok;
    OkParent(t, a);
  }

  // ---------- Lists and chains that are not touched ----------

  /** What a step must keep for cells that exist already to stay right. */
  ghost predicate Grows(t: Trie, t': Trie) {
    && t'.off == t.off && t'.klen == t.klen
    && (forall a | a in t.node && t.node[a].b < 0 :: a in t'.node && SameLeaf(t.node[a], t'.node[a]))
    && (forall x | x in t.inner && x in t.below :: x in t'.below && t.below[x] <= t'.below[x])
    && (forall x | x in t.inner && x in t.node :: x in t'.node && t'.node[x].b == t.node[x].b)
  }

  lemma CellKeep(t: Trie, t': Trie, m: RMask, x: Addr)
    requires Grows(t, t') && CellOk(t, m, x) && x in t.inner
    ensures CellOk(t', m, x)
  {
  }

  lemma LeafKeep(t: Trie, t': Trie, a: Addr)
    requires Grows(t, t') && LeafOk(t, a)
    ensures LeafOk(t', a) && t'.node[a].normal == t.node[a].normal && t'.node[a].key == t.node[a].key
  {
  }

  lemma ListKeep(b: Table, b': Table, x: Addr)
    requires ListOk(b, x) && Grows(b.t, b'.t) && x in b.t.inner
    requires x in b'.lists && b'.lists[x] == b.lists[x] && x in b'.t.node && b'.t.node[x].masklist == b.t.node[x].masklist
    requires forall i | 0 <= i < |b.lists[x]| :: var a := b.lists[x][i]; a in b.rm && a in b'.rm && b'.rm[a] == b.rm[a] && a in b'.owner && b'.owner[a] == x
    ensures ListOk(b', x)
  {
    var l := b.lists[x];
    forall i | 0 <= i < |l| ensures l[i] in b'.rm && CellOk(b'.t, b'.rm[l[i]], x) && l[i] in b'.owner && b'.owner[l[i]] == x {
      hide Grows, CellOk;
      CellKeep(b.t, b'.t, b.rm[l[i]], x);
    }
  }

  lemma ChainKeep(b: Table, b': Table, s: Key)
    requires ChainOk(b, s) && Grows(b.t, b'.t)
    requires s in b'.chain && b'.chain[s] == b.chain[s] && b.chain[s][0] in b'.t.heads
    requires forall i | 0 <= i < |b.chain[s]| :: var a := b.chain[s][i]; a in b'.t.node && b'.t.node[a].dupedkey == b.t.node[a].dupedkey
    ensures ChainOk(b', s)
  {
    hide IsMask;
    var c := b.chain[s];
    forall i | 0 <= i < |c| ensures LeafOk(b'.t, c[i]) && b'.t.node[c[i]].normal == b.t.node[c[i]].normal
      && b'.t.node[c[i]].key == b.t.node[c[i]].key
    {
      hide Grows, LeafOk;
      LeafKeep(b.t, b'.t, c[i]);
    }
  }

  // ---------- A new leaf with a new key ----------

  ghost predicate SameButLinks(n: Node, n': Node) {
    n == n'.(l := n.l, r := n.r, p := n.p)
  }

  /** The trie after a new key was linked in: only links of old records changed. */
  ghost predicate LeafAdded(t: Trie, t': Trie, ti: Addr, tt: Addr) {
    && t'.off == t.off && t'.klen == t.klen && t'.top == t.top
    && t'.inner == t.inner + {tt} && t'.heads == t.heads + {ti}
    && ti !in t.node && tt !in t.node && ti in t'.node && tt in t'.node && t'.node[tt].masklist == NULL
    && (forall a | a in t.node :: a in t'.node && SameButLinks(t.node[a], t'.node[a]))
    && (forall x | x in t.inner && x in t.below :: x in t'.below && t.below[x] <= t'.below[x])
    && (forall x | x in t.inner :: x in t.node)
  }

  /** What rn_insert does to the records is of that kind. */
  lemma InsertedAdds(t: Trie, v: Key, u: Key, b: nat, P: set<Addr>, p: Addr, x: Addr, ti: Addr, tt: Addr)
    requires Ok(t) && Ready(t, v, u, b, P, p, x, ti, tt)
    requires p in t.node && x in t.node && x in t.below && t.off <= |v|
    ensures var t' := Inserted(t, v, b, P, p, x, ti, tt);
      LeafAdded(t, t', ti, tt) && t'.node[ti] == LeafNode(v, tt) && tt in t'.below && Suffix(v, t.off) in t'.below[tt]
    ensures Inserted(t, v, b, P, p, x, ti, tt).node[tt].b == b
  {
    hide Ok, FirstDiff, TestAt;
    OkDomain(t);
    OkTop(t);
  }

  lemma AddedGrows(t: Trie, t': Trie, ti: Addr, tt: Addr)
    requires LeafAdded(t, t', ti, tt)
    ensures Grows(t, t')
  {
    forall a | a in t.node ensures a in t'.node && SameLeaf(t.node[a], t'.node[a]) { assert SameButLinks(t.node[a], t'.node[a]); }
  }

  ghost function WithLeaf(b: Table, t': Trie, ti: Addr, tt: Addr, s: Key): Table {
    b.(t := t', chain := b.chain[s := [ti]], lists := b.lists[tt := []])
  }

  lemma WithLeafOk(b: Table, t': Trie, ti: Addr, tt: Addr, s: Key)
    requires TableOk(b) && Ok(t') && LeafAdded(b.t, t', ti, tt) && s !in b.chain
    requires LeafOk(t', ti) && Suffix(t'.node[ti].key, t'.off) == s && t'.node[ti].dupedkey == NULL
    ensures TableOk(WithLeaf(b, t', ti, tt, s))
  {
    var b' := WithLeaf(b, t', ti, tt, s);
    forall s' | s' in b'.chain ensures ChainOk(b', s') {
      hide TableOk, Ok, LeafOk, LeafAdded;
      WithLeafChain(b, t', ti, tt, s, s');
    }
    forall x | x in b'.t.inner ensures ListOk(b', x) {
      hide TableOk, Ok, LeafOk, LeafAdded;
      WithLeafList(b, t', ti, tt, s, x);
    }
    hide TableOk, Ok, LeafOk, ChainOk, ListOk;
    WithLeafHeads(b, t', ti, tt, s);
    TableParts(b);
    TableJoin(b');
  }

  lemma WithLeafHeads(b: Table, t': Trie, ti: Addr, tt: Addr, s: Key)
    requires HeadsChained(b) && LeafAdded(b.t, t', ti, tt) && s !in b.chain
    requires LeafOk(t', ti) && Suffix(t'.node[ti].key, t'.off) == s
    ensures HeadsChained(WithLeaf(b, t', ti, tt, s))
  {
    forall h | h in t'.heads ensures HeadChained(WithLeaf(b, t', ti, tt, s), h) {
      hide LeafOk, LeafAdded, HeadsChained, Suffix;
      if h != ti {
        OldHead(b, t', ti, tt, h);
      } else {
        KeyLength(t', ti);
      }
    }
  }

  lemma KeyLength(t: Trie, a: Addr)
    requires LeafOk(t, a)
    ensures a in t.node && t.off <= |t.node[a].key|
  {
  }

  lemma OldHead(b: Table, t': Trie, ti: Addr, tt: Addr, h: Addr)
    requires HeadsChained(b) && LeafAdded(b.t, t', ti, tt) && h in t'.heads && h != ti
    ensures HeadChained(b, h) && t'.off == b.t.off && h in t'.node && t'.node[h].key == b.t.node[h].key
  {
    assert HeadChained(b, h) && SameButLinks(b.t.node[h], t'.node[h]);
  }

  lemma WithLeafChain(b: Table, t': Trie, ti: Addr, tt: Addr, s: Key, s': Key)
    requires TableOk(b) && LeafAdded(b.t, t', ti, tt) && s !in b.chain
    requires LeafOk(t', ti) && Suffix(t'.node[ti].key, t'.off) == s && t'.node[ti].dupedkey == NULL
    requires s' in b.chain || s' == s
    ensures ChainOk(WithLeaf(b, t', ti, tt, s), s')
  {
    hide TableOk, Ok, LeafOk;
    if s' != s {
      TableChain(b, s');
      AddedGrows(b.t, t', ti, tt);
      forall i | 0 <= i < |b.chain[s']| ensures var a := b.chain[s'][i]; a in t'.node && t'.node[a].dupedkey == b.t.node[a].dupedkey {
        assert SameButLinks(b.t.node[b.chain[s'][i]], t'.node[b.chain[s'][i]]);
      }
      ChainKeep(b, WithLeaf(b, t', ti, tt, s), s');
    }
  }

  lemma WithLeafList(b: Table, t': Trie, ti: Addr, tt: Addr, s: Key, x: Addr)
    requires TableOk(b) && Ok(t') && LeafAdded(b.t, t', ti, tt) && x in t'.inner
    ensures ListOk(WithLeaf(b, t', ti, tt, s), x)
  {
    hide TableOk, Ok;
    if x != tt {
      TableList(b, x);
      AddedGrows(b.t, t', ti, tt);
      assert SameButLinks(b.t.node[x], t'.node[x]);
      ListKeep(b, WithLeaf(b, t', ti, tt, s), x);
    }
  }

  // ---------- A further leaf for a key that is there already ----------

  /** The parent's link to the leaf h now leads to a. */
  ghost function Redirect(t: Trie, h: Addr, a: Addr): map<Addr, Node>
    requires h in t.node && t.node[h].p in t.node
  {
    var p := t.node[h].p;
    t.node[p := if t.node[p].l == h then t.node[p].(l := a) else t.node[p].(r := a)]
  }

  ghost function HeadReplaced(t: Trie, h: Addr, a: Addr, n: Node): Trie
    requires h in t.node && h in t.below && t.node[h].p in t.node
  {
    t.(node := Redirect(t, h, a)[a := n], heads := t.heads - {h} + {a}, below := t.below[a := t.below[h]])
  }

  /** The leaf n at address a can take the place of the head h. */
  ghost predicate Replaces(t: Trie, h: Addr, a: Addr, n: Node) {
    && h in t.heads && h in t.node && h in t.below && t.node[h].p in t.node && a !in t.node && a != NULL
    && t.off <= |n.key| == t.klen && t.off <= |t.node[h].key| && Suffix(n.key, t.off) == Suffix(t.node[h].key, t.off)
    && n.p == t.node[h].p && -0x8000 <= n.b < 0
  }

  lemma HeadReplacedOk(t: Trie, h: Addr, a: Addr, n: Node)
    requires Ok(t) && Replaces(t, h, a, n)
    ensures Ok(HeadReplaced(t, h, a, n))
  {
    hide Ok, InnerOk, HeadOk, ParentOk, Replaces, HeadReplaced;
    ReplacedShape(t, h, a, n);
    var t' := HeadReplaced(t, h, a, n);
    forall x | x in t.inner ensures InnerOk(t', x) { ReplacedInner(t, h, a, n, x); }
    forall x | x in t'.heads ensures HeadOk(t', x) { ReplacedHead(t, h, a, n, x); }
    forall x | (x in t'.inner || x in t'.heads) && x != t.top ensures ParentOk(t', x) { ReplacedParent(t, h, a, n, x); }
    OkJoin(t');
  }

  lemma OkJoin(t: Trie)
    requires t.off < t.klen <= MAX_KEY && t.inner !! t.heads && NULL !in t.node
    requires t.top in t.inner && t.top in t.node && t.node[t.top].b == 8 * t.off && t.node[t.top].p == t.top
    requires forall x | x in t.inner :: InnerOk(t, x)
    requires forall x | x in t.heads :: HeadOk(t, x)
    requires forall x | (x in t.inner || x in t.heads) && x != t.top :: ParentOk(t, x)
    ensures Ok(t)
  {
    hide InnerOk, HeadOk, ParentOk;
  }

  lemma ReplacedShape(t: Trie, h: Addr, a: Addr, n: Node)
    requires Ok(t) && Replaces(t, h, a, n)
    ensures h in t.node && h in t.below && t.node[h].p in t.node
    ensures var t' := HeadReplaced(t, h, a, n);
      && t'.off == t.off && t'.klen == t.klen && t'.top == t.top && t.off < t.klen <= MAX_KEY
      && t'.inner == t.inner && t'.heads == t.heads - {h} + {a} && t'.inner !! t'.heads && NULL !in t'.node
      && t'.top in t'.inner && t'.top in t'.node && t'.node[t.top].b == 8 * t.off && t'.node[t.top].p == t.top
  {
    hide Ok;
    OkDomain(t);
    OkTop(t);
    OkParent(t, h);
  }

  lemma ReplacedInner(t: Trie, h: Addr, a: Addr, n: Node, x: Addr)
    requires Ok(t) && Replaces(t, h, a, n) && x in t.inner
    ensures InnerOk(HeadReplaced(t, h, a, n), x)
  {
    hide Ok, Splits;
    OkTop(t);
    OkDomain(t);
    OkInner(t, x);
    OkParent(t, h);
  }

  lemma ReplacedHead(t: Trie, h: Addr, a: Addr, n: Node, x: Addr)
    requires Ok(t) && Replaces(t, h, a, n) && x in t.heads - {h} + {a}
    ensures HeadOk(HeadReplaced(t, h, a, n), x)
  {
    hide Ok;
    OkTop(t);
    OkDomain(t);
    OkHead(t, h);
    OkParent(t, h);
    if x != a { OkHead(t, x); }
  }

  lemma ReplacedParent(t: Trie, h: Addr, a: Addr, n: Node, x: Addr)
    requires Ok(t) && Replaces(t, h, a, n) && (x in t.inner || x in t.heads - {h} + {a}) && x != t.top
    ensures ParentOk(HeadReplaced(t, h, a, n), x)
  {
    hide Ok;
    OkTop(t);
    OkDomain(t);
    OkParent(t, h);
    if x != a { OkParent(t, x); }
  }

  ghost function InsertAt(c: seq<Addr>, j: nat, a: Addr): seq<Addr>
    requires j <= |c|
  {
    c[..j] + [a] + c[j..]
  }

  /** The leaf a, with a mask of its own, goes into the chain of s at position j. */
  ghost predicate ChainGets(b: Table, b': Table, s: Key, j: nat, a: Addr) {
    && s in b.chain && s in b'.chain && j <= |b.chain[s]| && b'.chain[s] == InsertAt(b.chain[s], j, a)
    && a !in b.t.node && LeafOk(b'.t, a) && b'.t.node[a].normal && Suffix(b'.t.node[a].key, b'.t.off) == s
    && b'.t.node[a].dupedkey == (if j < |b.chain[s]| then b.chain[s][j] else NULL)
    && b'.chain[s][0] in b'.t.heads
    && (forall i | 0 <= i < |b.chain[s]| :: b.chain[s][i] in b.t.node && b.t.node[b.chain[s][i]].normal)
    && (forall i | 0 <= i < |b.chain[s]| :: b.chain[s][i] in b'.t.node &&
          b'.t.node[b.chain[s][i]].dupedkey == if i == j - 1 then a else b.t.node[b.chain[s][i]].dupedkey)
    && SortedAt(b.t, b.chain[s], j, b'.t.node[a].b)
  }

  /** A leaf whose rn_b is v belongs at position j of the chain: behind longer masks, before shorter ones. */
  ghost predicate SortedAt(t: Trie, c: seq<Addr>, j: nat, v: int) {
    forall i | 0 <= i < |c| :: c[i] in t.node && if i < j then t.node[c[i]].b < v else v < t.node[c[i]].b
  }

  ghost predicate ElementOk(b: Table, s: Key, c: seq<Addr>, i: nat)
    requires i < |c|
  {
    c[i] in b.t.node && LeafOk(b.t, c[i]) && b.t.node[c[i]].normal
    && Suffix(b.t.node[c[i]].key, b.t.off) == s && b.t.node[c[i]].dupedkey == After(c, i)
  }

  ghost predicate Descends(b: Table, c: seq<Addr>, i: nat, j: nat)
    requires i < |c| && j < |c|
  {
    c[i] in b.t.node && c[j] in b.t.node && b.t.node[c[i]].b < b.t.node[c[j]].b
  }

  lemma ChainFromElements(b: Table, s: Key)
    requires s in b.chain && |b.chain[s]| > 0 && b.chain[s][0] in b.t.heads
    requires forall i: nat | i < |b.chain[s]| :: ElementOk(b, s, b.chain[s], i)
    requires forall i: nat, j: nat | i < j < |b.chain[s]| :: Descends(b, b.chain[s], i, j)
    ensures ChainOk(b, s)
  {
    hide Suffix, After, IsMask;
    var c := b.chain[s];
    forall i | 0 <= i < |c| ensures c[i] in b.t.node && LeafOk(b.t, c[i]) && Suffix(b.t.node[c[i]].key, b.t.off) == s
      && b.t.node[c[i]].dupedkey == After(c, i) && b.t.node[c[i]].normal
    {
      assert ElementOk(b, s, c, i);
    }
    forall i, j | 0 <= i < j < |c| ensures c[i] in b.t.node && c[j] in b.t.node && b.t.node[c[i]].b < b.t.node[c[j]].b {
      assert Descends(b, c, i, j);
    }
  }

  lemma ChainInsertElement(b: Table, b': Table, s: Key, j: nat, a: Addr, i: nat)
    requires ChainOk(b, s) && Grows(b.t, b'.t) && ChainGets(b, b', s, j, a) && i <= |b.chain[s]|
    ensures |b'.chain[s]| == |b.chain[s]| + 1 && ElementOk(b', s, b'.chain[s], i)
  {
    hide LeafOk, Grows, Suffix, ChainOk, InsertAt, SortedAt;
    var c := b.chain[s];
    InsertAtIndex(c, j, a, i);
    InsertAtIndex(c, j, a, if i < |c| then i + 1 else i);
    KeyLength(b'.t, a);
    if i != j {
      var k := if i < j then i else i - 1;
      ChainElement(b, s, k);
      LeafKeep(b.t, b'.t, c[k]);
      KeyLength(b'.t, c[k]);
      GrowsOff(b.t, b'.t);
    }
  }

  lemma InsertAtIndex(c: seq<Addr>, j: nat, a: Addr, i: nat)
    requires j <= |c| && i <= |c|
    ensures |InsertAt(c, j, a)| == |c| + 1
    ensures InsertAt(c, j, a)[i] == if i < j then c[i] else if i == j then a else c[i - 1]
  {
  }

  lemma GrowsOff(t: Trie, t': Trie)
    requires Grows(t, t')
    ensures t'.off == t.off && t'.klen == t.klen
  {
  }

  lemma ChainInsert(b: Table, b': Table, s: Key, j: nat, a: Addr)
    requires ChainOk(b, s) && Grows(b.t, b'.t) && ChainGets(b, b', s, j, a)
    ensures ChainOk(b', s)
  {
    hide ChainOk, Grows, ChainGets, LeafOk, InsertAt, ElementOk;
    ChainGetsHead(b, b', s, j, a);
    forall i: nat | i < |b'.chain[s]| ensures ElementOk(b', s, b'.chain[s], i) {
      ChainInsertElement(b, b', s, j, a, i);
    }
    forall i: nat, k: nat | i < k < |b'.chain[s]| ensures Descends(b', b'.chain[s], i, k) {
      hide Descends;
      InsertDescends(b, b', s, j, a, i, k);
    }
    ChainFromElements(b', s);
  }

  lemma ChainGetsHead(b: Table, b': Table, s: Key, j: nat, a: Addr)
    requires ChainGets(b, b', s, j, a)
    ensures s in b'.chain && |b'.chain[s]| > 0 && b'.chain[s][0] in b'.t.heads
    ensures s in b.chain && j <= |b.chain[s]| && a !in b.t.node
    ensures b'.chain[s] == InsertAt(b.chain[s], j, a) && |b'.chain[s]| == |b.chain[s]| + 1
  {
  }

  lemma ChainElement(b: Table, s: Key, i: nat)
    requires ChainOk(b, s) && i < |b.chain[s]|
    ensures var x := b.chain[s][i];
      x in b.t.node && LeafOk(b.t, x) && Suffix(b.t.node[x].key, b.t.off) == s && b.t.node[x].dupedkey == After(b.chain[s], i)
  {
  }

  /** The record values of the longer chain: those of the old one with the new leaf's in between. */
  lemma InsertB(b: Table, b': Table, s: Key, j: nat, a: Addr, i: nat)
    requires ChainOk(b, s) && Grows(b.t, b'.t) && ChainGets(b, b', s, j, a) && i <= |b.chain[s]|
    ensures |b'.chain[s]| == |b.chain[s]| + 1 && b'.chain[s][i] in b'.t.node
    ensures i == j ==> b'.chain[s][i] == a
    ensures i != j ==> var k := if i < j then i else i - 1; var c := b.chain[s][k];
      c in b.t.node && b'.t.node[b'.chain[s][i]].b == b.t.node[c].b
  {
    hide LeafOk, Grows, Suffix, ChainOk, InsertAt, SortedAt;
    InsertAtIndex(b.chain[s], j, a, i);
    GetsLeaf(b', a);
    if i != j {
      var k := if i < j then i else i - 1;
      ChainElement(b, s, k);
      KeepB(b.t, b'.t, b.chain[s][k]);
    }
  }

  lemma GetsLeaf(b: Table, a: Addr)
    requires LeafOk(b.t, a)
    ensures a in b.t.node
  {
  }

  lemma GetsSorted(b: Table, b': Table, s: Key, j: nat, a: Addr)
    requires ChainGets(b, b', s, j, a)
    ensures s in b.chain && s in b'.chain && a in b'.t.node && j <= |b.chain[s]| && SortedAt(b.t, b.chain[s], j, b'.t.node[a].b)
  {
  }

  lemma InsertDescends(b: Table, b': Table, s: Key, j: nat, a: Addr, i: nat, k: nat)
    requires ChainOk(b, s) && Grows(b.t, b'.t) && ChainGets(b, b', s, j, a) && i < k <= |b.chain[s]|
    ensures |b'.chain[s]| == |b.chain[s]| + 1 && Descends(b', b'.chain[s], i, k)
  {
    hide ChainOk, Grows, ChainGets;
    GetsSorted(b, b', s, j, a);
    InsertB(b, b', s, j, a, i);
    InsertB(b, b', s, j, a, k);
    if i != j && k != j {
      ChainSorted(b, s, if i < j then i else i - 1, if k < j then k else k - 1);
    }
  }

  lemma ChainSorted(b: Table, s: Key, i: nat, k: nat)
    requires ChainOk(b, s) && i < k < |b.chain[s]|
    ensures b.chain[s][i] in b.t.node && b.chain[s][k] in b.t.node && b.t.node[b.chain[s][i]].b < b.t.node[b.chain[s][k]].b
  {
  }

  lemma KeepB(t: Trie, t': Trie, a: Addr)
    requires Grows(t, t') && LeafOk(t, a)
    ensures a in t.node && a in t'.node && t'.node[a].b == t.node[a].b
  {
  }

  /** The table after a further leaf was put into the chain of s: at its front, where it takes the
      head's place in the tree, or behind the element before position j. */
  ghost function DupTrie(b: Table, s: Key, j: nat, a: Addr, n: Node): Trie
    requires s in b.chain && j <= |b.chain[s]| && |b.chain[s]| > 0
  {
    var c := b.chain[s];
    if j == 0 then
      if c[0] in b.t.node && c[0] in b.t.below && b.t.node[c[0]].p in b.t.node then HeadReplaced(b.t, c[0], a, n) else b.t
    else if c[j - 1] in b.t.node then b.t.(node := b.t.node[c[j - 1] := b.t.node[c[j - 1]].(dupedkey := a)][a := n])
    else b.t
  }

  ghost function DupTable(b: Table, s: Key, j: nat, a: Addr, n: Node): Table
    requires s in b.chain && j <= |b.chain[s]| && |b.chain[s]| > 0
  {
    b.(t := DupTrie(b, s, j, a, n), chain := b.chain[s := InsertAt(b.chain[s], j, a)])
  }

  ghost predicate DupReady(b: Table, s: Key, j: nat, a: Addr, n: Node) {
    && s in b.chain && |b.chain[s]| > 0 && j <= |b.chain[s]| && a !in b.t.node && a != NULL
    && |n.key| == b.t.klen && b.t.off <= b.t.klen && Suffix(n.key, b.t.off) == s && -0x8000 <= n.b < 0
    && n.normal && !n.root && IsMask(b.t.off, b.t.klen, n.mask, -1 - n.b)
    && n.dupedkey == (if j < |b.chain[s]| then b.chain[s][j] else NULL)
    && (j == 0 ==> b.chain[s][0] in b.t.node && n.p == b.t.node[b.chain[s][0]].p)
    && SortedAt(b.t, b.chain[s], j, n.b)
    && (forall i | 0 <= i < |b.chain[s]| :: b.chain[s][i] in b.t.node && b.t.node[b.chain[s][i]].normal)
  }

  lemma DupTrieOk(b: Table, s: Key, j: nat, a: Addr, n: Node)
    requires TableOk(b) && DupReady(b, s, j, a, n)
    ensures Ok(DupTrie(b, s, j, a, n)) && Grows(b.t, DupTrie(b, s, j, a, n))
  {
    hide TableOk, Ok, IsMask, ChainOk;
    TableParts(b);
    TableChain(b, s);
    ChainHead(b, s);
    OkDomain(b.t);
    OkTop(b.t);
    var c := b.chain[s];
    if j == 0 {
      OkHead(b.t, c[0]);
      OkParent(b.t, c[0]);
      ChainElement(b, s, 0);
      InnerBit(b.t, b.t.node[c[0]].p);
      HeadReplacedOk(b.t, c[0], a, n);
    } else {
      ChainElement(b, s, j - 1);
      LeafBit(b.t, c[j - 1]);
      InnerBits(b.t);
      HeadBits(b.t);
      FrameOk(b.t, b.t.node[c[j - 1] := b.t.node[c[j - 1]].(dupedkey := a)][a := n]);
    }
  }

  lemma LeafBit(t: Trie, a: Addr)
    requires LeafOk(t, a)
    ensures a in t.node && -0x8000 <= t.node[a].b < 0
  {
  }

  lemma InnerBit(t: Trie, x: Addr)
    requires Ok(t) && x in t.inner
    ensures x in t.node && x in t.below && t.node[x].b >= 0
  {
    assert InnerOk(t, x);
  }

  lemma InnerBits(t: Trie)
    requires Ok(t)
    ensures forall x | x in t.inner :: x in t.node && t.node[x].b >= 0
  {
    forall x | x in t.inner ensures x in t.node && t.node[x].b >= 0 { hide Ok; InnerBit(t, x); }
  }

  lemma HeadBits(t: Trie)
    requires Ok(t)
    ensures forall x | x in t.heads :: x in t.node && -0x8000 <= t.node[x].b < 0
  {
    forall x | x in t.heads ensures x in t.node && -0x8000 <= t.node[x].b < 0 { assert HeadOk(t, x); }
  }

  lemma ChainHead(b: Table, s: Key)
    requires ChainOk(b, s)
    ensures s in b.chain && |b.chain[s]| > 0 && b.chain[s][0] in b.t.heads
  {
  }

  /** Old records keep everything but the link of the leaf before the new one. */
  lemma DupRecord(b: Table, s: Key, j: nat, a: Addr, n: Node, z: Addr)
    requires DupReady(b, s, j, a, n) && z in b.t.node
    requires b.chain[s][0] in b.t.below && b.t.node[b.chain[s][0]].p in b.t.node
    ensures var node' := DupTrie(b, s, j, a, n).node;
      && z in node' && node'[z].masklist == b.t.node[z].masklist && node'[z].key == b.t.node[z].key
      && node'[z].dupedkey == (if j > 0 && z == b.chain[s][j - 1] then a else b.t.node[z].dupedkey)
      && a in node' && node'[a] == n
  {
  }

  lemma DupHeadIn(b: Table, s: Key, j: nat, a: Addr, n: Node)
    requires TableOk(b) && DupReady(b, s, j, a, n)
    ensures b.chain[s][0] in b.t.below && b.chain[s][0] in b.t.heads && b.t.node[b.chain[s][0]].p in b.t.node
    ensures DupTrie(b, s, j, a, n).heads == if j == 0 then b.t.heads - {b.chain[s][0]} + {a} else b.t.heads
    ensures DupTrie(b, s, j, a, n).off == b.t.off && DupTrie(b, s, j, a, n).klen == b.t.klen
  {
    hide TableOk, Ok, IsMask, ChainOk;
    TableParts(b);
    TableChain(b, s);
    ChainHead(b, s);
    OkTop(b.t);
    OkHead(b.t, b.chain[s][0]);
    OkParent(b.t, b.chain[s][0]);
  }

  lemma DupChain(b: Table, s: Key, j: nat, a: Addr, n: Node, s': Key)
    requires TableOk(b) && DupReady(b, s, j, a, n) && (s' in b.chain || s' == s)
    requires Grows(b.t, DupTrie(b, s, j, a, n))
    ensures ChainOk(DupTable(b, s, j, a, n), s')
  {
    var b' := DupTable(b, s, j, a, n);
    if s' == s {
      DupGets(b, s, j, a, n);
      hide TableOk, DupReady, Grows, ChainOk, DupTrie, ChainGets;
      TableChain(b, s);
      ChainInsert(b, b', s, j, a);
    } else {
      DupOther(b, s, j, a, n, s');
      hide TableOk, DupReady, Grows, ChainOk, DupTrie, ChainGets;
      TableChain(b, s');
      ChainKeep(b, b', s');
    }
  }

  lemma DupGets(b: Table, s: Key, j: nat, a: Addr, n: Node)
    requires TableOk(b) && DupReady(b, s, j, a, n)
    ensures ChainGets(b, DupTable(b, s, j, a, n), s, j, a)
  {
    hide TableOk, DupTrie, IsMask;
    DupHeadIn(b, s, j, a, n);
    var c := b.chain[s];
    DupRecord(b, s, j, a, n, c[0]);
    forall i | 0 <= i < |c| ensures var node' := DupTrie(b, s, j, a, n).node;
      c[i] in node' && node'[c[i]].dupedkey == if i == j - 1 then a else b.t.node[c[i]].dupedkey
    {
      DupRecord(b, s, j, a, n, c[i]);
      TableDistinct(b, s, i, j - 1);
    }
  }

  lemma TableDistinct(b: Table, s: Key, i: int, k: int)
    requires TableOk(b) && s in b.chain
    ensures 0 <= i < |b.chain[s]| && 0 <= k < |b.chain[s]| && i != k ==> b.chain[s][i] != b.chain[s][k]
  {
    hide TableOk, LeafOk;
    TableChain(b, s);
  }

  lemma DupOther(b: Table, s: Key, j: nat, a: Addr, n: Node, s': Key)
    requires TableOk(b) && DupReady(b, s, j, a, n) && s' in b.chain && s' != s
    ensures |b.chain[s']| > 0 && b.chain[s'][0] in DupTrie(b, s, j, a, n).heads
    ensures forall i | 0 <= i < |b.chain[s']| :: var x := b.chain[s'][i];
      x in DupTrie(b, s, j, a, n).node && x in b.t.node && DupTrie(b, s, j, a, n).node[x].dupedkey == b.t.node[x].dupedkey
  {
    hide TableOk, DupTrie, IsMask, ChainOk, Suffix;
    DupHeadIn(b, s, j, a, n);
    TableChain(b, s);
    TableChain(b, s');
    ChainHead(b, s');
    ChainElement(b, s, 0);
    ChainElement(b, s', 0);
    var c := b.chain[s'];
    forall i | 0 <= i < |c| ensures
      c[i] in DupTrie(b, s, j, a, n).node && c[i] in b.t.node && DupTrie(b, s, j, a, n).node[c[i]].dupedkey == b.t.node[c[i]].dupedkey
    {
      ChainElement(b, s', i);
      if j > 0 { ChainElement(b, s, j - 1); }
      DupRecord(b, s, j, a, n, c[i]);
    }
  }

  lemma DupList(b: Table, s: Key, j: nat, a: Addr, n: Node, x: Addr)
    requires TableOk(b) && DupReady(b, s, j, a, n) && x in b.t.inner
    requires Grows(b.t, DupTrie(b, s, j, a, n))
    ensures ListOk(DupTable(b, s, j, a, n), x)
  {
    hide TableOk, DupTrie, DupReady, Grows, CellOk;
    DupShape(b, s, j, a, n);
    TableList(b, x);
    DupHeadIn(b, s, j, a, n);
    DupRecord(b, s, j, a, n, x);
    ListKeep(b, DupTable(b, s, j, a, n), x);
  }

  lemma DupHeads(b: Table, s: Key, j: nat, a: Addr, n: Node)
    requires TableOk(b) && DupReady(b, s, j, a, n)
    ensures HeadsChained(DupTable(b, s, j, a, n))
  {
    forall h | h in DupTable(b, s, j, a, n).t.heads ensures HeadChained(DupTable(b, s, j, a, n), h) {
      hide *;
      DupHead(b, s, j, a, n, h);
    }
  }

  lemma DupHead(b: Table, s: Key, j: nat, a: Addr, n: Node, h: Addr)
    requires TableOk(b) && DupReady(b, s, j, a, n) && h in DupTrie(b, s, j, a, n).heads
    ensures HeadChained(DupTable(b, s, j, a, n), h)
  {
    hide TableOk, DupTrie, IsMask, HeadsChained, Suffix;
    DupHeadIn(b, s, j, a, n);
    DupRecord(b, s, j, a, n, b.chain[s][0]);
    if h != a || j != 0 {
      TableParts(b);
      HeadOf(b, h);
      DupRecord(b, s, j, a, n, h);
    }
  }

  lemma DupShape(b: Table, s: Key, j: nat, a: Addr, n: Node)
    requires DupReady(b, s, j, a, n)
    ensures s in b.chain && |b.chain[s]| > 0 && j <= |b.chain[s]| && a !in b.t.node
  {
  }

  lemma HeadOf(b: Table, h: Addr)
    requires HeadsChained(b) && h in b.t.heads
    ensures HeadChained(b, h)
  {
  }

  lemma DupTableOk(b: Table, s: Key, j: nat, a: Addr, n: Node)
    requires TableOk(b) && DupReady(b, s, j, a, n)
    ensures TableOk(DupTable(b, s, j, a, n))
  {
    hide TableOk, Ok, Grows, ChainOk, ListOk, HeadsChained, DupTrie, DupReady, HeadReplaced, InsertAt;
    DupShape(b, s, j, a, n);
    var b' := DupTable(b, s, j, a, n);
    TableParts(b);
    DupTrieOk(b, s, j, a, n);
    forall s' | s' in b'.chain ensures ChainOk(b', s') {
      DupChain(b, s, j, a, n, s');
    }
    assert b'.t.inner == b.t.inner by { DupInner(b, s, j, a, n); }
    forall x | x in b'.t.inner ensures ListOk(b', x) {
      DupList(b, s, j, a, n, x);
    }
    DupHeads(b, s, j, a, n);
    TableJoin(b');
  }

  lemma DupInner(b: Table, s: Key, j: nat, a: Addr, n: Node)
    requires DupReady(b, s, j, a, n)
    ensures DupTrie(b, s, j, a, n).inner == b.t.inner
  {
  }

  // ---------- A new cell at the end of a mask list ----------

  ghost predicate AppendReady(b: Table, x: Addr, leaf: Addr, cell: Addr) {
    && x in b.t.inner && x in b.t.node && x in b.lists && leaf in b.t.node && cell !in b.rm && cell != NULL
    && CellOk(b.t, RMask(0x1_0000 + b.t.node[leaf].b, leaf, NULL), x)
  }

  ghost function AppendedNodes(b: Table, x: Addr, leaf: Addr, cell: Addr): map<Addr, Node>
    requires x in b.t.node && x in b.lists && leaf in b.t.node
  {
    var node' := b.t.node[leaf := b.t.node[leaf].(masklist := cell)];
    if b.lists[x] == [] then node'[x := node'[x].(masklist := cell)] else node'
  }

  ghost function AppendedCells(b: Table, x: Addr, leaf: Addr, cell: Addr): map<Addr, RMask>
    requires x in b.lists && leaf in b.t.node
  {
    var l := b.lists[x];
    var rm' := if l != [] && l[|l| - 1] in b.rm then b.rm[l[|l| - 1] := b.rm[l[|l| - 1]].(next := cell)] else b.rm;
    rm'[cell := RMask(0x1_0000 + b.t.node[leaf].b, leaf, NULL)]
  }

  ghost function Appended(b: Table, x: Addr, leaf: Addr, cell: Addr): Table
    requires x in b.t.node && x in b.lists && leaf in b.t.node
  {
    b.(t := b.t.(node := AppendedNodes(b, x, leaf, cell)), rm := AppendedCells(b, x, leaf, cell),
       lists := b.lists[x := b.lists[x] + [cell]], owner := b.owner[cell := x])
  }

  lemma AppendTrie(b: Table, x: Addr, leaf: Addr, cell: Addr)
    requires Ok(b.t) && AppendReady(b, x, leaf, cell)
    ensures Ok(Appended(b, x, leaf, cell).t) && Grows(b.t, Appended(b, x, leaf, cell).t)
  {
    hide Ok, CellOk;
    CellLeaf(b.t, RMask(0x1_0000 + b.t.node[leaf].b, leaf, NULL), x);
    InnerBits(b.t);
    HeadBits(b.t);
    OkTop(b.t);
    FrameOk(b.t, AppendedNodes(b, x, leaf, cell));
  }

  lemma CellLeaf(t: Trie, m: RMask, x: Addr)
    requires CellOk(t, m, x)
    ensures LeafOk(t, m.leaf) && m.leaf in t.node && -0x8000 <= t.node[m.leaf].b < 0
  {
  }

  lemma AppendChain(b: Table, x: Addr, leaf: Addr, cell: Addr, s: Key)
    requires TableOk(b) && AppendReady(b, x, leaf, cell) && s in b.chain && Grows(b.t, Appended(b, x, leaf, cell).t)
    ensures ChainOk(Appended(b, x, leaf, cell), s)
  {
    hide TableOk, CellOk, LeafOk, Grows;
    TableChain(b, s);
    ChainKeep(b, Appended(b, x, leaf, cell), s);
  }

  lemma ListCell(b: Table, x: Addr, i: nat)
    requires ListOk(b, x) && i < |b.lists[x]|
    ensures var a := b.lists[x][i];
      a in b.rm && CellOk(b.t, b.rm[a], x) && a in b.owner && b.owner[a] == x && b.rm[a].next == After(b.lists[x], i)
  {
  }

  lemma ListShape(b: Table, x: Addr)
    requires ListOk(b, x)
    ensures x in b.lists && x in b.t.node && b.t.node[x].masklist == (if |b.lists[x]| > 0 then b.lists[x][0] else NULL)
    ensures forall i, j | 0 <= i < j < |b.lists[x]| :: b.lists[x][i] != b.lists[x][j]
  {
  }

  lemma AppendOther(b: Table, x: Addr, leaf: Addr, cell: Addr, y: Addr)
    requires TableOk(b) && AppendReady(b, x, leaf, cell) && y in b.t.inner && y != x && Grows(b.t, Appended(b, x, leaf, cell).t)
    ensures ListOk(Appended(b, x, leaf, cell), y)
  {
    hide TableOk, Ok, CellOk, ListOk, Grows;
    var b' := Appended(b, x, leaf, cell);
    TableParts(b);
    TableList(b, x);
    TableList(b, y);
    ListShape(b, y);
    InnerBit(b.t, y);
    CellLeaf(b.t, RMask(0x1_0000 + b.t.node[leaf].b, leaf, NULL), x);
    if b.lists[x] != [] { ListCell(b, x, |b.lists[x]| - 1); }
    forall i | 0 <= i < |b.lists[y]| ensures var a := b.lists[y][i]; a in b.rm && a in b'.rm && b'.rm[a] == b.rm[a] && a in b'.owner && b'.owner[a] == y {
      ListCell(b, y, i);
    }
    ListKeep(b, b', y);
  }

  lemma AppendSelfCell(b: Table, x: Addr, leaf: Addr, cell: Addr, i: nat)
    requires TableOk(b) && AppendReady(b, x, leaf, cell) && Grows(b.t, Appended(b, x, leaf, cell).t) && i <= |b.lists[x]|
    ensures var b' := Appended(b, x, leaf, cell); var l' := b'.lists[x]; var a := l'[i];
      |l'| == |b.lists[x]| + 1 && a in b'.rm && CellOk(b'.t, b'.rm[a], x) && a in b'.owner && b'.owner[a] == x &&
      b'.rm[a].next == After(l', i)
    ensures i < |b.lists[x]| ==> b.lists[x][i] != cell
  {
    hide TableOk, CellOk, ListOk, Grows;
    var b' := Appended(b, x, leaf, cell);
    TableList(b, x);
    ListShape(b, x);
    CellKeep(b.t, b'.t, RMask(0x1_0000 + b.t.node[leaf].b, leaf, NULL), x);
    if i < |b.lists[x]| {
      ListCell(b, x, i);
      CellKeep(b.t, b'.t, b.rm[b.lists[x][i]], x);
      CellIgnoresNext(b'.t, b.rm[b.lists[x][i]], b'.rm[b.lists[x][i]], x);
      assert i < |b.lists[x]| - 1 ==> b.lists[x][i] != b.lists[x][|b.lists[x]| - 1];
    }
  }

  lemma CellIgnoresNext(t: Trie, m: RMask, m': RMask, x: Addr)
    requires CellOk(t, m, x) && m'.b == m.b && m'.leaf == m.leaf
    ensures CellOk(t, m', x)
  {
  }

  lemma AppendSelf(b: Table, x: Addr, leaf: Addr, cell: Addr)
    requires TableOk(b) && AppendReady(b, x, leaf, cell) && Grows(b.t, Appended(b, x, leaf, cell).t)
    ensures ListOk(Appended(b, x, leaf, cell), x)
  {
    hide TableOk, CellOk, Grows, Appended, AppendedNodes, AppendedCells;
    var b' := Appended(b, x, leaf, cell);
    AppendShape(b, x, leaf, cell);
    var l' := b'.lists[x];
    forall i: nat | i < |l'| ensures l'[i] in b'.rm && CellOk(b'.t, b'.rm[l'[i]], x) && l'[i] in b'.owner && b'.owner[l'[i]] == x
      && b'.rm[l'[i]].next == After(l', i)
    {
      AppendSelfCell(b, x, leaf, cell, i);
    }
  }

  lemma AppendShape(b: Table, x: Addr, leaf: Addr, cell: Addr)
    requires TableOk(b) && AppendReady(b, x, leaf, cell)
    ensures var b' := Appended(b, x, leaf, cell);
      && b'.lists == b.lists[x := b.lists[x] + [cell]] && x in b'.t.node
      && b'.t.node[x].masklist == b'.lists[x][0]
      && (forall i, j | 0 <= i < j < |b'.lists[x]| :: b'.lists[x][i] != b'.lists[x][j])
      && b'.t.inner == b.t.inner && b'.t.heads == b.t.heads && b'.chain == b.chain && NULL !in b'.rm
  {
    hide TableOk, Ok, CellOk, ListOk;
    TableParts(b);
    TableList(b, x);
    ListShape(b, x);
    InnerBit(b.t, x);
    CellLeaf(b.t, RMask(0x1_0000 + b.t.node[leaf].b, leaf, NULL), x);
    forall i: nat | i < |b.lists[x]| ensures b.lists[x][i] in b.rm && b.lists[x][i] != cell { ListCell(b, x, i); }
  }

  /** rn_new_radix_mask at the end of the list of x keeps the table well-formed. */
  lemma AppendOk(b: Table, x: Addr, leaf: Addr, cell: Addr)
    requires TableOk(b) && AppendReady(b, x, leaf, cell)
    ensures TableOk(Appended(b, x, leaf, cell)) && Grows(b.t, Appended(b, x, leaf, cell).t)
  {
    hide TableOk, Ok, Grows, ChainOk, ListOk, HeadsChained, Appended, AppendReady;
    AppendShape(b, x, leaf, cell);
    AppendIn(b, x, leaf, cell);
    var b' := Appended(b, x, leaf, cell);
    TableParts(b);
    AppendTrie(b, x, leaf, cell);
    forall s | s in b'.chain ensures ChainOk(b', s) { AppendChain(b, x, leaf, cell, s); }
    forall y | y in b'.t.inner ensures ListOk(b', y) {
      if y == x { AppendSelf(b, x, leaf, cell); } else { AppendOther(b, x, leaf, cell, y); }
    }
    AppendHeads(b, x, leaf, cell);
    TableJoin(b');
  }

  lemma AppendIn(b: Table, x: Addr, leaf: Addr, cell: Addr)
    requires AppendReady(b, x, leaf, cell)
    ensures x in b.t.inner && x in b.t.node && x in b.lists && leaf in b.t.node
  {
  }

  lemma AppendHeads(b: Table, x: Addr, leaf: Addr, cell: Addr)
    requires HeadsChained(b) && AppendReady(b, x, leaf, cell)
    ensures HeadsChained(Appended(b, x, leaf, cell))
  {
    hide CellOk;
    forall h | h in b.t.heads ensures HeadChained(Appended(b, x, leaf, cell), h) { HeadOf(b, h); }
  }

  // ---------- Setting the mask of a fresh leaf ----------

  ghost function Masked(n: Node, m: Key, idx: int): Node {
    if m == [] then n else n.(b := -1 - idx, mask := m, normal := true)
  }

  lemma MaskFresh(t0: Trie, t: Trie, v: Key, ti: Addr, tt: Addr, m: Key, idx: int)
    requires Ok(t0) && Ok(t) && LeafAdded(t0, t, ti, tt) && ti in t.node && t.node[ti] == LeafNode(v, tt)
    requires |v| == t0.klen && (m == [] || IsMask(t0.off, t0.klen, m, idx))
    ensures var t' := t.(node := t.node[ti := Masked(t.node[ti], m, idx)]);
      Ok(t') && LeafAdded(t0, t', ti, tt) && LeafOk(t', ti) && t'.node[ti].dupedkey == NULL
  {
    hide Ok;
    OkDomain(t0);
    OkTop(t0);
    OkTop(t);
    InnerBits(t);
    HeadBits(t);
    MaskBounds(t0.off, t0.klen, m, idx);
    OkFitsKlen(t0);
    FrameOk(t, t.node[ti := Masked(t.node[ti], m, idx)]);
  }

  lemma MaskBounds(off: nat, klen: nat, m: Key, idx: int)
    requires m != [] ==> IsMask(off, klen, m, idx)
    ensures m != [] ==> 0 < idx <= 8 * klen
  {
  }

  /** A key has a chain exactly when it is in the trie. */
  lemma ChainHasKey(b: Table, s: Key)
    requires TableOk(b) && s in b.chain
    ensures b.t.top in b.t.below && s in b.t.below[b.t.top]
  {
    hide TableOk, Ok, ChainOk, LeafOk;
    TableParts(b);
    TableChain(b, s);
    ChainHead(b, s);
    ChainElement(b, s, 0);
    OkHead(b.t, b.chain[s][0]);
    BelowTop(b.t, b.chain[s][0]);
  }

  lemma {:induction false} BelowTop(t: Trie, x: Addr)
    requires Ok(t) && (x in t.inner || x in t.heads)
    ensures x in t.below && t.top in t.below && t.below[x] <= t.below[t.top]
    decreases x in t.heads, if x in t.node then t.node[x].b + 0x8000 else 0
  {
    hide Ok;
    OkTop(t);
    OkDomain(t);
    if x != t.top {
      Climb(t, x);
      InnerBit(t, t.node[x].p);
      BelowTop(t, t.node[x].p);
    }
  }

  // ---------- rn_inithead ----------

  function Zeros(klen: nat): Key { seq(klen, _ => 0x00) }

  function Ones(klen: nat): Key { seq(klen, _ => 0xff) }

  /** The top node, which tests the first bit that takes part, and the two roots below it. */
  ghost function InitTable(off: nat, klen: nat, top: Addr, l: Addr, r: Addr): Table
    requires off < klen
  {
    var ln := Node(-1 - 8 * off, 0, 0, true, false, NULL, NULL, top, Zeros(klen), [], NULL, NULL);
    var tn := Node(8 * off, off, 0x80, true, false, l, r, top, [], [], NULL, NULL);
    var z, o := Suffix(Zeros(klen), off), Suffix(Ones(klen), off);
    Table(Trie(off, klen, top, map[top := tn, l := ln, r := ln.(key := Ones(klen))], {top}, {l, r},
               map[top := {z, o}, l := {z}, r := {o}]),
          map[], map[z := [l], o := [r]], map[top := []], map[])
  }

  ghost predicate InitArgs(off: nat, klen: nat, top: Addr, l: Addr, r: Addr) {
    off < klen <= MAX_KEY && top != l && top != r && l != r && top != NULL && l != NULL && r != NULL
  }

  lemma InitSplits(off: nat, klen: nat)
    requires off < klen
    ensures var z, o := Suffix(Zeros(klen), off), Suffix(Ones(klen), off);
      z != o && !TestAt(off, klen, z, 8 * off) && TestAt(off, klen, o, 8 * off) && |z| == klen - off && |o| == klen - off
  {
    var z, o := Suffix(Zeros(klen), off), Suffix(Ones(klen), off);
    assert z[0] == 0 && o[0] == 0xff;
  }

  lemma InitTrieOk(off: nat, klen: nat, top: Addr, l: Addr, r: Addr)
    requires InitArgs(off, klen, top, l, r)
    ensures Ok(InitTable(off, klen, top, l, r).t)
  {
    hide TestAt, Zeros, Ones, Suffix;
    InitSplits(off, klen);
    InitShape(off, klen);
    var t := InitTable(off, klen, top, l, r).t;
    assert InnerOk(t, top);
  }

  lemma InitShape(off: nat, klen: nat)
    requires off < klen
    ensures |Zeros(klen)| == klen && |Ones(klen)| == klen && 8 * off % 8 == 0 && 8 * off / 8 == off
  {
  }

  lemma InitOk(off: nat, klen: nat, top: Addr, l: Addr, r: Addr)
    requires InitArgs(off, klen, top, l, r)
    ensures TableOk(InitTable(off, klen, top, l, r))
  {
    InitTrieOk(off, klen, top, l, r);
    InitSplits(off, klen);
    InitShape(off, klen);
    hide Ok, Zeros, Ones, TestAt, Suffix;
    var b := InitTable(off, klen, top, l, r);
    forall s | s in b.chain ensures ChainOk(b, s) {}
    assert ListOk(b, top);
    assert HeadChained(b, l) && HeadChained(b, r);
  }
}

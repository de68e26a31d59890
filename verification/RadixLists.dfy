/** net/radix.c: what rn_addroute does to the mask lists. */
module RadixLists {
  import opened RadixBits
  import opened RadixTrie
  import opened RadixRoutes
  import opened RadixUpdates
  import opened RadixClimb

  /** Cells stay, but for their links. */
  ghost predicate SameCells(rm: map<Addr, RMask>, rm': map<Addr, RMask>) {
    forall c | c in rm :: c in rm' && rm'[c] == rm[c].(next := rm'[c].next)
  }

  /** Mask lists only grow, at their ends. */
  ghost predicate ListsGrow(b: Table, b': Table) {
    SameCells(b.rm, b'.rm) && forall y | y in b.t.inner && y in b.lists :: y in b'.lists && b.lists[y] <= b'.lists[y]
  }

  /** Only mask lists changed: every record keeps all but its list head. */
  ghost predicate OnlyLists(n0: map<Addr, Node>, n1: map<Addr, Node>) {
    n1.Keys == n0.Keys && forall a | a in n1 :: n1[a] == n0[a].(masklist := n1[a].masklist)
  }

  /** The leaf has a new cell at the end of the list of x, and nothing else changed. */
  ghost predicate NewCell(b: Table, b': Table, x: Addr, leaf: Addr, cell: Addr) {
    && cell !in b.rm && cell in b'.rm && b'.rm[cell].leaf == leaf && SameCells(b.rm, b'.rm)
    && x in b.lists && b'.lists == b.lists[x := b.lists[x] + [cell]] && b'.chain == b.chain
    && b'.t == b.t.(node := b'.t.node) && OnlyLists(b.t.node, b'.t.node) && leaf in b'.t.node && b'.t.node[leaf].masklist != NULL
    && forall a | a in b.t.node && a != leaf && a != x :: b'.t.node[a] == b.t.node[a]
  }

  /** The leaf has a cell. */
  ghost predicate Held(b: Table, a: Addr) {
    a in b.t.node && b.t.node[a].masklist != NULL
  }

  /** A leaf that has a cell gets no other one. */
  ghost predicate CellsStay(b: Table, b': Table) {
    forall y, a | y in b'.t.inner && HasCell(b', y, a) && Held(b, a) :: y in b.t.inner && HasCell(b, y, a)
  }

  /** Only the given leaf gets a cell. */
  ghost predicate CellsBut(b: Table, b': Table, leaf: Addr) {
    forall y, a | y in b'.t.inner && HasCell(b', y, a) && a != leaf :: y in b.t.inner && HasCell(b, y, a)
  }

  lemma SameStay(b: Table, b': Table)
    requires b'.t.inner == b.t.inner && b'.lists == b.lists && b'.rm == b.rm
    ensures CellsStay(b, b')
  {
  }

  lemma FreshStay(b: Table, b': Table, tt: Addr)
    requires b'.t.inner == b.t.inner + {tt} && b'.lists == b.lists[tt := []] && b'.rm == b.rm
    ensures CellsStay(b, b')
  {
  }

  lemma StayTrans(b: Table, b1: Table, b2: Table)
    requires CellsStay(b, b1) && CellsStay(b1, b2) && forall a | Held(b, a) :: Held(b1, a)
    ensures CellsStay(b, b2)
  {
    hide HasCell, Held;
  }

  lemma StayBut(b: Table, b1: Table, b2: Table, leaf: Addr)
    requires CellsStay(b, b1) && CellsBut(b1, b2, leaf) && leaf !in b.t.node
    ensures CellsStay(b, b2)
  {
    hide HasCell;
  }

  /** The leaf has no cell. */
  ghost predicate NoCell(b: Table, leaf: Addr) {
    forall y | y in b.t.inner :: !HasCell(b, y, leaf)
  }

  /** The leaf has cells on the test node x only. */
  ghost predicate OnlyAt(b: Table, leaf: Addr, x: Addr) {
    forall y | y in b.t.inner && HasCell(b, y, leaf) :: y == x
  }

  /** Cells name leaves of the table. */
  lemma NoCellYet(b: Table, leaf: Addr)
    requires TableOk(b) && leaf !in b.t.node
    ensures NoCell(b, leaf)
  {
    hide TableOk, LeafOk;
    forall y | y in b.t.inner ensures !HasCell(b, y, leaf) {
      TableList(b, y);
      if HasCell(b, y, leaf) {
        var i: nat :| i < |b.lists[y]| && b.lists[y][i] in b.rm && b.rm[b.lists[y][i]].leaf == leaf;
        CellFacts(b.t, b.rm[b.lists[y][i]], y);
      }
    }
  }

  lemma SameNoCell(b: Table, b': Table, leaf: Addr)
    requires b'.t.inner == b.t.inner && b'.lists == b.lists && b'.rm == b.rm && NoCell(b, leaf)
    ensures NoCell(b', leaf)
  {
  }

  lemma FreshNoCell(b: Table, b': Table, tt: Addr, leaf: Addr)
    requires b'.t.inner == b.t.inner + {tt} && b'.lists == b.lists[tt := []] && b'.rm == b.rm && NoCell(b, leaf)
    ensures NoCell(b', leaf)
  {
    forall y | y in b'.t.inner ensures !HasCell(b', y, leaf) {
      if y != tt { assert !HasCell(b, y, leaf); }
    }
  }

  /** A leaf outside the sibling's chain gets no cell from it. */
  lemma PromotedNoCell(b: Table, b': Table, p: Addr, s: Key, leaf: Addr)
    requires TableOk(b) && Promoted(b, b', p, s) && b'.t.inner == b.t.inner && NoCell(b, leaf) && leaf !in b.chain[s]
    ensures NoCell(b', leaf)
  {
    hide TableOk, Promoted, HasCell;
    forall y | y in b'.t.inner ensures !HasCell(b', y, leaf) {
      if HasCell(b', y, leaf) { PromotedBack(b, b', p, s, leaf, y); }
    }
  }

  lemma PromotedBack(b: Table, b': Table, p: Addr, s: Key, leaf: Addr, y: Addr)
    requires TableOk(b) && Promoted(b, b', p, s) && b'.t.inner == b.t.inner && leaf !in b.chain[s]
    requires y in b.t.inner && HasCell(b', y, leaf)
    ensures HasCell(b, y, leaf)
  {
    hide TableOk, CellOk, OnlyLists, Moves;
    TableList(b, y);
    var i: nat :| i < |b'.lists[y]| && b'.lists[y][i] in b'.rm && b'.rm[b'.lists[y][i]].leaf == leaf;
    MovedInChain(b, b', p, s, y, i);
    ListCell(b, y, i);
  }

  lemma MovedInChain(b: Table, b': Table, p: Addr, s: Key, y: Addr, i: nat)
    requires Promoted(b, b', p, s) && y in b'.lists && i < |b'.lists[y]| && b'.lists[y][i] in b'.rm
    ensures y == p ==> b'.rm[b'.lists[y][i]].leaf in b.chain[s]
  {
    if y == p {
      var k: nat :| MovedCell(b, b', p, s, k, b'.lists[p][i]);
    }
  }

  lemma NewCellOnly(b: Table, b': Table, x: Addr, leaf: Addr, cell: Addr)
    requires TableOk(b) && NewCell(b, b', x, leaf, cell) && NoCell(b, leaf)
    ensures OnlyAt(b', leaf, x)
  {
    hide TableOk, NewCell, HasCell;
    NewCellFacts(b, b', x, leaf, cell);
    forall y | y in b'.t.inner && HasCell(b', y, leaf) ensures y == x {
      if y != x { NewCellBack(b, b', x, leaf, cell, y); }
    }
  }

  lemma NewCellBack(b: Table, b': Table, x: Addr, leaf: Addr, cell: Addr, y: Addr)
    requires TableOk(b) && NewCell(b, b', x, leaf, cell) && y in b.t.inner && y != x && HasCell(b', y, leaf)
    ensures HasCell(b, y, leaf)
  {
    hide TableOk, CellOk, OnlyLists;
    TableList(b, y);
    var i: nat :| i < |b'.lists[y]| && b'.lists[y][i] in b'.rm && b'.rm[b'.lists[y][i]].leaf == leaf;
    ListCell(b, y, i);
  }

  lemma NewCellBut(b: Table, b': Table, x: Addr, leaf: Addr, cell: Addr)
    requires TableOk(b) && NewCell(b, b', x, leaf, cell)
    ensures CellsBut(b, b', leaf)
  {
    hide TableOk, CellOk, OnlyLists;
    forall y, a | y in b'.t.inner && HasCell(b', y, a) && a != leaf ensures HasCell(b, y, a) {
      TableList(b, y);
      var i: nat :| i < |b'.lists[y]| && b'.lists[y][i] in b'.rm && b'.rm[b'.lists[y][i]].leaf == a;
      assert i < |b.lists[y]| && b.lists[y][i] == b'.lists[y][i];
      ListCell(b, y, i);
    }
  }

  lemma MovedNotHeld(b: Table, b': Table, p: Addr, s: Key, y: Addr, i: nat)
    requires Promoted(b, b', p, s) && y in b'.lists && i < |b'.lists[y]| && b'.lists[y][i] in b'.rm
    ensures y == p ==> !Held(b, b'.rm[b'.lists[y][i]].leaf)
  {
    if y == p {
      var k: nat :| MovedCell(b, b', p, s, k, b'.lists[p][i]);
    }
  }

  lemma PromotedStay(b: Table, b': Table, p: Addr, s: Key)
    requires TableOk(b) && Promoted(b, b', p, s) && b'.t.inner == b.t.inner
    ensures CellsStay(b, b')
  {
    hide TableOk, CellOk, OnlyLists;
    forall y, a | y in b'.t.inner && HasCell(b', y, a) && Held(b, a) ensures HasCell(b, y, a) {
      TableList(b, y);
      var i: nat :| i < |b'.lists[y]| && b'.lists[y][i] in b'.rm && b'.rm[b'.lists[y][i]].leaf == a;
      MovedNotHeld(b, b', p, s, y, i);
      ListCell(b, y, i);
    }
  }

  lemma NewCellGrows(b0: Table, b: Table, b': Table, x: Addr, leaf: Addr, cell: Addr)
    requires ListsGrow(b0, b) && NewCell(b, b', x, leaf, cell)
    ensures ListsGrow(b0, b')
    ensures HasCell(b', x, leaf)
  {
    assert b'.lists[x][|b'.lists[x]| - 1] == cell;
  }

  lemma GrowRefl(b: Table)
    ensures ListsGrow(b, b)
  {
  }

  lemma GrowSame(b: Table, b': Table)
    ensures b'.lists == b.lists && b'.rm == b.rm ==> ListsGrow(b, b')
  {
  }

  lemma GrowTrans(b: Table, b': Table, b'': Table)
    requires ListsGrow(b, b') && ListsGrow(b', b'') && b.t.inner <= b'.t.inner
    ensures ListsGrow(b, b'')
  {
  }

  lemma NewCellFacts(b: Table, b': Table, x: Addr, leaf: Addr, cell: Addr)
    requires NewCell(b, b', x, leaf, cell)
    ensures x in b.lists && b'.lists == b.lists[x := b.lists[x] + [cell]] && b'.chain == b.chain
    ensures b'.t == b.t.(node := b'.t.node) && OnlyLists(b.t.node, b'.t.node)
  {
  }

  lemma OnlyListsTrans(n0: map<Addr, Node>, n1: map<Addr, Node>, n2: map<Addr, Node>)
    requires OnlyLists(n0, n1) && OnlyLists(n1, n2)
    ensures OnlyLists(n0, n2)
    ensures forall a | a in n0 :: a in n2 && n2[a].b == n0[a].b
  {
  }

  lemma StillTopmost(t: Trie, t': Trie, x: Addr, idx: int)
    requires Topmost(t, x, idx) && t' == t.(node := t'.node) && OnlyLists(t.node, t'.node)
    ensures Topmost(t', x, idx)
    ensures forall a | a in t.node :: a in t'.node && t'.node[a].b == t.node[a].b && t'.node[a].p == t.node[a].p
  {
  }

  /** A new test node starts with an empty list. */
  lemma FreshList(b: Table, b': Table, tt: Addr)
    requires tt !in b.t.inner && b'.lists == b.lists[tt := []] && b'.rm == b.rm
    ensures ListsGrow(b, b')
  {
  }

  // ---------- The masks of a sibling leaf ----------

  /** The leaf at position j of the chain gets a cell on p: it has a mask whose index does not exceed
      p's bit, and no cell yet. */
  ghost predicate Moves(b: Table, p: Addr, s: Key, j: nat) {
    && s in b.chain && j < |b.chain[s]| && p in b.t.node && b.chain[s][j] in b.t.node
    && var n := b.t.node[b.chain[s][j]];
    n.mask != [] && n.masklist == NULL && -1 - n.b <= b.t.node[p].b
  }

  ghost predicate MovedCell(b: Table, b': Table, p: Addr, s: Key, j: nat, cell: Addr) {
    cell in b'.rm && Moves(b, p, s, j) && b'.rm[cell].leaf == b.chain[s][j]
  }

  ghost predicate FromChain(b: Table, b': Table, p: Addr, s: Key, cell: Addr) {
    exists k: nat :: MovedCell(b, b', p, s, k, cell)
  }

  /** Among the first j leaves of the chain, just those that have a place on p got cells there. */
  ghost predicate Promoting(b: Table, b': Table, p: Addr, s: Key, j: nat) {
    && s in b.chain && j <= |b.chain[s]| && p in b.lists && p in b'.lists && b'.lists == b.lists[p := b'.lists[p]]
    && b'.chain == b.chain && SameCells(b.rm, b'.rm) && OnlyLists(b.t.node, b'.t.node) && b.lists[p] == []
    && (forall k: nat | j <= k < |b.chain[s]| && b.chain[s][k] in b.t.node :: b'.t.node[b.chain[s][k]] == b.t.node[b.chain[s][k]])
    && (forall k: nat | k < j && Moves(b, p, s, k) :: HasCell(b', p, b.chain[s][k]))
    && forall i | 0 <= i < |b'.lists[p]| :: FromChain(b, b', p, s, b'.lists[p][i])
  }

  ghost predicate Promoted(b: Table, b': Table, p: Addr, s: Key) {
    s in b.chain && Promoting(b, b', p, s, |b.chain[s]|)
  }

  /** p is the test node above the leaf that holds the chain of s. */
  ghost predicate ParentOf(b: Table, s: Key, p: Addr) {
    s in b.chain && b.chain[s] != [] && b.chain[s][0] in b.t.node && b.t.node[b.chain[s][0]].p == p
  }

  lemma StillParent(b: Table, b': Table, s: Key, p: Addr)
    requires ParentOf(b, s, p) && b'.chain == b.chain && OnlyLists(b.t.node, b'.t.node)
    ensures ParentOf(b', s, p)
  {
    var h := b.chain[s][0];
    assert h in b'.t.node && b'.t.node[h] == b.t.node[h].(masklist := b'.t.node[h].masklist);
  }

  /** The leaf had no cell, and its mask has a place on p. */
  ghost predicate Stays(b: Table, b': Table, p: Addr, a: Addr) {
    && a in b.t.node && p in b'.t.node && b.t.node[a].mask != [] && b.t.node[a].masklist == NULL
    && -1 - b.t.node[a].b <= b'.t.node[p].b
  }

  ghost predicate ChainListed(b: Table, b': Table, p: Addr, s: Key) {
    s in b.chain && forall j: nat | j < |b.chain[s]| && Stays(b, b', p, b.chain[s][j]) :: HasCell(b', p, b.chain[s][j])
  }

  /** The routes of the leaf's sibling under p that had no cell have one on p, if their masks have a place there. */
  ghost predicate SiblingsListed(b: Table, b': Table, p: Addr, ti: Addr) {
    && p in b'.t.node
    && var x := if b'.t.node[p].l == ti then b'.t.node[p].r else b'.t.node[p].l;
    x in b.t.node && b.t.node[x].b < 0 && b.t.off <= |b.t.node[x].key| ==> ChainListed(b, b', p, Suffix(b.t.node[x].key, b.t.off))
  }

  lemma StillListed(b: Table, b1: Table, b2: Table, p: Addr, ti: Addr)
    requires ListsGrow(b1, b2) && OnlyLists(b1.t.node, b2.t.node) && p in b1.t.inner && SiblingsListed(b, b1, p, ti)
    ensures SiblingsListed(b, b2, p, ti)
  {
    forall a | HasCell(b1, p, a) ensures HasCell(b2, p, a) {
      var i :| 0 <= i < |b1.lists[p]| && b1.lists[p][i] in b1.rm && b1.rm[b1.lists[p][i]].leaf == a;
      assert b2.lists[p][i] == b1.lists[p][i];
    }
  }

  lemma PromoteStart(b: Table, p: Addr, s: Key)
    requires s in b.chain && p in b.lists && b.lists[p] == []
    ensures Promoting(b, b, p, s, 0)
  {
  }

  lemma PromoteSkip(b: Table, b': Table, p: Addr, s: Key, j: nat)
    requires Promoting(b, b', p, s, j) && j < |b.chain[s]| && !Moves(b, p, s, j)
    ensures Promoting(b, b', p, s, j + 1)
  {
  }

  lemma PromotingFacts(b: Table, b': Table, p: Addr, s: Key, j: nat)
    requires Promoting(b, b', p, s, j)
    ensures s in b.chain && b'.chain == b.chain && OnlyLists(b.t.node, b'.t.node) && p in b'.lists
    ensures j < |b.chain[s]| && b.chain[s][j] in b.t.node ==> b.chain[s][j] in b'.t.node && b'.t.node[b.chain[s][j]] == b.t.node[b.chain[s][j]]
    ensures p in b.t.node ==> p in b'.t.node && b'.t.node[p].b == b.t.node[p].b
  {
  }

  lemma MovesIff(b: Table, p: Addr, s: Key, j: nat)
    requires s in b.chain && j < |b.chain[s]| && p in b.t.node && b.chain[s][j] in b.t.node
    ensures var n := b.t.node[b.chain[s][j]];
      Moves(b, p, s, j) <==> n.mask != [] && n.masklist == NULL && -1 - n.b <= b.t.node[p].b
  {
  }

  lemma ChainsApart(b: Table, s: Key, p: Addr, j: nat)
    requires TableOk(b) && p in b.t.inner && s in b.chain && j < |b.chain[s]|
    ensures b.chain[s][j] != p
    ensures forall k: nat | j < k < |b.chain[s]| :: b.chain[s][k] != b.chain[s][j] && b.chain[s][k] != p
  {
    hide TableOk;
    ChainApart(b, s, p, j);
    forall k: nat | j < k < |b.chain[s]| ensures b.chain[s][k] != p {
      ChainApart(b, s, p, k);
    }
  }

  /** Leaves of one chain are different records, and none of them is a test node. */
  lemma ChainApart(b: Table, s: Key, p: Addr, j: nat)
    requires TableOk(b) && p in b.t.inner && s in b.chain && j < |b.chain[s]|
    ensures b.chain[s][j] != p && forall k: nat | j < k < |b.chain[s]| :: b.chain[s][k] != b.chain[s][j]
  {
    hide TableOk, Ok, LeafOk;
    TableParts(b);
    TableChain(b, s);
    ChainElement(b, s, j);
    LeafBit(b.t, b.chain[s][j]);
    InnerBit(b.t, p);
    forall k: nat | j < k < |b.chain[s]| ensures b.chain[s][k] != b.chain[s][j] {
      TableDistinct(b, s, j, k);
    }
  }

  lemma PromoteMore(b: Table, b1: Table, b2: Table, p: Addr, s: Key, j: nat, cell: Addr)
    requires Promoting(b, b1, p, s, j) && j < |b.chain[s]| && Moves(b, p, s, j) && NewCell(b1, b2, p, b.chain[s][j], cell)
    requires b.chain[s][j] != p && forall k: nat | j < k < |b.chain[s]| :: b.chain[s][k] != b.chain[s][j] && b.chain[s][k] != p
    ensures Promoting(b, b2, p, s, j + 1)
  {
    hide Moves;
    var c := b.chain[s];
    forall k: nat | k < j + 1 && Moves(b, p, s, k) ensures HasCell(b2, p, c[k]) {
      if k < j {
        StillHasCell(b1, b2, p, c[j], cell, c[k]);
      } else {
        assert b2.lists[p][|b2.lists[p]| - 1] == cell;
      }
    }
    forall i | 0 <= i < |b2.lists[p]| ensures FromChain(b, b2, p, s, b2.lists[p][i]) {
      if i < |b1.lists[p]| {
        assert b2.lists[p][i] == b1.lists[p][i] && FromChain(b, b1, p, s, b1.lists[p][i]);
        var k: nat :| MovedCell(b, b1, p, s, k, b1.lists[p][i]);
        assert MovedCell(b, b2, p, s, k, b2.lists[p][i]);
      } else {
        assert MovedCell(b, b2, p, s, j, b2.lists[p][i]);
      }
    }
  }

  /** What one more cell on the new test node leaves as it was. */
  lemma PromoteOne(b0: Table, b1: Table, b2: Table, p: Addr, s: Key, j: nat, cell: Addr)
    requires TableOk(b0) && p in b0.t.inner && p in b0.t.node && Promoting(b0, b1, p, s, j) && ListsGrow(b0, b1)
    requires s in b0.chain && j < |b0.chain[s]| && Moves(b0, p, s, j) && NewCell(b1, b2, p, b0.chain[s][j], cell)
    ensures Promoting(b0, b2, p, s, j + 1) && ListsGrow(b0, b2)
    ensures p in b1.lists && b2.lists == b1.lists[p := b1.lists[p] + [cell]] && b2.chain == b1.chain
    ensures OnlyLists(b0.t.node, b2.t.node) && p in b2.t.node && b2.t.node[p].b == b0.t.node[p].b
  {
    hide TableOk, ListsGrow, NewCell, Moves, Promoting, OnlyLists;
    PromotingFacts(b0, b1, p, s, j);
    ChainsApart(b0, s, p, j);
    PromoteMore(b0, b1, b2, p, s, j, cell);
    NewCellGrows(b0, b1, b2, p, b0.chain[s][j], cell);
    NewCellFacts(b1, b2, p, b0.chain[s][j], cell);
    OnlyListsTrans(b0.t.node, b1.t.node, b2.t.node);
  }

  lemma StillHasCell(b: Table, b': Table, x: Addr, leaf: Addr, cell: Addr, a: Addr)
    requires NewCell(b, b', x, leaf, cell) && HasCell(b, x, a)
    ensures HasCell(b', x, a)
  {
    var i :| 0 <= i < |b.lists[x]| && b.lists[x][i] in b.rm && b.rm[b.lists[x][i]].leaf == a;
    assert b'.lists[x][i] == b.lists[x][i];
  }
}

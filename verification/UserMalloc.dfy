/** The address-ordered, coalescing first-fit allocator of lib/malloc.c.

    Addresses count header-sized units (sizeof(HEADER) is 8 bytes).  The memory of headers is the
    pair of maps `next` (s.ptr) and `size` (s.size); `base` is the static list head, a node of size
    zero outside the heap and never adjacent to it.  Ghost state names the free nodes, the live
    blocks and, for every unit of the heap, the block that owns it. */
module UserMalloc {

  const NALLOC: nat := 128
  const HEADER_BYTES: nat := 8
  const WORD: nat := 0x1_0000_0000  // size_t is 32 bits wide

  // ---------- Request arithmetic, with the width of size_t ----------

  /** The number of units for a request of nbytes, header included. */
  function Units(nbytes: nat): (n: nat)
    ensures n >= 1
  {
    ((nbytes + HEADER_BYTES - 1) % WORD) / HEADER_BYTES + 1
  }

  /** nunits rounded up to whole NALLOC chunks. */
  function CoreUnits(nunits: nat): nat {
    (nunits + NALLOC - 1) / NALLOC * NALLOC
  }

  /** The byte count that coremore passes to sbrk. */
  function CoreBytes(nunits: nat): nat {
    (CoreUnits(nunits) * HEADER_BYTES) % WORD
  }

  /** These are the fewest units that hold a header and nbytes bytes, and the fewest whole chunks of core. */
  lemma UnitsLeast(nbytes: nat, n: nat)
    requires nbytes <= MAX_REQUEST
    ensures n >= Units(nbytes) <==> n >= 1 && (n - 1) * HEADER_BYTES >= nbytes
    ensures n % NALLOC == 0 ==> (n >= CoreUnits(Units(nbytes)) <==> n >= Units(nbytes))
    ensures CoreUnits(Units(nbytes)) % NALLOC == 0
  {
    assert Units(nbytes) == (nbytes + 7) / 8 + 1;
    ChunksLeast(Units(nbytes), n);
  }

  lemma ChunksLeast(nunits: nat, n: nat)
    ensures CoreUnits(nunits) % NALLOC == 0
    ensures n % NALLOC == 0 ==> (n >= CoreUnits(nunits) <==> n >= nunits)
  {
  }

  const MAX_REQUEST: nat := 0xffff_fbf8

  /** The largest request that the 32-bit arithmetic serves: up to it the block holds nbytes after
      its header and sbrk is asked for as many bytes as the new header claims; beyond it one of the
      two fails. */
  lemma RequestExact(nbytes: nat)
    requires nbytes < WORD
    ensures nbytes <= MAX_REQUEST <==>
      (Units(nbytes) - 1) * HEADER_BYTES >= nbytes && CoreBytes(Units(nbytes)) == CoreUnits(Units(nbytes)) * HEADER_BYTES
  {
    var n := Units(nbytes);
    if nbytes + HEADER_BYTES - 1 < WORD {
      assert n == (nbytes + 7) / 8 + 1;
      if nbytes <= MAX_REQUEST {
        assert n + 127 <= 0x1fff_ffff;
        assert CoreUnits(n) <= 0x1fff_ff80;
      } else {
        assert 0x1fff_ff81 <= n <= 0x2000_0000;
        assert CoreUnits(n) == 0x2000_0000;
      }
    } else {
      assert n == 1;
    }
  }

  /** What becomes of a larger request: the last seven get a header and no room at all, and for the others
      coremore asks sbrk for nothing while claiming 2^29 units. */
  lemma RequestTooLarge(nbytes: nat)
    requires MAX_REQUEST < nbytes < WORD
    ensures if nbytes > WORD - HEADER_BYTES then Units(nbytes) == 1
            else CoreUnits(Units(nbytes)) == 0x2000_0000 && CoreBytes(Units(nbytes)) == 0
  {
    var n := Units(nbytes);
    if nbytes <= WORD - HEADER_BYTES {
      assert n == (nbytes + 7) / 8 + 1;
      assert 0x1fff_ff81 <= n <= 0x2000_0000;
    }
  }

  lemma RequestServed(nbytes: nat)
    requires nbytes < WORD && (nbytes <= MAX_REQUEST || nbytes > WORD - HEADER_BYTES)
    ensures CoreBytes(Units(nbytes)) == CoreUnits(Units(nbytes)) * HEADER_BYTES
    ensures (Units(nbytes) - 1) * HEADER_BYTES >= nbytes <==> nbytes <= MAX_REQUEST
  {
    RequestExact(nbytes);
    if nbytes > MAX_REQUEST { RequestTooLarge(nbytes); }
  }

  // ---------- The ring of free nodes ----------

  /** x lies on the arc from a up to b, both ends excluded; the arc wraps when a is not below b. */
  ghost predicate Between(a: int, x: int, b: int) {
    if a < b then a < x < b else x > a || x < b
  }

  /** b is the next node after a in address order, or the first one when a is the last. */
  ghost predicate Succ(F: set<int>, a: int, b: int) {
    b in F && forall f | f in F :: !Between(a, f, b)
  }

  /** The links of F form one address-ordered ring with a single wrap. */
  ghost predicate Ring(F: set<int>, next: map<int, int>) {
    forall a | a in F :: a in next && Succ(F, a, next[a])
  }

  /** How far behind s a node comes when the ring is walked from s. */
  ghost function Ahead(s: int, a: int, span: int): int {
    if s <= a then a - s else a - s + span
  }

  ghost predicate Within(F: set<int>, span: int) {
    forall a, b | a in F && b in F :: a - b < span
  }

  /** A step along the ring moves away from s until it is back at s. */
  lemma StepAhead(F: set<int>, s: int, a: int, b: int, span: int)
    requires s in F && a in F && Succ(F, a, b) && Within(F, span)
    ensures b == s || Ahead(s, a, span) < Ahead(s, b, span) < 2 * span
    ensures 0 <= Ahead(s, a, span)
  {
    assert s - a < span && b - a < span && a - b < span && b - s < span;
  }

  lemma RingStep(F: set<int>, next: map<int, int>, s: int, a: int, span: int)
    requires Ring(F, next) && Within(F, span) && s in F && a in F
    ensures a in next && next[a] in F
    ensures next[a] == s || Ahead(s, a, span) < Ahead(s, next[a], span) < 2 * span
  {
    StepAhead(F, s, a, next[a], span);
  }

  function Walk(next: map<int, int>, a: int, n: nat): int
    decreases n
  {
    if n == 0 then a else if a in next then Walk(next, next[a], n - 1) else a
  }

  lemma WalkStep(next: map<int, int>, a: int, n: nat)
    requires n > 0 ==> a in next
    ensures Walk(next, a, n) == if n == 0 then a else Walk(next, next[a], n - 1)
  {
  }

  /** Every free node is met on a walk from every other one: the list is a single ring. */
  lemma {:induction false} RingConnected(F: set<int>, next: map<int, int>, a: int, t: int, span: int) returns (n: nat)
    requires Ring(F, next) && Within(F, span) && a in F && t in F
    ensures Walk(next, a, n) == t
    decreases 2 * span - Ahead(t, a, span)
  {
    hide *;
    n := 0;
    WalkStep(next, a, 0);
    if a != t {
      RingStep(F, next, t, a, span);
      if next[a] != t {
        n := RingConnected(F, next, next[a], t, span);
      }
      WalkStep(next, t, 0);
      n := n + 1;
      WalkStep(next, a, n);
    }
  }

  lemma SuccWith(F: set<int>, a: int, b: int, q: int, n: int, p: int)
    requires Succ(F, a, b) && Succ(F, q, n) && a in F && q in F && a != q && Between(q, p, n)
    ensures Succ(F + {p}, a, b)
  {
    assert !Between(a, q, b) && !Between(q, a, n) && !Between(q, b, n) && !Between(a, n, b);
  }

  /** Put p between q and its successor. */
  lemma RingInsert(F: set<int>, next: map<int, int>, q: int, p: int)
    requires Ring(F, next) && q in F && p !in F && Between(q, p, next[q])
    ensures Ring(F + {p}, next[p := next[q]][q := p])
  {
    var n := next[q];
    forall a | a in F + {p} ensures a in next[p := n][q := p] && Succ(F + {p}, a, next[p := n][q := p][a]) {
      assert Succ(F, q, n);
      if a != p && a != q {
        assert Succ(F, a, next[a]);
        hide Succ;
        SuccWith(F, a, next[a], q, n, p);
      }
    }
  }

  lemma SuccWithout(F: set<int>, a: int, b: int, q: int, p: int, n: int)
    requires Succ(F, a, b) && Succ(F, q, p) && Succ(F, p, n) && a in F && q in F && p != q && a != p
    ensures if a == q then b == p && Succ(F - {p}, q, n) else b != p && Succ(F - {p}, a, b)
  {
    assert p in F && n in F && !Between(q, a, p) && !Between(a, q, b) && !Between(a, p, b) && !Between(q, b, p);
  }

  /** Unlink the successor of q. */
  lemma RingRemove(F: set<int>, next: map<int, int>, q: int)
    requires Ring(F, next) && q in F && next[q] != q
    ensures next[q] in F && Ring(F - {next[q]}, next[q := next[next[q]]])
  {
    var p := next[q];
    assert Succ(F, q, p) && Succ(F, p, next[p]);
    forall a | a in F - {p} ensures a in next && Succ(F - {p}, a, next[q := next[p]][a]) {
      assert Succ(F, a, next[a]);
      hide Succ;
      SuccWithout(F, a, next[a], q, p, next[p]);
    }
  }

  // ---------- The heap as a tiling ----------

  /** owner(u) is the block that unit u belongs to. */
  type Owner = int -> int

  ghost predicate Owned(owner: Owner, a: int, n: int) {
    1 <= n && forall u | a <= u < a + n :: owner(u) == a
  }

  ghost predicate IsBlock(size: map<int, int>, owner: Owner, lo: int, brk: int, a: int) {
    a in size && lo <= a && a + size[a] <= brk && Owned(owner, a, size[a])
  }

  ghost predicate Covered(B: set<int>, size: map<int, int>, owner: Owner, u: int) {
    owner(u) in B && owner(u) in size && owner(u) <= u < owner(u) + size[owner(u)]
  }

  /** The blocks B are pairwise disjoint, lie in [lo, brk) and together cover it. */
  ghost predicate Tiles(B: set<int>, size: map<int, int>, owner: Owner, lo: int, brk: int) {
    && (forall a | a in B :: IsBlock(size, owner, lo, brk, a))
    && (forall u | lo <= u < brk :: Covered(B, size, owner, u))
  }

  lemma BlocksDisjoint(B: set<int>, size: map<int, int>, owner: Owner, lo: int, brk: int, a: int, b: int)
    requires Tiles(B, size, owner, lo, brk) && a in B && b in B && a < b
    ensures a in size && a + size[a] <= b
  {
    assert IsBlock(size, owner, lo, brk, a) && IsBlock(size, owner, lo, brk, b);
    assert owner(a) == a && owner(b) == b;
  }

  /** The unit just behind a block starts another block. */
  lemma NextStarts(B: set<int>, size: map<int, int>, owner: Owner, lo: int, brk: int, a: int)
    requires Tiles(B, size, owner, lo, brk) && a in B && a in size && a + size[a] < brk
    ensures a + size[a] in B
  {
    var e := a + size[a];
    assert IsBlock(size, owner, lo, brk, a);
    assert owner(e - 1) == a;
    var s := owner(e);
    assert Covered(B, size, owner, e);
    assert IsBlock(size, owner, lo, brk, s);
  }

  ghost function Reown(owner: Owner, a: int, n: int, to: int): Owner {
    (u: int) => if a <= u < a + n then to else owner(u)
  }

  /** Cut the last n units off the block p: they become the block h. */
  lemma TilesSplit(B: set<int>, size: map<int, int>, owner: Owner, lo: int, brk: int, p: int, n: nat)
    requires Tiles(B, size, owner, lo, brk) && p in B && p in size && 0 < n < size[p]
    ensures var h := p + size[p] - n;
      h !in B && lo < h < brk && Tiles(B + {h}, size[p := size[p] - n][h := n], Reown(owner, h, n, h), lo, brk)
  {
    var h := p + size[p] - n;
    var owner' := Reown(owner, h, n, h);
    var size' := size[p := size[p] - n][h := n];
    assert IsBlock(size, owner, lo, brk, p);
    assert owner(h) == p;
    forall a | a in B + {h} ensures IsBlock(size', owner', lo, brk, a) {
      if a != p && a != h {
        assert IsBlock(size, owner, lo, brk, a);
        OwnedApart(owner, a, size[a], p, size[p], h, n, h);
      }
    }
    forall u | lo <= u < brk ensures Covered(B + {h}, size', owner', u) {
      assert Covered(B, size, owner, u);
    }
  }

  /** Units of one block come to belong to another; the units of a third one do not. */
  lemma OwnedApart(owner: Owner, a: int, m: int, p: int, k: int, h: int, n: int, to: int)
    requires Owned(owner, a, m) && Owned(owner, p, k) && a != p && p <= h && h + n <= p + k
    ensures Owned(Reown(owner, h, n, to), a, m)
  {
    forall u | a <= u < a + m ensures Reown(owner, h, n, to)(u) == a {
      assert p <= u < p + k ==> owner(u) == p;
      assert owner(u) == a;
    }
  }

  /** Let the block a absorb the block b that starts where a ends. */
  lemma TilesMerge(B: set<int>, size: map<int, int>, owner: Owner, lo: int, brk: int, a: int, b: int)
    requires Tiles(B, size, owner, lo, brk) && a in B && b in B && a in size && b in size && b == a + size[a]
    ensures Tiles(B - {b}, size[a := size[a] + size[b]], Reown(owner, b, size[b], a), lo, brk)
  {
    var owner' := Reown(owner, b, size[b], a);
    var size' := size[a := size[a] + size[b]];
    assert IsBlock(size, owner, lo, brk, a) && IsBlock(size, owner, lo, brk, b);
    forall c | c in B - {b} ensures IsBlock(size', owner', lo, brk, c) {
      assert IsBlock(size, owner, lo, brk, c);
      forall u | c <= u < c + size'[c] ensures owner'(u) == c {
        assert u < c + size[c] ==> owner(u) == c;
      }
    }
    forall u | lo <= u < brk ensures Covered(B - {b}, size', owner', u) {
      assert Covered(B, size, owner, u);
      assert IsBlock(size, owner, lo, brk, owner(u));
    }
  }

  /** sbrk gave [brk, brk + n): a block of its own. */
  lemma TilesGrow(B: set<int>, size: map<int, int>, owner: Owner, lo: int, brk: int, n: nat)
    requires Tiles(B, size, owner, lo, brk) && lo <= brk && 0 < n
    ensures brk !in B && Tiles(B + {brk}, size[brk := n], Reown(owner, brk, n, brk), lo, brk + n)
  {
    var owner' := Reown(owner, brk, n, brk);
    var size' := size[brk := n];
    forall a | a in B ensures a < brk && IsBlock(size', owner', lo, brk + n, a) {
      assert IsBlock(size, owner, lo, brk, a);
    }
    forall u | lo <= u < brk ensures Covered(B + {brk}, size', owner', u) {
      assert Covered(B, size, owner, u);
    }
  }

  // ---------- Conservation ----------

  ghost function Interval(lo: int, hi: int): (s: set<int>)
    requires lo <= hi
    ensures |s| == hi - lo && forall u :: u in s <==> lo <= u < hi
    decreases hi - lo
  {
    if lo == hi then {} else Interval(lo, hi - 1) + {hi - 1}
  }

  /** The units of the heap that belong to a block of B. */
  ghost function UnitsOf(B: set<int>, owner: Owner, lo: int, brk: int): set<int>
    requires lo <= brk
  {
    set u | u in Interval(lo, brk) && owner(u) in B
  }

  /** Conservation: free and live units together are exactly what sbrk gave. */
  lemma Conservation(F: set<int>, L: set<int>, size: map<int, int>, owner: Owner, lo: int, brk: int)
    requires lo <= brk && F !! L && Tiles(F + L, size, owner, lo, brk)
    ensures UnitsOf(F, owner, lo, brk) !! UnitsOf(L, owner, lo, brk)
    ensures |UnitsOf(F, owner, lo, brk)| + |UnitsOf(L, owner, lo, brk)| == brk - lo
  {
    forall u | lo <= u < brk ensures owner(u) in F + L { assert Covered(F + L, size, owner, u); }
    assert UnitsOf(F, owner, lo, brk) + UnitsOf(L, owner, lo, brk) == Interval(lo, brk);
  }

  /** The units of one block are as many as its header says. */
  lemma BlockUnits(B: set<int>, size: map<int, int>, owner: Owner, lo: int, brk: int, a: int)
    requires lo <= brk && Tiles(B, size, owner, lo, brk) && a in B
    ensures a in size && |UnitsOf({a}, owner, lo, brk)| == size[a]
  {
    assert IsBlock(size, owner, lo, brk, a);
    forall u | lo <= u < brk && owner(u) == a ensures a <= u < a + size[a] { assert Covered(B, size, owner, u); }
    assert UnitsOf({a}, owner, lo, brk) == Interval(a, a + size[a]);
  }

  // ---------- Coalescing ----------

  ghost predicate Touches(size: map<int, int>, base: int, a: int, b: int) {
    a != base && b != base && a in size && a + size[a] == b
  }

  /** No free block ends where another free block starts. */
  ghost predicate Apart(F: set<int>, size: map<int, int>, base: int) {
    forall a, b | a in F && b in F :: !Touches(size, base, a, b)
  }

  /** Once nothing is live, everything sbrk gave is one free block. */
  lemma AllFreed(F: set<int>, size: map<int, int>, owner: Owner, base: int, lo: int, brk: int)
    requires Tiles(F - {base}, size, owner, lo, brk) && Apart(F, size, base) && base in F && lo < brk
    ensures F == {base, lo} && lo in size && size[lo] == brk - lo
  {
    assert Covered(F - {base}, size, owner, lo);
    var a := owner(lo);
    assert IsBlock(size, owner, lo, brk, a);
    assert a == lo;
    var touching := Touches(size, base, lo, lo + size[lo]);
    if lo + size[lo] < brk {
      NextStarts(F - {base}, size, owner, lo, brk, lo);
    }
    forall f | f in F && f != base ensures f == lo {
      assert IsBlock(size, owner, lo, brk, f);
      assert owner(f) == f && owner(f) == lo;
    }
  }

  /** After p has been linked in between q and n, only (q, p) and (p, n) can touch. */
  ghost predicate TouchOnly(F: set<int>, size: map<int, int>, base: int, q: int, p: int, n: int) {
    forall a, b | a in F && b in F && Touches(size, base, a, b) :: (a == q && b == p) || (a == p && b == n)
  }

  lemma TouchAfterInsert(F: set<int>, size: map<int, int>, owner: Owner, L: set<int>, base: int, lo: int, brk: int, q: int, p: int, n: int)
    requires Apart(F, size, base) && Succ(F, q, n) && q in F && Between(q, p, n) && p !in F && p != base && p in size
    requires Tiles(F + {p} - {base} + L, size, owner, lo, brk) && (base < lo || brk < base)
    ensures TouchOnly(F + {p}, size, base, q, p, n)
  {
    var B := F + {p} - {base} + L;
    forall a, b | a in F + {p} && b in F + {p} && Touches(size, base, a, b)
      ensures (a == q && b == p) || (a == p && b == n)
    {
      assert IsBlock(size, owner, lo, brk, a);
      if a == p && b != n {
        assert !Between(q, b, n);
        if n != base && p < n { BlocksDisjoint(B, size, owner, lo, brk, p, n); }
      } else if b == p && a != q {
        assert !Between(q, a, n);
        if q != base && a < q { BlocksDisjoint(B, size, owner, lo, brk, a, q); }
      }
    }
  }

  /** Searching the ring for the place of p: as long as p is not on the arc behind q, it lies further on. */
  lemma SearchStep(F: set<int>, s: int, q: int, n: int, p: int, span: int)
    requires s in F && q in F && Succ(F, q, n) && p !in F && !Between(q, p, n)
    requires 0 < p < span && forall f | f in F :: 0 < f < span
    requires Ahead(s, q, span) < Ahead(s, p, span)
    ensures n in F && n != s && Ahead(s, q, span) < Ahead(s, n, span) < Ahead(s, p, span) < span
  {
    assert !Between(q, s, n);
  }

  /** Between one node of the ring and the next there is no other, as seen from s. */
  lemma NoneBetween(F: set<int>, s: int, q: int, n: int, f: int, span: int)
    requires s in F && q in F && f in F && Succ(F, q, n)
    requires forall f | f in F :: 0 < f < span
    ensures n == s ==> Ahead(s, f, span) <= Ahead(s, q, span)
    ensures n != s && Ahead(s, f, span) <= Ahead(s, n, span) ==> f == n || Ahead(s, f, span) <= Ahead(s, q, span)
    ensures n != s ==> Ahead(s, q, span) < Ahead(s, n, span) < span
  {
    assert !Between(q, s, n) && !Between(q, f, n);
  }

  lemma MergeTouch(F: set<int>, size: map<int, int>, base: int, q: int, p: int, n: int)
    requires TouchOnly(F, size, base, q, p, n) && p in size && n in size && p in F && n in F && n != base && p != base
    requires n != q && n != p && Touches(size, base, p, n)
    ensures TouchOnly(F - {n}, size[p := size[p] + size[n]], base, q, p, n)
    ensures forall b | b in F - {n} :: !Touches(size[p := size[p] + size[n]], base, p, b)
  {
    var size' := size[p := size[p] + size[n]];
    forall a, b | a in F - {n} && b in F - {n} && Touches(size', base, a, b) ensures a == q && b == p {
      var t, t' := Touches(size, base, n, b), Touches(size, base, a, b);
    }
  }

  // ---------- The whole heap as a value ----------

  datatype View = View(base: int, lo: int, limit: int, brk: int, next: map<int, int>, size: map<int, int>,
                             free: set<int>, live: map<int, nat>, owner: Owner)

  ghost function Blocks(v: View): set<int> {
    v.free - {v.base} + v.live.Keys
  }

  ghost predicate Bounds(v: View) {
    0 < v.lo <= v.brk <= v.limit && 0 < v.base && (v.base < v.lo || v.limit < v.base)
  }

  /** Free and live blocks are told apart and every live header still holds the size it was given. */
  ghost predicate Headers(v: View) {
    && v.base in v.free && v.base in v.size && v.size[v.base] == 0
    && v.free !! v.live.Keys
    && (forall a | a in v.live :: a in v.size && v.size[a] == v.live[a])
  }

  ghost predicate Ok(v: View) {
    && Bounds(v) && Headers(v)
    && Ring(v.free, v.next)
    && Apart(v.free, v.size, v.base)
    && Tiles(Blocks(v), v.size, v.owner, v.lo, v.brk)
  }

  ghost function Span(v: View): int {
    v.base + v.limit + 1
  }

  lemma OkParts(v: View)
    requires Ok(v)
    ensures Bounds(v) && Headers(v) && Ring(v.free, v.next) && Apart(v.free, v.size, v.base)
    ensures Tiles(Blocks(v), v.size, v.owner, v.lo, v.brk)
  {
  }

  lemma OkBounds(v: View)
    requires Ok(v)
    ensures Bounds(v)
  {
  }

  lemma FreeNode(v: View, f: int)
    requires Ok(v) && f in v.free
    ensures f in v.size && f in v.next && v.next[f] in v.free && Succ(v.free, f, v.next[f])
    ensures 0 < f < Span(v) && v.size[f] >= 0
    ensures f != v.base ==> v.lo <= f && v.size[f] >= 1 && f + v.size[f] <= v.brk
  {
    if f != v.base { assert f in Blocks(v) && IsBlock(v.size, v.owner, v.lo, v.brk, f); }
  }

  lemma FreeNodes(v: View)
    requires Ok(v)
    ensures forall f | f in v.free :: 0 < f < Span(v)
  {
    forall f | f in v.free ensures 0 < f < Span(v) { hide Ok; FreeNode(v, f); }
  }

  lemma LiveBlock(v: View, p: int)
    requires Ok(v) && p in v.live
    ensures p in v.size && v.size[p] == v.live[p] >= 1 && v.lo <= p && p + v.size[p] <= v.brk
    ensures p !in v.free && p != v.base
  {
    assert p in Blocks(v) && IsBlock(v.size, v.owner, v.lo, v.brk, p);
  }

  // ---------- free on values ----------

  /** Link the block p into the ring behind q. */
  ghost function Link(v: View, p: int, q: int): View
    requires q in v.next
  {
    v.(next := v.next[p := v.next[q]][q := p], free := v.free + {p}, live := v.live - {p})
  }

  /** Let a absorb its successor on the ring. */
  ghost function Absorb(v: View, a: int): View
    requires a in v.next && v.next[a] in v.next && a in v.size && v.next[a] in v.size
  {
    var b := v.next[a];
    v.(next := v.next[a := v.next[b]], size := v.size[a := v.size[a] + v.size[b]],
       free := v.free - {b}, owner := Reown(v.owner, b, v.size[b], a))
  }

  /** Everything but the separation of free blocks, of which only (q, p) and (p, n) may touch. */
  ghost predicate Linked(v: View, q: int, p: int, n: int) {
    && Bounds(v) && Headers(v)
    && Ring(v.free, v.next)
    && TouchOnly(v.free, v.size, v.base, q, p, n)
    && Tiles(Blocks(v), v.size, v.owner, v.lo, v.brk)
    && q in v.free && p in v.free && p != v.base && q in v.next && v.next[q] == p
  }

  lemma LinkTouch(v: View, p: int, q: int)
    requires Ok(v) && p in v.live && q in v.free && q in v.next && Between(q, p, v.next[q])
    ensures TouchOnly(v.free + {p}, v.size, v.base, q, p, v.next[q])
  {
    hide Ok, Ring, Tiles, Apart, TouchOnly, Succ, Between;
    OkParts(v);
    FreeNode(v, q);
    LiveBlock(v, p);
    var L := v.live.Keys - {p};
    assert v.free + {p} - {v.base} + L == Blocks(v);
    TouchAfterInsert(v.free, v.size, v.owner, L, v.base, v.lo, v.brk, q, p, v.next[q]);
  }

  lemma LinkOk(v: View, p: int, q: int)
    requires Ok(v) && p in v.live && q in v.free && q in v.next && Between(q, p, v.next[q])
    ensures var v1 := Link(v, p, q);
      Linked(v1, q, p, v.next[q]) && v1.next[p] == v.next[q] && v.next[q] in v1.free && Blocks(v1) == Blocks(v)
  {
    hide Ring, Tiles, Apart, TouchOnly, Succ, Between;
    LinkTouch(v, p, q);
    FreeNode(v, q);
    LiveBlock(v, p);
    RingInsert(v.free, v.next, q, p);
    assert Blocks(Link(v, p, q)) == Blocks(v);
  }

  /** No free block starts where p ends. */
  ghost predicate EndsFree(v: View, p: int) {
    forall b | b in v.free :: !Touches(v.size, v.base, p, b)
  }

  /** Absorbing a touching successor keeps the bounds, the headers and the tiling. */
  lemma AbsorbTiles(v: View, a: int, b: int)
    requires Bounds(v) && Headers(v) && Tiles(Blocks(v), v.size, v.owner, v.lo, v.brk)
    requires a in v.free && a != v.base && b in v.free && a in v.size && a + v.size[a] == b
    requires a in v.next && v.next[a] == b && b in v.next && b in v.size
    ensures b != v.base && b != a
    ensures var v' := Absorb(v, a); Headers(v') && Tiles(Blocks(v'), v'.size, v'.owner, v'.lo, v'.brk)
  {
    assert a in Blocks(v) && IsBlock(v.size, v.owner, v.lo, v.brk, a);
    assert b in Blocks(v) && IsBlock(v.size, v.owner, v.lo, v.brk, b);
    assert Blocks(Absorb(v, a)) == Blocks(v) - {b};
    hide Tiles, IsBlock;
    TilesMerge(Blocks(v), v.size, v.owner, v.lo, v.brk, a, b);
  }

  lemma AbsorbNext(v: View, q: int, p: int, n: int)
    requires Linked(v, q, p, n) && p in v.next && v.next[p] == n && n in v.free && n in v.size && p in v.size
    requires p + v.size[p] == n && n in v.next
    ensures var v2 := Absorb(v, p); Linked(v2, q, p, n) && EndsFree(v2, p)
  {
    hide Ring, Tiles, TouchOnly, Succ;
    AbsorbTiles(v, p, n);
    SelfArc(v, q, p, n);
    RingRemove(v.free, v.next, p);
    MergeTouch(v.free, v.size, v.base, q, p, n);
  }

  /** The node before p and the node behind it differ, since the list head is on the ring as well. */
  lemma SelfArc(v: View, q: int, p: int, n: int)
    requires Ring(v.free, v.next) && v.base in v.free && q in v.free && p in v.free
    requires v.next[q] == p && v.next[p] == n && p != v.base && n != v.base
    ensures q != n
  {
    assert Succ(v.free, q, p) && Succ(v.free, p, n);
    assert !Between(q, v.base, p) && !Between(p, v.base, n);
  }

  lemma AbsorbPrev(v: View, q: int, p: int, n: int)
    requires Linked(v, q, p, n) && EndsFree(v, p) && p in v.next && p in v.size && q in v.size
    ensures Ok(if q + v.size[q] == p then Absorb(v, q) else v)
  {
    if q + v.size[q] == p {
      hide *;
      AbsorbPrevTouching(v, q, p, n);
    } else {
      PrevApart(v, q, p, n);
    }
  }

  lemma AbsorbPrevTouching(v: View, q: int, p: int, n: int)
    requires Linked(v, q, p, n) && EndsFree(v, p) && p in v.next && p in v.size && q in v.size
    requires q + v.size[q] == p
    ensures Ok(Absorb(v, q))
  {
    hide Ring, Tiles, TouchOnly, Succ, Apart, EndsFree, Blocks;
    AbsorbTiles(v, q, p);
    AbsorbApart(v, q, p, n);
    RingRemove(v.free, v.next, q);
  }

  lemma PrevApart(v: View, q: int, p: int, n: int)
    requires TouchOnly(v.free, v.size, v.base, q, p, n) && EndsFree(v, p)
    requires q in v.size && q + v.size[q] != p
    ensures Apart(v.free, v.size, v.base)
  {
  }

  lemma AbsorbApart(v: View, q: int, p: int, n: int)
    requires TouchOnly(v.free, v.size, v.base, q, p, n) && EndsFree(v, p)
    requires q in v.size && p in v.size && q in v.next && v.next[q] in v.next && v.next[q] == p && p != v.base
    requires q + v.size[q] == p && q in v.free && p in v.free
    ensures Apart(Absorb(v, q).free, Absorb(v, q).size, v.base)
  {
    var v2 := Absorb(v, q);
    forall a, b | a in v2.free && b in v2.free ensures !Touches(v2.size, v.base, a, b) {
      var t, t' := Touches(v.size, v.base, a, b), Touches(v.size, v.base, p, b);
    }
  }

  /** The heap after free has linked the block p in behind q and merged what touches. */
  ghost function AfterFree(v: View, p: int, q: int): View
    requires p in v.size && q in v.size && q in v.next && v.next[q] in v.size && v.next[q] in v.next
    requires p != q && p != v.next[q] && (p + v.size[p] == v.next[q] ==> q != v.next[q])
  {
    var w := Link(v, p, q);
    var w2 := if p + w.size[p] == w.next[p] then Absorb(w, p) else w;
    if q + w2.size[q] == p then Absorb(w2, q) else w2
  }

  lemma FreePlace(v: View, p: int, q: int)
    requires Ok(v) && p in v.live && q in v.free && q in v.next && Between(q, p, v.next[q])
    ensures p in v.size && q in v.size && v.next[q] in v.size && v.next[q] in v.next
    ensures p != q && p != v.next[q] && (p + v.size[p] == v.next[q] ==> q != v.next[q])
    ensures v.size[p] >= 1 && v.size[q] >= 0 && v.size[v.next[q]] >= 0
  {
    hide Ok;
    LiveBlock(v, p);
    FreeNode(v, q);
    FreeNode(v, v.next[q]);
    if q == v.next[q] { OnlyHead(v, q); }
  }

  lemma OnlyHead(v: View, q: int)
    requires Ok(v) && q in v.free && q in v.next && q == v.next[q]
    ensures forall p | p in v.live :: p in v.size && p + v.size[p] != q
  {
    FreeNode(v, q);
    assert !Between(q, v.base, q);
    forall p | p in v.live ensures p in v.size && p + v.size[p] != q { LiveBlock(v, p); }
  }

  lemma AfterFreeOk(v: View, p: int, q: int)
    requires Ok(v) && p in v.live && q in v.free && q in v.next && Between(q, p, v.next[q])
    requires p in v.size && q in v.size && v.next[q] in v.size && v.next[q] in v.next
    requires p != q && p != v.next[q] && (p + v.size[p] == v.next[q] ==> q != v.next[q])
    ensures var w := AfterFree(v, p, q);
      Ok(w) && q in w.free && w.live == v.live - {p} && w.brk == v.brk &&
      q in w.next && q in w.size && w.next[q] in w.size &&
      (w.size[q] >= v.size[p] || w.size[w.next[q]] >= v.size[p])
  {
    hide Ok, Linked, EndsFree, Touches;
    FreePlace(v, p, q);
    var w := Link(v, p, q);
    LinkOk(v, p, q);
    if p + w.size[p] == w.next[p] {
      AbsorbNext(w, q, p, w.next[p]);
      AbsorbPrev(Absorb(w, p), q, p, w.next[p]);
    } else {
      NoNext(w, q, p, w.next[p]);
      AbsorbPrev(w, q, p, w.next[p]);
    }
    FreeNode(AfterFree(v, p, q), q);
    FreeNode(AfterFree(v, p, q), AfterFree(v, p, q).next[q]);
  }

  /** The assignments of the C code build just that heap. */
  lemma AfterFreeMaps(v: View, p: int, q: int, next1: map<int, int>, size1: map<int, int>)
    requires p in v.size && q in v.size && q in v.next && v.next[q] in v.size && v.next[q] in v.next
    requires p != q && p != v.next[q] && (p + v.size[p] == v.next[q] ==> q != v.next[q])
    requires var n := v.next[q];
      next1 == v.next[p := if p + v.size[p] == n then v.next[n] else n] &&
      size1 == if p + v.size[p] == n then v.size[p := v.size[p] + v.size[n]] else v.size
    ensures AfterFree(v, p, q).next == next1[q := if q + size1[q] == p then next1[p] else p]
    ensures AfterFree(v, p, q).size == if q + size1[q] == p then size1[q := size1[q] + size1[p]] else size1
  {
  }

  lemma AfterFreeFrame(v: View, p: int, q: int)
    requires p in v.size && q in v.size && q in v.next && v.next[q] in v.size && v.next[q] in v.next
    requires p != q && p != v.next[q] && (p + v.size[p] == v.next[q] ==> q != v.next[q])
    ensures var w := AfterFree(v, p, q); w.base == v.base && w.lo == v.lo && w.limit == v.limit && w.brk == v.brk
  {
  }

  lemma NoNext(w: View, q: int, p: int, n: int)
    requires Linked(w, q, p, n) && p in w.size && p + w.size[p] != n
    ensures EndsFree(w, p)
  {
  }

  // ---------- malloc on values ----------

  /** Take the whole free block behind q. */
  ghost function Take(v: View, q: int): View
    requires q in v.next && v.next[q] in v.next && v.next[q] in v.size && 0 <= v.size[v.next[q]]
  {
    var p := v.next[q];
    v.(next := v.next[q := v.next[p]], free := v.free - {p}, live := v.live[p := v.size[p]])
  }

  lemma TakeFields(v: View, q: int)
    requires q in v.next && v.next[q] in v.next && v.next[q] in v.size && 0 <= v.size[v.next[q]]
    ensures var p := v.next[q];
      Take(v, q) == v.(next := v.next[q := v.next[p]], free := v.free - {p}, live := v.live[p := v.size[p]])
  {
  }

  lemma CutFields(v: View, p: int, n: nat)
    requires p in v.size
    ensures var h := p + v.size[p] - n;
      Cut(v, p, n) == v.(size := v.size[p := v.size[p] - n][h := n], live := v.live[h := n], owner := Reown(v.owner, h, n, h))
  {
  }

  lemma TakeOk(v: View, q: int)
    requires Ok(v) && q in v.free && q in v.next && v.next[q] in v.next && v.next[q] in v.size
    requires 0 < v.size[v.next[q]]
    ensures q != v.next[q] && v.next[q] !in v.live && Ok(Take(v, q))
  {
    hide Ring, Tiles, Apart, Succ;
    TakeOther(v, q);
    assert Blocks(Take(v, q)) == Blocks(v);
    ApartSubset(v.free, v.free - {v.next[q]}, v.size, v.base);
    RingRemove(v.free, v.next, q);
  }

  lemma ApartSubset(F: set<int>, G: set<int>, size: map<int, int>, base: int)
    requires Apart(F, size, base) && G <= F
    ensures Apart(G, size, base)
  {
  }

  lemma TakeOther(v: View, q: int)
    requires Ok(v) && q in v.free && q in v.next && v.next[q] in v.size && 0 < v.size[v.next[q]]
    ensures q != v.next[q] && v.next[q] in v.free && v.next[q] !in v.live && v.next[q] != v.base
  {
    hide Tiles, Apart;
    assert Succ(v.free, q, v.next[q]);
    assert !Between(q, v.base, v.next[q]);
  }

  /** Cut n units off the end of the free block p. */
  ghost function Cut(v: View, p: int, n: nat): View
    requires p in v.size
  {
    var h := p + v.size[p] - n;
    v.(size := v.size[p := v.size[p] - n][h := n], live := v.live[h := n], owner := Reown(v.owner, h, n, h))
  }

  lemma CutTiles(v: View, p: int, n: nat)
    requires Bounds(v) && Headers(v) && Tiles(Blocks(v), v.size, v.owner, v.lo, v.brk)
    requires p in v.free && p in v.size && 0 < n < v.size[p]
    ensures var h := p + v.size[p] - n; h !in v.live && h !in v.free && v.lo < h < v.brk
    ensures Tiles(Blocks(Cut(v, p, n)), Cut(v, p, n).size, Cut(v, p, n).owner, v.lo, v.brk)
  {
    var h := p + v.size[p] - n;
    hide Tiles;
    TilesSplit(Blocks(v), v.size, v.owner, v.lo, v.brk, p, n);
    assert Blocks(Cut(v, p, n)) == Blocks(v) + {h};
  }

  lemma CutOk(v: View, p: int, n: nat)
    requires Ok(v) && p in v.free && p in v.size && 0 < n < v.size[p]
    ensures var h := p + v.size[p] - n; h !in v.live && h !in v.free && v.lo < h < v.brk
    ensures Ok(Cut(v, p, n))
  {
    hide Ring, Tiles, Apart, Reown, Blocks;
    CutTiles(v, p, n);
    CutApart(v, p, n);
  }

  lemma CutApart(v: View, p: int, n: nat)
    requires Apart(v.free, v.size, v.base) && p in v.free && p in v.size && 0 < n < v.size[p]
    requires p + v.size[p] - n !in v.free
    ensures Apart(v.free, Cut(v, p, n).size, v.base)
  {
    forall a, b | a in v.free && b in v.free ensures !Touches(Cut(v, p, n).size, v.base, a, b) {
      var t := Touches(v.size, v.base, a, b);
    }
  }

  /** sbrk gave n units: they become a live block until coremore frees it. */
  ghost function Grow(v: View, n: nat): View {
    v.(brk := v.brk + n, size := v.size[v.brk := n], live := v.live[v.brk := n], owner := Reown(v.owner, v.brk, n, v.brk))
  }

  lemma GrowTiles(v: View, n: nat)
    requires Bounds(v) && Headers(v) && Tiles(Blocks(v), v.size, v.owner, v.lo, v.brk) && 0 < n && v.brk + n <= v.limit
    ensures v.brk !in v.live && v.brk !in v.free
    ensures Tiles(Blocks(Grow(v, n)), Grow(v, n).size, Grow(v, n).owner, v.lo, v.brk + n)
  {
    hide Tiles, Reown;
    TilesGrow(Blocks(v), v.size, v.owner, v.lo, v.brk, n);
    assert Blocks(Grow(v, n)) == Blocks(v) + {v.brk};
  }

  lemma GrowApart(v: View, n: nat)
    requires Apart(v.free, v.size, v.base) && v.brk !in v.free
    ensures Apart(v.free, Grow(v, n).size, v.base)
  {
    forall a, b | a in v.free && b in v.free ensures !Touches(Grow(v, n).size, v.base, a, b) {
      var t := Touches(v.size, v.base, a, b);
    }
  }

  lemma GrowOk(v: View, n: nat)
    requires Ok(v) && 0 < n && v.brk + n <= v.limit
    ensures v.brk !in v.live && v.brk !in v.free && Ok(Grow(v, n))
  {
    hide Ring, Tiles, Apart, Reown, Blocks;
    GrowTiles(v, n);
    GrowApart(v, n);
  }

  // ---------- What holds in every reachable state ----------

  /** The units of free and of live blocks partition what sbrk gave. */
  lemma UnitsConserved(v: View)
    requires Ok(v)
    ensures var F, L := v.free - {v.base}, v.live.Keys;
      UnitsOf(F, v.owner, v.lo, v.brk) !! UnitsOf(L, v.owner, v.lo, v.brk) &&
      |UnitsOf(F, v.owner, v.lo, v.brk)| + |UnitsOf(L, v.owner, v.lo, v.brk)| == v.brk - v.lo
  {
    hide Tiles, Ring, Apart, UnitsOf;
    Conservation(v.free - {v.base}, v.live.Keys, v.size, v.owner, v.lo, v.brk);
  }

  /** Any two blocks, free or live, are disjoint. */
  lemma NoOverlap(v: View, a: int, b: int)
    requires Ok(v) && a in Blocks(v) && b in Blocks(v) && a < b
    ensures a in v.size && a + v.size[a] <= b
  {
    hide Tiles, Ring, Apart;
    BlocksDisjoint(Blocks(v), v.size, v.owner, v.lo, v.brk, a, b);
  }

  /** With everything freed again, one free block holds all that sbrk ever gave. */
  lemma AllFreedOneBlock(v: View)
    requires Ok(v) && v.live == map[] && v.lo < v.brk
    ensures v.free == {v.base, v.lo} && v.lo in v.size && v.size[v.lo] == v.brk - v.lo
  {
    assert Blocks(v) == v.free - {v.base};
    hide Tiles, Ring, Apart;
    AllFreed(v.free, v.size, v.owner, v.base, v.lo, v.brk);
  }

  /** The list is one ring: following the links from any free node meets every other one. */
  lemma OneRing(v: View, a: int, t: int) returns (n: nat)
    requires Ok(v) && a in v.free && t in v.free
    ensures Walk(v.next, a, n) == t
  {
    FreeNodes(v);
    n := RingConnected(v.free, v.next, a, t, Span(v));
  }

  // ---------- The allocator ----------

  const NULL: int := 0

  class Heap {
    const base: int
    const lo: int
    const limit: int
    var next: map<int, int>
    var size: map<int, int>
    var allocp: int
    var brk: int
    ghost var free: set<int>
    ghost var live: map<int, nat>
    ghost var owner: Owner

    ghost function V(): View
      reads this
    {
      View(base, lo, limit, brk, next, size, free, live, owner)
    }

    /** Before the first malloc there is no list; afterwards allocp is one of its nodes. */
    ghost predicate Valid()
      reads this
    {
      Bounds(V()) && if allocp == NULL then live == map[] && free == {} && brk == lo else Ok(V()) && allocp in free
    }

    constructor (base: int, lo: int, limit: int)
      requires 0 < lo <= limit && 0 < base && (base < lo || limit < base)
      ensures Valid() && live == map[] && brk == lo && this.limit == limit
    {
      this.base, this.lo, this.limit := base, lo, limit;
      next, size, allocp, brk := map[], map[], NULL, lo;
      free, live, owner := {}, map[], u => u;
    }

    /** sbrk: the next bytes of the fixed region, or NULL when it is exhausted. */
    method Sbrk(bytes: nat) returns (p: int)
      requires bytes % HEADER_BYTES == 0
      modifies `brk
      ensures if old(brk) + bytes / HEADER_BYTES <= limit
              then p == old(brk) && brk == old(brk) + bytes / HEADER_BYTES
              else p == NULL && brk == old(brk)
    {
      if brk + bytes / HEADER_BYTES > limit {
        return NULL;
      }
      p := brk;
      brk := brk + bytes / HEADER_BYTES;
    }

    /** The loop of free: the arc of the ring on which p lies. */
    method FindPlace(p: int) returns (q: int)
      requires Valid() && allocp != NULL && p in live
      ensures q in free && q in next && Between(q, p, next[q])
    {
      hide Ok, Succ;
      ghost var v := V();
      q := allocp;
      LiveBlock(v, p);
      FreeNodes(v);
      FreeNode(v, q);
      while !(p > q && p < next[q])
        invariant q in free && q in next && Succ(free, q, next[q])
        invariant Ahead(allocp, q, Span(v)) < Ahead(allocp, p, Span(v)) < Span(v)
        decreases Span(v) - Ahead(allocp, q, Span(v))
      {
        if next[q] <= q && (p > q || p < next[q]) {
          break;
        }
        SearchStep(free, allocp, q, next[q], p, Span(v));
        q := next[q];
        FreeNode(v, q);
      }
    }

    /** The end of free: link p in behind q, merging with the block behind it and the one before it. */
    method Splice(p: int, q: int)
      requires p in size && q in size && q in next && next[q] in size && next[q] in next
      requires p != q && p != next[q] && (p + size[p] == next[q] ==> q != next[q])
      modifies `next, `size
      ensures next == AfterFree(old(V()), p, q).next && size == AfterFree(old(V()), p, q).size
    {
      hide AfterFree;
      ghost var v := V();
      var n := next[q];
      if p + size[p] == n {
        next := next[p := next[n]];
        size := size[p := size[p] + size[n]];
      } else {
        next := next[p := n];
      }
      AfterFreeMaps(v, p, q, next, size);
      if q + size[q] == p {
        next := next[q := next[p]];
        size := size[q := size[q] + size[p]];
      } else {
        next := next[q := p];
      }
    }

    /** free: return a live block to the list; free blocks that touch become one. */
    method Free(ap: int)
      requires Valid() && allocp != NULL && ap - 1 in live
      modifies this
      ensures Valid() && allocp != NULL && brk == old(brk)
      ensures live == old(live) - {ap - 1}
      ensures allocp in next && allocp in size && next[allocp] in size
      ensures size[allocp] >= old(live[ap - 1]) || size[next[allocp]] >= old(live[ap - 1])
    {
      hide Ok, AfterFree, Between, Bounds, Link, Absorb, Span, Succ;
      var p := ap - 1;
      ghost var v := V();
      var q := FindPlace(p);
      LiveBlock(v, p);
      FreePlace(v, p, q);
      ghost var w := AfterFree(v, p, q);
      AfterFreeOk(v, p, q);
      AfterFreeFrame(v, p, q);
      FreeNode(w, q);
      OkBounds(w);
      Splice(p, q);
      allocp := q;
      free, live, owner := w.free, w.live, w.owner;
      assert V() == w;
    }

    /** coremore: ask sbrk for whole chunks and free them into the list. */
    method Coremore(nunits: nat) returns (p: int)
      requires Valid() && allocp != NULL && 0 < nunits
      requires CoreBytes(nunits) == CoreUnits(nunits) * HEADER_BYTES
      modifies this
      ensures Valid() && allocp != NULL && live == old(live)
      ensures p == NULL ==> V() == old(V()) && allocp == old(allocp) && brk + CoreUnits(nunits) > limit
      ensures p != NULL ==> p == allocp && brk == old(brk) + CoreUnits(nunits)
      ensures p != NULL ==> allocp in next && allocp in size && next[allocp] in size
      ensures p != NULL ==> size[allocp] >= nunits || size[next[allocp]] >= nunits
    {
      hide Ok;
      ghost var v := V();
      var nalloc := CoreUnits(nunits);
      p := Sbrk(CoreBytes(nunits));
      if p != NULL {
        GrowOk(v, nalloc);
        size := size[p := nalloc];
        live, owner := live[p := nalloc], Reown(owner, p, nalloc, p);
        assert V() == Grow(v, nalloc);
        Free(p + 1);
        assert live == old(live);
        p := allocp;
      }
    }
  
    /** malloc: first fit from allocp, cutting the tail off a larger block; when the walk comes back
        to allocp without a fit, more core is asked for, at most once.  The block holds nbytes just when
        they are at most MAX_REQUEST. */
    method Malloc(nbytes: nat) returns (r: int)
      requires Valid() && nbytes < WORD && (nbytes <= MAX_REQUEST || nbytes > WORD - HEADER_BYTES)
      modifies this
      ensures Valid() && allocp != NULL
      ensures r == NULL ==> live == old(live) && brk == old(brk) && brk + CoreUnits(Units(nbytes)) > limit
      ensures r == NULL ==> forall f | f in free :: f in size && size[f] < Units(nbytes)
      ensures r != NULL ==> r - 1 !in old(live) && live == old(live)[r - 1 := Units(nbytes)]
      ensures (Units(nbytes) - 1) * HEADER_BYTES >= nbytes <==> nbytes <= MAX_REQUEST
      ensures brk == old(brk) || brk == old(brk) + CoreUnits(Units(nbytes))
      ensures brk != old(brk) ==> AllSmall(old(free), old(size), Units(nbytes))
      ensures r != NULL && brk == old(brk) && old(allocp) != NULL ==> FirstFit(old(V()), old(allocp), allocp, r - 1, Units(nbytes))
    {
      hide AllSmall, FirstFit;
      hide Ok, Succ, Ahead, Link, NoFit, Bounds, Span, Units, CoreUnits, CoreBytes;
      RequestServed(nbytes);
      var nunits := Units(nbytes);
      assert 0 < nunits;
      if allocp == NULL {
        Init();
      }
      var q := allocp;
      FreeNode(V(), q);
      var p := next[q];
      FreeNode(V(), p);
      ghost var cored := false;
      FreeNodes(V());
      NoFitStart(V(), q, nunits);
      SmallNone(old(size), nunits);
      ChunksLeast(nunits, 0);
      while true
        invariant Valid() && allocp != NULL && live == old(live)
        invariant !cored && old(allocp) != NULL ==> V() == old(V()) && allocp == old(allocp)
        invariant !cored && old(allocp) == NULL ==> old(free) == {}
        invariant cored ==> AllSmall(old(free), old(size), nunits)
        invariant q in free && q in next && p == next[q] && p in free && p in size && p in next
        invariant brk == if cored then old(brk) + CoreUnits(nunits) else old(brk)
        invariant cored ==> allocp in size && (size[allocp] >= nunits || (q == allocp && size[p] >= nunits))
        invariant NoFit(V(), allocp, q, nunits)
        decreases !cored, Span(V()) - Ahead(allocp, q, Span(V()))
      {
        if size[p] >= nunits {
          if !cored { FitFound(V(), allocp, q, p, nunits); }
          r := Carve(q, p, nunits);
          return;
        }
        if p == allocp {
          NoFitEnd(V(), allocp, q, nunits);
          if !cored { SmallAll(V(), nunits); }
          p := Coremore(nunits);
          if p == NULL {
            return NULL;
          }
          cored := true;
          NoFitStart(V(), p, nunits);
        } else {
          NoFitNext(V(), allocp, q, nunits);
        }
        q := p;
        FreeNode(V(), q);
        p := next[q];
        FreeNode(V(), p);
      }
    }

    /** The branch of malloc that found a fit: unlink the node, or cut its tail off. */
    method Carve(q: int, p: int, nunits: nat) returns (r: int)
      requires Valid() && allocp != NULL && q in free && q in next && next[q] == p && p in size && p in next
      requires 0 < nunits <= size[p]
      modifies this
      ensures Valid() && allocp == q != NULL && brk == old(brk)
      ensures r != NULL && r - 1 !in old(live) && live == old(live)[r - 1 := nunits]
      ensures r - 1 == p + old(size)[p] - nunits
    {
      hide Ok, Succ, Bounds, Span;
      FreeNode(V(), q);
      if size[p] == nunits {
        Unlink(q, p);
        r := p + 1;
      } else {
        r := CutTail(p, nunits);
      }
      FreeNode(V(), q);
      OkBounds(V());
      allocp := q;
    }

    method Unlink(q: int, p: int)
      requires Valid() && allocp != NULL && q in free && q in next && next[q] == p && p in size && p in next && 0 < size[p]
      modifies this
      ensures Ok(V()) && q in free && brk == old(brk)
      ensures p > 0 && p !in old(live) && live == old(live)[p := old(size[p])]
    {
      hide Ok, Succ, Bounds, Span, Take;
      ghost var v := V();
      FreeNode(v, q);
      FreeNode(v, p);
      TakeOk(v, q);
      TakeFields(v, q);
      next := next[q := next[p]];
      free, live := free - {p}, live[p := size[p]];
      assert V() == Take(v, q);
    }

    method CutTail(p0: int, nunits: nat) returns (r: int)
      requires Valid() && allocp != NULL && p0 in free && p0 in size && 0 < nunits < size[p0]
      modifies this
      ensures Ok(V()) && free == old(free) && brk == old(brk)
      ensures r > 1 && r - 1 !in old(live) && live == old(live)[r - 1 := nunits]
      ensures r - 1 == p0 + old(size)[p0] - nunits
    {
      hide Ok, Succ, Reown, Cut;
      ghost var v := V();
      var p := p0;
      CutOk(v, p, nunits);
      CutFields(v, p, nunits);
      size := size[p := size[p] - nunits];
      p := p + size[p];
      size := size[p := nunits];
      live, owner := live[p := nunits], Reown(owner, p, nunits, p);
      assert V() == Cut(v, p0, nunits);
      r := p + 1;
    }

    method Init()
      requires Valid() && allocp == NULL
      modifies this
      ensures Valid() && allocp != NULL && live == old(live) && brk == old(brk) && free == {allocp}
    {
      next, size := next[base := base], size[base := 0];
      allocp := base;
      free := {base};
    }
  }

  /** Every free node has fewer units. */
  ghost predicate AllSmall(free: set<int>, size: map<int, int>, n: nat) {
    forall f | f in free :: f in size && size[f] < n
  }

  /** Block b is the end of the node behind q, which holds n units, and no node from the one behind s up to q
      does. */
  ghost predicate FirstFit(v: View, s: int, q: int, b: int, n: nat) {
    && q in v.next && v.next[q] in v.size && v.size[v.next[q]] >= n && b == v.next[q] + v.size[v.next[q]] - n
    && NoFit(v, s, q, n)
  }

  lemma SmallNone(size: map<int, int>, n: nat)
    ensures AllSmall({}, size, n)
  {
  }

  lemma FitFound(v: View, s: int, q: int, p: int, n: nat)
    requires q in v.next && v.next[q] == p && p in v.size && v.size[p] >= n && NoFit(v, s, q, n)
    ensures FirstFit(v, s, q, p + v.size[p] - n, n)
  {
  }

  lemma SmallAll(v: View, n: nat)
    requires forall f | f in v.free :: f in v.size && v.size[f] < n
    ensures AllSmall(v.free, v.size, n)
  {
  }

  /** The free nodes behind s as far as q are all too small. */
  ghost predicate NoFit(v: View, s: int, q: int, n: nat) {
    forall f | f in v.free && f != s && Ahead(s, f, Span(v)) <= Ahead(s, q, Span(v)) :: f in v.size && v.size[f] < n
  }

  lemma NoFitEnd(v: View, s: int, q: int, n: nat)
    requires Ok(v) && s in v.free && q in v.free && q in v.next && v.next[q] == s
    requires s in v.size && v.size[s] < n && NoFit(v, s, q, n)
    ensures forall f | f in v.free :: f in v.size && v.size[f] < n
  {
    hide Ok, Succ, Ahead;
    FreeNode(v, q);
    FreeNodes(v);
    forall f | f in v.free ensures f in v.size && v.size[f] < n {
      NoneBetween(v.free, s, q, s, f, Span(v));
    }
  }

  lemma NoFitNext(v: View, s: int, q: int, n: nat)
    requires Ok(v) && s in v.free && q in v.free && q in v.next && v.next[q] != s
    requires v.next[q] in v.size && v.size[v.next[q]] < n && NoFit(v, s, q, n)
    ensures NoFit(v, s, v.next[q], n)
    ensures Ahead(s, q, Span(v)) < Ahead(s, v.next[q], Span(v)) < Span(v)
  {
    hide Ok, Succ, Ahead;
    FreeNode(v, q);
    FreeNodes(v);
    NoneBetween(v.free, s, q, v.next[q], q, Span(v));
    forall f | f in v.free && f != s && Ahead(s, f, Span(v)) <= Ahead(s, v.next[q], Span(v))
      ensures f in v.size && v.size[f] < n
    {
      NoneBetween(v.free, s, q, v.next[q], f, Span(v));
    }
  }

  lemma NoFitStart(v: View, s: int, n: nat)
    requires Ok(v) && s in v.free
    ensures NoFit(v, s, s, n)
  {
    FreeNodes(v);
  }
}

/** The kernel allocator of kernel/kern_malloc.c and include/sys/malloc.h: power-of-two chunks on one
    list per size, carved from pages that are handed out once and never taken back. */
module KernMalloc {
  import opened Common

  const PAGE_SIZE: nat := 4096
  const CLBYTES: nat := PAGE_SIZE
  const KMEM_SIZE: nat := 64 * 1024 * 1024
  const MINBUCKET: nat := 4
  const MINALLOCSIZE: nat := 16
  const MAXALLOCSAVE: nat := MINALLOCSIZE * 32 * 1024
  const NBUCKETS: nat := MINBUCKET + 16 + 1
  const LARGE: nat := NBUCKETS - 1
  const WORD: nat := 0x1_0000_0000  // size_t is 32 bits wide
  const USAGE_SIZE: nat := 4  // struct kmemusage: two half words
  const TABLE_SIZE: nat := KMEM_SIZE / CLBYTES * USAGE_SIZE

  // ---------- Sizes ----------

  lemma Powers()
    ensures Pow2(4) == 16 && Pow2(5) == 32 && Pow2(6) == 64 && Pow2(7) == 128 && Pow2(8) == 256
    ensures Pow2(9) == 512 && Pow2(10) == 1024 && Pow2(11) == 2048 && Pow2(12) == 4096 && Pow2(13) == 8192
    ensures Pow2(14) == 16384 && Pow2(15) == 32768 && Pow2(16) == 65536 && Pow2(17) == 131072
    ensures Pow2(18) == 262144 && Pow2(19) == 524288
  {
    assert Pow2(4) == 16;
    assert Pow2(8) == 256;
    assert Pow2(12) == 4096;
    assert Pow2(16) == 65536;
  }

  /** BUCKETINDEX */
  function BucketIndex(size: nat): (i: nat)
    requires size <= MAXALLOCSAVE
  {
    if size <= 128 * MINALLOCSIZE then
      if size <= 8 * MINALLOCSIZE then
        if size <= 2 * MINALLOCSIZE then
          if size <= 1 * MINALLOCSIZE then MINBUCKET + 0 else MINBUCKET + 1
        else if size <= 4 * MINALLOCSIZE then MINBUCKET + 2 else MINBUCKET + 3
      else if size <= 32 * MINALLOCSIZE then
        if size <= 16 * MINALLOCSIZE then MINBUCKET + 4 else MINBUCKET + 5
      else if size <= 64 * MINALLOCSIZE then MINBUCKET + 6 else MINBUCKET + 7
    else if size <= 2048 * MINALLOCSIZE then
      if size <= 512 * MINALLOCSIZE then
        if size <= 256 * MINALLOCSIZE then MINBUCKET + 8 else MINBUCKET + 9
      else if size <= 1024 * MINALLOCSIZE then MINBUCKET + 10 else MINBUCKET + 11
    else if size <= 8192 * MINALLOCSIZE then
      if size <= 4096 * MINALLOCSIZE then MINBUCKET + 12 else MINBUCKET + 13
    else if size <= 16384 * MINALLOCSIZE then MINBUCKET + 14 else MINBUCKET + 15
  }

  /** The bucket is the first one whose chunks hold the size. */
  lemma BucketFits(size: nat)
    requires size <= MAXALLOCSAVE
    ensures MINBUCKET <= BucketIndex(size) < LARGE
    ensures size <= Pow2(BucketIndex(size))
    ensures BucketIndex(size) > MINBUCKET ==> Pow2(BucketIndex(size) - 1) < size
  {
    Powers();
  }

  /** round_page and round_cluster, on 32-bit sizes. */
  function RoundPage(size: nat): nat {
    (size + PAGE_SIZE - 1) % WORD / PAGE_SIZE * PAGE_SIZE
  }

  /** Rounding gives the least number of pages that hold the size, unless the sum wraps around. */
  lemma RoundPageIs(size: nat)
    requires size < WORD
    ensures RoundPage(size) % PAGE_SIZE == 0
    ensures size + PAGE_SIZE <= WORD ==> size <= RoundPage(size) < size + PAGE_SIZE
    ensures size + PAGE_SIZE > WORD ==> RoundPage(size) == 0
  {
    var s := size + PAGE_SIZE - 1;
    if s < WORD {
      assert s % WORD == s;
    } else {
      assert s % WORD == s - WORD;
    }
  }

  /** When the sum of whole pages leaves the word. */
  lemma PageSum(n: nat, offs: nat, size: nat)
    requires size < WORD && n == RoundPage(size) && offs % PAGE_SIZE == 0 && offs <= KMEM_SIZE
    ensures n + offs < WORD <==> size + offs + PAGE_SIZE <= WORD || size + PAGE_SIZE > WORD
    ensures (n + offs) % WORD == if n + offs < WORD then n + offs else n + offs - WORD
    ensures (n + offs) % WORD % PAGE_SIZE == 0
  {
    hide RoundPage;
    RoundPageIs(size);
    PagesAdd(n, offs);
  }

  /** A chunk size divides the pages it is carved from. */
  lemma PageSplit(i: nat)
    requires MINBUCKET <= i < LARGE
    ensures RoundPage(Pow2(i)) == if i < 12 then PAGE_SIZE else Pow2(i)
    ensures i < 12 ==> PAGE_SIZE == Pow2(12 - i) * Pow2(i) && Pow2(i) < PAGE_SIZE
    ensures Pow2(i) <= MAXALLOCSAVE
  {
    Powers();
    assert Pow2(0) == 1 && Pow2(1) == 2 && Pow2(2) == 4 && Pow2(3) == 8;
  }

  // ---------- Memory ----------

  /** A piece of memory handed out by the allocator: its size and the bucket it belongs to. */
  datatype Area = Area(size: nat, bucket: nat)

  /** vatokup: the entry of the usage table for an address. */
  function Page(base: nat, a: nat): nat
    requires base <= a
  {
    (a - base) / PAGE_SIZE
  }

  /** The area lies in the memory given out so far, behind the usage table, and the usage entry of its first page leads to its
      bucket. */
  predicate AreaOk(base: nat, offs: nat, usage: map<nat, int>, a: nat, n: Area) {
    && base + TABLE_SIZE <= a && a + n.size <= base + offs && 0 < n.size
    && MINBUCKET <= n.bucket <= LARGE && (n.bucket < LARGE ==> n.size == Pow2(n.bucket))
    && Page(base, a) in usage && usage[Page(base, a)] == n.bucket
  }

  /** No two areas overlap. */
  predicate Apart(areas: map<nat, Area>) {
    forall a, b | a in areas && b in areas && a < b :: a + areas[a].size <= b
  }

  predicate NoDup(s: seq<nat>) {
    forall i, j | 0 <= i < j < |s| :: s[i] != s[j]
  }

  /** Link k of a free list, stored in the free chunk itself. */
  predicate Linked(next: map<nat, nat>, f: seq<nat>, k: nat)
    requires k < |f|
  {
    f[k] in next && next[f[k]] == (if k + 1 < |f| then f[k + 1] else 0)
  }

  /** The bucket's list is f. */
  predicate IsList(next: map<nat, nat>, first: nat, last: nat, f: seq<nat>) {
    && first == (if f == [] then 0 else f[0]) && (f != [] ==> last == f[|f| - 1])
    && 0 !in f && NoDup(f) && forall k: nat | k < |f| :: Linked(next, f, k)
  }

  /** The free chunks of bucket i are chunks of bucket i. */
  predicate AllOf(areas: map<nat, Area>, f: seq<nat>, i: nat) {
    forall a | a in f :: a in areas && areas[a].bucket == i
  }

  /** Everything that is given out and not free. */
  function Live(areas: map<nat, Area>, free: seq<seq<nat>>): set<nat> {
    set a | a in areas && !(areas[a].bucket < |free| && a in free[areas[a].bucket])
  }

  // ---------- Carving ----------

  /** p lists pieces of size sz, one right after the other, from `start` on. */
  predicate Pieces(p: seq<nat>, start: nat, sz: nat) {
    p != [] && p[0] == start && forall j | 0 <= j < |p| - 1 :: p[j + 1] == p[j] + sz
  }

  lemma {:induction false} PieceAt(p: seq<nat>, start: nat, sz: nat, j: nat)
    requires Pieces(p, start, sz) && j < |p|
    ensures p[j] == start + j * sz
    decreases j
  {
    if j > 0 {
      PieceAt(p, start, sz, j - 1);
      assert p[j - 1 + 1] == p[j - 1] + sz;
      assert j * sz == (j - 1) * sz + sz;
    }
  }

  /** Pieces do not overlap, and lie between the first and the end of the last. */
  lemma PiecesApart(p: seq<nat>, start: nat, sz: nat, j: nat, k: nat)
    requires Pieces(p, start, sz) && j < k < |p|
    ensures start <= p[j] && p[j] + sz <= p[k] <= p[|p| - 1]
  {
    PieceAt(p, start, sz, j);
    PieceAt(p, start, sz, k);
    PieceAt(p, start, sz, |p| - 1);
    Multiples(j + 1, k, sz);
    Multiples(k, |p| - 1, sz);
    assert (j + 1) * sz == j * sz + sz;
  }

  lemma FirstPiece(p: seq<nat>, start: nat, sz: nat)
    requires Pieces(p, start, sz)
    ensures p != [] && p[0] == start
  {
  }

  /** The areas with the pieces added to them. */
  function WithPieces(areas: map<nat, Area>, p: seq<nat>, sz: nat, i: nat): map<nat, Area> {
    areas + map a | a in p :: Area(sz, i)
  }

  lemma PiecesArea(base: nat, offs: nat, usage: map<nat, int>, p: seq<nat>, sz: nat, i: nat, cbytes: nat)
    requires MINBUCKET <= i < LARGE && sz == Pow2(i) && cbytes == RoundPage(sz) && offs % PAGE_SIZE == 0
    requires TABLE_SIZE <= offs
    requires Pieces(p, base + offs, sz) && p[|p| - 1] + sz == base + offs + cbytes
    requires Page(base, base + offs) in usage && usage[Page(base, base + offs)] == i
    ensures forall a | a in p :: base + offs <= a && AreaOk(base, offs + cbytes, usage, a, Area(sz, i))
  {
    PageSplit(i);
    forall a | a in p ensures base + offs <= a && AreaOk(base, offs + cbytes, usage, a, Area(sz, i)) {
      var j: nat :| j < |p| && p[j] == a;
      PieceInside(p, base + offs, sz, j);
      if i < 12 {
        SamePage(offs, a - base);
      } else {
        assert a == base + offs;
      }
    }
  }

  lemma PieceInside(p: seq<nat>, start: nat, sz: nat, j: nat)
    requires Pieces(p, start, sz) && j < |p|
    ensures start <= p[j] <= p[|p| - 1]
  {
    if j > 0 { PiecesApart(p, start, sz, 0, j); }
    if j < |p| - 1 { PiecesApart(p, start, sz, j, |p| - 1); }
  }

  lemma SamePage(offs: nat, x: nat)
    requires offs % PAGE_SIZE == 0 && offs <= x < offs + PAGE_SIZE
    ensures x / PAGE_SIZE == offs / PAGE_SIZE
  {
  }

  lemma LaterPage(offs: nat, x: nat)
    requires offs % PAGE_SIZE == 0 && x < offs
    ensures x / PAGE_SIZE < offs / PAGE_SIZE
  {
  }

  // ---------- The allocator ----------

  /** Bucket i holds the list f of free chunks of its size. */
  predicate BucketOk(next: map<nat, nat>, kbNext: seq<nat>, kbLast: seq<nat>, areas: map<nat, Area>,
                     free: seq<seq<nat>>, i: nat)
    requires i < |kbNext| == |kbLast| == |free|
  {
    IsList(next, kbNext[i], kbLast[i], free[i]) && AllOf(areas, free[i], i)
  }

  ghost predicate AreasOk(base: nat, offs: nat, usage: map<nat, int>, areas: map<nat, Area>) {
    && base > 0 && offs % PAGE_SIZE == 0 && TABLE_SIZE <= offs <= KMEM_SIZE && Apart(areas)
    && forall a | a in areas :: AreaOk(base, offs, usage, a, areas[a])
  }

  ghost predicate BucketsOk(next: map<nat, nat>, kbNext: seq<nat>, kbLast: seq<nat>, areas: map<nat, Area>,
                            free: seq<seq<nat>>) {
    && |kbNext| == |kbLast| == |free| == NBUCKETS && free[LARGE] == []
    && forall i: nat | i < NBUCKETS :: BucketOk(next, kbNext, kbLast, areas, free, i)
  }

  class Kmem {
    const base: nat
    var offs: nat
    var usage: map<nat, int>
    var kbNext: seq<nat>
    var kbLast: seq<nat>
    var next: map<nat, nat>
    ghost var areas: map<nat, Area>
    ghost var free: seq<seq<nat>>

    ghost predicate Ok()
      reads this
    {
      AreasOk(base, offs, usage, areas) && BucketsOk(next, kbNext, kbLast, areas, free)
    }

    ghost function InUse(): set<nat>
      reads this
    {
      Live(areas, free)
    }

    /** kmeminit: all lists are empty, and the usage table takes the first pages.  It holds whatever
        memory held. */
    constructor (base: nat, usage: map<nat, int>)
      requires base > 0
      ensures this.base == base && offs == TABLE_SIZE && Ok() && areas == map[] && InUse() == {}
    {
      this.base, this.usage := base, usage;
      offs, next, areas := 0, map[], map[];
      kbNext, kbLast := seq(NBUCKETS, i => 0), seq(NBUCKETS, i => 0);
      free := seq(NBUCKETS, i => []);
      new;
      var kmemusage := KmemAlloc(KMEM_SIZE / CLBYTES * USAGE_SIZE);
    }

    /** __kmem_alloc: the next pages, or null when there are too few.  The sum with the pages given out so
        far is taken in the word: for a size near its end it wraps, and pages that were given out
        already will be given out again. */
    method KmemAlloc(size: nat) returns (va: nat)
      requires size < WORD && base > 0 && offs % PAGE_SIZE == 0 && offs <= KMEM_SIZE
      modifies this`offs
      ensures va == 0 || old(offs) + size <= offs <==> size + old(offs) + PAGE_SIZE <= WORD
      ensures size + old(offs) + PAGE_SIZE <= WORD ==> (va == 0 <==> RoundPage(size) + old(offs) > KMEM_SIZE)
      ensures va == 0 ==> offs == old(offs)
      ensures va != 0 ==> va == base + old(offs) && offs == (old(offs) + RoundPage(size)) % WORD
      ensures offs % PAGE_SIZE == 0 && offs <= KMEM_SIZE
    {
      RoundPageIs(size);
      var n := RoundPage(size);
      PageSum(n, offs, size);
      if (n + offs) % WORD > KMEM_SIZE {
        va := 0;
      } else {
        va := base + offs;
        offs := (offs + n) % WORD;
      }
    }

    /** A page is in use, a request near the end of the word succeeds, and the next page that is given
        out is the same one. */
    method PageTwice() returns (a: nat, b: nat, c: nat)
      requires base > 0 && offs % PAGE_SIZE == 0 && offs + PAGE_SIZE <= KMEM_SIZE
      modifies this`offs
      ensures a == c == base + old(offs) && b != 0
    {
      RoundPageIs(PAGE_SIZE);
      a := KmemAlloc(PAGE_SIZE);
      RoundPageIs(WORD - PAGE_SIZE);
      b := KmemAlloc(WORD - PAGE_SIZE);
      c := KmemAlloc(PAGE_SIZE);
    }

    /** Fills the empty bucket i with the pieces of new pages. */
    method Carve(i: nat) returns (ok: bool)
      requires Ok() && MINBUCKET <= i < LARGE && free[i] == []
      modifies this
      ensures Ok()
      ensures ok <==> RoundPage(Pow2(i)) + old(offs) <= KMEM_SIZE
      ensures !ok ==> offs == old(offs) && areas == old(areas) && free == old(free)
      ensures ok ==> |free| == |old(free)| && free == old(free)[i := free[i]]
      ensures ok ==> Pieces(free[i], base + old(offs), Pow2(i)) && offs == old(offs) + RoundPage(Pow2(i))
      ensures ok ==> free[i][|free[i]| - 1] + Pow2(i) == base + offs
      ensures ok ==> areas == WithPieces(old(areas), free[i], Pow2(i), i)
      ensures ok ==> (forall a | a in free[i] :: a !in old(areas)) && InUse() == old(InUse()) && free[i] != []
      ensures forall a | a in old(areas) :: a in areas && areas[a] == old(areas)[a]
    {
      hide BucketsOk, AreasOk, WithPieces, Pow2, Pieces, RoundPage, Live;
      ghost var offs0, next0, usage0, areas0, free0 := offs, next, usage, areas, free;
      AreasParts(base, offs, usage, areas);
      BucketSizes(next, kbNext, kbLast, areas, free);
      PageSplit(i);
      var allocsize := Pow2(i);
      var cbytes := RoundPage(allocsize);
      WholePages(allocsize);
      var start := KmemAlloc(cbytes);
      ok := start != 0;
      if ok {
        usage := usage[Page(base, start) := i];
        kbNext := kbNext[i := start];
        ghost var p;
        var last;
        last, p := Thread(start, allocsize, cbytes, if i < 12 then Pow2(12 - i) else 1);
        kbLast := kbLast[i := last];
        free, areas := free[i := p], WithPieces(areas, p, allocsize, i);
        CarvedAreas(base, offs0, usage0, areas0, p, i);
        CarvedBuckets(base, offs0, usage0, next0, next, old(kbNext), old(kbLast), areas0, free0, p, i);
        CarvedLive(base, offs0, usage0, areas0, free0, p, allocsize, i);
      }
    }

    /** The loop that links the pieces of new pages: each one leads to the next. */
    method Thread(start: nat, allocsize: nat, cbytes: nat, ghost n0: nat) returns (va: nat, ghost p: seq<nat>)
      requires start > 0 && allocsize > 0 && n0 >= 1 && n0 * allocsize == cbytes
      modifies this`next
      ensures Pieces(p, start, allocsize) && va == p[|p| - 1] && va + allocsize == start + cbytes
      ensures forall k: nat | k < |p| :: Linked(next, p, k)
      ensures forall x | x in old(next) && x < start :: x in next && next[x] == old(next)[x]
    {
      va, p := start, [start];
      ghost var n := n0;
      while va + allocsize < start + cbytes
        invariant Pieces(p, start, allocsize) && va == p[|p| - 1] && start <= va
        invariant n >= 1 && va + n * allocsize == start + cbytes
        invariant forall k: nat | k < |p| - 1 :: Linked(next, p, k)
        invariant forall x | x in old(next) && x < start :: x in next && next[x] == old(next)[x]
        decreases n
      {
        OnePieceLess(n, allocsize);
        ghost var before, q := next, p;
        next := next[va := va + allocsize];
        va := va + allocsize;
        p := p + [va];
        n := n - 1;
        LinkedMore(before, next, q, p, start, allocsize);
      }
      OnePieceLeft(n, allocsize);
      ghost var before := next;
      next := next[va := 0];
      LinkedLast(before, next, p, start, allocsize);
    }

    /** kmem_malloc: a chunk of the first bucket that fits, or whole pages for a large size; null when
        there are no pages left. */
    method Malloc(size: nat) returns (va: nat)
      requires Ok() && size < WORD
      modifies this
      ensures Ok()
      ensures va == 0 <==> if size <= MAXALLOCSAVE
        then old(free)[BucketIndex(size)] == [] && RoundPage(Pow2(BucketIndex(size))) + old(offs) > KMEM_SIZE
        else RoundPage(size) + old(offs) > KMEM_SIZE
      ensures va == 0 ==> InUse() == old(InUse()) && areas == old(areas) && offs == old(offs)
      ensures va != 0 && size + PAGE_SIZE <= WORD ==> va !in old(InUse()) && InUse() == old(InUse()) + {va}
      ensures va != 0 && size + PAGE_SIZE <= WORD ==> va in areas && size <= areas[va].size
      ensures va != 0 && size + PAGE_SIZE <= WORD ==> base + TABLE_SIZE <= va && va + areas[va].size <= base + KMEM_SIZE
      ensures va != 0 ==> forall a | a in old(areas) :: a in areas && areas[a] == old(areas)[a]
      ensures va != 0 && size <= MAXALLOCSAVE ==> va in areas && areas[va].bucket == BucketIndex(size)
      ensures size + PAGE_SIZE > WORD ==> va == base + old(offs) && offs == old(offs) && InUse() == old(InUse())
      ensures va != 0 && size <= MAXALLOCSAVE ==> var i := BucketIndex(size);
        if i < |old(free)| && old(free)[i] != []
        then offs == old(offs) && areas == old(areas) && va == old(free)[i][0] && free == old(free)[i := old(free)[i][1..]]
        else offs == old(offs) + RoundPage(Pow2(i)) && va == base + old(offs)
      ensures va != 0 && size > MAXALLOCSAVE ==> offs == old(offs) + RoundPage(size) && va == base + old(offs) && free == old(free)
    {
      hide BucketsOk, AreasOk, WithPieces, Pow2, Pieces, RoundPage, BucketIndex, Live;
      AreasParts(base, offs, usage, areas);
      BucketSizes(next, kbNext, kbLast, areas, free);
      if size <= MAXALLOCSAVE {
        BucketFits(size);
        PageSplit(BucketIndex(size));
        var i := BucketIndex(size);
        ListEmpty(next, kbNext, kbLast, areas, free, i);
        var ok := true;
        if kbNext[i] == 0 {
          ok := Carve(i);
          if ok { FirstPiece(free[i], base + old(offs), Pow2(i)); }
        }
        if ok {
          va := Pop(i);
          AreaAt(base, offs, usage, areas, va);
          AreasParts(base, offs, usage, areas);
        } else {
          va := 0;
        }
      } else {
        va := MallocLarge(size);
        if va in areas { AreaAt(base, offs, usage, areas, va); }
        AreasParts(base, offs, usage, areas);
      }
    }

    /** Takes the first chunk of bucket i. */
    method Pop(i: nat) returns (va: nat)
      requires Ok() && MINBUCKET <= i < LARGE && free[i] != []
      modifies this`kbNext, this`free
      ensures Ok()
      ensures |free| == |old(free)| && old(free)[i] != [] && va == old(free)[i][0] && free == old(free)[i := old(free)[i][1..]]
      ensures va != 0 && va in areas && areas[va].bucket == i && va !in old(InUse()) && InUse() == old(InUse()) + {va}
    {
      hide BucketsOk, AreasOk, Live;
      BucketSizes(next, kbNext, kbLast, areas, free);
      PopBuckets(next, kbNext, kbLast, areas, free, i);
      PopLive(areas, free, i);
      va := kbNext[i];
      kbNext := kbNext[i := next[va]];
      free := free[i := free[i][1..]];
    }

    /** The part of kmem_malloc for sizes above all buckets. */
    method MallocLarge(size: nat) returns (va: nat)
      requires Ok() && MAXALLOCSAVE < size < WORD
      modifies this
      ensures Ok()
      ensures va == 0 <==> RoundPage(size) + old(offs) > KMEM_SIZE
      ensures va == 0 ==> areas == old(areas) && free == old(free) && offs == old(offs)
      ensures va != 0 ==> va == base + old(offs) && offs == old(offs) + RoundPage(size) && free == old(free)
      ensures va != 0 && size + PAGE_SIZE <= WORD ==> va !in old(areas) && areas == old(areas)[va := Area(RoundPage(size), LARGE)]
      ensures size + PAGE_SIZE <= WORD ==> size <= RoundPage(size)
      ensures va != 0 && size + PAGE_SIZE <= WORD ==> va !in old(InUse()) && InUse() == old(InUse()) + {va}
      ensures size + PAGE_SIZE > WORD ==> areas == old(areas) && RoundPage(size) == 0
    {
      hide BucketsOk, AreasOk, Live, RoundPage;
      AreasParts(base, offs, usage, areas);
      RoundPageIs(size);
      var cbytes := RoundPage(size);
      va := 0;
      if cbytes <= KMEM_SIZE {
        RoundedTwice(cbytes);
        va := KmemAlloc(cbytes);
        if va != 0 {
          LargeAreas(base, old(offs), usage, areas, cbytes);
          LargeBuckets(base, old(offs), usage, next, kbNext, kbLast, areas, free, cbytes);
          usage := usage[Page(base, va) := LARGE];
          if cbytes > 0 { areas := areas[va := Area(cbytes, LARGE)]; }
        }
      }
    }

    /** kmem_free: the usage table leads to the chunk's bucket, at whose end it is put.  Whole pages
        cannot be released: the kernel stops. */
    method Free(va: nat) returns (panicked: bool)
      requires Ok() && va in InUse()
      modifies this
      ensures panicked <==> old(areas)[va].bucket == LARGE
      ensures !panicked ==> Ok() && areas == old(areas) && InUse() == old(InUse()) - {va}
      ensures !panicked ==> var i := areas[va].bucket;
        |free| == |old(free)| && i < |free| && free == old(free)[i := old(free)[i] + [va]]
    {
      hide BucketsOk, AreasOk, Live;
      LiveArea(base, offs, usage, areas, free, va);
      BucketSizes(next, kbNext, kbLast, areas, free);
      panicked := false;
      var ku := usage[Page(base, va)];
      if MINBUCKET <= ku < NBUCKETS {
        if ku < NBUCKETS - 1 {
          ListEmpty(next, kbNext, kbLast, areas, free, ku);
          PushBuckets(base, offs, usage, next, kbNext, kbLast, areas, free, ku, va);
          PushLive(areas, free, ku, va);
          if kbNext[ku] == 0 {
            kbNext := kbNext[ku := va];
          } else {
            next := next[kbLast[ku] := va];
          }
          next := next[va := 0];
          kbLast := kbLast[ku := va];
          free := free[ku := free[ku] + [va]];
        } else {
          usage := usage[Page(base, va) := 0];
          panicked := true;
        }
      }
    }
  }

  lemma ListEmpty(next: map<nat, nat>, kbNext: seq<nat>, kbLast: seq<nat>, areas: map<nat, Area>, free: seq<seq<nat>>, i: nat)
    requires BucketsOk(next, kbNext, kbLast, areas, free) && i < NBUCKETS
    ensures kbNext[i] == 0 <==> free[i] == []
  {
    assert BucketOk(next, kbNext, kbLast, areas, free, i);
  }

  lemma AreaAt(base: nat, offs: nat, usage: map<nat, int>, areas: map<nat, Area>, a: nat)
    requires AreasOk(base, offs, usage, areas) && a in areas
    ensures AreaOk(base, offs, usage, a, areas[a])
  {
  }

  lemma PopBuckets(next: map<nat, nat>, kbNext: seq<nat>, kbLast: seq<nat>, areas: map<nat, Area>, free: seq<seq<nat>>, i: nat)
    requires BucketsOk(next, kbNext, kbLast, areas, free) && MINBUCKET <= i < LARGE && free[i] != []
    ensures var va := kbNext[i];
      && va == free[i][0] && va in next && va in areas && areas[va].bucket == i && va != 0 && NoDup(free[i])
      && BucketsOk(next, kbNext[i := next[va]], kbLast, areas, free[i := free[i][1..]])
  {
    assert BucketOk(next, kbNext, kbLast, areas, free, i);
    var f := free[i];
    assert Linked(next, f, 0);
    var kbNext', free' := kbNext[i := next[f[0]]], free[i := f[1..]];
    forall j: nat | j < NBUCKETS ensures BucketOk(next, kbNext', kbLast, areas, free', j) {
      assert BucketOk(next, kbNext, kbLast, areas, free, j);
      if j == i { ListTail(next, kbNext[i], kbLast[i], f); }
    }
  }

  lemma ListTail(next: map<nat, nat>, first: nat, last: nat, f: seq<nat>)
    requires IsList(next, first, last, f) && f != []
    ensures f[0] in next && IsList(next, next[f[0]], last, f[1..])
  {
    assert Linked(next, f, 0);
    var t := f[1..];
    forall k: nat | k < |t| ensures Linked(next, t, k) { assert Linked(next, f, k + 1); }
    forall j, k | 0 <= j < k < |t| ensures t[j] != t[k] { assert f[j + 1] != f[k + 1]; }
  }

  lemma PopLive(areas: map<nat, Area>, free: seq<seq<nat>>, i: nat)
    requires i < |free| && free[i] != [] && NoDup(free[i]) && free[i][0] in areas && areas[free[i][0]].bucket == i
    ensures var va := free[i][0];
      va !in Live(areas, free) && Live(areas, free[i := free[i][1..]]) == Live(areas, free) + {va}
  {
    var f := free[i];
    assert f == [f[0]] + f[1..];
    forall k | 0 <= k < |f[1..]| ensures f[1..][k] != f[0] { assert f[1..][k] == f[k + 1]; }
  }

  lemma PushLive(areas: map<nat, Area>, free: seq<seq<nat>>, i: nat, va: nat)
    requires i < |free| && va in areas && areas[va].bucket == i
    ensures Live(areas, free[i := free[i] + [va]]) == Live(areas, free) - {va}
  {
  }

  lemma CarvedLive(base: nat, offs: nat, usage: map<nat, int>, areas: map<nat, Area>, free: seq<seq<nat>>, p: seq<nat>,
                   sz: nat, i: nat)
    requires AreasOk(base, offs, usage, areas) && Pieces(p, base + offs, sz) && i < |free| && free[i] == []
    ensures forall a | a in p :: a !in areas
    ensures Live(WithPieces(areas, p, sz, i), free[i := p]) == Live(areas, free)
    ensures forall a | a in areas :: a in WithPieces(areas, p, sz, i) && WithPieces(areas, p, sz, i)[a] == areas[a]
    ensures p != []
  {
    AreasParts(base, offs, usage, areas);
    PiecesAbove(p, base + offs, sz);
  }

  lemma RoundedTwice(n: nat)
    requires n % PAGE_SIZE == 0 && n <= KMEM_SIZE
    ensures RoundPage(n) == n
  {
    RoundPageIs(n);
  }

  lemma LargeAreas(base: nat, offs: nat, usage: map<nat, int>, areas: map<nat, Area>, n: nat)
    requires AreasOk(base, offs, usage, areas) && n % PAGE_SIZE == 0 && offs + n <= KMEM_SIZE
    ensures var va := base + offs; var usage' := usage[Page(base, va) := LARGE];
      && va !in areas
      && AreasOk(base, offs + n, usage', if n > 0 then areas[va := Area(n, LARGE)] else areas)
  {
    var va := base + offs;
    var usage' := usage[Page(base, va) := LARGE];
    var areas' := if n > 0 then areas[va := Area(n, LARGE)] else areas;
    AreasParts(base, offs, usage, areas);
    PagesAdd(offs, n);
    forall a | a in areas' ensures AreaOk(base, offs + n, usage', a, areas'[a]) {
      if a in areas {
        assert AreaOk(base, offs, usage, a, areas[a]);
        LaterPage(offs, a - base);
      }
    }
    forall a, b | a in areas' && b in areas' && a < b ensures a + areas'[a].size <= b {
      if a in areas { assert AreaOk(base, offs, usage, a, areas[a]); }
    }
  }

  lemma LargeBuckets(base: nat, offs: nat, usage: map<nat, int>, next: map<nat, nat>, kbNext: seq<nat>, kbLast: seq<nat>,
                     areas: map<nat, Area>, free: seq<seq<nat>>, n: nat)
    requires AreasOk(base, offs, usage, areas) && BucketsOk(next, kbNext, kbLast, areas, free)
    ensures var va := base + offs; var areas' := areas[va := Area(n, LARGE)];
      BucketsOk(next, kbNext, kbLast, areas', free) && Live(areas', free) == Live(areas, free) + {va}
    ensures base + offs !in Live(areas, free)
  {
    var va := base + offs;
    var areas' := areas[va := Area(n, LARGE)];
    AreasParts(base, offs, usage, areas);
    forall j: nat | j < NBUCKETS ensures BucketOk(next, kbNext, kbLast, areas', free, j) {
      assert BucketOk(next, kbNext, kbLast, areas, free, j);
    }
  }

  lemma LiveArea(base: nat, offs: nat, usage: map<nat, int>, areas: map<nat, Area>, free: seq<seq<nat>>, va: nat)
    requires AreasOk(base, offs, usage, areas) && va in Live(areas, free)
    ensures va in areas && base <= va && Page(base, va) in usage && usage[Page(base, va)] == areas[va].bucket
    ensures MINBUCKET <= areas[va].bucket <= LARGE && va > 0
    ensures areas[va].bucket < |free| ==> va !in free[areas[va].bucket]
  {
    AreaAt(base, offs, usage, areas, va);
  }

  lemma PushBuckets(base: nat, offs: nat, usage: map<nat, int>, next: map<nat, nat>, kbNext: seq<nat>, kbLast: seq<nat>,
                    areas: map<nat, Area>, free: seq<seq<nat>>, i: nat, va: nat)
    requires BucketsOk(next, kbNext, kbLast, areas, free) && MINBUCKET <= i < LARGE
    requires va in areas && areas[va].bucket == i && va !in free[i] && va > 0
    ensures var next' := (if kbNext[i] == 0 then next else next[kbLast[i] := va])[va := 0];
      BucketsOk(next', if kbNext[i] == 0 then kbNext[i := va] else kbNext, kbLast[i := va], areas,
                free[i := free[i] + [va]])
  {
    var next' := (if kbNext[i] == 0 then next else next[kbLast[i] := va])[va := 0];
    var kbNext' := if kbNext[i] == 0 then kbNext[i := va] else kbNext;
    var kbLast', free' := kbLast[i := va], free[i := free[i] + [va]];
    assert BucketOk(next, kbNext, kbLast, areas, free, i);
    forall j: nat | j < NBUCKETS ensures BucketOk(next', kbNext', kbLast', areas, free', j) {
      assert BucketOk(next, kbNext, kbLast, areas, free, j);
      if j == i {
        ListPush(next, kbNext[i], kbLast[i], free[i], va);
      } else {
        ListKept(next, next', kbNext[j], kbLast[j], free[j]);
      }
    }
  }

  lemma ListPush(next: map<nat, nat>, first: nat, last: nat, f: seq<nat>, va: nat)
    requires IsList(next, first, last, f) && va !in f && va > 0
    ensures IsList((if first == 0 then next else next[last := va])[va := 0], if first == 0 then va else first, va, f + [va])
  {
    var next' := (if first == 0 then next else next[last := va])[va := 0];
    var e := f + [va];
    assert f != [] ==> f[0] in f;
    forall k: nat | k < |e| ensures Linked(next', e, k) {
      if k < |f| { assert Linked(next, f, k); }
    }
  }

  /** A piece is free when some list holds it, and then only the list of its own bucket does. */
  predicate IsFree(free: seq<seq<nat>>, a: nat) {
    exists i | 0 <= i < |free| :: a in free[i]
  }

  /** Every piece is either in use or free, and no byte belongs to two pieces. */
  lemma Partition(base: nat, offs: nat, usage: map<nat, int>, next: map<nat, nat>, kbNext: seq<nat>, kbLast: seq<nat>,
                  areas: map<nat, Area>, free: seq<seq<nat>>, a: nat, b: nat, x: nat)
    requires AreasOk(base, offs, usage, areas) && BucketsOk(next, kbNext, kbLast, areas, free)
    requires a in areas && b in areas && a <= x < a + areas[a].size && b <= x < b + areas[b].size
    ensures a == b && (a in Live(areas, free) <==> !IsFree(free, a))
    ensures forall i, j | 0 <= i < |free| && 0 <= j < |free| && a in free[i] && a in free[j] :: i == j
  {
    AreaAt(base, offs, usage, areas, a);
    forall i | 0 <= i < |free| ensures a in free[i] ==> areas[a].bucket == i {
      assert BucketOk(next, kbNext, kbLast, areas, free, i);
    }
    if a in Live(areas, free) {
      assert !IsFree(free, a);
    } else {
      assert a in free[areas[a].bucket];
    }
  }

  lemma OnePieceLess(n: nat, sz: nat)
    requires n >= 1 && sz < n * sz
    ensures n >= 2 && (n - 1) * sz == n * sz - sz
  {
  }

  lemma OnePieceLeft(n: nat, sz: nat)
    requires n >= 1
    ensures n * sz <= sz && sz > 0 ==> n == 1
  {
    if n >= 2 { Multiples(2, n, sz); }
  }

  lemma LinkedMore(next0: map<nat, nat>, next1: map<nat, nat>, q: seq<nat>, p: seq<nat>, start: nat, sz: nat)
    requires Pieces(q, start, sz) && sz > 0 && p == q + [q[|q| - 1] + sz]
    requires next1 == next0[q[|q| - 1] := q[|q| - 1] + sz]
    requires forall k: nat | k < |q| - 1 :: Linked(next0, q, k)
    ensures Pieces(p, start, sz) && forall k: nat | k < |p| - 1 :: Linked(next1, p, k)
  {
    forall k: nat | k < |p| - 1 ensures Linked(next1, p, k) {
      if k < |q| - 1 {
        assert Linked(next0, q, k);
        PiecesApart(q, start, sz, k, |q| - 1);
      }
    }
  }

  lemma LinkedLast(next0: map<nat, nat>, next1: map<nat, nat>, p: seq<nat>, start: nat, sz: nat)
    requires Pieces(p, start, sz) && sz > 0 && next1 == next0[p[|p| - 1] := 0]
    requires forall k: nat | k < |p| - 1 :: Linked(next0, p, k)
    ensures forall k: nat | k < |p| :: Linked(next1, p, k)
  {
    forall k: nat | k < |p| ensures Linked(next1, p, k) {
      if k < |p| - 1 {
        assert Linked(next0, p, k);
        PiecesApart(p, start, sz, k, |p| - 1);
      }
    }
  }

  lemma AreasParts(base: nat, offs: nat, usage: map<nat, int>, areas: map<nat, Area>)
    requires AreasOk(base, offs, usage, areas)
    ensures base > 0 && offs % PAGE_SIZE == 0 && TABLE_SIZE <= offs <= KMEM_SIZE
    ensures forall a | a in areas :: base <= a < base + offs
  {
    forall a | a in areas ensures base <= a < base + offs {
      assert AreaOk(base, offs, usage, a, areas[a]);
    }
  }

  lemma BucketSizes(next: map<nat, nat>, kbNext: seq<nat>, kbLast: seq<nat>, areas: map<nat, Area>, free: seq<seq<nat>>)
    requires BucketsOk(next, kbNext, kbLast, areas, free)
    ensures |kbNext| == |kbLast| == |free| == NBUCKETS && free[LARGE] == []
  {
  }

  lemma WholePages(sz: nat)
    requires 0 < sz <= MAXALLOCSAVE
    ensures RoundPage(RoundPage(sz)) == RoundPage(sz) < WORD && RoundPage(sz) > 0
  {
    RoundPageIs(sz);
    RoundPageIs(RoundPage(sz));
  }

  lemma CarvedAreas(base: nat, offs: nat, usage: map<nat, int>, areas: map<nat, Area>, p: seq<nat>, i: nat)
    requires AreasOk(base, offs, usage, areas) && MINBUCKET <= i < LARGE
    requires offs + RoundPage(Pow2(i)) <= KMEM_SIZE
    requires Pieces(p, base + offs, Pow2(i)) && p[|p| - 1] + Pow2(i) == base + offs + RoundPage(Pow2(i))
    ensures AreasOk(base, offs + RoundPage(Pow2(i)), usage[Page(base, base + offs) := i], WithPieces(areas, p, Pow2(i), i))
  {
    var sz := Pow2(i);
    var cbytes := RoundPage(sz);
    var usage' := usage[Page(base, base + offs) := i];
    var areas' := WithPieces(areas, p, sz, i);
    PageSplit(i);
    RoundPageIs(sz);
    PiecesArea(base, offs, usage', p, sz, i, cbytes);
    hide Pow2, RoundPage;
    forall a | a in areas' ensures AreaOk(base, offs + cbytes, usage', a, areas'[a]) {
      if a !in p {
        assert AreaOk(base, offs, usage, a, areas[a]);
        LaterPage(offs, a - base);
      }
    }
    CarvedApart(base, offs, usage, areas, p, sz, i);
    PagesAdd(offs, cbytes);
  }

  lemma PagesAdd(x: nat, y: nat)
    requires x % PAGE_SIZE == 0 && y % PAGE_SIZE == 0
    ensures (x + y) % PAGE_SIZE == 0
  {
  }

  lemma CarvedApart(base: nat, offs: nat, usage: map<nat, int>, areas: map<nat, Area>, p: seq<nat>, sz: nat, i: nat)
    requires AreasOk(base, offs, usage, areas) && Pieces(p, base + offs, sz) && sz > 0
    ensures Apart(WithPieces(areas, p, sz, i))
  {
    var areas' := WithPieces(areas, p, sz, i);
    AreasParts(base, offs, usage, areas);
    PiecesAbove(p, base + offs, sz);
    forall a, b | a in areas' && b in areas' && a < b ensures a + areas'[a].size <= b {
      if a !in p {
        assert AreaOk(base, offs, usage, a, areas[a]);
      } else if b in p {
        var j: nat :| j < |p| && p[j] == a;
        var k: nat :| k < |p| && p[k] == b;
        if k < j { PiecesApart(p, base + offs, sz, k, j); } else { PiecesApart(p, base + offs, sz, j, k); }
      }
    }
  }

  lemma PiecesAbove(p: seq<nat>, start: nat, sz: nat)
    requires Pieces(p, start, sz)
    ensures forall a | a in p :: a >= start
  {
    forall a | a in p ensures a >= start {
      var j: nat :| j < |p| && p[j] == a;
      PieceInside(p, start, sz, j);
    }
  }

  lemma CarvedBuckets(base: nat, offs: nat, usage: map<nat, int>, next0: map<nat, nat>, next1: map<nat, nat>,
                      kbNext: seq<nat>, kbLast: seq<nat>, areas: map<nat, Area>, free: seq<seq<nat>>, p: seq<nat>, i: nat)
    requires AreasOk(base, offs, usage, areas) && BucketsOk(next0, kbNext, kbLast, areas, free)
    requires MINBUCKET <= i < LARGE && free[i] == [] && Pieces(p, base + offs, Pow2(i))
    requires forall k: nat | k < |p| :: Linked(next1, p, k)
    requires forall x | x in next0 && x < base + offs :: x in next1 && next1[x] == next0[x]
    ensures BucketsOk(next1, kbNext[i := p[0]], kbLast[i := p[|p| - 1]], WithPieces(areas, p, Pow2(i), i), free[i := p])
  {
    var kbNext', kbLast', free', areas' := kbNext[i := p[0]], kbLast[i := p[|p| - 1]], free[i := p],
                                           WithPieces(areas, p, Pow2(i), i);
    AreasParts(base, offs, usage, areas);
    forall j: nat | j < NBUCKETS ensures BucketOk(next1, kbNext', kbLast', areas', free', j) {
      assert BucketOk(next0, kbNext, kbLast, areas, free, j);
      if j == i {
        PiecesDup(p, base + offs, Pow2(i));
      } else {
        OtherBucket(base, offs, usage, next0, next1, areas, free[j], j, p, Pow2(i), i);
        ListKept(next0, next1, kbNext[j], kbLast[j], free[j]);
      }
    }
  }

  lemma PiecesDup(p: seq<nat>, start: nat, sz: nat)
    requires Pieces(p, start, sz) && sz > 0 && start > 0
    ensures NoDup(p) && 0 !in p
  {
    forall j, k | 0 <= j < k < |p| ensures p[j] != p[k] { PiecesApart(p, start, sz, j, k); }
    forall a | a in p ensures a != 0 {
      var j: nat :| j < |p| && p[j] == a;
      PieceInside(p, start, sz, j);
    }
  }

  /** The chunks of another list are below the new pages. */
  lemma OtherBucket(base: nat, offs: nat, usage: map<nat, int>, next0: map<nat, nat>, next1: map<nat, nat>,
                    areas: map<nat, Area>, f: seq<nat>, j: nat, p: seq<nat>, sz: nat, i: nat)
    requires AreasOk(base, offs, usage, areas) && AllOf(areas, f, j) && Pieces(p, base + offs, sz) && sz > 0
    requires forall x | x in next0 && x < base + offs :: x in next1 && next1[x] == next0[x]
    ensures AllOf(WithPieces(areas, p, sz, i), f, j)
    ensures forall a | a in f && a in next0 :: a in next1 && next1[a] == next0[a]
  {
    AreasParts(base, offs, usage, areas);
    PiecesAbove(p, base + offs, sz);
  }

  lemma ListKept(next0: map<nat, nat>, next1: map<nat, nat>, first: nat, last: nat, f: seq<nat>)
    requires IsList(next0, first, last, f) && forall a | a in f && a in next0 :: a in next1 && next1[a] == next0[a]
    ensures IsList(next1, first, last, f)
  {
    forall k: nat | k < |f| ensures Linked(next1, f, k) { assert Linked(next0, f, k); }
  }
}

/** The socket receive buffer of kernel/uipc_socket.c and include/sys/socketvar.h: records of an address
    buffer and data buffers, used as a queue of datagrams with byte accounting. */
module SockBuf {
  import opened Common
  import opened MbufMemory
  import opened MbufPool

  const MSIZE: nat := 128
  const MT_SONAME: nat := 1
  const MT_CONTROL: nat := 3
  const MT_OOBDATA: nat := 4
  const SB_MAX: nat := 256 * 1024
  const ULONG: int := 0x1_0000_0000

  /** A datagram: the address it came from and its bytes. */
  datatype Datagram = Datagram(addr: seq<byte>, payload: seq<byte>)

  // ---------- Accounting ----------

  /** The storage that a buffer is charged for. */
  function Charge(n: Mbuf): nat {
    MSIZE + if n.ext then MCLBYTES else 0
  }

  ghost function SumLen(nodes: map<nat, Mbuf>, s: seq<nat>): nat {
    if s == [] then 0 else (if s[0] in nodes then nodes[s[0]].len else 0) + SumLen(nodes, s[1..])
  }

  ghost function SumCharge(nodes: map<nat, Mbuf>, s: seq<nat>): nat {
    if s == [] then 0 else (if s[0] in nodes then Charge(nodes[s[0]]) else 0) + SumCharge(nodes, s[1..])
  }

  lemma {:induction false} SumAppend(nodes: map<nat, Mbuf>, s: seq<nat>, t: seq<nat>)
    ensures SumLen(nodes, s + t) == SumLen(nodes, s) + SumLen(nodes, t)
    ensures SumCharge(nodes, s + t) == SumCharge(nodes, s) + SumCharge(nodes, t)
  {
    hide Charge;
    if s == [] {
      assert s + t == t;
    } else {
      SumAppend(nodes, s[1..], t);
      assert (s + t)[1..] == s[1..] + t;
    }
  }

  lemma {:induction false} SumKept(n0: map<nat, Mbuf>, n1: map<nat, Mbuf>, s: seq<nat>)
    requires forall a | a in s :: a in n0 && a in n1 && n1[a].len == n0[a].len && n1[a].ext == n0[a].ext
    ensures SumLen(n1, s) == SumLen(n0, s) && SumCharge(n1, s) == SumCharge(n0, s)
  {
    if s != [] { SumKept(n0, n1, s[1..]); }
  }

  /** The bytes of a chain are as many as its buffers say. */
  lemma {:induction false} SumBytes(mem: Mem, c: seq<nat>)
    requires Valid(mem) && forall a | a in c :: a in mem.nodes
    ensures SumLen(mem.nodes, c) == |Bytes(mem.nodes, mem.cdata, c)|
  {
    hide Valid, At;
    if c != [] {
      ValidLen(mem, c[0]);
      SumBytes(mem, c[1..]);
    }
  }

  // ---------- Records ----------

  /** All buffers of the records, in order. */
  ghost function Flat(recs: seq<seq<nat>>): seq<nat> {
    if recs == [] then [] else recs[0] + Flat(recs[1..])
  }

  lemma {:induction false} FlatAppend(r: seq<seq<nat>>, s: seq<seq<nat>>)
    ensures Flat(r + s) == Flat(r) + Flat(s)
  {
    if r == [] {
      assert r + s == s;
    } else {
      FlatAppend(r[1..], s);
      assert (r + s)[1..] == r[1..] + s && (r + s)[0] == r[0];
      assert r[0] + (Flat(r[1..]) + Flat(s)) == (r[0] + Flat(r[1..])) + Flat(s);
    }
  }

  /** The first buffer of record i, or null after the last one. */
  function HeadOf(recs: seq<seq<nat>>, i: nat): nat {
    if i < |recs| && recs[i] != [] then recs[i][0] else 0
  }

  /** Buffers that carry data of a datagram. */
  predicate Plain(nodes: map<nat, Mbuf>, c: seq<nat>) {
    forall a | a in c :: a in nodes && nodes[a].kind != MT_CONTROL && nodes[a].kind != MT_OOBDATA
  }

  predicate RecordOk(nodes: map<nat, Mbuf>, recs: seq<seq<nat>>, i: nat)
    requires i < |recs|
  {
    && recs[i] != [] && IsChain(nodes, recs[i][0], recs[i]) && recs[i][0] in nodes
    && nodes[recs[i][0]].nextpkt == HeadOf(recs, i + 1) && Plain(nodes, recs[i][1..])
  }

  /** The records hang together by nextpkt, and no buffer is in two of them. */
  ghost predicate QueueOk(nodes: map<nat, Mbuf>, mb: nat, recs: seq<seq<nat>>) {
    && mb == HeadOf(recs, 0) && NoDup(Flat(recs))
    && forall i: nat | i < |recs| :: RecordOk(nodes, recs, i)
  }

  function FirstOf(recs: seq<seq<nat>>): seq<nat> {
    if recs == [] then [] else recs[0]
  }

  /** The data buffers of the first record. */
  function DataOf(recs: seq<seq<nat>>): seq<nat> {
    if FirstOf(recs) == [] then [] else FirstOf(recs)[1..]
  }

  /** What a record holds. */
  ghost function Meaning(mem: Mem, c: seq<nat>): Datagram {
    if c == [] then Datagram([], [])
    else Datagram(At(mem.nodes, mem.cdata, c[0]), Bytes(mem.nodes, mem.cdata, c[1..]))
  }

  ghost function Meanings(mem: Mem, recs: seq<seq<nat>>): (r: seq<Datagram>)
    ensures |r| == |recs|
  {
    if recs == [] then [] else [Meaning(mem, recs[0])] + Meanings(mem, recs[1..])
  }

  /** The buffers that one receive reads: up to the first that ends a record. */
  function Readable(nodes: map<nat, Mbuf>, c: seq<nat>): (r: seq<nat>)
    ensures r <= c
  {
    if c == [] then [] else if c[0] in nodes && nodes[c[0]].eor then [c[0]] else [c[0]] + Readable(nodes, c[1..])
  }

  /** Every buffer holds bytes. */
  predicate NoneEmpty(nodes: map<nat, Mbuf>, c: seq<nat>) {
    forall b | b in c :: b in nodes && nodes[b].len > 0
  }

  predicate EndsRecord(nodes: map<nat, Mbuf>, a: nat) {
    a in nodes && nodes[a].eor
  }

  /** A receive reads the whole datagram just when MF_EOR is set nowhere before the last buffer. */
  lemma {:induction false} ReadsAll(nodes: map<nat, Mbuf>, c: seq<nat>)
    ensures Readable(nodes, c) == c <==> forall i | 0 <= i < |c| - 1 :: !EndsRecord(nodes, c[i])
  {
    if |c| > 1 {
      var t := c[1..];
      ReadsAll(nodes, t);
      assert c == [c[0]] + t;
      if EndsRecord(nodes, c[0]) {
        assert |Readable(nodes, c)| == 1;
      } else {
        assert Readable(nodes, c) == [c[0]] + Readable(nodes, t);
        assert Readable(nodes, c)[1..] == Readable(nodes, t);
        assert forall i | 0 <= i < |t| :: t[i] == c[i + 1];
        assert forall i | 1 <= i < |c| :: c[i] == t[i - 1];
      }
    }
  }

  // ---------- What keeps records ----------

  /** The buffers of s are as they were. */
  predicate Kept(mem0: Mem, mem1: Mem, s: seq<nat>) {
    forall a | a in s :: a in mem0.nodes && a in mem1.nodes && mem1.nodes[a] == mem0.nodes[a]
                         && At(mem1.nodes, mem1.cdata, a) == At(mem0.nodes, mem0.cdata, a)
  }

  lemma {:induction false} InFlat(recs: seq<seq<nat>>, i: nat, a: nat)
    requires i < |recs| && a in recs[i]
    ensures a in Flat(recs)
  {
    if i > 0 { InFlat(recs[1..], i - 1, a); }
  }

  lemma {:induction false} RecordsKept(mem0: Mem, mem1: Mem, recs: seq<seq<nat>>)
    requires Kept(mem0, mem1, Flat(recs))
    ensures Meanings(mem1, recs) == Meanings(mem0, recs)
    ensures SumLen(mem1.nodes, Flat(recs)) == SumLen(mem0.nodes, Flat(recs))
    ensures SumCharge(mem1.nodes, Flat(recs)) == SumCharge(mem0.nodes, Flat(recs))
    ensures forall i: nat | i < |recs| :: RecordOk(mem0.nodes, recs, i) ==> RecordOk(mem1.nodes, recs, i)
  {
    hide At;
    SumKept(mem0.nodes, mem1.nodes, Flat(recs));
    MeaningsKept(mem0, mem1, recs);
    forall i: nat | i < |recs| && RecordOk(mem0.nodes, recs, i) ensures RecordOk(mem1.nodes, recs, i) {
      RecordKept(mem0, mem1, recs, i);
    }
  }

  lemma RecordKept(mem0: Mem, mem1: Mem, recs: seq<seq<nat>>, i: nat)
    requires Kept(mem0, mem1, Flat(recs)) && i < |recs| && RecordOk(mem0.nodes, recs, i)
    ensures RecordOk(mem1.nodes, recs, i)
  {
    hide At, Flat, IsChain;
    forall a | a in recs[i] ensures a in mem0.nodes && a in mem1.nodes && mem1.nodes[a] == mem0.nodes[a] {
      InFlat(recs, i, a);
    }
    ChainKept(mem0.nodes, mem1.nodes, recs[i][0], recs[i]);
  }

  lemma {:induction false} MeaningsKept(mem0: Mem, mem1: Mem, recs: seq<seq<nat>>)
    requires Kept(mem0, mem1, Flat(recs))
    ensures Meanings(mem1, recs) == Meanings(mem0, recs)
  {
    hide At;
    if recs != [] {
      assert forall a | a in recs[0] :: a in Flat(recs);
      if recs[0] != [] { BytesKept(mem0.nodes, mem0.cdata, mem1.nodes, mem1.cdata, recs[0][1..]); }
      MeaningsKept(mem0, mem1, recs[1..]);
    }
  }

  /** Memory where only links between records changed. */
  predicate Rehung(mem0: Mem, mem1: Mem) {
    && mem1 == mem0.(nodes := mem1.nodes) && mem1.nodes.Keys == mem0.nodes.Keys
    && forall a | a in mem0.nodes :: mem1.nodes[a] == mem0.nodes[a].(nextpkt := mem1.nodes[a].nextpkt)
  }

  lemma RehungKind(mem0: Mem, mem1: Mem, m: nat)
    requires Rehung(mem0, mem1) && m in mem0.nodes
    ensures m in mem1.nodes && mem1.nodes[m].kind == mem0.nodes[m].kind
  {
  }

  lemma RehungValid(mem0: Mem, mem1: Mem)
    requires Valid(mem0) && Rehung(mem0, mem1)
    ensures Valid(mem1)
    ensures forall a :: At(mem1.nodes, mem1.cdata, a) == At(mem0.nodes, mem0.cdata, a)
  {
    assert forall a | a in mem0.nodes :: NodeOk(mem0.nodes[a], mem0.cdata);
    ClusterSizes(mem0);
    RehungNodes(mem0, mem1);
    hide NodeOk, ClusterOk, StoreOk, At;
    ValidChange(mem0, mem1);
  }

  lemma RehungNodes(mem0: Mem, mem1: Mem)
    requires Rehung(mem0, mem1) && forall a | a in mem0.nodes :: NodeOk(mem0.nodes[a], mem0.cdata)
    ensures forall a | a in mem0.nodes :: NodeOk(mem1.nodes[a], mem1.cdata)
    ensures forall a :: At(mem1.nodes, mem1.cdata, a) == At(mem0.nodes, mem0.cdata, a)
  {
  }

  // ---------- The queue without its first buffer ----------

  /** The first record is what is left of it, or is gone already. */
  ghost predicate Front(nodes: map<nat, Mbuf>, m: nat, rest: seq<nat>, tail: seq<seq<nat>>) {
    if rest == [] then m == 0 && QueueOk(nodes, HeadOf(tail, 0), tail)
    else m == rest[0] && QueueOk(nodes, m, [rest] + tail)
  }

  lemma FlatCons(rest: seq<nat>, tail: seq<seq<nat>>)
    ensures Flat([rest] + tail) == rest + Flat(tail)
  {
    assert ([rest] + tail)[1..] == tail;
  }

  lemma QueueTail(nodes: map<nat, Mbuf>, m: nat, rest: seq<nat>, tail: seq<seq<nat>>)
    requires QueueOk(nodes, m, [rest] + tail)
    ensures QueueOk(nodes, HeadOf(tail, 0), tail)
    ensures rest != [] && m == rest[0] && IsChain(nodes, m, rest) && m in nodes
    ensures nodes[m].nextpkt == HeadOf(tail, 0) && Plain(nodes, rest[1..])
    ensures NoDup(rest + Flat(tail))
  {
    var recs := [rest] + tail;
    assert RecordOk(nodes, recs, 0);
    FlatCons(rest, tail);
    NoDupParts(rest, Flat(tail));
    assert HeadOf(recs, 1) == HeadOf(tail, 0);
    forall i: nat | i < |tail| ensures RecordOk(nodes, tail, i) {
      assert RecordOk(nodes, recs, i + 1);
      assert HeadOf(recs, i + 2) == HeadOf(tail, i + 1);
    }
  }

  lemma NoDupParts(s: seq<nat>, t: seq<nat>)
    requires NoDup(s + t)
    ensures NoDup(s) && NoDup(t) && forall a | a in s :: a !in t
  {
    var u := s + t;
    forall i, j | 0 <= i < j < |t| ensures t[i] != t[j] { assert u[|s| + i] != u[|s| + j]; }
    forall i, j | 0 <= i < j < |s| ensures s[i] != s[j] { assert u[i] != u[j]; }
    forall i, j | 0 <= i < |s| && 0 <= j < |t| ensures s[i] != t[j] { assert u[i] != u[|s| + j]; }
  }

  lemma NoDupJoin(s: seq<nat>, t: seq<nat>)
    requires NoDup(s) && NoDup(t) && forall a | a in s :: a !in t
    ensures NoDup(s + t)
  {
    var u := s + t;
    forall i, j | 0 <= i < j < |u| ensures u[i] != u[j] {
      if i < |s| <= j { assert s[i] in s && t[j - |s|] in t; }
    }
  }

  /** A chain in front of a queue is a queue. */
  lemma QueueCons(nodes: map<nat, Mbuf>, m: nat, rest: seq<nat>, tail: seq<seq<nat>>)
    requires QueueOk(nodes, HeadOf(tail, 0), tail) && rest != [] && m == rest[0] && IsChain(nodes, m, rest) && m in nodes
    requires nodes[m].nextpkt == HeadOf(tail, 0) && Plain(nodes, rest[1..]) && NoDup(rest + Flat(tail))
    ensures QueueOk(nodes, m, [rest] + tail)
  {
    var recs := [rest] + tail;
    FlatCons(rest, tail);
    forall i: nat | i < |recs| ensures RecordOk(nodes, recs, i) {
      if i > 0 {
        assert RecordOk(nodes, tail, i - 1);
        assert HeadOf(recs, i + 1) == HeadOf(tail, i);
      } else {
        assert HeadOf(recs, 1) == HeadOf(tail, 0);
      }
    }
  }

  /** The buffers n of the first record and f of the others stay; the first of n leads its record. */
  predicate Stay(mem0: Mem, mem1: Mem, n: seq<nat>, f: seq<nat>, next: nat) {
    forall b | b in n + f ::
      && b in mem0.nodes && b in mem1.nodes && At(mem1.nodes, mem1.cdata, b) == At(mem0.nodes, mem0.cdata, b)
      && mem1.nodes[b] == mem0.nodes[b].(nextpkt := if n != [] && b == n[0] then next else mem0.nodes[b].nextpkt)
  }

  lemma StaySums(mem0: Mem, mem1: Mem, a: nat, n: seq<nat>, f: seq<nat>, next: nat)
    requires Stay(mem0, mem1, n, f, next) && a in mem0.nodes
    ensures SumLen(mem1.nodes, n + f) + mem0.nodes[a].len == SumLen(mem0.nodes, [a] + n + f)
    ensures SumCharge(mem1.nodes, n + f) + Charge(mem0.nodes[a]) == SumCharge(mem0.nodes, [a] + n + f)
    ensures Bytes(mem1.nodes, mem1.cdata, n) == Bytes(mem0.nodes, mem0.cdata, n)
  {
    hide At, Charge;
    SumKept(mem0.nodes, mem1.nodes, n + f);
    assert ([a] + n + f)[1..] == n + f;
    BytesKept(mem0.nodes, mem0.cdata, mem1.nodes, mem1.cdata, n);
  }

  lemma StayTail(mem0: Mem, mem1: Mem, n: seq<nat>, tail: seq<seq<nat>>, next: nat)
    requires Stay(mem0, mem1, n, Flat(tail), next) && NoDup(n + Flat(tail))
    requires QueueOk(mem0.nodes, HeadOf(tail, 0), tail)
    ensures QueueOk(mem1.nodes, HeadOf(tail, 0), tail) && Meanings(mem1, tail) == Meanings(mem0, tail)
  {
    hide At, RecordOk;
    var f := Flat(tail);
    NoDupParts(n, f);
    forall b | b in f ensures b in n + f && (n != [] ==> b != n[0]) {}
    assert Kept(mem0, mem1, f);
    RecordsKept(mem0, mem1, tail);
  }

  /** After the first buffer a is taken out and the next one leads the record. */
  lemma TakenFront(mem0: Mem, mem1: Mem, a: nat, n: seq<nat>, tail: seq<seq<nat>>)
    requires QueueOk(mem0.nodes, a, [[a] + n] + tail) && Stay(mem0, mem1, n, Flat(tail), HeadOf(tail, 0))
    ensures a in mem0.nodes && Front(mem1.nodes, mem0.nodes[a].next, n, tail)
    ensures SumLen(mem1.nodes, n + Flat(tail)) + mem0.nodes[a].len == SumLen(mem0.nodes, [a] + n + Flat(tail))
    ensures SumCharge(mem1.nodes, n + Flat(tail)) + Charge(mem0.nodes[a]) == SumCharge(mem0.nodes, [a] + n + Flat(tail))
    ensures Meanings(mem1, tail) == Meanings(mem0, tail)
    ensures Bytes(mem1.nodes, mem1.cdata, n) == Bytes(mem0.nodes, mem0.cdata, n)
  {
    hide At, IsChain, Charge, QueueOk, Stay;
    var rest, f := [a] + n, Flat(tail);
    QueueTail(mem0.nodes, a, rest, tail);
    assert rest[1..] == n;
    assert rest + f == [a] + (n + f);
    NoDupParts([a], n + f);
    StaySums(mem0, mem1, a, n, f, HeadOf(tail, 0));
    StayTail(mem0, mem1, n, tail, HeadOf(tail, 0));
    StayFront(mem0, mem1, a, n, tail);
  }

  lemma StayFront(mem0: Mem, mem1: Mem, a: nat, n: seq<nat>, tail: seq<seq<nat>>)
    requires IsChain(mem0.nodes, a, [a] + n) && a in mem0.nodes && Plain(mem0.nodes, n) && NoDup(n + Flat(tail))
    requires Stay(mem0, mem1, n, Flat(tail), HeadOf(tail, 0)) && QueueOk(mem1.nodes, HeadOf(tail, 0), tail)
    ensures Front(mem1.nodes, mem0.nodes[a].next, n, tail)
  {
    hide At, IsChain, QueueOk;
    var next := mem0.nodes[a].next;
    assert ([a] + n)[1..] == n;
    ChainTail(mem0.nodes, a, [a] + n);
    ChainEnds(mem0.nodes, next, n);
    forall b | b in n ensures b in n + Flat(tail) {}
    ChainKept(mem0.nodes, mem1.nodes, next, n);
    if n != [] {
      assert n[0] in n;
      assert Plain(mem1.nodes, n[1..]);
      QueueCons(mem1.nodes, next, n, tail);
    } else {
      FrontEmpty(mem1.nodes, tail);
    }
  }

  lemma FrontEmpty(nodes: map<nat, Mbuf>, tail: seq<seq<nat>>)
    requires QueueOk(nodes, HeadOf(tail, 0), tail)
    ensures Front(nodes, 0, [], tail)
  {
  }

  // ---------- The socket buffer ----------

  class Sockbuf {
    const pool: Pool
    var cc: nat
    var mbcnt: nat
    var hiwat: nat
    var lowat: nat
    var mbmax: nat
    var mb: nat
    ghost var recs: seq<seq<nat>>

    /** The records are queued, and the counters are right. */
    ghost predicate Ok()
      reads this, pool
    {
      && Valid(pool.V()) && QueueOk(pool.nodes, mb, recs) && Counted(Flat(recs)) && cc <= hiwat
      && hiwat <= SB_MAX && mbmax <= SB_MAX
    }

    ghost predicate Counted(s: seq<nat>)
      reads this`cc, this`mbcnt, pool
    {
      cc == SumLen(pool.nodes, s) && mbcnt == SumCharge(pool.nodes, s)
    }

    /** The datagrams, oldest first. */
    ghost function Queue(): seq<Datagram>
      reads this, pool
    {
      Meanings(pool.V(), recs)
    }

    constructor (pool: Pool)
      requires Valid(pool.V())
      ensures this.pool == pool && Ok() && recs == [] && cc == mbcnt == hiwat == mb == 0
    {
      this.pool := pool;
      cc, mbcnt, hiwat, lowat, mbmax, mb, recs := 0, 0, 0, 0, 0, 0, [];
    }

    /** sbreserve: sets the limits.  The bytes stay below the limit only when there are not too many
        already. */
    method Reserve(sz: nat) returns (failed: bool)
      requires Ok()
      modifies this`hiwat, this`lowat, this`mbmax
      ensures failed <==> sz == 0 || sz > SB_MAX * MCLBYTES / (MSIZE + MCLBYTES)
      ensures failed ==> hiwat == old(hiwat) && lowat == old(lowat) && mbmax == old(mbmax)
      ensures !failed ==> hiwat == sz && mbmax == Min(sz * 2, SB_MAX) && lowat == Min(old(lowat), sz)
      ensures Ok() <==> failed || cc <= sz
    {
      hide Valid;
      failed := sz == 0 || sz > SB_MAX * MCLBYTES / (MSIZE + MCLBYTES);
      if !failed {
        hiwat := sz;
        mbmax := Min(sz * 2, SB_MAX);
        if lowat > hiwat { lowat := hiwat; }
      }
    }

    /** sbspace, in unsigned 32-bit arithmetic: storage may go over its limit, and then only the bytes
        count. */
    function Space(): int
      reads this
    {
      var bytes, storage := (hiwat - cc) % ULONG, (mbmax - mbcnt) % ULONG;
      if bytes < storage then bytes else storage
    }

    /** n more bytes stay below the limit on bytes, and below the one on storage as long as that is kept.
        A buffer whose storage went over its limit is judged by its bytes alone. */
    predicate Fits(n: nat)
      reads this`cc, this`hiwat, this`mbcnt, this`mbmax
    {
      cc + n <= hiwat && (mbcnt <= mbmax ==> mbcnt + n <= mbmax)
    }

    /** That is what the comparison with sbspace decides, until the storage wraps around. */
    lemma SpaceFits(n: nat)
      requires cc <= hiwat <= SB_MAX && mbmax <= SB_MAX
      ensures mbcnt <= mbmax + ULONG - SB_MAX ==> (n <= Space() <==> Fits(n))
      ensures n <= Space() ==> cc + n <= hiwat
    {
    }

    // ---------- Taking buffers off the front ----------

    /** While a record is received, `rest` is what is left of it. */
    ghost predicate Partial(rest: seq<nat>, tail: seq<seq<nat>>)
      reads this, pool
    {
      Valid(pool.V()) && Front(pool.nodes, mb, rest, tail) && Counted(rest + Flat(tail)) && cc <= hiwat
    }

    /** sbfree */
    method Sbfree(m: nat)
      requires m in pool.nodes && pool.nodes[m].len <= cc && Charge(pool.nodes[m]) <= mbcnt
      modifies this`cc, this`mbcnt
      ensures cc == old(cc) - pool.nodes[m].len && mbcnt == old(mbcnt) - Charge(pool.nodes[m])
    {
      cc := cc - pool.nodes[m].len;
      mbcnt := mbcnt - MSIZE;
      if pool.nodes[m].ext { mbcnt := mbcnt - MCLBYTES; }
    }

    /** Takes the first buffer out of the first record; it is released or kept for the caller. */
    method TakeHead(keep: bool, nextpkt: nat, ghost rest: seq<nat>, ghost tail: seq<seq<nat>>) returns (m: nat)
      requires Partial(rest, tail) && rest != [] && nextpkt == HeadOf(tail, 0)
      modifies this`cc, this`mbcnt, this`mb, pool
      ensures Partial(rest[1..], tail) && m == mb && old(mb) in old(pool.nodes) && rest[0] == old(mb)
      ensures cc + old(pool.nodes)[old(mb)].len == old(cc)
      ensures Meanings(pool.V(), tail) == old(Meanings(pool.V(), tail))
      ensures Gone(old(pool.V()), pool.V(), old(mb), rest[1..] , tail, keep)
    {
      hide Valid, IsChain, Front, At, Bytes, Gone, Charge, Released;
      ghost var mem0, n := pool.V(), rest[1..];
      FrontFirst(pool.nodes, mb, rest, tail);
      var a := mb;
      TakeSums(mem0, a, n, tail);
      Sbfree(a);
      if keep {
        mb := pool.nodes[a].next;
        pool.nodes := pool.nodes[a := pool.nodes[a].(next := 0)];
        KeepValid(mem0, pool.V(), a);
      } else {
        mb := pool.Free(a);
      }
      m := mb;
      ghost var mem1 := pool.V();
      TakeNext(mem0, mem1, a, n, tail, keep);
      if m != 0 { pool.nodes := pool.nodes[m := pool.nodes[m].(nextpkt := nextpkt)]; }
      TakeDone(mem0, mem1, pool.V(), a, n, tail, keep);
      GoneTail(mem0, pool.V(), a, n, tail, keep);
    }

    /** sbdroprecord: releases what is left of the first record. */
    method Droprecord(ghost rest: seq<nat>, ghost tail: seq<seq<nat>>)
      requires Partial(rest, tail) && rest != []
      modifies this`cc, this`mbcnt, this`mb, pool
      ensures Valid(pool.V()) && QueueOk(pool.nodes, mb, tail) && Counted(Flat(tail)) && cc <= hiwat
      ensures pool.nodes == old(pool.nodes) - Elements(rest) && pool.cdata == old(pool.cdata)
      ensures Meanings(pool.V(), tail) == old(Meanings(pool.V(), tail))
    {
      hide Valid, IsChain, Front, At, Bytes, Charge, Released, QueueOk;
      ghost var mem0, q := pool.V(), rest;
      FrontFirst(pool.nodes, mb, rest, tail);
      var m := mb;
      mb := pool.nodes[m].nextpkt;
      ChainEnds(pool.nodes, m, q);
      assert mem0.nodes - (Elements(rest) - Elements(q)) == mem0.nodes;
      while m != 0
        invariant Valid(pool.V()) && IsChain(pool.nodes, m, q) && (m == 0 <==> q == [])
        invariant pool.nodes == mem0.nodes - (Elements(rest) - Elements(q)) && Elements(q) <= Elements(rest)
        invariant pool.cdata == mem0.cdata && cc <= hiwat && mb == HeadOf(tail, 0)
        invariant cc == SumLen(mem0.nodes, q + Flat(tail)) && mbcnt == SumCharge(mem0.nodes, q + Flat(tail))
        decreases |q|
      {
        ChainEnds(pool.nodes, m, q);
        ChainTail(pool.nodes, m, q);
        DropSums(mem0, q, tail);
        Sbfree(m);
        ghost var before := pool.nodes;
        m := pool.Free(m);
        ChainKept(before, pool.nodes, m, q[1..]);
        ElementsCons(q);
        MinusMore(mem0.nodes, Elements(rest), Elements(q), q[0], Elements(q[1..]));
        q := q[1..];
        ChainEnds(pool.nodes, m, q);
      }
      assert q + Flat(tail) == Flat(tail) && Elements(rest) - Elements(q) == Elements(rest);
      DropDone(mem0, pool.V(), rest, tail);
    }

    /** Takes len bytes off the front of the first buffer. */
    method CutHead(len: nat, ghost rest: seq<nat>, ghost tail: seq<seq<nat>>)
      requires Partial(rest, tail) && rest != [] && mb in pool.nodes && len <= pool.nodes[mb].len
      modifies this`cc, pool`nodes
      ensures Partial(rest, tail)
      ensures Meanings(pool.V(), tail) == old(Meanings(pool.V(), tail)) && pool.V() == old(pool.V()).(nodes := pool.nodes)
      ensures cc + len == old(cc)
      ensures mb in old(pool.nodes) && mb in pool.nodes && pool.nodes == old(pool.nodes)[mb := pool.nodes[mb]]
      ensures pool.nodes[mb].len + len == old(pool.nodes)[mb].len
    {
      hide Valid, Front, At, Charge;
      ghost var mem0 := pool.V();
      FrontFirst(pool.nodes, mb, rest, tail);
      var n := pool.nodes[mb];
      pool.nodes := pool.nodes[mb := n.(data := n.data + len, len := n.len - len)];
      CutDone(mem0, pool.V(), mb, rest, tail, len);
      cc := cc - len;
    }

    // ---------- soreceive ----------

    /** The data part of soreceive on a protocol with addresses and atomic datagrams: fills buf from
        what is left of the first record. */
    method ReceiveData(m0: nat, nextpkt0: nat, resid0: nat, buf: array<byte>, ghost n: seq<nat>,
                       ghost tail: seq<seq<nat>>)
      returns (m: nat, done: nat, ghost rest: seq<nat>)
      requires Partial(n, tail) && m0 == mb && (n != [] ==> nextpkt0 == HeadOf(tail, 0)) && resid0 <= buf.Length
      modifies this`cc, this`mbcnt, this`mb, pool, buf
      ensures Partial(rest, tail) && m == mb && (m == 0 <==> rest == [])
      ensures Meanings(pool.V(), tail) == old(Meanings(pool.V(), tail)) && cc + done == old(cc)
      ensures Outside(old(pool.V()), pool.V(), n, rest)
      ensures var r := old(ReadBytes(pool.V(), n)); done == Min(resid0, |r|) && buf[..done] == r[..done]
      ensures old(NoneEmpty(pool.nodes, n)) ==> NoneEmpty(pool.nodes, rest)
      ensures buf[done..] == old(buf[..])[done..]
    {
      hide Valid, IsChain, Front, At, Bytes, Charge, QueueOk, Gone, Outside, Data, ReadBytes, Readable, Filled, NoneEmpty;
      m, done, rest := m0, 0, n;
      FilledNot(buf[..], ReadBytes(pool.V(), n));
      ghost var mem0, r, buf0 := pool.V(), ReadBytes(pool.V(), n), buf[..];
      var resid, eor, nextpkt := resid0, false, nextpkt0;
      OutsideRefl(mem0, n);
      FrontNull(pool.nodes, m, rest, tail);
      while m != 0 && resid > 0 && !eor
        invariant Partial(rest, tail) && m == mb && (m == 0 <==> rest == [])
        invariant Meanings(pool.V(), tail) == Meanings(mem0, tail) && cc + done == old(cc)
        invariant Outside(mem0, pool.V(), n, rest) && (rest != [] ==> nextpkt == HeadOf(tail, 0))
        invariant done <= |r| && done + resid == resid0 && Filled(buf[..], r, done, buf0)
        invariant NoneEmpty(mem0.nodes, n) ==> NoneEmpty(pool.nodes, rest)
        invariant resid > 0 && !eor ==> ReadBytes(pool.V(), rest) == r[done..]
        invariant eor ==> done == |r|
        decreases !eor, |rest|, resid
      {
        var len;
        m, nextpkt, len, eor, rest := Round(m, nextpkt, resid, done, buf, r, buf0, mem0, n, rest, tail);
        resid, done := resid - len, done + len;
      }
      ReadNothing(pool.V());
      FilledIs(buf[..], r, done, buf0);
    }

    /** uiomove */
    static method Deliver(buf: array<byte>, done: nat, x: seq<byte>, ghost r: seq<byte>, ghost buf0: seq<byte>)
      requires Filled(buf[..], r, done, buf0) && done + |x| <= buf.Length && done + |x| <= |r|
      requires r[..done + |x|] == r[..done] + x
      modifies buf
      ensures Filled(buf[..], r, done + |x|, buf0)
    {
      ghost var b := buf[..];
      Pool.CopyOut(buf, done, x);
      FilledMore(b, buf[..], r, done, x, buf0);
    }

    /** One round of the loop: bytes of the first buffer go to the caller, and the buffer is dropped
        when all of them did. */
    method Round(m0: nat, nextpkt0: nat, resid: nat, done: nat, buf: array<byte>, ghost r: seq<byte>, ghost buf0: seq<byte>,
                 ghost mem0: Mem, ghost n: seq<nat>, ghost rest0: seq<nat>, ghost tail: seq<seq<nat>>)
      returns (m: nat, nextpkt: nat, len: nat, eor: bool, ghost rest: seq<nat>)
      requires Partial(rest0, tail) && m0 == mb && rest0 != [] && m0 != 0 && nextpkt0 == HeadOf(tail, 0)
      requires resid > 0 && done + resid <= buf.Length && done <= |r| && Filled(buf[..], r, done, buf0)
      requires ReadBytes(pool.V(), rest0) == r[done..] && Outside(mem0, pool.V(), n, rest0)
      modifies this`cc, this`mbcnt, this`mb, pool, buf
      ensures Partial(rest, tail) && m == mb && (m == 0 <==> rest == [])
      ensures Meanings(pool.V(), tail) == old(Meanings(pool.V(), tail)) && cc + len == old(cc)
      ensures Outside(mem0, pool.V(), n, rest) && (rest != [] ==> nextpkt == HeadOf(tail, 0))
      ensures len <= resid && done + len <= |r| && Filled(buf[..], r, done + len, buf0)
      ensures len < resid && !eor ==> ReadBytes(pool.V(), rest) == r[done + len..]
      ensures eor ==> done + len == |r|
      ensures |rest| < |rest0| || (rest == rest0 && len > 0 && !eor)
      ensures old(NoneEmpty(pool.nodes, rest0)) ==> NoneEmpty(pool.nodes, rest)
    {
      hide Valid, IsChain, Front, At, Bytes, Charge, QueueOk, Gone, Outside, Data, ReadBytes, Readable, Filled, NoneEmpty;
      m, nextpkt, eor, rest := m0, nextpkt0, false, rest0;
      ghost var mem1 := pool.V();
      FrontFirst(pool.nodes, m, rest, tail);
      FrontNull(pool.nodes, m, rest, tail);
      var n1 := pool.nodes[m];
      len := Min(resid, n1.len);
      ReadFirst(mem1, m, rest, r, done, len);
      Deliver(buf, done, Data(n1, pool.cdata)[..len], r, buf0);
      if len == n1.len {
        nextpkt := n1.nextpkt;
        m := TakeHead(false, nextpkt, rest, tail);
        eor := n1.eor;
        ReadNext(mem1, pool.V(), rest, tail, false);
        OutsideNext(mem0, mem1, pool.V(), n, rest, tail);
        NoneNext(mem1, pool.V(), rest, tail);
        rest := rest[1..];
        FrontNull(pool.nodes, m, rest, tail);
      } else {
        CutHead(len, rest, tail);
        OutsideCut(mem0, mem1, pool.V(), n, rest);
        NoneCut(mem1.nodes, pool.nodes, rest, m);
      }
    }

    /** soreceive without MSG_PEEK on a protocol with addresses and atomic datagrams, for a caller that
        does not block: takes the oldest datagram off the queue and puts the first of its bytes into
        buf; the rest of it is lost.  The address buffer goes to the caller that wants it. */
    method Receive(buf: array<byte>, resid: nat, wantaddr: bool)
      returns (empty: bool, addr: nat, done: nat, trunc: bool)
      requires Ok() && resid <= buf.Length
      modifies this`cc, this`mbcnt, this`mb, this`recs, pool, buf
      ensures Ok() && (empty <==> old(recs) == [])
      ensures empty ==> recs == [] && pool.V() == old(pool.V()) && buf[..] == old(buf[..])
      ensures !empty ==> recs == old(recs)[1..] && Queue() == old(Queue())[1..]
      ensures !empty ==> var r := old(ReadBytes(pool.V(), DataOf(recs)));
        done == Min(resid, |r|) && buf[..done] == r[..done] && buf[done..] == old(buf[..])[done..]
      ensures !empty && !trunc ==> done == |old(Queue())[0].payload|
      ensures !empty && old(NoneEmpty(pool.nodes, DataOf(recs))) ==> (trunc <==> done < |old(Queue())[0].payload|)
      ensures !empty && wantaddr ==> addr in pool.nodes && pool.nodes[addr].next == 0
      ensures !empty && wantaddr ==> At(pool.nodes, pool.cdata, addr) == old(Queue())[0].addr
      ensures !empty ==> pool.nodes.Keys == old(pool.nodes.Keys) - (old(Elements(FirstOf(recs))) - if wantaddr then {addr} else {})
      ensures !empty ==> Others(old(pool.V()), old(Elements(FirstOf(recs))), pool.V(), if wantaddr then {addr} else {})
    {
      hide Valid, IsChain, At, Bytes, Charge, QueueOk, Gone, Outside, ReadBytes, Readable, Others, NoneEmpty;
      addr, done, trunc := 0, 0, false;
      QueueNull(pool.nodes, mb, recs);
      empty := mb == 0;
      if !empty {
        ghost var mem0, c, tail := pool.V(), recs[0], recs[1..];
        var a := mb;
        FirstRecord(pool.V(), mb, recs);
        var nextpkt := pool.nodes[a].nextpkt;
        var m := TakeHead(wantaddr, nextpkt, c, tail);
        ghost var mem1 := pool.V();
        if wantaddr { addr := a; }
        ReadNext(mem0, mem1, c, tail, wantaddr);
        ghost var rest;
        m, done, rest := ReceiveData(m, nextpkt, resid, buf, c[1..], tail);
        ghost var mem2 := pool.V();
        assert [] + Flat(tail) == Flat(tail);
        Leftover(mem0, mem1, mem2, a, c[1..], rest, tail, wantaddr);
        if m != 0 {
          trunc := true;
          Droprecord(rest, tail);
        } else {
          mb := nextpkt;
        }
        recs := tail;
        ReceiveEnd(mem0, mem1, mem2, pool.V(), a, c[1..], rest, tail, wantaddr);
      }
    }

    // ---------- sbappendaddr ----------

    /** sballoc */
    method Sballoc(m: nat)
      requires m in pool.nodes
      modifies this`cc, this`mbcnt
      ensures cc == old(cc) + pool.nodes[m].len && mbcnt == old(mbcnt) + Charge(pool.nodes[m])
    {
      cc := cc + pool.nodes[m].len;
      mbcnt := mbcnt + MSIZE;
      if pool.nodes[m].ext { mbcnt := mbcnt + MCLBYTES; }
    }

    /** Counts every buffer of a chain. */
    method Count(m: nat, ghost d: seq<nat>)
      requires IsChain(pool.nodes, m, d)
      modifies this`cc, this`mbcnt
      ensures cc == old(cc) + SumLen(pool.nodes, d) && mbcnt == old(mbcnt) + SumCharge(pool.nodes, d)
    {
      hide IsChain, Charge;
      var n := m;
      ghost var q := d;
      ChainEnds(pool.nodes, n, q);
      while n != 0
        invariant IsChain(pool.nodes, n, q) && (n == 0 <==> q == [])
        invariant cc + SumLen(pool.nodes, q) == old(cc) + SumLen(pool.nodes, d)
        invariant mbcnt + SumCharge(pool.nodes, q) == old(mbcnt) + SumCharge(pool.nodes, d)
        decreases |q|
      {
        ChainEnds(pool.nodes, n, q);
        ChainTail(pool.nodes, n, q);
        Sballoc(n);
        n, q := pool.nodes[n].next, q[1..];
        ChainEnds(pool.nodes, n, q);
      }
    }

    /** Hangs a new record behind the last one. */
    method Enqueue(m: nat, ghost d: seq<nat>, ghost mem0: Mem)
      requires QueueOk(mem0.nodes, mb, recs) && NewRecord(mem0, pool.V(), m, d)
      requires d[1..] != [] ==> forall a | a in d[1..] :: a !in Flat(recs)
      modifies this`mb, this`recs, pool`nodes
      ensures Rehung(old(pool.V()), pool.V()) && recs == old(recs) + [d] && QueueOk(pool.nodes, mb, recs)
    {
      hide IsChain, QueueOk, NewRecord, Plain;
      ghost var mem1 := pool.V();
      QueueNull(mem0.nodes, mb, recs);
      QueueHead(mem0.nodes, mb, recs);
      var n := mb;
      if n != 0 {
        n := LastRecord(n, mem0, m, d);
        pool.nodes := pool.nodes[n := pool.nodes[n].(nextpkt := m)];
      } else {
        mb := m;
      }
      QueueSnoc(mem0, mem1, pool.V(), mb, recs, m, d);
      recs := recs + [d];
    }

    /** The first buffer of the last record. */
    method LastRecord(n0: nat, ghost mem0: Mem, ghost m: nat, ghost d: seq<nat>) returns (n: nat)
      requires QueueOk(mem0.nodes, mb, recs) && NewRecord(mem0, pool.V(), m, d) && n0 == mb != 0 && recs != []
      ensures n == HeadOf(recs, |recs| - 1) && n in pool.nodes
    {
      hide IsChain, Plain;
      n := n0;
      ghost var i := 0;
      assert RecordOk(mem0.nodes, recs, 0);
      while pool.nodes[n].nextpkt != 0
        invariant i < |recs| && n == HeadOf(recs, i) && n in mem0.nodes && n in pool.nodes
        invariant pool.nodes[n].nextpkt == HeadOf(recs, i + 1)
        decreases |recs| - i
      {
        n, i := pool.nodes[n].nextpkt, i + 1;
        assert RecordOk(mem0.nodes, recs, i);
      }
      if i + 1 < |recs| { RecordHead(mem0.nodes, recs, i + 1); }
    }

    /** sbappendaddr without control information: queues the data with the address they came from, or
        leaves everything as it was. */
    method Appendaddr(addr: seq<byte>, data: nat, ghost c: seq<nat>) returns (ok: bool)
      requires Ok() && IsChain(pool.nodes, data, c) && PacketOk(pool.nodes, pool.cdata, c) && Plain(pool.nodes, c)
      requires forall a | a in c :: a !in Flat(recs)
      modifies this`cc, this`mbcnt, this`mb, this`recs, pool
      ensures Ok()
      ensures ok <==> (data != 0 ==> data in old(pool.nodes) && old(pool.nodes)[data].pkthdr) && |addr| <= MLEN &&
                      |addr| + |old(Bytes(pool.nodes, pool.cdata, c))| <= old(Space()) && old(pool.room) != map[]
      ensures old(mbcnt) <= mbmax + ULONG - SB_MAX ==>
        (ok <==> (data != 0 ==> data in old(pool.nodes) && old(pool.nodes)[data].pkthdr) && |addr| <= MLEN &&
                 old(Fits(|addr| + |Bytes(pool.nodes, pool.cdata, c)|)) && old(pool.room) != map[])
      ensures !ok ==> pool.V() == old(pool.V()) && recs == old(recs)
      ensures ok ==> Queue() == old(Queue()) + [Datagram(addr, old(Bytes(pool.nodes, pool.cdata, c)))]
      ensures ok ==> |recs| == |old(recs)| + 1 && recs[..|recs| - 1] == old(recs) && recs[|recs| - 1] != []
      ensures ok ==> recs[|recs| - 1][1..] == c
      ensures ok ==> recs[|recs| - 1][0] in pool.nodes && pool.nodes[recs[|recs| - 1][0]].kind == MT_SONAME
    {
      hide Valid, IsChain, At, Bytes, PacketOk, QueueOk, Charge, Plain, Blank;
      ghost var mem0 := pool.V();
      ChainEnds(pool.nodes, data, c);
      ValidNotNull(mem0);
      BytesEmpty(pool.nodes, pool.cdata);
      var space := |addr|;
      ok := data == 0 || pool.nodes[data].pkthdr;
      if ok {
        if data != 0 {
          PacketIff(mem0, data, c);
          space := space + pool.nodes[data].plen;
        }
        SpaceFits(space);
        ok := space <= Space() && |addr| <= MLEN;
      }
      if ok { ok := Append(addr, data, c); }
    }

    /** The part of sbappendaddr after the checks: the address buffer, the accounting and the link. */
    method Append(addr: seq<byte>, data: nat, ghost c: seq<nat>) returns (ok: bool)
      requires Ok() && IsChain(pool.nodes, data, c) && Plain(pool.nodes, c) && |addr| <= MLEN
      requires |addr| + |Bytes(pool.nodes, pool.cdata, c)| <= hiwat - cc
      requires forall a | a in c :: a !in Flat(recs)
      modifies this`cc, this`mbcnt, this`mb, this`recs, pool
      ensures Ok()
      ensures ok <==> old(pool.room) != map[]
      ensures !ok ==> pool.V() == old(pool.V()) && recs == old(recs) && cc == old(cc) && mbcnt == old(mbcnt)
      ensures ok ==> Queue() == old(Queue()) + [Datagram(addr, old(Bytes(pool.nodes, pool.cdata, c)))]
      ensures ok ==> |recs| == |old(recs)| + 1 && recs[..|recs| - 1] == old(recs) && recs[|recs| - 1] != []
      ensures ok ==> recs[|recs| - 1][1..] == c
      ensures ok ==> recs[|recs| - 1][0] in pool.nodes && pool.nodes[recs[|recs| - 1][0]].kind == MT_SONAME
    {
      hide Valid, IsChain, At, Bytes, QueueOk, Charge, Plain, Blank, NewRecord, Flat, Rehung, Meaning;
      ghost var mem0, before := pool.V(), recs;
      ValidNotNull(mem0);
      QueueHead(mem0.nodes, mb, recs);
      var m := pool.Get(MT_SONAME);
      ok := m != 0;
      if ok {
        RecordRoom(mem0, m);
        var n := pool.nodes[m];
        pool.nodes := pool.nodes[m := n.(len := |addr|, dat := Splice(n.dat, n.data, addr), next := data)];
        ghost var mem1, d := pool.V(), [m] + c;
        RecordMade(mem0, mem1, m, data, c, addr);
        RecordChain(mem0, mem1, m, d);
        Count(m, d);
        Enqueue(m, d, mem0);
        Enqueued(mem0, mem1, pool.V(), m, c, addr, before);
        RehungKind(mem1, pool.V(), m);
        assert recs[..|recs| - 1] == before;
      }
    }
  }

  lemma DropSums(mem: Mem, q: seq<nat>, tail: seq<seq<nat>>)
    requires q != [] && q[0] in mem.nodes
    ensures SumLen(mem.nodes, q + Flat(tail)) == mem.nodes[q[0]].len + SumLen(mem.nodes, q[1..] + Flat(tail))
    ensures SumCharge(mem.nodes, q + Flat(tail)) == Charge(mem.nodes[q[0]]) + SumCharge(mem.nodes, q[1..] + Flat(tail))
  {
    hide Charge;
    assert (q + Flat(tail))[1..] == q[1..] + Flat(tail);
  }

  lemma DropDone(mem0: Mem, mem1: Mem, rest: seq<nat>, tail: seq<seq<nat>>)
    requires rest != [] && QueueOk(mem0.nodes, rest[0], [[rest[0]] + rest[1..]] + tail)
    requires mem1.nodes == mem0.nodes - Elements(rest) && mem1.cdata == mem0.cdata
    ensures QueueOk(mem1.nodes, HeadOf(tail, 0), tail) && Meanings(mem1, tail) == Meanings(mem0, tail)
    ensures SumLen(mem1.nodes, Flat(tail)) == SumLen(mem0.nodes, Flat(tail))
    ensures SumCharge(mem1.nodes, Flat(tail)) == SumCharge(mem0.nodes, Flat(tail))
  {
    hide Data, IsChain, Charge;
    var n, f := rest[1..], Flat(tail);
    assert rest == [rest[0]] + n;
    QueueMembers(mem0.nodes, rest[0], n, tail);
    QueueTail(mem0.nodes, rest[0], rest, tail);
    NoDupParts(rest, f);
    forall b | b in f ensures b in mem0.nodes && b !in Elements(rest) { assert b in n + f; }
    assert Kept(mem0, mem1, f);
    hide At;
    RecordsKept(mem0, mem1, tail);
  }

  lemma CutDone(mem0: Mem, mem1: Mem, m: nat, rest: seq<nat>, tail: seq<seq<nat>>, len: nat)
    requires Valid(mem0) && Front(mem0.nodes, m, rest, tail) && rest != [] && m in mem0.nodes && len <= mem0.nodes[m].len
    requires var n := mem0.nodes[m];
      mem1 == mem0.(nodes := mem0.nodes[m := n.(data := n.data + len, len := n.len - len)])
    ensures Valid(mem1) && Front(mem1.nodes, m, rest, tail) && Meanings(mem1, tail) == Meanings(mem0, tail)
    ensures SumLen(mem1.nodes, rest + Flat(tail)) + len == SumLen(mem0.nodes, rest + Flat(tail))
    ensures SumCharge(mem1.nodes, rest + Flat(tail)) == SumCharge(mem0.nodes, rest + Flat(tail))
  {
    ShortenValid(mem0, mem1, m, mem0.nodes[m].data + len, mem0.nodes[m].len - len);
    hide Valid, IsChain, Front, QueueOk, At;
    FrontFirst(mem0.nodes, m, rest, tail);
    var n, f := rest[1..], Flat(tail);
    assert [m] + n == rest;
    FrontApart(mem0.nodes, m, n, tail);
    CutOthers(mem0, mem1, m, n + f);
    SumKept(mem0.nodes, mem1.nodes, n + f);
    DropSums(mem0, rest, tail);
    DropSums(mem1, rest, tail);
    CutQueue(mem0, mem1, m, rest, tail);
  }

  /** The first buffer is none of the others. */
  lemma FrontApart(nodes: map<nat, Mbuf>, m: nat, n: seq<nat>, tail: seq<seq<nat>>)
    requires QueueOk(nodes, m, [[m] + n] + tail)
    ensures forall b | b in n + Flat(tail) :: b != m && b in nodes
  {
    hide IsChain, QueueOk;
    QueueMembers(nodes, m, n, tail);
    NoDupParts([m], n + Flat(tail));
    assert m in [m];
  }

  lemma CutOthers(mem0: Mem, mem1: Mem, m: nat, s: seq<nat>)
    requires m in mem0.nodes && m in mem1.nodes && mem1 == mem0.(nodes := mem0.nodes[m := mem1.nodes[m]])
    requires forall b | b in s :: b != m && b in mem0.nodes
    ensures Kept(mem0, mem1, s)
  {
  }

  lemma CutQueue(mem0: Mem, mem1: Mem, m: nat, rest: seq<nat>, tail: seq<seq<nat>>)
    requires QueueOk(mem0.nodes, m, [rest] + tail) && rest != [] && Kept(mem0, mem1, rest[1..] + Flat(tail))
    requires m in mem0.nodes && m in mem1.nodes && mem1.nodes == mem0.nodes[m := mem1.nodes[m]]
    requires mem1.nodes[m].next == mem0.nodes[m].next && mem1.nodes[m].nextpkt == mem0.nodes[m].nextpkt
    requires mem1.nodes[m].kind == mem0.nodes[m].kind
    ensures Front(mem1.nodes, m, rest, tail) && Meanings(mem1, tail) == Meanings(mem0, tail)
  {
    hide At, IsChain;
    QueueTail(mem0.nodes, m, rest, tail);
    ChainEnds(mem0.nodes, m, rest);
    ChainKept(mem0.nodes, mem1.nodes, m, rest);
    forall b | b in Flat(tail) ensures b in rest[1..] + Flat(tail) {}
    assert Kept(mem0, mem1, Flat(tail));
    RecordsKept(mem0, mem1, tail);
    QueueCons(mem1.nodes, m, rest, tail);
  }

  /** The bytes that one receive can deliver. */
  ghost function ReadBytes(mem: Mem, c: seq<nat>): seq<byte> {
    Bytes(mem.nodes, mem.cdata, Readable(mem.nodes, c))
  }

  lemma ReadCons(mem: Mem, c: seq<nat>)
    requires c != []
    ensures ReadBytes(mem, c) == At(mem.nodes, mem.cdata, c[0]) +
              (if c[0] in mem.nodes && mem.nodes[c[0]].eor then [] else ReadBytes(mem, c[1..]))
  {
    hide At;
    var r := Readable(mem.nodes, c);
    BytesCons(mem, r);
    BytesEmpty(mem.nodes, mem.cdata);
    if c[0] in mem.nodes && mem.nodes[c[0]].eor {
      assert r[1..] == [];
    } else {
      assert r[1..] == Readable(mem.nodes, c[1..]);
    }
  }

  lemma {:induction false} ReadKept(mem0: Mem, mem1: Mem, c: seq<nat>)
    requires forall b | b in c :: b in mem0.nodes && b in mem1.nodes && mem1.nodes[b].eor == mem0.nodes[b].eor
    requires forall b | b in c :: At(mem1.nodes, mem1.cdata, b) == At(mem0.nodes, mem0.cdata, b)
    ensures ReadBytes(mem1, c) == ReadBytes(mem0, c)
  {
    hide At;
    if c != [] {
      ReadKept(mem0, mem1, c[1..]);
      ReadCons(mem0, c);
      ReadCons(mem1, c);
    }
  }

  /** The buffers n shrank to rest; all others are as they were, but that some may be gone. */
  ghost predicate Outside(mem0: Mem, mem: Mem, n: seq<nat>, rest: seq<nat>) {
    && mem.nodes.Keys == mem0.nodes.Keys - (Elements(n) - Elements(rest)) && Elements(rest) <= Elements(n)
    && forall b | b in mem0.nodes && b !in n ::
         b in mem.nodes && mem.nodes[b] == mem0.nodes[b] && At(mem.nodes, mem.cdata, b) == At(mem0.nodes, mem0.cdata, b)
  }

  lemma OutsideRefl(mem: Mem, n: seq<nat>)
    ensures Outside(mem, mem, n, n)
  {
    assert Elements(n) - Elements(n) == {};
  }

  lemma OutsideNext(mem0: Mem, mem1: Mem, mem2: Mem, n: seq<nat>, rest: seq<nat>, tail: seq<seq<nat>>)
    requires Outside(mem0, mem1, n, rest) && rest != [] && Gone(mem1, mem2, rest[0], rest[1..], tail, false)
    requires NoDup(rest)
    ensures Outside(mem0, mem2, n, rest[1..])
  {
    hide At;
    ElementsCons(rest);
    assert rest[0] in Elements(rest);
    forall b | b in mem0.nodes && b !in n ensures b in mem1.nodes && b != rest[0] && b !in rest[1..] {
      assert b !in Elements(rest);
    }
    assert mem2.nodes.Keys == mem0.nodes.Keys - (Elements(n) - Elements(rest[1..]));
  }

  lemma NoneNext(mem1: Mem, mem2: Mem, rest: seq<nat>, tail: seq<seq<nat>>)
    requires rest != [] && Gone(mem1, mem2, rest[0], rest[1..], tail, false)
    ensures NoneEmpty(mem1.nodes, rest) ==> NoneEmpty(mem2.nodes, rest[1..])
  {
    hide At;
    forall b | b in rest[1..] ensures b in rest[1..] + Flat(tail) && b in rest {}
  }

  lemma NoneCut(n1: map<nat, Mbuf>, n2: map<nat, Mbuf>, rest: seq<nat>, m: nat)
    requires m in n2 && n2 == n1[m := n2[m]] && n2[m].len > 0
    ensures NoneEmpty(n1, rest) ==> NoneEmpty(n2, rest)
  {
  }

  lemma OutsideCut(mem0: Mem, mem1: Mem, mem2: Mem, n: seq<nat>, rest: seq<nat>)
    requires Outside(mem0, mem1, n, rest) && rest != [] && rest[0] in mem1.nodes && rest[0] in mem2.nodes
    requires mem2 == mem1.(nodes := mem1.nodes[rest[0] := mem2.nodes[rest[0]]])
    ensures Outside(mem0, mem2, n, rest)
  {
    assert rest[0] in Elements(rest);
    assert mem2.nodes.Keys == mem1.nodes.Keys;
  }

  lemma FrontNull(nodes: map<nat, Mbuf>, m: nat, rest: seq<nat>, tail: seq<seq<nat>>)
    requires Front(nodes, m, rest, tail)
    ensures (m == 0 <==> rest == []) && NoDup(rest)
    ensures rest != [] ==> m == rest[0] && m in nodes && nodes[m].nextpkt == HeadOf(tail, 0)
  {
    hide IsChain;
    if rest != [] {
      FrontFirst(nodes, m, rest, tail);
      NoDupParts(rest, Flat(tail));
    }
  }

  lemma ReadNothing(mem: Mem)
    ensures ReadBytes(mem, []) == []
  {
  }

  /** The first buffer's bytes are the next ones to deliver. */
  lemma ReadFirst(mem: Mem, m: nat, rest: seq<nat>, r: seq<byte>, done: nat, len: nat)
    requires Valid(mem) && rest != [] && rest[0] == m && m in mem.nodes && done <= |r| && ReadBytes(mem, rest) == r[done..]
    requires len <= mem.nodes[m].len
    ensures |Data(mem.nodes[m], mem.cdata)| == mem.nodes[m].len
    ensures done + len <= |r| && r[..done + len] == r[..done] + Data(mem.nodes[m], mem.cdata)[..len]
    ensures len == mem.nodes[m].len ==>
      r[done + len..] == if mem.nodes[m].eor then [] else ReadBytes(mem, rest[1..])
  {
    ValidLen(mem, m);
    AtIs(mem, m);
    hide Valid, At, Data, ReadBytes;
    ReadCons(mem, rest);
    Prefix(r, done, At(mem.nodes, mem.cdata, m), if mem.nodes[m].eor then [] else ReadBytes(mem, rest[1..]), len);
  }

  lemma ReadNext(mem1: Mem, mem2: Mem, rest: seq<nat>, tail: seq<seq<nat>>, keep: bool)
    requires rest != [] && Gone(mem1, mem2, rest[0], rest[1..], tail, keep)
    ensures ReadBytes(mem2, rest[1..]) == ReadBytes(mem1, rest[1..])
  {
    hide At;
    forall b | b in rest[1..] ensures b in rest[1..] + Flat(tail) {}
    ReadKept(mem1, mem2, rest[1..]);
  }

  lemma QueueNull(nodes: map<nat, Mbuf>, mb: nat, recs: seq<seq<nat>>)
    requires QueueOk(nodes, mb, recs)
    ensures mb == 0 <==> recs == []
  {
    if recs != [] {
      assert RecordOk(nodes, recs, 0);
      ChainEnds(nodes, recs[0][0], recs[0]);
    }
  }

  /** The bytes of a datagram whose buffers were all taken. */
  lemma PayloadLen(mem0: Mem, mem1: Mem, mem2: Mem, a: nat, n: seq<nat>, rest: seq<nat>, tail: seq<seq<nat>>, keep: bool)
    requires QueueOk(mem0.nodes, a, [[a] + n] + tail) && Gone(mem0, mem1, a, n, tail, keep) && Valid(mem0)
    requires Outside(mem1, mem2, n, rest)
    ensures a in mem0.nodes
    ensures SumLen(mem0.nodes, [a] + n + Flat(tail)) - mem0.nodes[a].len
         == SumLen(mem2.nodes, Flat(tail)) + |Bytes(mem0.nodes, mem0.cdata, n)|
  {
    hide At, IsChain, Charge, Valid;
    var f := Flat(tail);
    QueueMembers(mem0.nodes, a, n, tail);
    NoDupParts([a], n + f);
    NoDupParts(n, f);
    assert [a] + n + f == [a] + (n + f);
    DropSums(mem0, [a] + n, tail);
    assert ([a] + n)[1..] == n;
    SumAppend(mem0.nodes, n, f);
    forall b | b in n ensures b in mem0.nodes { assert b in n + f; }
    SumBytes(mem0, n);
    assert a in [a];
    forall b | b in f ensures b in mem0.nodes && b in mem2.nodes && mem2.nodes[b] == mem0.nodes[b] {
      assert b in n + f && b != a && b !in n;
    }
    hide QueueOk, Bytes;
    SumKept(mem0.nodes, mem2.nodes, f);
  }

  /** What is left of a datagram when the data loop ends. */
  lemma Leftover(mem0: Mem, mem1: Mem, mem2: Mem, a: nat, n: seq<nat>, rest: seq<nat>, tail: seq<seq<nat>>, keep: bool)
    requires QueueOk(mem0.nodes, a, [[a] + n] + tail) && Gone(mem0, mem1, a, n, tail, keep) && Valid(mem0)
    requires Outside(mem1, mem2, n, rest)
    ensures a in mem0.nodes && (NoneEmpty(mem0.nodes, n) ==> NoneEmpty(mem1.nodes, n))
    ensures var left := SumLen(mem0.nodes, [a] + n + Flat(tail)) - mem0.nodes[a].len - |Bytes(mem0.nodes, mem0.cdata, n)|;
      (rest == [] ==> SumLen(mem2.nodes, rest + Flat(tail)) == left) &&
      (rest != [] && NoneEmpty(mem2.nodes, rest) ==> SumLen(mem2.nodes, rest + Flat(tail)) > left)
  {
    hide QueueOk, Gone, Outside, Valid, NoneEmpty, Bytes;
    PayloadLen(mem0, mem1, mem2, a, n, rest, tail, keep);
    NoneStay(mem0, mem1, a, n, tail, keep);
    BytesLeft(mem2.nodes, rest, Flat(tail));
  }

  lemma NoneStay(mem0: Mem, mem1: Mem, a: nat, n: seq<nat>, tail: seq<seq<nat>>, keep: bool)
    requires Gone(mem0, mem1, a, n, tail, keep)
    ensures NoneEmpty(mem0.nodes, n) ==> NoneEmpty(mem1.nodes, n)
  {
    hide At;
    forall b | b in n ensures b in n + Flat(tail) {}
  }

  /** Buffers that hold bytes and are left hold some. */
  lemma BytesLeft(nodes: map<nat, Mbuf>, rest: seq<nat>, f: seq<nat>)
    ensures rest == [] ==> rest + f == f
    ensures rest != [] && NoneEmpty(nodes, rest) ==> SumLen(nodes, rest + f) > SumLen(nodes, f)
  {
    if rest == [] {
      assert rest + f == f;
    } else {
      SumAppend(nodes, rest, f);
      assert rest[0] in rest;
    }
  }

  /** Which buffers are left after a receive. */
  lemma ReceiveEnd(mem0: Mem, mem1: Mem, mem2: Mem, mem3: Mem, a: nat, n: seq<nat>, rest: seq<nat>,
                   tail: seq<seq<nat>>, keep: bool)
    requires QueueOk(mem0.nodes, a, [[a] + n] + tail) && Gone(mem0, mem1, a, n, tail, keep)
    requires Outside(mem1, mem2, n, rest) && mem3.nodes == mem2.nodes - Elements(rest) && mem3.cdata == mem2.cdata
    ensures mem3.nodes.Keys == mem0.nodes.Keys - (Elements([a] + n) - if keep then {a} else {})
    ensures Others(mem0, Elements([a] + n), mem3, if keep then {a} else {})
    ensures keep ==> a in mem3.nodes && mem3.nodes[a].next == 0
    ensures keep ==> At(mem3.nodes, mem3.cdata, a) == At(mem0.nodes, mem0.cdata, a)
  {
    hide IsChain, Data;
    QueueMembers(mem0.nodes, a, n, tail);
    NoDupParts([a], n + Flat(tail));
    assert a in [a];
    hide QueueOk;
    assert forall b | b in n :: b in n + Flat(tail);
    ElementsCons([a] + n);
    assert ([a] + n)[1..] == n;
    forall b | b in n ensures b in mem0.nodes { assert b in n + Flat(tail); }
    assert a !in Elements(n) && a !in Elements(rest);
    OthersLeft(mem0, mem1, mem2, mem3, a, n, rest, tail, keep);
  }

  lemma OthersLeft(mem0: Mem, mem1: Mem, mem2: Mem, mem3: Mem, a: nat, n: seq<nat>, rest: seq<nat>,
                   tail: seq<seq<nat>>, keep: bool)
    requires Gone(mem0, mem1, a, n, tail, keep) && a !in n
    requires Outside(mem1, mem2, n, rest) && mem3.nodes == mem2.nodes - Elements(rest) && mem3.cdata == mem2.cdata
    ensures Others(mem0, Elements([a] + n), mem3, if keep then {a} else {})
  {
    hide At, IsChain, Stay;
    var c, d := Elements([a] + n), if keep then {a} else {};
    ElementsCons([a] + n);
    assert ([a] + n)[1..] == n;
    forall b | b in mem0.nodes && b !in c
      ensures b in mem3.nodes && mem3.nodes[b] == mem0.nodes[b]
      ensures At(mem3.nodes, mem3.cdata, b) == At(mem0.nodes, mem0.cdata, b)
    {
      assert b !in Elements(n) && b != a && b !in Elements(rest);
      AtSame(mem2, mem3, b);
    }
    assert (mem3.nodes - d).Keys == (mem0.nodes - c).Keys;
    assert mem3.nodes - d == mem0.nodes - c;
  }

  lemma AtSame(mem: Mem, mem': Mem, b: nat)
    requires b in mem.nodes && b in mem'.nodes && mem'.nodes[b] == mem.nodes[b] && mem'.cdata == mem.cdata
    ensures At(mem'.nodes, mem'.cdata, b) == At(mem.nodes, mem.cdata, b)
  {
  }

  lemma GoneTail(mem0: Mem, mem: Mem, a: nat, n: seq<nat>, tail: seq<seq<nat>>, keep: bool)
    requires QueueOk(mem0.nodes, a, [[a] + n] + tail) && Gone(mem0, mem, a, n, tail, keep)
    ensures Meanings(mem, tail) == Meanings(mem0, tail)
  {
    hide At, IsChain;
    QueueTail(mem0.nodes, a, [a] + n, tail);
    assert [a] + n + Flat(tail) == [a] + (n + Flat(tail));
    hide QueueOk;
    NoDupParts([a], n + Flat(tail));
    StayTail(mem0, mem, n, tail, HeadOf(tail, 0));
  }

  /** The first record and the others. */
  lemma FirstRecord(mem: Mem, mb: nat, recs: seq<seq<nat>>)
    requires QueueOk(mem.nodes, mb, recs) && recs != []
    ensures recs == [recs[0]] + recs[1..] && recs[0] != [] && mb == recs[0][0] && mb in mem.nodes
    ensures Front(mem.nodes, mb, recs[0], recs[1..]) && Flat(recs) == recs[0] + Flat(recs[1..])
    ensures mem.nodes[mb].nextpkt == HeadOf(recs[1..], 0)
    ensures recs[0] == [mb] + recs[0][1..] && QueueOk(mem.nodes, mb, [[mb] + recs[0][1..]] + recs[1..])
    ensures Meanings(mem, recs)[0] == Datagram(At(mem.nodes, mem.cdata, mb), Bytes(mem.nodes, mem.cdata, recs[0][1..]))
    ensures Meanings(mem, recs)[1..] == Meanings(mem, recs[1..])
  {
    hide At, Bytes, IsChain;
    assert recs == [recs[0]] + recs[1..];
    QueueTail(mem.nodes, mb, recs[0], recs[1..]);
  }

  /** The first `done` bytes of the caller's memory are those of r, the others are as before. */
  predicate Filled(b: seq<byte>, r: seq<byte>, done: nat, b0: seq<byte>) {
    |b| == |b0| && done <= |r| && done <= |b| && b[..done] == r[..done] && b[done..] == b0[done..]
  }

  lemma FilledNot(b: seq<byte>, r: seq<byte>)
    ensures Filled(b, r, 0, b)
  {
  }

  lemma FilledIs(b: seq<byte>, r: seq<byte>, done: nat, b0: seq<byte>)
    requires Filled(b, r, done, b0)
    ensures done <= |r| && done <= |b| == |b0| && b[..done] == r[..done] && b[done..] == b0[done..]
  {
  }

  lemma FilledMore(b: seq<byte>, b': seq<byte>, r: seq<byte>, done: nat, x: seq<byte>, b0: seq<byte>)
    requires Filled(b, r, done, b0) && done + |x| <= |b| == |b'| && done + |x| <= |r| && r[..done + |x|] == r[..done] + x
    requires b'[..done + |x|] == b[..done] + x && b'[done + |x|..] == b[done + |x|..]
    ensures Filled(b', r, done + |x|, b0)
  {
    assert b[done..][|x|..] == b[done + |x|..];
    assert b0[done..][|x|..] == b0[done + |x|..];
  }

  /** Memory with a new record d that starts with the new buffer m. */
  ghost predicate NewRecord(mem0: Mem, mem1: Mem, m: nat, d: seq<nat>) {
    && d != [] && d[0] == m && m !in mem0.nodes && m in mem1.nodes && m != 0
    && IsChain(mem1.nodes, m, d) && mem1.nodes[m].nextpkt == 0 && Plain(mem1.nodes, d[1..])
    && mem1.nodes.Keys == mem0.nodes.Keys + {m}
    && forall a | a in mem0.nodes ::
         mem1.nodes[a] == mem0.nodes[a] && At(mem1.nodes, mem1.cdata, a) == At(mem0.nodes, mem0.cdata, a)
  }

  lemma RecordMade(mem0: Mem, mem1: Mem, m: nat, data: nat, c: seq<nat>, addr: seq<byte>)
    requires Valid(mem0) && m in mem0.room && |addr| <= MLEN && IsChain(mem0.nodes, data, c) && Plain(mem0.nodes, c)
    requires |Blank(mem0.room[m], MT_SONAME).dat| == MLEN
    requires var n := Blank(mem0.room[m], MT_SONAME);
      mem1 == mem0.(nodes := mem0.nodes[m := n.(len := |addr|, dat := Splice(n.dat, n.data, addr), next := data)],
                    room := mem0.room - {m})
    ensures Valid(mem1) && NewRecord(mem0, mem1, m, [m] + c)
    ensures Meaning(mem1, [m] + c) == Datagram(addr, Bytes(mem0.nodes, mem0.cdata, c))
    ensures SumLen(mem1.nodes, [m] + c) == |addr| + |Bytes(mem0.nodes, mem0.cdata, c)|
  {
    hide Valid, At, IsChain, NodeOk, Bytes, Splice;
    RecordRoom(mem0, m);
    RecordNode(mem0, mem1, m, data, addr);
    ValidAdd(mem0, mem1, m);
    var d := [m] + c;
    assert d[1..] == c;
    BytesCons(mem1, d);
    ChainEnds(mem0.nodes, data, c);
    ChainKept(mem0.nodes, mem1.nodes, data, c);
    ChainCons(mem1.nodes, m, c);
    BytesKept(mem0.nodes, mem0.cdata, mem1.nodes, mem1.cdata, c);
    SumKept(mem0.nodes, mem1.nodes, c);
    SumBytes(mem0, c);
  }

  /** The buffer made for the address. */
  lemma RecordNode(mem0: Mem, mem1: Mem, m: nat, data: nat, addr: seq<byte>)
    requires m in mem0.room && m !in mem0.nodes && |addr| <= MLEN && |Blank(mem0.room[m], MT_SONAME).dat| == MLEN
    requires var n := Blank(mem0.room[m], MT_SONAME);
      mem1 == mem0.(nodes := mem0.nodes[m := n.(len := |addr|, dat := Splice(n.dat, n.data, addr), next := data)],
                    room := mem0.room - {m})
    ensures NodeOk(mem1.nodes[m], mem1.cdata) && At(mem1.nodes, mem1.cdata, m) == addr
    ensures forall a | a in mem0.nodes :: a in mem1.nodes && mem1.nodes[a] == mem0.nodes[a]
    ensures forall a | a in mem0.nodes :: At(mem1.nodes, mem1.cdata, a) == At(mem0.nodes, mem0.cdata, a)
  {
    forall a | a in mem0.nodes
      ensures a in mem1.nodes && mem1.nodes[a] == mem0.nodes[a]
      ensures At(mem1.nodes, mem1.cdata, a) == At(mem0.nodes, mem0.cdata, a) {}
  }

  lemma RecordChain(mem0: Mem, mem1: Mem, m: nat, d: seq<nat>)
    requires NewRecord(mem0, mem1, m, d)
    ensures IsChain(mem1.nodes, m, d)
  {
  }

  lemma RecordHead(nodes: map<nat, Mbuf>, recs: seq<seq<nat>>, i: nat)
    requires i < |recs| && RecordOk(nodes, recs, i)
    ensures HeadOf(recs, i) != 0
  {
    ChainEnds(nodes, recs[i][0], recs[i]);
  }

  /** The last record leads to m. */
  predicate Hung(mem1: Mem, mem2: Mem, recs: seq<seq<nat>>, m: nat) {
    if recs == [] then mem2 == mem1
    else
      var n := HeadOf(recs, |recs| - 1);
      n in mem1.nodes && mem2 == mem1.(nodes := mem1.nodes[n := mem1.nodes[n].(nextpkt := m)])
  }

  /** The queue with a record put at its end. */
  lemma QueueSnoc(mem0: Mem, mem1: Mem, mem2: Mem, mb: nat, recs: seq<seq<nat>>, m: nat, d: seq<nat>)
    requires QueueOk(mem0.nodes, HeadOf(recs, 0), recs) && NewRecord(mem0, mem1, m, d)
    requires recs != [] ==> mb == HeadOf(recs, 0)
    requires forall a | a in d[1..] :: a !in Flat(recs)
    requires Hung(mem1, mem2, recs, m) && (recs == [] ==> mb == m)
    ensures Rehung(mem1, mem2) && QueueOk(mem2.nodes, mb, recs + [d])
  {
    hide At, IsChain, Plain, RecordOk, NewRecord, QueueOk, Flat, Rehung, Hung;
    var e := recs + [d];
    SnocApart(mem0, mem1, recs, m, d);
    SnocHead(mem0, mem1, mem2, recs, m, d);
    SnocRehung(mem0, mem1, mem2, recs, m, d);
    SnocNew(mem0, mem1, mem2, recs, m, d);
    forall i: nat | i < |e| ensures RecordOk(mem2.nodes, e, i) {
      if i < |recs| {
        RecordAt(mem0.nodes, HeadOf(recs, 0), recs, i);
        SnocRecord(mem0, mem1, mem2, recs, m, d, i);
      }
    }
    QueueIs(mem2.nodes, mb, e);
  }

  lemma RecordAt(nodes: map<nat, Mbuf>, mb: nat, recs: seq<seq<nat>>, i: nat)
    requires QueueOk(nodes, mb, recs) && i < |recs|
    ensures RecordOk(nodes, recs, i)
  {
  }

  lemma QueueIs(nodes: map<nat, Mbuf>, mb: nat, recs: seq<seq<nat>>)
    requires mb == HeadOf(recs, 0) && NoDup(Flat(recs)) && forall i: nat | i < |recs| :: RecordOk(nodes, recs, i)
    ensures QueueOk(nodes, mb, recs)
  {
  }

  lemma SnocRehung(mem0: Mem, mem1: Mem, mem2: Mem, recs: seq<seq<nat>>, m: nat, d: seq<nat>)
    requires Hung(mem1, mem2, recs, m)
    ensures Rehung(mem1, mem2)
  {
  }

  lemma SnocHead(mem0: Mem, mem1: Mem, mem2: Mem, recs: seq<seq<nat>>, m: nat, d: seq<nat>)
    requires QueueOk(mem0.nodes, HeadOf(recs, 0), recs) && NewRecord(mem0, mem1, m, d)
    ensures HeadOf(recs + [d], 0) == (if recs == [] then m else HeadOf(recs, 0))
    ensures recs != [] ==> HeadOf(recs, |recs| - 1) != m
  {
    if recs != [] { assert RecordOk(mem0.nodes, recs, |recs| - 1); }
  }

  lemma QueueHead(nodes: map<nat, Mbuf>, mb: nat, recs: seq<seq<nat>>)
    requires QueueOk(nodes, mb, recs)
    ensures mb == HeadOf(recs, 0)
  {
  }

  lemma SnocApart(mem0: Mem, mem1: Mem, recs: seq<seq<nat>>, m: nat, d: seq<nat>)
    requires QueueOk(mem0.nodes, HeadOf(recs, 0), recs) && NewRecord(mem0, mem1, m, d)
    requires forall a | a in d[1..] :: a !in Flat(recs)
    ensures NoDup(Flat(recs + [d]))
    ensures forall a | a in d :: a !in Flat(recs)
  {
    hide At;
    ChainEnds(mem1.nodes, m, d);
    FlatMembers(mem0.nodes, recs);
    hide IsChain, QueueOk;
    forall a | a in d ensures a !in Flat(recs) {
      assert d == [d[0]] + d[1..];
    }
    FlatAppend(recs, [d]);
    assert Flat([d]) == d + [];
    assert d + [] == d;
    QueueDup(mem0.nodes, recs);
    NoDupJoin(Flat(recs), d);
  }

  lemma QueueDup(nodes: map<nat, Mbuf>, recs: seq<seq<nat>>)
    requires QueueOk(nodes, HeadOf(recs, 0), recs)
    ensures NoDup(Flat(recs))
  {
  }

  lemma SnocRecord(mem0: Mem, mem1: Mem, mem2: Mem, recs: seq<seq<nat>>, m: nat, d: seq<nat>, i: nat)
    requires QueueOk(mem0.nodes, HeadOf(recs, 0), recs) && NewRecord(mem0, mem1, m, d)
    requires i < |recs| && RecordOk(mem0.nodes, recs, i) && Hung(mem1, mem2, recs, m)
    ensures RecordOk(mem2.nodes, recs + [d], i)
  {
    hide At, IsChain;
    var e, c := recs + [d], recs[i];
    ChainEnds(mem0.nodes, c[0], c);
    ChainKept(mem0.nodes, mem2.nodes, c[0], c);
    if i + 1 == |recs| {
      assert HeadOf(e, i + 1) == m;
    } else {
      assert HeadOf(e, i + 1) == HeadOf(recs, i + 1);
      assert RecordOk(mem0.nodes, recs, |recs| - 1);
      HeadsApart(mem0.nodes, recs, i, |recs| - 1);
    }
    assert forall a | a in c[1..] :: a in c;
  }

  lemma SnocNew(mem0: Mem, mem1: Mem, mem2: Mem, recs: seq<seq<nat>>, m: nat, d: seq<nat>)
    requires NewRecord(mem0, mem1, m, d)
    requires Hung(mem1, mem2, recs, m) && (recs != [] ==> HeadOf(recs, |recs| - 1) != m)
    ensures RecordOk(mem2.nodes, recs + [d], |recs|)
  {
    hide At, IsChain;
    ChainEnds(mem1.nodes, m, d);
    ChainKept(mem1.nodes, mem2.nodes, m, d);
    assert forall a | a in d[1..] :: a in d;
  }

  /** Two records start with different buffers. */
  lemma HeadsApart(nodes: map<nat, Mbuf>, recs: seq<seq<nat>>, i: nat, j: nat)
    requires NoDup(Flat(recs)) && i < j < |recs| && recs[i] != [] && recs[j] != []
    ensures recs[i][0] != recs[j][0]
  {
    hide Flat, NoDup;
    var x, y := recs[..j], recs[j..];
    FlatAppend(x, y);
    assert recs == x + y;
    NoDupParts(Flat(x), Flat(y));
    assert x[i] == recs[i] && y[0] == recs[j];
    InFlat(x, i, recs[i][0]);
    InFlat(y, 0, recs[j][0]);
  }

  /** What an appended record means for the queue and its counters. */
  lemma Enqueued(mem0: Mem, mem1: Mem, mem2: Mem, m: nat, c: seq<nat>, addr: seq<byte>, recs: seq<seq<nat>>)
    requires NewRecord(mem0, mem1, m, [m] + c) && Rehung(mem1, mem2) && Valid(mem1)
    requires QueueOk(mem0.nodes, HeadOf(recs, 0), recs)
    ensures Valid(mem2)
    ensures Meanings(mem2, recs + [[m] + c]) == Meanings(mem0, recs) + [Meaning(mem1, [m] + c)]
    ensures SumLen(mem2.nodes, Flat(recs + [[m] + c])) == SumLen(mem0.nodes, Flat(recs)) + SumLen(mem1.nodes, [m] + c)
    ensures SumCharge(mem2.nodes, Flat(recs + [[m] + c])) == SumCharge(mem0.nodes, Flat(recs)) + SumCharge(mem1.nodes, [m] + c)
  {
    RehungValid(mem1, mem2);
    hide Valid, At, IsChain;
    var d := [m] + c;
    FlatMembers(mem0.nodes, recs);
    hide QueueOk;
    FlatAppend(recs, [d]);
    assert Flat([d]) == d + [];
    assert d + [] == d;
    SumAppend(mem2.nodes, Flat(recs), d);
    ChainEnds(mem1.nodes, m, d);
    SumKept(mem1.nodes, mem2.nodes, d);
    SumKept(mem0.nodes, mem2.nodes, Flat(recs));
    MeaningsSnoc(mem2, recs, d);
    BytesKept(mem1.nodes, mem1.cdata, mem2.nodes, mem2.cdata, d[1..]);
    MeaningsSame(mem0, mem2, recs);
  }

  lemma {:induction false} MeaningsSnoc(mem: Mem, recs: seq<seq<nat>>, d: seq<nat>)
    ensures Meanings(mem, recs + [d]) == Meanings(mem, recs) + [Meaning(mem, d)]
  {
    hide Meaning;
    if recs == [] {
      assert recs + [d] == [d];
      assert [d][1..] == [];
    } else {
      MeaningsSnoc(mem, recs[1..], d);
      assert (recs + [d])[1..] == recs[1..] + [d];
    }
  }

  lemma {:induction false} MeaningsSame(mem0: Mem, mem1: Mem, recs: seq<seq<nat>>)
    requires forall a | a in Flat(recs) :: At(mem1.nodes, mem1.cdata, a) == At(mem0.nodes, mem0.cdata, a)
    ensures Meanings(mem1, recs) == Meanings(mem0, recs)
  {
    hide At;
    if recs != [] {
      assert forall a | a in recs[0] :: a in Flat(recs);
      if recs[0] != [] { BytesKept(mem0.nodes, mem0.cdata, mem1.nodes, mem1.cdata, recs[0][1..]); }
      MeaningsSame(mem0, mem1, recs[1..]);
    }
  }

  lemma RecordRoom(mem: Mem, m: nat)
    requires Valid(mem) && m in mem.room
    ensures |Blank(mem.room[m], MT_SONAME).dat| == MLEN && Blank(mem.room[m], MT_SONAME).data == 0 && m !in mem.nodes
    ensures m != 0
  {
  }

  /** Buffer a left the front; everything else is as it was, but for the link of the next buffer. */
  ghost predicate Gone(mem0: Mem, mem: Mem, a: nat, n: seq<nat>, tail: seq<seq<nat>>, keep: bool) {
    && a in mem0.nodes && Stay(mem0, mem, n, Flat(tail), HeadOf(tail, 0))
    && mem.nodes.Keys == (if keep then mem0.nodes.Keys else mem0.nodes.Keys - {a})
    && (keep ==> mem.nodes[a] == mem0.nodes[a].(next := 0))
    && (keep ==> At(mem.nodes, mem.cdata, a) == At(mem0.nodes, mem0.cdata, a))
    && forall b | b in mem.nodes && b != a && b !in n ::
         mem.nodes[b] == mem0.nodes[b] && At(mem.nodes, mem.cdata, b) == At(mem0.nodes, mem0.cdata, b)
  }

  lemma FrontFirst(nodes: map<nat, Mbuf>, m: nat, rest: seq<nat>, tail: seq<seq<nat>>)
    requires Front(nodes, m, rest, tail) && rest != []
    ensures m in nodes && m == rest[0] && rest == [m] + rest[1..] && QueueOk(nodes, m, [[m] + rest[1..]] + tail)
    ensures IsChain(nodes, m, rest) && NoDup(rest + Flat(tail)) && nodes[m].nextpkt == HeadOf(tail, 0)
    ensures m != 0
  {
    hide IsChain;
    QueueTail(nodes, m, rest, tail);
    ChainEnds(nodes, m, rest);
  }

  lemma TakeSums(mem: Mem, a: nat, n: seq<nat>, tail: seq<seq<nat>>)
    requires a in mem.nodes
    ensures mem.nodes[a].len <= SumLen(mem.nodes, [a] + n + Flat(tail))
    ensures Charge(mem.nodes[a]) <= SumCharge(mem.nodes, [a] + n + Flat(tail))
  {
    hide Charge;
    assert ([a] + n + Flat(tail))[1..] == n + Flat(tail);
  }

  /** Buffer a was released, or its link cut. */
  predicate Without(mem0: Mem, mem1: Mem, a: nat, keep: bool) {
    && a in mem0.nodes && mem1.cdata == mem0.cdata
    && mem1.nodes == if keep then mem0.nodes[a := mem0.nodes[a].(next := 0)] else mem0.nodes - {a}
  }

  lemma WithoutOther(mem0: Mem, mem1: Mem, a: nat, keep: bool, b: nat)
    requires Without(mem0, mem1, a, keep) && b in mem0.nodes && (b != a || keep)
    ensures b in mem1.nodes && mem1.nodes[b] == (if b == a then mem0.nodes[b].(next := 0) else mem0.nodes[b])
    ensures At(mem1.nodes, mem1.cdata, b) == At(mem0.nodes, mem0.cdata, b)
  {
  }

  lemma KeepValid(mem0: Mem, mem1: Mem, a: nat)
    requires Valid(mem0) && a in mem0.nodes && mem1 == mem0.(nodes := mem0.nodes[a := mem0.nodes[a].(next := 0)])
    ensures Valid(mem1)
  {
    hide Valid;
    MbufPool.RelinkedValid(mem0, mem1, a, 0);
  }

  lemma TakeNext(mem0: Mem, mem1: Mem, a: nat, n: seq<nat>, tail: seq<seq<nat>>, keep: bool)
    requires QueueOk(mem0.nodes, a, [[a] + n] + tail) && Without(mem0, mem1, a, keep)
    ensures a in mem0.nodes && mem0.nodes[a].next == (if n == [] then 0 else n[0])
    ensures n != [] ==> n[0] in mem1.nodes && n[0] in mem0.nodes && n[0] != a && mem1.nodes[n[0]] == mem0.nodes[n[0]] && n[0] != 0
    ensures mem0.nodes[a].next == 0 <==> n == []
  {
    hide At, IsChain, Without;
    QueueTail(mem0.nodes, a, [a] + n, tail);
    assert ([a] + n)[1..] == n;
    ChainTail(mem0.nodes, a, [a] + n);
    ChainEnds(mem0.nodes, mem0.nodes[a].next, n);
    if n != [] {
      assert n[0] in n;
      WithoutOther(mem0, mem1, a, keep, n[0]);
    }
  }

  lemma TakeDone(mem0: Mem, mem1: Mem, mem2: Mem, a: nat, n: seq<nat>, tail: seq<seq<nat>>, keep: bool)
    requires QueueOk(mem0.nodes, a, [[a] + n] + tail) && Without(mem0, mem1, a, keep) && Valid(mem1)
    requires n == [] ==> mem2 == mem1
    requires n != [] ==> n[0] in mem1.nodes
    requires n != [] ==> mem2 == mem1.(nodes := mem1.nodes[n[0] := mem1.nodes[n[0]].(nextpkt := HeadOf(tail, 0))])
    ensures Valid(mem2) && Gone(mem0, mem2, a, n, tail, keep)
    ensures Front(mem2.nodes, mem0.nodes[a].next, n, tail)
    ensures SumLen(mem2.nodes, n + Flat(tail)) + mem0.nodes[a].len == SumLen(mem0.nodes, [a] + n + Flat(tail))
    ensures SumCharge(mem2.nodes, n + Flat(tail)) + Charge(mem0.nodes[a]) == SumCharge(mem0.nodes, [a] + n + Flat(tail))
  {
    hide At, IsChain, Valid, Front, QueueOk, Charge;
    assert Rehung(mem1, mem2);
    RehungValid(mem1, mem2);
    TakeStays(mem0, mem1, mem2, a, n, tail, keep);
    TakenFront(mem0, mem2, a, n, tail);
  }

  lemma TakeStays(mem0: Mem, mem1: Mem, mem2: Mem, a: nat, n: seq<nat>, tail: seq<seq<nat>>, keep: bool)
    requires QueueOk(mem0.nodes, a, [[a] + n] + tail) && Without(mem0, mem1, a, keep)
    requires n == [] ==> mem2 == mem1
    requires n != [] ==> n[0] in mem1.nodes
    requires n != [] ==> mem2 == mem1.(nodes := mem1.nodes[n[0] := mem1.nodes[n[0]].(nextpkt := HeadOf(tail, 0))])
    requires forall b :: At(mem2.nodes, mem2.cdata, b) == At(mem1.nodes, mem1.cdata, b)
    ensures Gone(mem0, mem2, a, n, tail, keep)
  {
    hide At, IsChain;
    var f := Flat(tail);
    QueueMembers(mem0.nodes, a, n, tail);
    hide QueueOk;
    NoDupParts([a], n + f);
    WithoutKeys(mem0, mem1, a, keep);
    forall b | b in mem0.nodes && (b != a || keep)
      ensures b in mem1.nodes && mem1.nodes[b] == (if b == a then mem0.nodes[b].(next := 0) else mem0.nodes[b])
      ensures At(mem1.nodes, mem1.cdata, b) == At(mem0.nodes, mem0.cdata, b)
    {
      WithoutOther(mem0, mem1, a, keep, b);
    }
    hide Without;
    if n != [] { assert n[0] in n; }
    assert a in [a];
    assert forall b | b in n + f :: b != a;
  }

  lemma WithoutKeys(mem0: Mem, mem1: Mem, a: nat, keep: bool)
    requires Without(mem0, mem1, a, keep)
    ensures a in mem0.nodes && mem1.nodes.Keys == if keep then mem0.nodes.Keys else mem0.nodes.Keys - {a}
  {
  }

  /** Every buffer of the queue is in use, and none occurs twice. */
  lemma QueueMembers(nodes: map<nat, Mbuf>, a: nat, n: seq<nat>, tail: seq<seq<nat>>)
    requires QueueOk(nodes, a, [[a] + n] + tail)
    ensures a in nodes && NoDup([a] + (n + Flat(tail)))
    ensures forall b | b in n + Flat(tail) :: b in nodes
  {
    hide IsChain;
    QueueTail(nodes, a, [a] + n, tail);
    assert [a] + n + Flat(tail) == [a] + (n + Flat(tail));
    ChainEnds(nodes, a, [a] + n);
    FlatMembers(nodes, tail);
    forall b | b in n ensures b in nodes { assert b in [a] + n; }
  }

  lemma {:induction false} FlatMembers(nodes: map<nat, Mbuf>, tail: seq<seq<nat>>)
    requires QueueOk(nodes, HeadOf(tail, 0), tail)
    ensures forall b | b in Flat(tail) :: b in nodes
  {
    if tail != [] {
      hide IsChain;
      assert [tail[0]] + tail[1..] == tail;
      QueueTail(nodes, HeadOf(tail, 0), tail[0], tail[1..]);
      ChainEnds(nodes, HeadOf(tail, 0), tail[0]);
      FlatMembers(nodes, tail[1..]);
    }
  }
}

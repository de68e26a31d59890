/** The network buffers of kernel/uipc_mbuf.c and include/sys/mbuf.h: chains of small buffers, some of
    them pointing into shared clusters with reference counts. */
module MbufMemory {
  import opened Common
  import KernMalloc

  // A buffer has 128 bytes, 20 of them header (four words and two half words) and 8 more packet header.
  const MLEN: nat := 108
  const MHLEN: nat := 100
  const PKTDAT: nat := MLEN - MHLEN
  const MCLBYTES: nat := 2048
  const CLBYTES: nat := KernMalloc.CLBYTES
  const LONG: nat := 4  // bytes of a long
  const NCLUSTERS: nat := KernMalloc.KMEM_SIZE / MCLBYTES
  const NCOUNTS: nat := KernMalloc.KMEM_SIZE / MCLBYTES / LONG  // longs in the array of counts
  const M_COPYALL: nat := 10_000_000

  /** A buffer.  `data` is where the valid bytes start, counted from the buffer's own area or, in an
      external buffer, from the start of cluster `cl`.  Address 0 is the null pointer. */
  datatype Mbuf = Mbuf(next: nat, nextpkt: nat, data: nat, len: nat, pkthdr: bool, eor: bool, ext: bool, cast: bool,
                       plen: int, kind: nat, cl: nat, dat: seq<byte>)

  /** All buffers in use, the memory that new ones are made of (with what was left there), the
      clusters with their counts, the list of free clusters and those not yet taken from the kernel.
      A cluster is called by its number in kernel memory, counted from kmembase, which is also where the
      source looks for its count (mtocl); number 0 lies in the kernel's usage table and stands for null. */
  datatype Mem = Mem(nodes: map<nat, Mbuf>, room: map<nat, Mbuf>, cdata: map<nat, seq<byte>>,
                     refs: map<nat, int>, free: seq<nat>, spare: seq<nat>)

  /** The buffers that refer to a cluster. */
  function Users(nodes: map<nat, Mbuf>, cl: nat): set<nat> {
    set a | a in nodes && nodes[a].ext && nodes[a].cl == cl
  }

  /** Where a buffer keeps its bytes. */
  function Area(n: Mbuf, cdata: map<nat, seq<byte>>): seq<byte> {
    if !n.ext then n.dat else if n.cl in cdata then cdata[n.cl] else []
  }

  /** The valid bytes lie inside the buffer or its cluster. */
  predicate NodeOk(n: Mbuf, cdata: map<nat, seq<byte>>) {
    && |n.dat| == MLEN && n.data + n.len <= |Area(n, cdata)|
    && (if n.ext then n.cl in cdata else n.pkthdr ==> PKTDAT <= n.data)
  }

  /** The valid bytes of a buffer. */
  function Data(n: Mbuf, cdata: map<nat, seq<byte>>): (r: seq<byte>)
    ensures NodeOk(n, cdata) ==> |r| == n.len
  {
    var s := Area(n, cdata);
    if n.data + n.len <= |s| then s[n.data..n.data + n.len] else []
  }

  /** A cluster's count is the number of buffers that refer to it, and it is free when that is 0. */
  predicate ClusterOk(mem: Mem, c: nat) {
    && c != 0 && c in mem.cdata && |mem.cdata[c]| == MCLBYTES
    && c in mem.refs && mem.refs[c] == |Users(mem.nodes, c)|
    && (c in mem.free <==> mem.refs[c] == 0)
  }

  predicate NoDup(s: seq<nat>) {
    forall i, j | 0 <= i < j < |s| :: s[i] != s[j]
  }

  /** Memory outside the buffers: free buffers are not in use, free clusters are clusters. */
  predicate StoreOk(mem: Mem) {
    && 0 !in mem.nodes && 0 !in mem.room && mem.nodes.Keys !! mem.room.Keys
    && (forall a | a in mem.room :: |mem.room[a].dat| == MLEN)
    && NoDup(mem.free) && (forall c | c in mem.free :: c in mem.cdata)
    && NoDup(mem.spare) && (forall c | c in mem.spare :: c !in mem.cdata && c != 0)
    && (forall c | c in mem.spare :: c in mem.refs && mem.refs[c] == 0)
  }

  ghost predicate Valid(mem: Mem) {
    && StoreOk(mem)
    && (forall a | a in mem.nodes :: NodeOk(mem.nodes[a], mem.cdata))
    && (forall c | c in mem.cdata :: ClusterOk(mem, c))
  }

  // ---------- Chains and their bytes ----------

  predicate Linked(nodes: map<nat, Mbuf>, c: seq<nat>, i: nat)
    requires i < |c|
  {
    c[i] in nodes && nodes[c[i]].next == (if i + 1 < |c| then c[i + 1] else 0)
  }

  /** The list c is the chain that starts at m. */
  predicate IsChain(nodes: map<nat, Mbuf>, m: nat, c: seq<nat>) {
    && m == (if c == [] then 0 else c[0])
    && NoDup(c) && 0 !in c
    && forall i: nat | i < |c| :: Linked(nodes, c, i)
  }

  /** The bytes of a chain. */
  function Bytes(nodes: map<nat, Mbuf>, cdata: map<nat, seq<byte>>, c: seq<nat>): seq<byte> {
    if c == [] then [] else At(nodes, cdata, c[0]) + Bytes(nodes, cdata, c[1..])
  }

  function At(nodes: map<nat, Mbuf>, cdata: map<nat, seq<byte>>, a: nat): seq<byte> {
    if a in nodes then Data(nodes[a], cdata) else []
  }

  /** The packet header of a chain counts its bytes. */
  predicate PacketOk(nodes: map<nat, Mbuf>, cdata: map<nat, seq<byte>>, c: seq<nat>) {
    c != [] && c[0] in nodes && nodes[c[0]].pkthdr ==> nodes[c[0]].plen == |Bytes(nodes, cdata, c)|
  }

  /** Chains whose buffers keep their bytes keep theirs. */
  lemma {:induction false} BytesKept(n0: map<nat, Mbuf>, d0: map<nat, seq<byte>>,
                                     n1: map<nat, Mbuf>, d1: map<nat, seq<byte>>, c: seq<nat>)
    requires forall a | a in c :: At(n0, d0, a) == At(n1, d1, a)
    ensures Bytes(n0, d0, c) == Bytes(n1, d1, c)
  {
    hide At;
    if c != [] { BytesKept(n0, d0, n1, d1, c[1..]); }
  }

  lemma {:induction false} BytesAppend(nodes: map<nat, Mbuf>, cdata: map<nat, seq<byte>>, c: seq<nat>, d: seq<nat>)
    ensures Bytes(nodes, cdata, c + d) == Bytes(nodes, cdata, c) + Bytes(nodes, cdata, d)
  {
    hide At;
    var e := c + d;
    if c == [] {
      assert e == d;
    } else {
      BytesAppend(nodes, cdata, c[1..], d);
      assert e[1..] == c[1..] + d && e[0] == c[0];
      var x, y, z := At(nodes, cdata, c[0]), Bytes(nodes, cdata, c[1..]), Bytes(nodes, cdata, d);
      assert Bytes(nodes, cdata, e) == x + Bytes(nodes, cdata, e[1..]);
      assert x + (y + z) == (x + y) + z;
    }
  }

  lemma ChainTail(nodes: map<nat, Mbuf>, m: nat, c: seq<nat>)
    requires IsChain(nodes, m, c) && c != []
    ensures m in nodes && IsChain(nodes, nodes[m].next, c[1..]) && m !in c[1..]
  {
    var t := c[1..];
    assert Linked(nodes, c, 0);
    forall i: nat | i < |t| ensures Linked(nodes, t, i) { assert Linked(nodes, c, i + 1); }
    forall i, j | 0 <= i < j < |t| ensures t[i] != t[j] { assert c[i + 1] != c[j + 1]; }
  }

  lemma ChainCons(nodes: map<nat, Mbuf>, m: nat, c: seq<nat>)
    requires m != 0 && m in nodes && m !in c && IsChain(nodes, nodes[m].next, c)
    ensures IsChain(nodes, m, [m] + c)
  {
    var t := [m] + c;
    forall i: nat | i < |t| ensures Linked(nodes, t, i) {
      if i > 0 { assert Linked(nodes, c, i - 1); }
    }
  }

  lemma ChainKept(n0: map<nat, Mbuf>, n1: map<nat, Mbuf>, m: nat, c: seq<nat>)
    requires IsChain(n0, m, c)
    requires forall a | a in c :: a in n0 && a in n1 && n1[a].next == n0[a].next
    ensures IsChain(n1, m, c)
  {
    forall i: nat | i < |c| ensures Linked(n1, c, i) { assert Linked(n0, c, i); }
  }

  // ---------- What keeps memory valid ----------

  /** Buffers change, but none of them refers to another cluster than before. */
  lemma ValidChange(mem: Mem, mem': Mem)
    requires Valid(mem) && mem' == mem.(nodes := mem'.nodes, cdata := mem'.cdata)
    requires mem'.nodes.Keys == mem.nodes.Keys && mem'.cdata.Keys == mem.cdata.Keys
    requires forall a | a in mem.nodes :: mem'.nodes[a].ext == mem.nodes[a].ext && mem'.nodes[a].cl == mem.nodes[a].cl
    requires forall a | a in mem.nodes :: NodeOk(mem'.nodes[a], mem'.cdata)
    requires forall c | c in mem.cdata :: |mem'.cdata[c]| == MCLBYTES
    ensures Valid(mem')
  {
    hide NodeOk;
    forall c | c in mem'.cdata ensures ClusterOk(mem', c) {
      assert ClusterOk(mem, c);
      assert Users(mem'.nodes, c) == Users(mem.nodes, c);
    }
  }

  /** A new buffer without a cluster. */
  lemma ValidAdd(mem: Mem, mem': Mem, a: nat)
    requires Valid(mem) && a in mem.room && a in mem'.nodes && !mem'.nodes[a].ext
    requires NodeOk(mem'.nodes[a], mem.cdata)
    requires mem' == mem.(nodes := mem.nodes[a := mem'.nodes[a]], room := mem.room - {a})
    ensures Valid(mem')
  {
    hide NodeOk;
    forall c | c in mem'.cdata ensures ClusterOk(mem', c) {
      assert ClusterOk(mem, c);
      assert Users(mem'.nodes, c) == Users(mem.nodes, c);
    }
  }

  /** A new buffer that shares a cluster in use. */
  lemma ValidShare(mem: Mem, mem': Mem, a: nat, c: nat)
    requires Valid(mem) && a in mem.room && a in mem'.nodes
    requires c in mem.cdata && c in mem.refs && c !in mem.free
    requires mem'.nodes[a].ext && mem'.nodes[a].cl == c && NodeOk(mem'.nodes[a], mem.cdata)
    requires mem' == mem.(nodes := mem.nodes[a := mem'.nodes[a]], room := mem.room - {a},
                          refs := mem.refs[c := mem.refs[c] + 1])
    ensures Valid(mem')
  {
    hide NodeOk, StoreOk, ClusterOk;
    ShareStore(mem, mem', a, c);
    forall k | k in mem'.cdata ensures ClusterOk(mem', k) { ShareCluster(mem, mem', a, c, k); }
  }

  lemma ShareStore(mem: Mem, mem': Mem, a: nat, c: nat)
    requires StoreOk(mem) && a in mem.room && a in mem'.nodes && c in mem.cdata && c in mem.refs
    requires mem' == mem.(nodes := mem.nodes[a := mem'.nodes[a]], room := mem.room - {a},
                          refs := mem.refs[c := mem.refs[c] + 1])
    ensures StoreOk(mem') && a !in mem.nodes
  {
  }

  lemma ShareCluster(mem: Mem, mem': Mem, a: nat, c: nat, k: nat)
    requires ClusterOk(mem, k) && a !in mem.nodes && a in mem'.nodes && c in mem.refs && c !in mem.free
    requires mem'.nodes[a].ext && mem'.nodes[a].cl == c
    requires mem' == mem.(nodes := mem.nodes[a := mem'.nodes[a]], room := mem.room - {a},
                          refs := mem.refs[c := mem.refs[c] + 1])
    ensures ClusterOk(mem', k)
  {
    assert Users(mem'.nodes, k) == if k == c then Users(mem.nodes, k) + {a} else Users(mem.nodes, k);
  }

  /** A buffer is released: its cluster becomes free when it was the last user. */
  function Released(mem: Mem, m: nat): Mem
    requires m in mem.nodes && (mem.nodes[m].ext ==> mem.nodes[m].cl in mem.refs)
  {
    var n := mem.nodes[m];
    var r := mem.(nodes := mem.nodes - {m}, room := mem.room[m := n]);
    if !n.ext then r
    else
      var k := mem.refs[n.cl] - 1;
      r.(refs := mem.refs[n.cl := k], free := if k == 0 then [n.cl] + mem.free else mem.free)
  }

  lemma ValidRelease(mem: Mem, m: nat)
    requires Valid(mem) && m in mem.nodes
    ensures (mem.nodes[m].ext ==> mem.nodes[m].cl in mem.refs) && Valid(Released(mem, m))
  {
    var n := mem.nodes[m];
    assert NodeOk(n, mem.cdata);
    if n.ext { assert ClusterOk(mem, n.cl); }
    var mem' := Released(mem, m);
    ReleaseStore(mem, m);
    hide StoreOk, ClusterOk, Released;
    forall k | k in mem.cdata ensures ClusterOk(mem', k) { ReleaseCluster(mem, m, k); }
    forall a | a in mem'.nodes ensures NodeOk(mem'.nodes[a], mem'.cdata) {
      assert NodeOk(mem.nodes[a], mem.cdata);
      ReleaseNode(mem, m, a);
    }
    ReleaseNode(mem, m, m);
  }

  lemma ReleaseNode(mem: Mem, m: nat, a: nat)
    requires m in mem.nodes && (mem.nodes[m].ext ==> mem.nodes[m].cl in mem.refs)
    ensures Released(mem, m).nodes == mem.nodes - {m} && Released(mem, m).cdata == mem.cdata
  {
  }

  lemma ReleaseCluster(mem: Mem, m: nat, k: nat)
    requires m in mem.nodes && (mem.nodes[m].ext ==> mem.nodes[m].cl in mem.refs) && ClusterOk(mem, k)
    ensures ClusterOk(Released(mem, m), k)
  {
    var n, mem' := mem.nodes[m], Released(mem, m);
    if n.ext && n.cl == k {
      assert m in Users(mem.nodes, k);
      assert Users(mem'.nodes, k) == Users(mem.nodes, k) - {m};
    } else {
      assert Users(mem'.nodes, k) == Users(mem.nodes, k);
    }
  }

  lemma ReleaseStore(mem: Mem, m: nat)
    requires Valid(mem) && m in mem.nodes && (mem.nodes[m].ext ==> mem.nodes[m].cl in mem.refs)
    ensures StoreOk(Released(mem, m))
  {
    var n := mem.nodes[m];
    assert NodeOk(n, mem.cdata);
    if n.ext {
      assert ClusterOk(mem, n.cl);
      assert m in Users(mem.nodes, n.cl);
    }
  }

  /** The first free cluster goes to buffer a. */
  function Taken(mem: Mem, a: nat): Mem
    requires a in mem.nodes && mem.free != [] && mem.free[0] in mem.refs
  {
    var c := mem.free[0];
    mem.(nodes := mem.nodes[a := mem.nodes[a].(ext := true, data := 0, cl := c)],
         refs := mem.refs[c := mem.refs[c] + 1], free := mem.free[1..])
  }

  lemma ValidTaken(mem: Mem, a: nat)
    requires Valid(mem) && a in mem.nodes && !mem.nodes[a].ext && mem.nodes[a].len <= MCLBYTES && mem.free != []
    ensures mem.free[0] in mem.refs && Valid(Taken(mem, a))
    ensures Users(mem.nodes, mem.free[0]) == {} && Users(Taken(mem, a).nodes, mem.free[0]) == {a}
  {
    var c := mem.free[0];
    assert ClusterOk(mem, c);
    assert NodeOk(mem.nodes[a], mem.cdata);
    var mem' := Taken(mem, a);
    assert StoreOk(mem') by {
      forall i, j | 0 <= i < j < |mem'.free| ensures mem'.free[i] != mem'.free[j] {
        assert mem.free[i + 1] != mem.free[j + 1];
      }
    }
    hide StoreOk, NoDup, ClusterOk;
    forall k | k in mem'.cdata ensures ClusterOk(mem', k) { TakeCluster(mem, a, k); }
    TakenUsers(mem, a, c);
  }

  lemma TakenUsers(mem: Mem, a: nat, c: nat)
    requires a in mem.nodes && !mem.nodes[a].ext && mem.free != [] && c == mem.free[0]
    requires ClusterOk(mem, c)
    ensures Users(mem.nodes, c) == {} && c in mem.refs && Users(Taken(mem, a).nodes, c) == {a}
  {
    assert c in mem.free;
    assert |Users(mem.nodes, c)| == 0;
  }

  lemma TakeCluster(mem: Mem, a: nat, k: nat)
    requires a in mem.nodes && !mem.nodes[a].ext && StoreOk(mem) && mem.free != []
    requires ClusterOk(mem, k) && ClusterOk(mem, mem.free[0])
    ensures ClusterOk(Taken(mem, a), k)
  {
    hide StoreOk;
    var c := mem.free[0];
    TakenUsers(mem, a, c);
    FreeTail(mem, k);
    if k != c { assert Users(Taken(mem, a).nodes, k) == Users(mem.nodes, k); }
  }

  lemma FreeTail(mem: Mem, k: nat)
    requires StoreOk(mem) && mem.free != []
    ensures k in mem.free[1..] <==> k in mem.free && k != mem.free[0]
  {
  }

  /** New clusters from the kernel, put on the free list. */
  lemma ValidGrow(mem: Mem, mem': Mem, c: nat, d: seq<byte>)
    requires Valid(mem) && mem.spare != [] && c == mem.spare[0] && |d| == MCLBYTES
    requires mem' == mem.(cdata := mem.cdata[c := d], free := [c] + mem.free, spare := mem.spare[1..])
    ensures Valid(mem')
  {
    assert c !in mem.cdata;
    forall a | a in mem.nodes ensures NodeOk(mem'.nodes[a], mem'.cdata) && !(mem.nodes[a].ext && mem.nodes[a].cl == c) {
      assert NodeOk(mem.nodes[a], mem.cdata);
    }
    assert Users(mem.nodes, c) == {};
    forall k | k in mem'.cdata ensures ClusterOk(mem', k) {
      if k != c { assert ClusterOk(mem, k); }
    }
  }

  // ---------- Moving bytes from one buffer to another ----------

  /** There is room for count more bytes after those of m. */
  predicate Room(mem: Mem, m: nat, count: nat) {
    m in mem.nodes && mem.nodes[m].data + mem.nodes[m].len + count <= |Area(mem.nodes[m], mem.cdata)|
  }

  /** Buffers m and a refer to the same cluster. */
  predicate Share(mem: Mem, m: nat, a: nat) {
    m in mem.nodes && a in mem.nodes && a != m && mem.nodes[m].ext && mem.nodes[a].ext && mem.nodes[m].cl == mem.nodes[a].cl
  }

  /** Another user of m's cluster holds some of the count bytes behind those of m. */
  predicate Touches(mem: Mem, m: nat, a: nat, count: nat) {
    Share(mem, m, a) &&
    var p, b := mem.nodes[m].data + mem.nodes[m].len, mem.nodes[a];
    0 < count && 0 < b.len && b.data < p + count && p < b.data + b.len
  }

  /** What another user of m's cluster holds behind the bytes of m is what x has there. */
  ghost predicate Agrees(mem: Mem, m: nat, a: nat, x: seq<byte>) {
    Share(mem, m, a) && mem.nodes[m].cl in mem.cdata ==>
      var p, b, s := mem.nodes[m].data + mem.nodes[m].len, mem.nodes[a], mem.cdata[mem.nodes[m].cl];
      forall q | p <= q < p + |x| && b.data <= q < b.data + b.len && q < |s| :: s[q] == x[q - p]
  }

  /** There is room for count more bytes after those of m, where none of the buffers w holds any. */
  ghost predicate CanAppend(mem: Mem, m: nat, count: nat, w: set<nat>) {
    Room(mem, m, count) && forall a | a in w :: !Touches(mem, m, a, count)
  }

  /** The bytes x are copied behind those of m. */
  function Appended(mem: Mem, m: nat, x: seq<byte>): Mem
    requires Room(mem, m, |x|)
  {
    var n := mem.nodes[m];
    var s := Splice(Area(n, mem.cdata), n.data + n.len, x);
    if n.ext then mem.(nodes := mem.nodes[m := n.(len := n.len + |x|)], cdata := mem.cdata[n.cl := s])
    else mem.(nodes := mem.nodes[m := n.(len := n.len + |x|, dat := s)])
  }

  lemma ValidAppend(mem: Mem, m: nat, x: seq<byte>)
    requires Valid(mem) && Room(mem, m, |x|)
    ensures Valid(Appended(mem, m, x))
    ensures var mem' := Appended(mem, m, x);
      At(mem'.nodes, mem'.cdata, m) == At(mem.nodes, mem.cdata, m) + x
  {
    var mem' := Appended(mem, m, x);
    assert NodeOk(mem.nodes[m], mem.cdata);
    AppendAt(mem, m, x);
    AppendClusters(mem, m, x);
    hide Appended, Splice, At;
    forall a | a in mem.nodes ensures NodeOk(mem'.nodes[a], mem'.cdata) {
      assert NodeOk(mem.nodes[a], mem.cdata);
      if a != m { AppendNode(mem, m, x, a); }
    }
    hide NodeOk;
    ValidChange(mem, mem');
  }

  lemma AppendAt(mem: Mem, m: nat, x: seq<byte>)
    requires Room(mem, m, |x|) && NodeOk(mem.nodes[m], mem.cdata)
    ensures var mem' := Appended(mem, m, x);
      && At(mem'.nodes, mem'.cdata, m) == At(mem.nodes, mem.cdata, m) + x
      && NodeOk(mem'.nodes[m], mem'.cdata)
  {
    hide Splice;
    var n := mem.nodes[m];
    SpliceBehind(Area(n, mem.cdata), n.data, n.len, x);
  }

  /** What a run of bytes becomes when others are written behind it. */
  lemma SpliceBehind(s: seq<byte>, at: nat, len: nat, x: seq<byte>)
    requires at + len + |x| <= |s|
    ensures |Splice(s, at + len, x)| == |s|
    ensures Splice(s, at + len, x)[at..at + len + |x|] == s[at..at + len] + x
  {
    var r := Splice(s, at + len, x);
    assert r[at..at + len] == r[..at + len][at..];
    assert s[at..at + len] == s[..at + len][at..];
    assert r[at..at + len + |x|] == r[at..at + len] + r[at + len..at + len + |x|];
  }

  lemma AppendClusters(mem: Mem, m: nat, x: seq<byte>)
    requires Valid(mem) && Room(mem, m, |x|) && NodeOk(mem.nodes[m], mem.cdata)
    ensures var mem' := Appended(mem, m, x);
      && mem' == mem.(nodes := mem'.nodes, cdata := mem'.cdata)
      && mem'.nodes.Keys == mem.nodes.Keys && mem'.cdata.Keys == mem.cdata.Keys
      && (forall a | a in mem.nodes ::
            mem'.nodes[a].ext == mem.nodes[a].ext && mem'.nodes[a].cl == mem.nodes[a].cl)
      && forall c | c in mem.cdata :: |mem'.cdata[c]| == MCLBYTES
  {
    hide StoreOk, NodeOk;
    forall c | c in mem.cdata ensures |mem.cdata[c]| == MCLBYTES { assert ClusterOk(mem, c); }
    if mem.nodes[m].ext { assert mem.nodes[m].cl in mem.cdata by { ExtCluster(mem, m); } }
  }

  lemma ExtCluster(mem: Mem, m: nat)
    requires Valid(mem) && m in mem.nodes && mem.nodes[m].ext
    ensures mem.nodes[m].cl in mem.cdata && mem.nodes[m].cl in mem.refs
    ensures |mem.cdata[mem.nodes[m].cl]| == MCLBYTES && mem.nodes[m].cl !in mem.free
  {
    assert NodeOk(mem.nodes[m], mem.cdata);
    assert ClusterOk(mem, mem.nodes[m].cl);
    assert m in Users(mem.nodes, mem.nodes[m].cl);
  }

  lemma AppendNode(mem: Mem, m: nat, x: seq<byte>, a: nat)
    requires Room(mem, m, |x|) && a != m && a in mem.nodes && NodeOk(mem.nodes[a], mem.cdata)
    ensures NodeOk(Appended(mem, m, x).nodes[a], Appended(mem, m, x).cdata)
  {
  }

  /** Another buffer keeps its bytes if and only if what is written agrees with them. */
  lemma KeptIff(mem: Mem, m: nat, x: seq<byte>, a: nat)
    requires Valid(mem) && Room(mem, m, |x|) && a != m && a in mem.nodes
    ensures var mem' := Appended(mem, m, x);
      mem'.nodes[a] == mem.nodes[a] &&
      (At(mem'.nodes, mem'.cdata, a) == At(mem.nodes, mem.cdata, a) <==> Agrees(mem, m, a, x))
  {
    hide Valid, StoreOk, Splice, Users;
    ValidNode(mem, m);
    ValidNode(mem, a);
    var n, b := mem.nodes[m], mem.nodes[a];
    if Share(mem, m, a) {
      SpliceKept(mem.cdata[n.cl], n.data + n.len, x, b.data, b.len);
    } else {
      assert Area(b, Appended(mem, m, x).cdata) == Area(b, mem.cdata);
    }
  }

  lemma ValidNode(mem: Mem, a: nat)
    requires Valid(mem) && a in mem.nodes
    ensures NodeOk(mem.nodes[a], mem.cdata)
  {
  }

  /** A stretch of s stays the same just when the bytes put into it are those that were there. */
  lemma SpliceKept(s: seq<byte>, p: nat, x: seq<byte>, from: nat, n: nat)
    requires p + |x| <= |s| && from + n <= |s|
    ensures Splice(s, p, x)[from..from + n] == s[from..from + n] <==>
      forall q | p <= q < p + |x| && from <= q < from + n && q < |s| :: s[q] == x[q - p]
  {
    var r := Splice(s, p, x);
    assert forall q | 0 <= q < |s| :: r[q] == if p <= q < p + |x| then x[q - p] else s[q];
    if r[from..from + n] == s[from..from + n] {
      forall q | p <= q < p + |x| && from <= q < from + n && q < |s| ensures s[q] == x[q - p] {
        assert r[from..from + n][q - from] == s[from..from + n][q - from];
      }
    }
  }

  lemma AppendOthers(mem: Mem, m: nat, x: seq<byte>, a: nat)
    requires Valid(mem) && Room(mem, m, |x|) && a != m && a in mem.nodes && !Touches(mem, m, a, |x|)
    ensures var mem' := Appended(mem, m, x);
      mem'.nodes[a] == mem.nodes[a] && At(mem'.nodes, mem'.cdata, a) == At(mem.nodes, mem.cdata, a)
  {
    hide Valid, Appended, At;
    KeptIff(mem, m, x, a);
  }

  /** Bytes put behind those of m change no other buffer. */
  ghost predicate Undisturbed(mem: Mem, m: nat, x: seq<byte>)
    requires Room(mem, m, |x|)
  {
    var mem' := Appended(mem, m, x);
    forall a | a in mem.nodes && a != m :: At(mem'.nodes, mem'.cdata, a) == At(mem.nodes, mem.cdata, a)
  }

  /** That is so whatever the bytes are, if and only if no other user of the cluster holds any of their places. */
  lemma UndisturbedExact(mem: Mem, m: nat, count: nat)
    requires Valid(mem) && Room(mem, m, count)
    ensures (forall x: seq<byte> | |x| == count :: Undisturbed(mem, m, x)) <==> forall a :: !Touches(mem, m, a, count)
  {
    hide Valid, Appended, At, Agrees;
    if a :| Touches(mem, m, a, count) {
      var x := Other(mem, m, count);
      KeptIff(mem, m, x, a);
      Disagrees(mem, m, count, a);
      assert !Undisturbed(mem, m, x);
    } else {
      forall x: seq<byte> | |x| == count ensures Undisturbed(mem, m, x) {
        forall a | a in mem.nodes && a != m
          ensures At(Appended(mem, m, x).nodes, Appended(mem, m, x).cdata, a) == At(mem.nodes, mem.cdata, a)
        {
          AppendOthers(mem, m, x, a);
        }
      }
    }
  }

  /** Bytes other than those behind m. */
  function Other(mem: Mem, m: nat, count: nat): (x: seq<byte>)
    requires Room(mem, m, count)
    ensures |x| == count
  {
    var s, p := Area(mem.nodes[m], mem.cdata), mem.nodes[m].data + mem.nodes[m].len;
    seq(count, i requires 0 <= i < count && p + count <= |s| => if s[p + i] == 0 then 1 else 0)
  }

  lemma Disagrees(mem: Mem, m: nat, count: nat, a: nat)
    requires Valid(mem) && Room(mem, m, count) && Touches(mem, m, a, count)
    ensures !Agrees(mem, m, a, Other(mem, m, count))
  {
    hide Valid;
    ValidNode(mem, m);
    ValidNode(mem, a);
    var x, p, b := Other(mem, m, count), mem.nodes[m].data + mem.nodes[m].len, mem.nodes[a];
    var q := if p < b.data then b.data else p;
    assert mem.cdata[mem.nodes[m].cl][q] != x[q - p];
  }

  /** The clusters after the bytes x were put behind those of m. */
  function Written(mem: Mem, m: nat, x: seq<byte>): map<nat, seq<byte>> {
    if Room(mem, m, |x|) && mem.nodes[m].ext && mem.nodes[m].cl in mem.cdata then
      mem.cdata[mem.nodes[m].cl := Splice(mem.cdata[mem.nodes[m].cl], mem.nodes[m].data + mem.nodes[m].len, x)]
    else mem.cdata
  }

  lemma WrittenNothing(mem: Mem, m: nat)
    ensures Written(mem, m, []) == mem.cdata
  {
    if Room(mem, m, 0) && mem.nodes[m].ext && mem.nodes[m].cl in mem.cdata {
      SpliceNothing(mem.cdata[mem.nodes[m].cl], mem.nodes[m].data + mem.nodes[m].len);
    }
  }

  lemma WrittenTwice(mem0: Mem, mem1: Mem, m: nat, x: seq<byte>, y: seq<byte>)
    requires Room(mem0, m, |x| + |y|) && m in mem1.nodes && mem1.cdata == Written(mem0, m, x)
    requires mem1.nodes[m] == mem0.nodes[m].(len := mem0.nodes[m].len + |x|, dat := mem1.nodes[m].dat)
    ensures Written(mem1, m, y) == Written(mem0, m, x + y)
  {
    hide Splice;
    var n := mem0.nodes[m];
    if n.ext && n.cl in mem0.cdata { SpliceTwice(mem0.cdata[n.cl], n.data + n.len, x, y); }
  }

  /** Between mem and mem', the buffers c became the buffers d, and the record of no other buffer changed. */
  predicate Records(mem: Mem, c: set<nat>, mem': Mem, d: set<nat>) {
    mem'.nodes - d == mem.nodes - c
  }

  /** The first count bytes of n are dropped; an empty buffer keeps its position. */
  function Dropped(mem: Mem, n: nat, count: nat): Mem
    requires n in mem.nodes && count <= mem.nodes[n].len
  {
    var b := mem.nodes[n];
    mem.(nodes := mem.nodes[n := b.(len := b.len - count, data := if count < b.len then b.data + count else b.data)])
  }

  lemma DropAt(mem: Mem, n: nat, count: nat)
    requires n in mem.nodes && count <= mem.nodes[n].len && NodeOk(mem.nodes[n], mem.cdata)
    ensures NodeOk(Dropped(mem, n, count).nodes[n], mem.cdata)
    ensures At(Dropped(mem, n, count).nodes, mem.cdata, n) == At(mem.nodes, mem.cdata, n)[count..]
  {
    var b := mem.nodes[n];
    var s := Area(b, mem.cdata);
    assert s[b.data..b.data + b.len][count..] == s[b.data + count..b.data + b.len];
  }

  lemma ValidDrop(mem: Mem, n: nat, count: nat)
    requires Valid(mem) && n in mem.nodes && count <= mem.nodes[n].len
    ensures Valid(Dropped(mem, n, count))
    ensures At(Dropped(mem, n, count).nodes, mem.cdata, n) == At(mem.nodes, mem.cdata, n)[count..]
  {
    assert NodeOk(mem.nodes[n], mem.cdata);
    DropAt(mem, n, count);
    hide NodeOk, At;
    ClusterSizes(mem);
    ValidChange(mem, Dropped(mem, n, count));
  }

  lemma ClusterSizes(mem: Mem)
    requires Valid(mem)
    ensures forall c | c in mem.cdata :: |mem.cdata[c]| == MCLBYTES
  {
    hide StoreOk, NodeOk;
    forall c | c in mem.cdata ensures |mem.cdata[c]| == MCLBYTES { assert ClusterOk(mem, c); }
  }

  /** Between mem and mem', the chain c became the chain d, and no other buffer changed. */
  ghost predicate Others(mem: Mem, c: set<nat>, mem': Mem, d: set<nat>) {
    && mem'.nodes - d == mem.nodes - c
    && forall a | a in mem.nodes && a !in c :: At(mem'.nodes, mem'.cdata, a) == At(mem.nodes, mem.cdata, a)
  }
}

module MbufPool {
  import opened Common
  import opened MbufMemory

  /** The buffer pool of the kernel. */
  class Pool {
    var nodes: map<nat, Mbuf>
    var room: map<nat, Mbuf>
    var cdata: map<nat, seq<byte>>
    var refs: map<nat, int>
    var free: seq<nat>
    var spare: seq<nat>

    function V(): Mem
      reads this
    {
      Mem(nodes, room, cdata, refs, free, spare)
    }

    /** mbufinit: no buffers, no clusters; memory for both comes from the kernel.  `words` is what memory
        holds from the array of counts on.  The array gets one byte for each cluster instead of one long,
        so that the counts of clusters from number NCOUNTS on lie behind it, and are not cleared. */
    constructor (room: map<nat, Mbuf>, spare: seq<nat>, words: map<nat, int>)
      requires 0 !in room && forall a | a in room :: |room[a].dat| == MLEN
      requires Covers(words) && NoDup(spare) && InMemory(spare)
      ensures V() == Fresh(room, spare, words)
      ensures Valid(V()) <==> forall c | c in spare :: InCounts(c) || words[c] == 0
    {
      this.room, this.spare := room, spare;
      nodes, cdata, refs, free := map[], map[], Cleared(words), [];
      new;
      forall c | c in spare ensures refs[c] == if InCounts(c) then 0 else words[c] { CountCleared(words, c); }
    }

    // ---------- Buffers ----------

    /** mbuf_get: a buffer made of whatever memory there is, or null. */
    method Get(kind: nat) returns (a: nat)
      requires 0 !in room
      modifies this
      ensures a == 0 ==> V() == old(V())
      ensures a != 0 ==> a in old(room) && V() == Got(old(V()), a, kind)
      ensures a == 0 <==> kind >= 256 || old(room) == map[]
      ensures a != 0 ==> a in nodes && var n := nodes[a];
        n.kind == kind && n.next == n.nextpkt == n.data == 0 && !n.pkthdr && !n.eor && !n.ext && !n.cast
    {
      a := 0;
      if kind < 256 && room != map[] {
        a :| a in room;
        nodes, room := nodes[a := Blank(room[a], kind)], room - {a};
      }
    }

    /** mbuf_free: releases one buffer and returns the next one of its chain. */
    method Free(m: nat) returns (next: nat)
      requires m == 0 || m in nodes
      requires Valid(V()) || (m != 0 && Valid(Emptied(V(), m)))
      modifies this
      ensures Valid(V())
      ensures m == 0 ==> next == 0 && V() == old(V())
      ensures m != 0 ==> next == old(nodes[m].next) && nodes == old(nodes) - {m} && cdata == old(cdata)
      ensures m != 0 ==> (old(nodes[m].ext) ==> old(nodes[m].cl in refs)) && V() == Released(old(V()), m)
    {
      hide Valid;
      next := 0;
      if m != 0 {
        if Valid(V()) { EmptiedValid(V(), m); }
        ValidReleaseRaw(V(), m);
        ghost var mem := V();
        var n := nodes[m];
        if n.ext {
          refs := refs[n.cl := refs[n.cl] - 1];
          if refs[n.cl] == 0 { free := [n.cl] + free; }
        }
        next := n.next;
        nodes, room := nodes - {m}, room[m := n];
        assert V() == Released(mem, m);
      }
    }

    /** mbuf_freem: releases every buffer of the chain c. */
    method Freem(m0: nat, ghost c: seq<nat>)
      requires Valid(V()) && IsChain(nodes, m0, c)
      modifies this
      ensures Valid(V()) && nodes == old(nodes) - Elements(c) && cdata == old(cdata)
    {
      hide Valid, Released, IsChain, V;
      var m := m0;
      ghost var rest := c;
      ChainEnds(nodes, m, rest);
      while m != 0
        invariant Valid(V()) && IsChain(nodes, m, rest) && cdata == old(cdata)
        invariant nodes == old(nodes) - (Elements(c) - Elements(rest)) && Elements(rest) <= Elements(c)
        invariant m == 0 <==> rest == []
        decreases |rest|
      {
        ChainEnds(nodes, m, rest);
        ChainTail(nodes, m, rest);
        ghost var before := nodes;
        m := Free(m);
        ChainKept(before, nodes, m, rest[1..]);
        ElementsCons(rest);
        MinusMore(old(nodes), Elements(c), Elements(rest), rest[0], Elements(rest[1..]));
        rest := rest[1..];
        ChainEnds(nodes, m, rest);
      }
    }

    // ---------- Clusters ----------

    /** mbuf_clalloc: takes ncl pages from the kernel and puts their clusters on the free list; true
        means that there was no memory. */
    method Clalloc(ncl: nat) returns (failed: bool)
      modifies this`cdata, this`free, this`spare
      ensures failed <==> |old(spare)| < ncl * (CLBYTES / MCLBYTES)
      ensures failed ==> V() == old(V())
      ensures !failed ==> V() == Grown(old(V()), ncl * (CLBYTES / MCLBYTES))
    {
      var nmcl := ncl * (CLBYTES / MCLBYTES);
      failed := |spare| < nmcl;
      if !failed {
        var i := 0;
        while i < nmcl
          invariant i <= nmcl && |spare| >= nmcl - i
          invariant Grown(V(), nmcl - i) == Grown(old(V()), nmcl)
        {
          free, spare, cdata := [spare[0]] + free, spare[1..], cdata[spare[0] := Zeros()];
          i := i + 1;
        }
      }
    }

    /** A cluster can be had. */
    predicate CanGet()
      reads this
    {
      free != [] || |spare| >= CLBYTES / MCLBYTES
    }

    /** MCLALLOC: the first free cluster, or nothing. */
    method Mclalloc(m: nat)
      requires m in nodes && !nodes[m].ext && Valid(Emptied(V(), m))
      modifies this
      ensures m in nodes && nodes == old(nodes)[m := old(nodes)[m].(cl := nodes[m].cl)] && room == old(room)
      ensures !old(CanGet()) ==> V() == old(V())
      ensures old(CanGet()) ==> nodes[m].cl != 0 && Valid(Emptied(WithExt(V(), m), m))
      ensures old(CanGet()) ==> Users(WithExt(V(), m).nodes, nodes[m].cl) == {m}
      ensures forall c | c in old(cdata) :: c in cdata && cdata[c] == old(cdata)[c]
    {
      hide Valid, Taken, Emptied, Users, Grown, WithExt;
      ghost var mem0 := V();
      if free == [] {
        var failed := Clalloc(1);
        if !failed { ValidGrown(mem0, m, CLBYTES / MCLBYTES); }
      }
      if free != [] {
        PopFree(m);
      }
    }

    /** The first free cluster goes to m. */
    method PopFree(m: nat)
      requires m in nodes && !nodes[m].ext && Valid(Emptied(V(), m)) && free != []
      modifies this
      ensures m in nodes && nodes == old(nodes)[m := old(nodes)[m].(cl := nodes[m].cl)] && room == old(room)
      ensures nodes[m].cl != 0 && Valid(Emptied(WithExt(V(), m), m)) && cdata == old(cdata)
      ensures Users(WithExt(V(), m).nodes, nodes[m].cl) == {m}
    {
      hide Valid, Taken, Emptied, Users;
      ghost var mem := V();
      var c := free[0];
      ValidTakenRaw(mem, m);
      refs := refs[c := refs[c] + 1];
      nodes := nodes[m := nodes[m].(cl := c)];
      free := free[1..];
      assert WithExt(V(), m).nodes == mem.nodes[m := mem.nodes[m].(ext := true, data := 0, cl := c)];
      assert WithExt(V(), m) == Taken(mem, m);
    }

    /** mbuf_getext: gives buffer m a cluster of its own.  Without one to be had, MCLALLOC leaves the
        pointer of m as it was, so that the test of it only fails when null was left there. */
    method GetExt(m: nat) returns (ok: bool)
      requires m in nodes && !nodes[m].ext && Valid(Emptied(V(), m))
      modifies this
      ensures m in nodes && (Valid(Emptied(V(), m)) <==> old(CanGet()) || old(nodes[m].cl) == 0)
      ensures ok <==> old(CanGet()) || old(nodes[m].cl) != 0
      ensures !ok ==> V() == old(V())
      ensures ok ==> nodes == old(nodes)[m := old(nodes[m]).(ext := true, data := 0, cl := nodes[m].cl)]
      ensures forall c | c in old(cdata) :: c in cdata && cdata[c] == old(cdata)[c]
      ensures room == old(room)
      ensures old(CanGet()) ==> Users(nodes, nodes[m].cl) == {m}
    {
      hide Valid, Emptied, Users;
      StaleCluster(V(), m);
      ghost var mem := V();
      Mclalloc(m);
      ok := nodes[m].cl != 0;
      if ok { nodes := nodes[m := nodes[m].(ext := true, data := 0)]; }
      ghost var n := mem.nodes[m].(ext := true, data := 0, cl := nodes[m].cl);
      assert ok ==> nodes == mem.nodes[m := n];
    }

    // ---------- Pull-up ----------

    /** bcopy to the end of m, whose length grows. */
    method Bcopy(m: nat, x: seq<byte>)
      requires Room(V(), m, |x|) && (nodes[m].ext ==> nodes[m].cl in cdata)
      modifies this`nodes, this`cdata
      ensures old(Room(V(), m, |x|)) && V() == Appended(old(V()), m, x)
    {
      var b := nodes[m];
      var s := Splice(Area(b, cdata), b.data + b.len, x);
      if b.ext {
        cdata, nodes := cdata[b.cl := s], nodes[m := b.(len := b.len + |x|)];
      } else {
        nodes := nodes[m := b.(len := b.len + |x|, dat := s)];
      }
    }

    /** Drops the first count bytes of n. */
    method Advance(n: nat, count: nat)
      requires n in nodes && count <= nodes[n].len
      modifies this`nodes
      ensures old(n in nodes && count <= nodes[n].len) && V() == Dropped(old(V()), n, count)
    {
      nodes := nodes[n := nodes[n].(len := nodes[n].len - count)];
      if nodes[n].len > 0 { nodes := nodes[n := nodes[n].(data := nodes[n].data + count)]; }
    }

    /** Moves the first count bytes of n to the end of m. */
    method Move(m: nat, n: nat, count: nat, ghost w: set<nat>)
      requires Valid(V()) && CanAppend(V(), m, count, w) && n in w && n in nodes && n != m && count <= nodes[n].len
      modifies this`nodes, this`cdata
      ensures Valid(V()) && V() == old(V()).(nodes := nodes, cdata := cdata)
      ensures MovedTo(old(V()), V(), m, n, count, w)
    {
      hide Valid, At, CanAppend, Appended, Dropped, MovedTo, Room, Touches;
      ghost var mem := V();
      AreaFits(mem, m, n, count, w);
      var x := Data(nodes[n], cdata)[..count];
      ValidAppend(mem, m, x);
      AppendParts(mem, m, x);
      AppendOthers(mem, m, x, n);
      Bcopy(m, x);
      ValidDrop(V(), n, count);
      Advance(n, count);
      MovedIs(mem, m, n, x, w);
    }

    /** Moves bytes from the first buffer of a chain to the end of m, and releases that buffer when it
        is empty. */
    method Step(m: nat, n0: nat, count: nat, ghost c: seq<nat>, ghost w: set<nat>) returns (n: nat, ghost rest: seq<nat>)
      requires Valid(V()) && CanAppend(V(), m, count, w) && IsChain(nodes, n0, c) && n0 != 0 && m !in c && Elements(c) <= w
      requires n0 in nodes ==> count <= nodes[n0].len
      modifies this
      ensures Valid(V()) && IsChain(nodes, n, rest) && (n == 0 <==> rest == [])
      ensures |rest| < |c| || (rest == c && n == n0 && n in old(nodes) && count < old(nodes)[n].len)
      ensures Stepped(old(V()), V(), m, c, rest, count)
    {
      hide Valid, At, CanAppend, IsChain, Released, MovedTo, Stepped;
      ghost var mem0 := V();
      StepStart(mem0, m, n0, c, count, w);
      Move(m, n0, count, w);
      ghost var mem1 := V();
      StepMoved(mem0, mem1, m, n0, c, count, w);
      n, rest := n0, c;
      if nodes[n].len == 0 {
        n := Free(n);
        rest := c[1..];
        StepFreed(mem0, mem1, V(), m, n0, c, count);
      }
    }

    /** The loop of mbuf_pullup: moves len0 bytes of chain c to the end of m and puts the rest of the
        chain behind m, or releases everything when the chain is too short.  mbuf_pullup_big has the
        same loop with no limit on the space. */
    method Gather(m: nat, n0: nat, len0: nat, space0: nat, ghost c: seq<nat>) returns (r: nat, ghost d: seq<nat>)
      requires Valid(V()) && CanAppend(V(), m, len0, Elements(c)) && IsChain(nodes, n0, c) && m !in c && len0 <= space0
      modifies this
      ensures Valid(V()) && m in old(nodes)
      ensures cdata == Written(old(V()), m, First(old(Bytes(nodes, cdata, c)), len0))
      ensures r == 0 <==> |old(Bytes(nodes, cdata, c))| < len0
      ensures r == 0 ==> d == []
      ensures r != 0 ==> r == m && d != [] && IsChain(nodes, m, d)
      ensures r != 0 ==> Bytes(nodes, cdata, d) == old(At(nodes, cdata, m)) + old(Bytes(nodes, cdata, c))
      ensures r != 0 ==> m in nodes
      ensures r != 0 ==> nodes[m] == old(nodes)[m].(len := old(nodes)[m].len + len0, dat := nodes[m].dat, next := nodes[m].next)
      ensures Records(old(V()), {m} + Elements(c), V(), Elements(d))
    {
      hide Valid, At, CanAppend, IsChain, Released, Records, Bytes, Stepped, Gathering, Written, First;
      var len: nat, n: nat, space: nat := len0, n0, space0;
      ghost var mem0, rest, w := V(), c, Elements(c);
      ChainEnds(nodes, n, rest);
      GatherStart(mem0, m, c, len0);
      while len != 0 && n != 0
        invariant Valid(V()) && IsChain(nodes, n, rest) && (n == 0 <==> rest == []) && Elements(rest) <= w
        invariant CanAppend(V(), m, len, w) && len <= len0 && len <= space
        invariant Gathering(mem0, V(), m, c, rest, len0 - len)
        decreases |rest|, len
      {
        ChainTail(nodes, n, rest);
        var count := Min(Min(Max(MAX_PROTOHDR, len), space), nodes[n].len);
        ghost var mem1, rest1 := V(), rest;
        CanAppendLess(mem1, m, len, count, w);
        GatherAway(mem0, mem1, m, c, rest, len0 - len);
        n, rest := Step(m, n, count, rest, w);
        GatherKept(mem0, mem1, V(), m, c, rest1, rest, len0 - len, count, len0);
        StillAppend(mem1, V(), m, rest1, rest, len, count, w);
        GatherAway(mem0, V(), m, c, rest, len0 - len + count);
        len, space := len - count, space - count;
      }
      ghost var mem2 := V();
      GatherEnd(mem0, mem2, m, c, rest, len0, len);
      if len > 0 {
        var none := Free(m);
        r, d := 0, [];
        assert {m} + Elements(rest) == {m} && Elements(d) == {};
        RecordsRemove(mem0, {m} + Elements(c), mem2, {m} + Elements(rest), V(), m, {});
      } else {
        nodes := nodes[m := nodes[m].(next := n)];
        r, d := m, [m] + rest;
        Relinked(mem2, V(), m, n, rest);
        ElementsCons(d);
        RecordsRelinked(mem0, {m} + Elements(c), mem2, V(), Elements(d), m);
      }
    }

    /** mbuf_pullup: makes the first buffer hold at least len0 bytes, or releases the whole chain. */
    method Pullup(n0: nat, len0: nat, ghost c: seq<nat>) returns (r: nat, ghost d: seq<nat>)
      requires Valid(V()) && IsChain(nodes, n0, c)
      modifies this
      ensures Valid(V()) && cdata == old(cdata)
      ensures r == 0 <==> n0 == 0 || |old(Bytes(nodes, cdata, c))| < len0 ||
                          (old(NeedsNew(n0, len0)) && (len0 > MHLEN || old(room) == map[] || old(nodes)[n0].kind >= 256))
      ensures PulledUp(old(V()), V(), c, r, d, len0)
      ensures r != 0 ==> n0 in old(nodes) && r in nodes && var n := old(nodes)[n0];
        && (r == n0 <==> !n.ext && n.data + len0 < MLEN)
        && nodes[r].len == if r == n0 then Max(n.len, len0) else len0
    {
      hide Valid, IsChain, Others, Bytes, At, PacketOk, CanAppend, Pulled, Records, Written;
      ChainEnds(nodes, n0, c);
      ghost var mem0 := V();
      r, d := 0, [];
      if n0 == 0 {
        PulledNone(mem0, mem0, c, len0);
      } else if !NeedsNew(n0, len0) {
        ChainTail(nodes, n0, c);
        var m := n0;
        var len := len0 - Min(len0, nodes[m].len);
        ElementsCons(c);
        HeadRoom(mem0, m, len, Elements(c[1..]));
        ValidLen(mem0, m);
        BytesCons(mem0, c);
        r, d := Gather(m, nodes[m].next, len, MLEN - (nodes[m].data + nodes[m].len), c[1..]);
        PulledInPlace(mem0, V(), m, c, len0, r, d);
        WrittenOwn(mem0, m, First(Bytes(mem0.nodes, mem0.cdata, c[1..]), len));
        RecordsOthers(mem0, Elements(c), V(), Elements(d));
      } else {
        var m := 0;
        if len0 <= MHLEN { m := GetHead(n0, c); }
        if m == 0 {
          Freem(n0, c);
          PulledNone(mem0, V(), c, len0);
        } else {
          ghost var mem1 := V();
          CanAppendLess(mem1, m, MLEN - nodes[m].data, len0, Elements(c));
          r, d := Gather(m, n0, len0, MLEN - (nodes[m].data + nodes[m].len), c);
          WrittenOwn(mem1, m, First(Bytes(mem1.nodes, mem1.cdata, c), len0));
          RecordsOthers(mem1, {m} + Elements(c), V(), Elements(d));
          PulledNew(mem0, mem1, V(), m, c, len0, r, d);
        }
      }
    }

    /** The first buffer cannot be extended in place. */
    predicate NeedsNew(n: nat, len: nat)
      reads this
    {
      n in nodes && (nodes[n].ext || nodes[n].data + len >= MLEN)
    }

    /** A new empty buffer, to which the packet header of the chain moves. */
    method GetHead(n: nat, ghost c: seq<nat>) returns (m: nat)
      requires Valid(V()) && IsChain(nodes, n, c) && n != 0 && n in nodes
      modifies this
      ensures m == 0 <==> old(nodes)[n].kind >= 256 || old(room) == map[]
      ensures m == 0 ==> V() == old(V())
      ensures m != 0 ==> HeadMade(old(V()), V(), m, n, c)
      ensures m != 0 ==> m in nodes && !nodes[m].ext && nodes[m].len == 0 && nodes[m].data == if nodes[m].pkthdr then PKTDAT else 0
      ensures m != 0 ==> CanAppend(V(), m, MLEN - nodes[m].data, Elements(c))
      ensures m != 0 ==> m !in c && IsChain(nodes, n, c) && Valid(V()) && cdata == old(cdata)
      ensures m != 0 ==> Bytes(nodes, cdata, c) == old(Bytes(nodes, cdata, c))
    {
      hide Valid, IsChain, Others, Bytes, At, CanAppend;
      ghost var mem0 := V();
      ValidNotNull(mem0);
      m := Get(nodes[n].kind);
      if m != 0 {
        nodes := nodes[m := nodes[m].(len := 0)];
        RoomSize(mem0, m);
        ValidAdd(mem0, V(), m);
        ghost var mem1 := V();
        if nodes[n].pkthdr {
          CopyPkthdr(m, n);
          nodes := nodes[n := nodes[n].(pkthdr := false)];
        }
        NodeFits(mem1, m);
        HeadMadeIs(mem0, mem1, V(), m, n, c);
        HeadRoom(V(), m, MLEN - nodes[m].data, Elements(c));
      }
    }

    /** MBUF_COPY_PKTHDR */
    method CopyPkthdr(d: nat, s: nat)
      requires d in nodes && s in nodes
      modifies this`nodes
      ensures old(d in nodes && s in nodes)
      ensures nodes == old(nodes)[d := HeaderCopied(old(nodes)[d], old(nodes)[s])]
    {
      nodes := nodes[d := HeaderCopied(nodes[d], nodes[s])];
    }

    /** The length is in reach of mbuf_pullup_big, and bytes have to be put into the first buffer's cluster. */
    predicate InPlace(n: nat, len: nat)
      reads this
    {
      len > MHLEN && n in nodes && !NeedsCluster(n, len) && nodes[n].len < len
    }

    /** mbuf_pullup_big: as mbuf_pullup, for a length up to that of a cluster.  Bytes may be put into the cluster
        of the first buffer, where other buffers of the same chain must not be in the way.  Buffers outside of
        the chain keep their bytes if and only if those that the source writes there agree with them. */
    method PullupBig(n0: nat, len0: nat, ghost c: seq<nat>) returns (r: nat, ghost d: seq<nat>)
      requires Valid(V()) && IsChain(nodes, n0, c)
      requires InPlace(n0, len0) ==> forall a | a in c :: !Touches(V(), n0, a, len0 - nodes[n0].len)
      requires len0 > MHLEN && NeedsCluster(n0, len0) && !CanGet() ==> forall a | a in room :: room[a].cl == 0
      modifies this
      ensures Valid(V())
      ensures r == 0 <==> n0 == 0 || |old(Bytes(nodes, cdata, c))| < len0 ||
                          (len0 <= MHLEN && old(NeedsNew(n0, len0)) && (old(room) == map[] || old(nodes)[n0].kind >= 256)) ||
                          (len0 > MHLEN && old(NeedsCluster(n0, len0)) &&
                           (len0 > MCLBYTES || old(room) == map[] || old(nodes)[n0].kind >= 256 || !old(CanGet())))
      ensures Pulled(old(V()), V(), c, r, d, len0)
      ensures r != 0 ==> n0 in old(nodes) && r in nodes && var n := old(nodes)[n0];
        && (r == n0 <==> if len0 <= MHLEN then !n.ext && n.data + len0 < MLEN else n.ext && n.data + len0 < MCLBYTES)
        && nodes[r].len == if r == n0 then Max(n.len, len0) else len0
      ensures Others(old(V()), Elements(c), V(), Elements(d)) <==>
        (old(InPlace(n0, len0)) ==> Unharmed(old(V()), c, len0 - old(nodes[n0].len)))
      ensures old(InPlace(n0, len0)) ==> forall a | a in old(nodes) && a !in c ::
        (At(nodes, cdata, a) == old(At(nodes, cdata, a)) <==>
         Agrees(old(V()), n0, a, First(old(TailBytes(V(), c)), len0 - old(nodes[n0].len))))
    {
      hide Valid, IsChain, Others, Bytes, At, PacketOk, CanAppend, Pulled, Users, Records, Written, Unharmed, Touches, Agrees;
      ChainEnds(nodes, n0, c);
      ghost var mem0 := V();
      r, d := 0, [];
      if n0 == 0 {
        NullOutside(mem0);
        PulledNone(mem0, mem0, c, len0);
      } else if len0 <= MHLEN {
        r, d := Pullup(n0, len0, c);
      } else if !NeedsCluster(n0, len0) {
        ChainTail(nodes, n0, c);
        var m := n0;
        var len := len0 - Min(len0, nodes[m].len);
        ElementsCons(c);
        assert forall a | a in Elements(c[1..]) :: a in c;
        ClusterRoom(mem0, m, len, Elements(c[1..]));
        ValidLen(mem0, m);
        BytesCons(mem0, c);
        r, d := Gather(m, nodes[m].next, len, len, c[1..]);
        PulledInPlace(mem0, V(), m, c, len0, r, d);
        UnharmedIff(mem0, V(), c, d, len);
        UnharmedNone(mem0, c);
      } else {
        var m := 0;
        if len0 <= MCLBYTES { m := GetBigHead(n0, c); }
        if m == 0 {
          FreemAfter(n0, c, mem0);
          PulledNone(mem0, V(), c, len0);
        } else {
          ghost var mem1 := V();
          ChainEnds(nodes, n0, c);
          CanAppendLess(mem1, m, MCLBYTES, len0, mem1.nodes.Keys);
          CanAppendIn(mem1, m, len0, mem1.nodes.Keys, Elements(c));
          r, d := Gather(m, n0, len0, len0, c);
          NewUnharmed(mem1, V(), m, c, d, len0);
          PulledNew(mem0, mem1, V(), m, c, len0, r, d);
        }
      }
    }

    /** The bytes cannot be put into the cluster of the first buffer. */
    predicate NeedsCluster(n: nat, len: nat)
      reads this
    {
      n in nodes && (!nodes[n].ext || nodes[n].data + len >= MCLBYTES)
    }

    /** Freem after a failed allocation, which left all buffers as they were. */
    method FreemAfter(n: nat, ghost c: seq<nat>, ghost mem0: Mem)
      requires Valid(V()) && nodes == mem0.nodes && cdata == mem0.cdata && IsChain(nodes, n, c)
      modifies this
      ensures Valid(V()) && nodes == mem0.nodes - Elements(c) && cdata == mem0.cdata
    {
      Freem(n, c);
    }

    /** A new empty buffer with a cluster, to which the packet header of the chain moves. */
    method GetBigHead(n: nat, ghost c: seq<nat>) returns (m: nat)
      requires Valid(V()) && IsChain(nodes, n, c) && n != 0 && n in nodes
      requires !CanGet() ==> forall a | a in room :: room[a].cl == 0
      modifies this
      ensures Valid(V())
      ensures m == 0 <==> old(nodes)[n].kind >= 256 || old(room) == map[] || !old(CanGet())
      ensures m == 0 ==> nodes == old(nodes) && cdata == old(cdata)
      ensures m != 0 ==> HeadMade(old(V()), V(), m, n, c)
      ensures m != 0 ==> CanAppend(V(), m, MCLBYTES, nodes.Keys)
      ensures m != 0 ==> m !in c && IsChain(nodes, n, c) && Bytes(nodes, cdata, c) == old(Bytes(nodes, cdata, c))
    {
      hide Valid, IsChain, Others, Bytes, At, CanAppend, Users;
      ghost var mem0 := V();
      ValidNotNull(mem0);
      m := Get(nodes[n].kind);
      if m != 0 {
        RoomSize(mem0, m);
        ValidAdd(mem0, Emptied(V(), m), m);
        var ok := GetExt(m);
        if !ok {
          var none := Free(m);
          m := 0;
          assert nodes == mem0.nodes;
        } else {
          TakeOver(m, n, mem0, c);
        }
      }
    }

    /** The new buffer m, which has a cluster, is empty and takes the packet header of n. */
    method TakeOver(m: nat, n: nat, ghost mem0: Mem, ghost c: seq<nat>)
      requires Valid(mem0) && IsChain(mem0.nodes, n, c) && n != 0 && n in mem0.nodes && m !in mem0.nodes
      requires m in nodes && nodes == mem0.nodes[m := nodes[m]] && Valid(Emptied(V(), m))
      requires forall k | k in mem0.cdata :: k in cdata && cdata[k] == mem0.cdata[k]
      requires nodes[m].ext && !nodes[m].pkthdr && nodes[m].data == 0 && Users(nodes, nodes[m].cl) == {m}
      requires nodes[m].kind == mem0.nodes[n].kind
      modifies this`nodes
      ensures Valid(V()) && HeadMade(mem0, V(), m, n, c) && CanAppend(V(), m, MCLBYTES, nodes.Keys)
      ensures m !in c && IsChain(nodes, n, c) && Bytes(nodes, cdata, c) == Bytes(mem0.nodes, mem0.cdata, c)
    {
      hide Valid, IsChain, Others, Bytes, At, CanAppend, Users;
      ghost var raw := V();
      nodes := nodes[m := nodes[m].(len := 0)];
      ghost var mem1 := V();
      assert mem1 == Emptied(raw, m);
      if nodes[n].pkthdr {
        nodes := nodes[m := nodes[m].(plen := nodes[n].plen)];
        nodes := nodes[m := nodes[m].(pkthdr := true, eor := nodes[n].eor, cast := false)];
        nodes := nodes[n := nodes[n].(pkthdr := false)];
      }
      NodeFits(mem1, m);
      HeadMadeIs(mem0, mem1, V(), m, n, c);
      BigRoom(raw, mem1, V(), m, n);
    }

    // ---------- Trimming ----------

    /** Sets where the valid bytes of buffer c[i] start and how many they are. */
    method Shorten(a: nat, data: nat, len: nat, ghost c: seq<nat>, ghost i: nat)
      requires Valid(V()) && IsChain(nodes, if c == [] then 0 else c[0], c) && i < |c| && a == c[i]
      requires a in nodes && nodes[a].data <= data && data + len <= nodes[a].data + nodes[a].len
      modifies this`nodes
      ensures Valid(V()) && a in old(nodes) && nodes == old(nodes)[a := old(nodes)[a].(data := data, len := len)]
      ensures cdata == old(cdata) && IsChain(nodes, if c == [] then 0 else c[0], c)
      ensures var skip := data - old(nodes)[a].data; var b := old(At(nodes, cdata, a));
        skip + len <= |b| && Cut(old(V()), V(), c, i, b[skip..skip + len])
    {
      hide Valid, At, IsChain, Cut;
      ghost var mem := V();
      nodes := nodes[a := nodes[a].(data := data, len := len)];
      ValidShorten(mem, V(), a, data, len);
      ChainEnds(mem.nodes, if c == [] then 0 else c[0], c);
      ChainKept(mem.nodes, nodes, if c == [] then 0 else c[0], c);
      CutIs(mem, V(), c, i);
    }

    /** mbuf_trim: cuts trimlen bytes off the head or the tail of a chain, or all of them when there
        are fewer. */
    method Trim(m: nat, trimlen: nat, tail: bool, ghost c: seq<nat>)
      requires Valid(V()) && IsChain(nodes, m, c)
      modifies this`nodes
      ensures Valid(V()) && IsChain(nodes, m, c) && Others(old(V()), Elements(c), V(), Elements(c))
      ensures var b := old(Bytes(nodes, cdata, c)); var cut := Min(trimlen, |b|);
        Bytes(nodes, cdata, c) == if tail then b[..|b| - cut] else b[cut..]
      ensures old(PacketOk(nodes, cdata, c)) ==> PacketOk(nodes, cdata, c)
      ensures tail ==> Narrowed(old(nodes), nodes)
    {
      hide Valid, At, IsChain, Bytes, PacketOk, Others;
      ChainEnds(nodes, m, c);
      ghost var mem0 := V();
      if m == 0 {
        BytesEmpty(nodes, cdata);
        OthersRefl(mem0, Elements(c));
      } else if !tail {
        var mp, len := TrimHead(m, trimlen, c);
        ghost var mem1 := V();
        if nodes[m].pkthdr {
          var plen := if mp == 0 && len > 0 then 0 else nodes[m].plen - trimlen;
          nodes := nodes[m := nodes[m].(plen := plen)];
        }
        PacketSet(mem0, mem1, V(), m, c);
        PacketIff(mem0, m, c);
        PacketIff(V(), m, c);
      } else {
        var count := Length(m, c);
        count := count - Min(count, trimlen);
        if nodes[m].pkthdr { nodes := nodes[m := nodes[m].(plen := count)]; }
        ghost var mem1 := V();
        OthersRefl(mem0, Elements(c));
        PacketSet(mem0, mem0, mem1, m, c);
        TrimTail(m, count, c);
        OthersTrans(mem0, Elements(c), mem1, Elements(c), V(), Elements(c));
        PacketIff(V(), m, c);
      }
    }

    /** The number of bytes of a chain. */
    method Length(m: nat, ghost c: seq<nat>) returns (count: nat)
      requires Valid(V()) && IsChain(nodes, m, c) && m != 0
      ensures count == |Bytes(nodes, cdata, c)|
    {
      hide Valid, At, IsChain, Bytes;
      ChainEnds(nodes, m, c);
      var mp := m;
      count := 0;
      ghost var rest := c;
      while mp != 0
        invariant IsChain(nodes, mp, rest) && (mp == 0 <==> rest == [])
        invariant count + |Bytes(nodes, cdata, rest)| == |Bytes(nodes, cdata, c)|
        decreases |rest|
      {
        ChainEnds(nodes, mp, rest);
        ChainTail(nodes, mp, rest);
        BytesCons(V(), rest);
        ValidLen(V(), mp);
        count := count + nodes[mp].len;
        mp, rest := nodes[mp].next, rest[1..];
        ChainEnds(nodes, mp, rest);
      }
      BytesEmpty(nodes, cdata);
    }

    /** Empties buffers from the head on; `len` is what was not found. */
    method TrimHead(m: nat, trimlen: nat, ghost c: seq<nat>) returns (mp: nat, len: nat)
      requires Valid(V()) && IsChain(nodes, m, c) && m != 0
      modifies this`nodes
      ensures Valid(V()) && IsChain(nodes, m, c) && Others(old(V()), Elements(c), V(), Elements(c))
      ensures V() == old(V()).(nodes := nodes) && HeaderKept(old(V()), V(), m)
      ensures var b := old(Bytes(nodes, cdata, c)); Bytes(nodes, cdata, c) == b[Min(trimlen, |b|)..]
      ensures mp == 0 && len > 0 <==> trimlen > |old(Bytes(nodes, cdata, c))|
    {
      hide Valid, At, IsChain, Bytes, Others, Cut, HeadTrim;
      mp, len := m, trimlen;
      ghost var mem0, i := V(), 0;
      ChainEnds(nodes, m, c);
      HeadTrimStart(mem0, m, c);
      while mp != 0 && len != 0
        invariant Valid(V()) && IsChain(nodes, m, c) && V() == mem0.(nodes := nodes)
        invariant i <= |c| && mp == (if i < |c| then c[i] else 0) && len <= trimlen
        invariant HeadTrim(mem0, V(), m, c, trimlen - len)
        invariant len > 0 ==> Bytes(nodes, cdata, c[..i]) == []
        decreases len > 0, |c| - i
      {
        ghost var mem1 := V();
        ChainEnds(nodes, m, c);
        ValidLen(mem1, mp);
        var n := nodes[mp];
        ghost var y := At(nodes, cdata, mp);
        if n.len >= len {
          Shorten(mp, n.data + len, n.len - len, c, i);
          assert y[len..len + (n.len - len)] == y[len..];
          HeadTrimStep(mem0, mem1, V(), m, c, i, trimlen - len, len);
          len := 0;
        } else {
          Shorten(mp, n.data, 0, c, i);
          assert y[0..0] == y[n.len..];
          HeadTrimStep(mem0, mem1, V(), m, c, i, trimlen - len, n.len);
          len := len - n.len;
          ChainNext(nodes, m, c, i);
          mp, i := nodes[mp].next, i + 1;
        }
      }
      HeadTrimEnd(mem0, V(), m, c, i, trimlen, len);
    }

    /** Keeps the first count bytes of a chain that has them. */
    method TrimTail(m: nat, count0: nat, ghost c: seq<nat>)
      requires Valid(V()) && IsChain(nodes, m, c) && m != 0 && count0 <= |Bytes(nodes, cdata, c)|
      modifies this`nodes
      ensures Valid(V()) && IsChain(nodes, m, c) && Others(old(V()), Elements(c), V(), Elements(c))
      ensures V() == old(V()).(nodes := nodes) && HeaderKept(old(V()), V(), m)
      ensures Bytes(nodes, cdata, c) == old(Bytes(nodes, cdata, c))[..count0] && Narrowed(old(nodes), nodes)
    {
      hide Valid, At, IsChain, Bytes, Others, Cut, TailTrim, Narrowed;
      ghost var mem0 := V();
      var mp, count, i := LastKept(m, count0, c);
      ChainEnds(nodes, m, c);
      ValidLen(mem0, mp);
      Shorten(mp, nodes[mp].data, count, c, i);
      NarrowedLen(mem0.nodes, mem0.nodes, mp, count);
      TailTrimFirst(mem0, V(), m, c, i, count0, count);
      ChainNext(nodes, m, c, i);
      mp, i := nodes[mp].next, i + 1;
      while mp != 0
        invariant Valid(V()) && IsChain(nodes, m, c) && V() == mem0.(nodes := nodes)
        invariant 0 < i <= |c| && mp == (if i < |c| then c[i] else 0)
        invariant TailTrim(mem0, V(), m, c, i, count0) && Narrowed(mem0.nodes, nodes)
        decreases |c| - i
      {
        ghost var mem1 := V();
        ChainEnds(nodes, m, c);
        Shorten(mp, nodes[mp].data, 0, c, i);
        NarrowedLen(mem0.nodes, mem1.nodes, mp, 0);
        TailTrimStep(mem0, mem1, V(), m, c, i, count0);
        ChainNext(nodes, m, c, i);
        mp, i := nodes[mp].next, i + 1;
      }
      NothingLeft(V(), m, c, i);
      TailTrimEnd(mem0, V(), m, c, count0);
    }

    /** The buffer in which the first count0 bytes end, and how many of them it holds. */
    method LastKept(m: nat, count0: nat, ghost c: seq<nat>) returns (mp: nat, count: nat, ghost i: nat)
      requires Valid(V()) && IsChain(nodes, m, c) && m != 0 && count0 <= |Bytes(nodes, cdata, c)|
      ensures i < |c| && mp == c[i] && mp in nodes && count <= nodes[mp].len
      ensures |Bytes(nodes, cdata, c[..i])| + count == count0
    {
      hide Valid, At, IsChain, Bytes;
      mp, count, i := m, count0, 0;
      ChainEnds(nodes, m, c);
      BytesEmpty(nodes, cdata);
      while nodes[mp].len < count
        invariant i < |c| && mp == c[i] && mp in nodes
        invariant |Bytes(nodes, cdata, c[..i])| + count == count0
        decreases |c| - i
      {
        ValidLen(V(), mp);
        SplitAt(V(), c, i);
        ChainNext(nodes, m, c, i);
        count := count - nodes[mp].len;
        WholeChain(V(), c, i + 1);
        mp, i := nodes[mp].next, i + 1;
        ChainEnds(nodes, m, c);
      }
    }

    // ---------- Copying ----------

    /** mbuf_copydata from the start of a chain: copies up to len0 bytes into buf. */
    method Copydata(m0: nat, len0: nat, buf: array<byte>, ghost c: seq<nat>) returns (copied: nat)
      requires Valid(V()) && IsChain(nodes, m0, c) && len0 <= buf.Length
      modifies buf
      ensures copied == Min(len0, |Bytes(nodes, cdata, c)|)
      ensures buf[..copied] == Bytes(nodes, cdata, c)[..copied] && buf[copied..] == old(buf[..])[copied..]
    {
      hide Valid, At, IsChain, Bytes, Data;
      ghost var buf0, b := buf[..], Bytes(nodes, cdata, c);
      var m, rest := SkipEmpty(m0, c);
      copied := 0;
      var len := len0;
      BytesEmpty(nodes, cdata);
      while len > 0 && m != 0
        invariant IsChain(nodes, m, rest) && (m == 0 <==> rest == [])
        invariant copied + len == len0 && copied <= |b| && buf[copied..] == buf0[copied..]
        invariant len > 0 ==> Bytes(nodes, cdata, rest) == b[copied..]
        invariant buf[..copied] == b[..copied]
        decreases |rest|
      {
        ChainEnds(nodes, m, rest);
        ChainTail(nodes, m, rest);
        BytesCons(V(), rest);
        ValidLen(V(), m);
        var cnt := Min(nodes[m].len, len);
        AtIs(V(), m);
        var x := Data(nodes[m], cdata)[..cnt];
        CopyOut(buf, copied, x);
        Prefix(b, copied, At(nodes, cdata, m), Bytes(nodes, cdata, rest[1..]), cnt);
        copied, len := copied + cnt, len - cnt;
        m, rest := nodes[m].next, rest[1..];
        ChainEnds(nodes, m, rest);
      }
    }

    /** The search for the offset, which is 0: only empty buffers are skipped. */
    method SkipEmpty(m0: nat, ghost c: seq<nat>) returns (m: nat, ghost rest: seq<nat>)
      requires Valid(V()) && IsChain(nodes, m0, c)
      ensures IsChain(nodes, m, rest) && (m == 0 <==> rest == [])
      ensures Bytes(nodes, cdata, rest) == Bytes(nodes, cdata, c)
    {
      hide Valid, At, IsChain, Bytes;
      m, rest := m0, c;
      ChainEnds(nodes, m, rest);
      while m != 0 && nodes[m].len == 0
        invariant IsChain(nodes, m, rest) && (m == 0 <==> rest == [])
        invariant m != 0 ==> m in nodes
        invariant Bytes(nodes, cdata, rest) == Bytes(nodes, cdata, c)
        decreases |rest|
      {
        ChainEnds(nodes, m, rest);
        ChainTail(nodes, m, rest);
        BytesCons(V(), rest);
        ValidLen(V(), m);
        m, rest := nodes[m].next, rest[1..];
        ChainEnds(nodes, m, rest);
      }
    }

    /** bcopy to the caller's memory. */
    static method CopyOut(buf: array<byte>, at: nat, x: seq<byte>)
      requires at + |x| <= buf.Length
      modifies buf
      ensures buf[..at + |x|] == old(buf[..])[..at] + x && buf[at + |x|..] == old(buf[..])[at + |x|..]
    {
      ghost var b := buf[..];
      forall i | 0 <= i < |x| { buf[at + i] := x[i]; }
      assert buf[..at] == b[..at] && buf[at..at + |x|] == x;
      assert buf[..at + |x|] == buf[..at] + buf[at..at + |x|];
    }

    /** Fills the new buffer n with up to len bytes of m: shares the cluster of m, if it has one. */
    method CopyNode(m: nat, n: nat, len: nat, copyhdr: bool, ghost mem0: Mem)
      requires Valid(mem0) && m in mem0.nodes && n in mem0.room && V() == Got(mem0, n, mem0.nodes[m].kind)
      requires copyhdr ==> mem0.nodes[m].pkthdr
      modifies this`nodes, this`refs
      ensures Valid(V()) && n in nodes && n !in mem0.nodes && nodes == mem0.nodes[n := nodes[n]]
      ensures cdata == mem0.cdata && room == mem0.room - {n}
      ensures Copied(mem0, V(), m, n, len, copyhdr)
    {
      hide Valid, Data, Copied, Users;
      RoomSize(mem0, n);
      NodeFits(mem0, m);
      if nodes[m].ext { ExtCluster(mem0, m); }
      var a, b := nodes[m], nodes[n];
      if copyhdr {
        b := HeaderCopied(b, a);
        b := b.(plen := if len == M_COPYALL then b.plen else len);
      }
      b := b.(len := Min(a.len, len));
      if a.ext {
        b := b.(data := a.data, ext := true, cl := a.cl);
        refs := refs[a.cl := refs[a.cl] + 1];
      } else {
        b := b.(dat := Splice(b.dat, b.data, Data(a, cdata)[..b.len]));
      }
      nodes := nodes[n := b];
      assert nodes == mem0.nodes[n := b];
      CopiedOk(mem0, V(), m, n, len, copyhdr);
      if a.ext { ValidShare(mem0, V(), n, a.cl); } else { ValidAdd(mem0, V(), n); }
    }

    /** mbuf_copy from the start of a chain: a new chain with the first len0 bytes, or with all of them
        for M_COPYALL; null when there are fewer, when memory runs out, and for length 0. */
    method Copy(m0: nat, len0: nat, ghost c: seq<nat>) returns (top: nat, ghost d: seq<nat>)
      requires Valid(V()) && IsChain(nodes, m0, c) && m0 != 0
      modifies this
      ensures Valid(V()) && cdata == old(cdata) && CopyOf(old(V()), V(), top, d)
      ensures top == 0 ==> nodes == old(nodes)
      ensures top == 0 && 0 < len0 && (len0 == M_COPYALL || len0 <= |old(Bytes(nodes, cdata, c))|) && len0 <= M_COPYALL ==>
        |old(room)| < |c| || exists a | a in c && a in old(nodes) :: old(nodes)[a].kind >= 256
      ensures top != 0 && len0 <= M_COPYALL ==> len0 > 0 && (len0 == M_COPYALL || len0 <= |old(Bytes(nodes, cdata, c))|)
      ensures var b := old(Bytes(nodes, cdata, c)); top != 0 && len0 <= M_COPYALL ==>
        Bytes(nodes, cdata, d) == if len0 == M_COPYALL then b else b[..len0]
      ensures top != 0 && len0 <= M_COPYALL && old(PacketOk(nodes, cdata, c)) ==> PacketOk(nodes, cdata, d)
      ensures top != 0 ==> AllAlike(old(V()), V(), c, d) && CopyHeader(old(V()), V(), m0, top, len0)
    {
      hide Valid, At, IsChain, Bytes, PacketOk, CopyOf, Copying, CopyHeader, AllAlike, Alike;
      top, d := 0, [];
      var m, len: nat, last, more, failed := m0, len0, 0, true, false;
      ghost var mem0, rest, done: nat := V(), c, 0;
      CopyNothing(mem0, mem0);
      CopyingStart(mem0, c, m);
      ChainEnds(nodes, m0, c);
      assert AllAlike(mem0, mem0, c, []) by { AlikeNone(mem0, c); }
      var copyhdr := nodes[m].pkthdr;
      while len > 0 && more
        invariant Valid(V()) && CopyOf(mem0, V(), top, d)
        invariant (top == 0 <==> d == []) && last == (if d == [] then 0 else d[|d| - 1])
        invariant Copying(mem0, V(), c, m, rest, d, done, len)
        invariant len0 <= M_COPYALL ==> len == if len0 == M_COPYALL then M_COPYALL else len0 - done
        invariant copyhdr <==> d == [] && mem0.nodes[m0].pkthdr
        invariant AllAlike(mem0, V(), c, d) && |d| <= |c| && rest == c[|d|..]
        invariant d == [] ==> m == m0 && len == len0
        invariant d != [] ==> len0 > 0 && CopyHeader(mem0, V(), m0, top, len0)
        invariant !more ==> failed || (m == 0 && len == M_COPYALL)
        invariant failed ==> !more && len > 0 && ((m == 0 && len != M_COPYALL) || CopyFails(mem0, V().room, m))
        decreases more, |rest|
      {
        if m == 0 {
          more, failed := false, len != M_COPYALL;
        } else {
          ghost var mem1 := V();
          CopyingNext(mem0, mem1, c, m, rest, d, done, len);
          var n;
          n, top := CopyOne(m, len, copyhdr, top, last, mem0, d);
          if n == 0 {
            more, failed := false, true;
          } else {
            ghost var cnt := nodes[n].len;
            CopyingStep(mem0, mem1, V(), c, m, rest, d, done, n, len, cnt);
            CopyHeaderKept(mem0, mem1, V(), m0, top, len0, d);
            AlikeHeader(mem0.nodes[m], nodes[n], copyhdr);
            CopyHeaderNew(mem0, V(), m0, top, n, len0, d);
            AlikeMore(mem0, mem1, V(), c, d, n);
            if len != M_COPYALL { len := len - nodes[n].len; }
            copyhdr, m, last := false, nodes[m].next, n;
            d, rest, done := d + [n], rest[1..], done + cnt;
          }
        }
      }
      CopyEnd(mem0, V(), c, m0, m, rest, top, d, done, len0, len, failed);
      if failed {
        Freem(top, d);
        top, d := 0, [];
        CopyNothing(mem0, V());
      }
    }

    /** One round of the loop: a copy n of buffer m at the end of the new chain, or null. */
    method CopyOne(m: nat, len: nat, copyhdr: bool, top0: nat, last: nat, ghost mem0: Mem, ghost d: seq<nat>)
      returns (n: nat, top: nat)
      requires Valid(V()) && CopyOf(mem0, V(), top0, d) && m in mem0.nodes
      requires (top0 == 0 <==> d == []) && last == (if d == [] then 0 else d[|d| - 1])
      requires copyhdr ==> mem0.nodes[m].pkthdr
      modifies this
      ensures n == 0 ==> V() == old(V()) && top == top0 && (old(room) == map[] || mem0.nodes[m].kind >= 256)
      ensures n != 0 ==> Valid(V()) && CopyOf(mem0, V(), top, d + [n]) && top == (if d == [] then n else top0)
      ensures n != 0 ==> n in nodes && m in nodes && nodes[m] == mem0.nodes[m] && |room| + 1 == |old(room)| && top != 0
      ensures n != 0 ==> nodes[n].len == Min(mem0.nodes[m].len, len) <= |At(mem0.nodes, mem0.cdata, m)|
      ensures n != 0 ==> Bytes(nodes, cdata, d + [n])
                         == old(Bytes(nodes, cdata, d)) + At(mem0.nodes, mem0.cdata, m)[..nodes[n].len]
      ensures n != 0 && d != [] ==> HeaderKept(old(V()), V(), top0)
      ensures n != 0 ==> Alike(mem0.nodes[m], nodes[n], copyhdr)
      ensures n != 0 ==> forall a | a in old(nodes) :: a in nodes && nodes[a] == old(nodes)[a].(next := nodes[a].next)
      ensures n != 0 && d == [] && copyhdr ==> nodes[n].plen == if len == M_COPYALL then mem0.nodes[m].plen else len
    {
      hide Valid, At, IsChain, Bytes, CopyOf, Copied;
      top := top0;
      ghost var mem1 := V();
      CopyParts(mem0, mem1, top, d);
      CopyHas(mem0, mem1, top, d, m);
      ValidNotNull(mem1);
      n := Get(nodes[m].kind);
      if n != 0 {
        RoomLess(mem1.room, n);
        CopyNode(m, n, len, copyhdr, mem1);
        ghost var mem2 := V();
        CopiedParts(mem1, mem2, m, n, len, copyhdr);
        if last == 0 { top := n; } else { nodes := nodes[last := nodes[last].(next := n)]; }
        CopyLinked(mem0, mem1, mem2, V(), top, d, n);
        CopyHas(mem0, V(), top, d + [n], m);
      }
    }

    // ---------- Reserving space ----------

    /** MBUF_LEADINGSPACE */
    function LeadingSpace(m: nat): int
      requires m in nodes
      reads this
    {
      if nodes[m].ext then 0 else if nodes[m].pkthdr then nodes[m].data - PKTDAT else nodes[m].data
    }

    /** mbuf_reserve: puts room for len bytes before those of a chain, or releases the whole chain. */
    method Reserve(m: nat, len: nat, ghost c: seq<nat>) returns (r: nat, ghost d: seq<nat>)
      requires Valid(V()) && IsChain(nodes, m, c)
      modifies this
      ensures Valid(V()) && cdata == old(cdata)
      ensures r == 0 <==> m == 0 || (m in old(nodes) && old(LeadingSpace(m)) < len &&
                                     (len > MHLEN || old(room) == map[] || old(nodes)[m].kind >= 256))
      ensures Reserved(old(V()), V(), c, r, d, len)
      ensures r != 0 ==> m in old(nodes) && var n := old(nodes)[m];
        (r == m <==> if n.ext then len == 0 else (if n.pkthdr then PKTDAT else 0) + len <= n.data)
      ensures r != 0 && r != m ==>
        && r in nodes && nodes[r].len == len && !nodes[r].ext
        && Aligned(nodes[r].data - if nodes[r].pkthdr then PKTDAT else 0, len)
    {
      hide Valid, IsChain, Others, Bytes, At, PacketOk, Reserved, HeadMade;
      ChainEnds(nodes, m, c);
      ghost var mem0 := V();
      r, d := 0, [];
      if m == 0 {
        ReservedNone(mem0, mem0, c, len);
      } else if LeadingSpace(m) >= len {
        if len > 0 { LeadingData(mem0, m, len); }
        nodes := nodes[m := nodes[m].(data := nodes[m].data - len, len := nodes[m].len + len)];
        if nodes[m].pkthdr { nodes := nodes[m := nodes[m].(plen := nodes[m].plen + len)]; }
        r, d := m, c;
        ReservedInPlace(mem0, V(), m, c, len);
      } else if len > MHLEN {
        Freem(m, c);
        ReservedNone(mem0, V(), c, len);
      } else {
        ghost var mem1;
        r, mem1 := ReserveNew(m, len, c);
        if r == 0 {
          ReservedNone(mem0, V(), c, len);
        } else {
          if nodes[r].pkthdr { nodes := nodes[r := nodes[r].(plen := nodes[r].plen + len)]; }
          d := [r] + c;
          ReservedNew(mem0, mem1, V(), m, r, c, len);
        }
      }
    }

    /** __mbuf_reserve: a new first buffer with len bytes, or the whole chain is released.  mem1 is
        memory with the new buffer still empty. */
    method ReserveNew(m: nat, len: nat, ghost c: seq<nat>) returns (r: nat, ghost mem1: Mem)
      requires Valid(V()) && IsChain(nodes, m, c) && m != 0 && m in nodes && len <= MHLEN
      modifies this
      ensures cdata == old(cdata)
      ensures r == 0 <==> old(room) == map[] || old(nodes)[m].kind >= 256
      ensures r == 0 ==> Valid(V()) && nodes == old(nodes) - Elements(c)
      ensures r != 0 ==> HeadMade(old(V()), mem1, r, m, c) && r in mem1.nodes && r !in c
      ensures r != 0 ==> !mem1.nodes[r].ext && r in nodes
      ensures r != 0 ==> mem1.nodes[r].data == if mem1.nodes[r].pkthdr then PKTDAT else 0
      ensures r != 0 ==> V() == mem1.(nodes := mem1.nodes[r := Opened(mem1.nodes[r], m, len)])
    {
      hide Valid, IsChain, Others, Bytes, At, PacketOk, HeadMade;
      r := GetHead(m, c);
      mem1 := V();
      if r == 0 {
        Freem(m, c);
      } else {
        nodes := nodes[r := nodes[r].(next := m)];
        if len < MHLEN { nodes := nodes[r := nodes[r].(data := nodes[r].data + AlignLong(MHLEN - len))]; }
        nodes := nodes[r := nodes[r].(len := len)];
      }
    }
  }

  /** The state of the run below: m and a share a cluster as mbuf_copy leaves them, and the first k bytes of
      n, a buffer of its own, are not the last k of theirs. */
  ghost predicate SharedPair(mem: Mem, m: nat, n: nat, a: nat, k: nat) {
    && Share(mem, m, a) && n in mem.nodes && !mem.nodes[n].ext && m != n && a != n
    && mem.nodes[a].data == mem.nodes[m].data && mem.nodes[a].len == mem.nodes[m].len
    && MHLEN < mem.nodes[m].len && mem.nodes[m].data + mem.nodes[m].len < MCLBYTES
    && 0 < k <= mem.nodes[m].len && k <= mem.nodes[n].len
    && var b, x := At(mem.nodes, mem.cdata, m), At(mem.nodes, mem.cdata, n);
       |b| == mem.nodes[m].len && |x| == mem.nodes[n].len && x[..k] != b[|b| - k..]
  }

  lemma CutIsShared(mem0: Mem, mem1: Mem, m: nat, n: nat, a: nat, k: nat)
    requires Valid(mem1) && SharedPair(mem0, m, n, a, k)
    requires Others(mem0, Elements([m]), mem1, Elements([m])) && Narrowed(mem0.nodes, mem1.nodes) && mem1.cdata == mem0.cdata
    requires |Bytes(mem1.nodes, mem1.cdata, [m])| == mem0.nodes[m].len - k
    ensures a in mem1.nodes && mem1.nodes[a] == mem0.nodes[a] && n in mem1.nodes && mem1.nodes[n] == mem0.nodes[n]
    ensures m in mem1.nodes
    ensures mem1.nodes[m] == mem0.nodes[m].(len := mem0.nodes[m].len - k, plen := mem1.nodes[m].plen)
  {
    hide Valid, At, Bytes;
    BytesOne(mem1, m);
    ValidLen(mem1, m);
    assert a in mem0.nodes - Elements([m]) && n in mem0.nodes - Elements([m]);
    assert a in mem1.nodes - Elements([m]) && n in mem1.nodes - Elements([m]);
  }

  lemma LinkedUp(mem0: Mem, mem1: Mem, mem2: Mem, m: nat, n: nat)
    requires Valid(mem1) && m in mem1.nodes && m != n && n in mem0.nodes && n in mem1.nodes
    requires IsChain(mem0.nodes, n, [n]) && mem1.nodes[n] == mem0.nodes[n]
    requires mem2 == mem1.(nodes := mem1.nodes[m := mem1.nodes[m].(next := n)])
    ensures Valid(mem2) && IsChain(mem2.nodes, m, [m, n])
  {
    hide Valid, IsChain, Bytes, Others;
    ChainKept(mem0.nodes, mem1.nodes, n, [n]);
    Relinked(mem1, mem2, m, n, [n]);
    assert [m] + [n] == [m, n];
  }

  /** What stands in the cluster behind the cut is not what will be put there. */
  lemma Differs(mem0: Mem, mem2: Mem, m: nat, n: nat, a: nat, k: nat)
    requires Valid(mem0) && SharedPair(mem0, m, n, a, k) && mem2.cdata == mem0.cdata && m in mem2.nodes
    requires a in mem2.nodes && mem2.nodes[a] == mem0.nodes[a] && n in mem2.nodes && mem2.nodes[n] == mem0.nodes[n]
    requires var b := mem0.nodes[m];
      mem2.nodes[m] == b.(len := b.len - k, plen := mem2.nodes[m].plen, next := mem2.nodes[m].next)
    ensures !Agrees(mem2, m, a, First(TailBytes(mem2, [m, n]), k))
    ensures At(mem2.nodes, mem2.cdata, a) == At(mem0.nodes, mem0.cdata, a)
    ensures forall b | b in [m, n] :: !Touches(mem2, m, b, k)
  {
    hide Valid, Bytes;
    assert [m, n][1..] == [n];
    BytesOne(mem2, n);
    ValidNode(mem0, m);
    var x, s, from, len := At(mem0.nodes, mem0.cdata, n)[..k], mem0.cdata[mem0.nodes[m].cl], mem0.nodes[m].data, mem0.nodes[m].len;
    assert First(TailBytes(mem2, [m, n]), k) == x;
    if Agrees(mem2, m, a, x) { AgreedTail(s, from, len, k, x); }
  }

  lemma AgreedTail(s: seq<byte>, from: nat, len: nat, k: nat, x: seq<byte>)
    requires k <= len && from + len <= |s| && |x| == k
    requires forall q | from + (len - k) <= q < from + len :: s[q] == x[q - (from + (len - k))]
    ensures s[from..from + len][len - k..] == x
  {
  }

  lemma StillThere(mem2: Mem, mem: Mem, m: nat, n: nat, a: nat, r: nat, d: seq<nat>, len: nat)
    requires Pulled(mem2, mem, [m, n], r, d, len) && a in mem2.nodes && a != m && a != n
    ensures a in mem.nodes && mem.nodes[a] == mem2.nodes[a]
  {
    hide At, Bytes, IsChain;
    assert a in mem2.nodes - Elements([m, n]);
    assert a in mem.nodes - Elements(d);
  }

  /** Of two buffers that share a cluster as mbuf_copy leaves them, one has bytes at its end cut off with
      mbuf_trim, others are put behind the rest, and mbuf_pullup_big moves them into the cluster: the other
      buffer's bytes change. */
  method CutAndPull(p: Pool, m: nat, n: nat, a: nat, k: nat)
    requires Valid(p.V()) && IsChain(p.nodes, m, [m]) && IsChain(p.nodes, n, [n]) && SharedPair(p.V(), m, n, a, k)
    modifies p
    ensures Valid(p.V()) && a in p.nodes && p.nodes[a] == old(p.nodes)[a]
    ensures At(p.nodes, p.cdata, a) != old(At(p.nodes, p.cdata, a))
  {
    hide Valid, IsChain, Bytes, Others, Agrees, Touches, Pulled, Unharmed, At, TailBytes, First, Narrowed, PacketOk;
    ghost var mem0 := p.V();
    BytesOne(mem0, m);
    p.Trim(m, k, true, [m]);
    ghost var mem1 := p.V();
    CutIsShared(mem0, mem1, m, n, a, k);
    p.nodes := p.nodes[m := p.nodes[m].(next := n)];
    ghost var mem2 := p.V();
    LinkedUp(mem0, mem1, mem2, m, n);
    Differs(mem0, mem2, m, n, a, k);
    ghost var d;
    var r;
    r, d := p.PullupBig(m, p.nodes[a].len, [m, n]);
    StillThere(mem2, p.V(), m, n, a, r, d, mem2.nodes[a].len);
  }

  /** Bytes that start at `at` in an area of MHLEN, at a multiple of the size of a long, and end as near its end
      as that allows. */
  predicate Aligned(at: int, len: nat) {
    at % LONG == 0 && MHLEN - len - LONG < at <= MHLEN - len
  }

  /** A multiple of the size of a long, rounded down. */
  function AlignLong(n: nat): (r: nat)
    ensures r <= n
  {
    n / LONG * LONG
  }

  /** The new first buffer: len bytes at the end of its area, as far as alignment allows. */
  function Opened(n: Mbuf, next: nat, len: nat): Mbuf {
    n.(next := next, data := n.data + (if len < MHLEN then AlignLong(MHLEN - len) else 0), len := len)
  }

  /** What a reservation promises: the old bytes behind len new ones, and nothing else changes. */
  ghost predicate Reserved(mem0: Mem, mem: Mem, c: seq<nat>, r: nat, d: seq<nat>, len: nat) {
    && Others(mem0, Elements(c), mem, Elements(d))
    && (r == 0 ==> d == [])
    && (r != 0 ==> d != [] && IsChain(mem.nodes, r, d) && r in mem.nodes && len <= mem.nodes[r].len
                   && c != [] && c[0] in mem0.nodes && Leads(mem0.nodes[c[0]], mem.nodes[r], len)
                   && |Bytes(mem.nodes, mem.cdata, d)| == len + |Bytes(mem0.nodes, mem0.cdata, c)|
                   && Bytes(mem.nodes, mem.cdata, d)[len..] == Bytes(mem0.nodes, mem0.cdata, c)
                   && (PacketOk(mem0.nodes, mem0.cdata, c) ==> PacketOk(mem.nodes, mem.cdata, d)))
  }

  lemma ReservedNone(mem0: Mem, mem: Mem, c: seq<nat>, len: nat)
    requires mem.nodes == mem0.nodes - Elements(c) && mem.cdata == mem0.cdata
    ensures Reserved(mem0, mem, c, 0, [], len)
  {
    PulledNone(mem0, mem, c, len);
  }

  lemma LeadingData(mem: Mem, m: nat, len: nat)
    requires Valid(mem) && m in mem.nodes && 0 < len
    requires len <= (if mem.nodes[m].ext then 0 else if mem.nodes[m].pkthdr then mem.nodes[m].data - PKTDAT else mem.nodes[m].data)
    ensures len <= mem.nodes[m].data && !mem.nodes[m].ext
  {
  }

  /** The valid bytes of a buffer may start anywhere before, inside its own area. */
  lemma DataBefore(n: Mbuf, cdata: map<nat, seq<byte>>, len: nat, plen: int)
    requires NodeOk(n, cdata) && len <= n.data && (len > 0 ==> !n.ext && (n.pkthdr ==> PKTDAT + len <= n.data))
    ensures var n' := n.(data := n.data - len, len := n.len + len, plen := plen);
      NodeOk(n', cdata) && |Data(n', cdata)| == len + n.len && Data(n', cdata)[len..] == Data(n, cdata)
  {
    SubSlice(Area(n, cdata), n.data - len, n.data + n.len, len, n.len);
  }

  /** One buffer of memory is replaced by another with the same cluster and place in its chain. */
  lemma Replaced(mem: Mem, mem': Mem, m: nat, c: set<nat>)
    requires Valid(mem) && m in mem.nodes && m in mem'.nodes && m in c
    requires mem' == mem.(nodes := mem.nodes[m := mem'.nodes[m]])
    requires mem'.nodes[m].ext == mem.nodes[m].ext && mem'.nodes[m].cl == mem.nodes[m].cl && NodeOk(mem'.nodes[m], mem.cdata)
    ensures Valid(mem') && Others(mem, c, mem', c)
    ensures forall a | a != m :: At(mem'.nodes, mem'.cdata, a) == At(mem.nodes, mem.cdata, a)
  {
    assert forall a | a in mem.nodes :: NodeOk(mem.nodes[a], mem.cdata);
    ClusterSizes(mem);
    ReplacedOthers(mem, mem', m, c);
    hide NodeOk, At, Others;
    ValidChange(mem, mem');
  }

  lemma ReplacedOthers(mem: Mem, mem': Mem, m: nat, c: set<nat>)
    requires m in mem.nodes && m in mem'.nodes && m in c
    requires mem' == mem.(nodes := mem.nodes[m := mem'.nodes[m]])
    ensures Others(mem, c, mem', c)
    ensures forall a | a != m :: At(mem'.nodes, mem'.cdata, a) == At(mem.nodes, mem.cdata, a)
  {
  }

  lemma ReservedInPlace(mem0: Mem, mem: Mem, m: nat, c: seq<nat>, len: nat)
    requires Valid(mem0) && IsChain(mem0.nodes, m, c) && m != 0 && m in mem0.nodes
    requires var n := mem0.nodes[m];
      && len <= n.data && (len > 0 ==> !n.ext && (n.pkthdr ==> PKTDAT + len <= n.data))
      && mem == mem0.(nodes := mem0.nodes[m := n.(data := n.data - len, len := n.len + len,
                                                  plen := if n.pkthdr then n.plen + len else n.plen)])
    ensures Valid(mem) && Reserved(mem0, mem, c, m, c, len)
  {
    hide Valid, Data, Others, At, Bytes, IsChain, NodeOk, PacketOk;
    ChainEnds(mem0.nodes, m, c);
    ChainTail(mem0.nodes, m, c);
    NodeFits(mem0, m);
    DataBefore(mem0.nodes[m], mem0.cdata, len, mem.nodes[m].plen);
    Replaced(mem0, mem, m, Elements(c));
    AtIs(mem0, m);
    AtIs(mem, m);
    ValidLen(mem0, m);
    ChainKept(mem0.nodes, mem.nodes, m, c);
    BytesCons(mem0, c);
    BytesCons(mem, c);
    BytesKept(mem0.nodes, mem0.cdata, mem.nodes, mem.cdata, c[1..]);
    Behind(At(mem.nodes, mem.cdata, m), At(mem0.nodes, mem0.cdata, m), Bytes(mem0.nodes, mem0.cdata, c[1..]), len);
    PacketIff(mem0, m, c);
    PacketIff(mem, m, c);
  }

  lemma Behind(x: seq<byte>, y: seq<byte>, z: seq<byte>, len: nat)
    requires |x| == len + |y| && x[len..] == y
    ensures |x + z| == len + |y + z| && (x + z)[len..] == y + z
  {
  }

  lemma ReservedNew(mem0: Mem, mem1: Mem, mem: Mem, m: nat, r: nat, c: seq<nat>, len: nat)
    requires Valid(mem0) && IsChain(mem0.nodes, m, c) && m != 0 && m in mem0.nodes && HeadMade(mem0, mem1, r, m, c)
    requires r in mem1.nodes && !mem1.nodes[r].ext && mem1.nodes[r].data <= PKTDAT && len <= MHLEN
    requires var n := mem1.nodes[r];
      mem == mem1.(nodes := mem1.nodes[r := Opened(n, m, len).(plen := if n.pkthdr then n.plen + len else n.plen)])
    ensures Valid(mem) && Reserved(mem0, mem, c, r, [r] + c, len)
  {
    var d := [r] + c;
    hide Others;
    ValidNotNull(mem1);
    NodeFits(mem1, r);
    assert r in Elements(d);
    Replaced(mem1, mem, r, Elements(d));
    AtIs(mem, r);
    assert |At(mem.nodes, mem.cdata, r)| == len;
    hide Valid, At, NodeOk, Data;
    PacketIff(mem0, m, c);
    ElementsCons(d);
    assert d[1..] == c;
    OthersTrans(mem0, Elements(c), mem1, {r} + Elements(c), mem, Elements(d));
    hide IsChain, PacketOk;
    ChainEnds(mem1.nodes, m, c);
    ChainKept(mem1.nodes, mem.nodes, m, c);
    ChainCons(mem.nodes, r, c);
    BytesKept(mem1.nodes, mem1.cdata, mem.nodes, mem.cdata, c);
    BytesCons(mem, d);
    PacketIff(mem, r, d);
  }

  lemma ValidShorten(mem: Mem, mem': Mem, a: nat, data: nat, len: nat)
    requires Valid(mem) && a in mem.nodes
    requires mem.nodes[a].data <= data && data + len <= mem.nodes[a].data + mem.nodes[a].len
    requires mem' == mem.(nodes := mem.nodes[a := mem.nodes[a].(data := data, len := len)])
    ensures Valid(mem')
    ensures var skip := data - mem.nodes[a].data; var b := At(mem.nodes, mem.cdata, a);
      skip + len <= |b| && At(mem'.nodes, mem'.cdata, a) == b[skip..skip + len]
  {
    NodeFits(mem, a);
    hide Valid, NodeOk, Data;
    DataShorten(mem.nodes[a], mem.cdata, data, len);
    ShortenValid(mem, mem', a, data, len);
  }

  lemma DataShorten(n: Mbuf, cdata: map<nat, seq<byte>>, data: nat, len: nat)
    requires NodeOk(n, cdata) && n.data <= data && data + len <= n.data + n.len
    ensures data - n.data + len <= |Data(n, cdata)|
    ensures Data(n.(data := data, len := len), cdata) == Data(n, cdata)[data - n.data..data - n.data + len]
  {
    var n' := n.(data := data, len := len);
    DataIs(n, cdata);
    DataIs(n', cdata);
    assert Area(n', cdata) == Area(n, cdata);
    hide NodeOk, Data, Area;
    SubSlice(Area(n, cdata), n.data, n.data + n.len, data - n.data, len);
  }

  lemma DataIs(n: Mbuf, cdata: map<nat, seq<byte>>)
    requires n.data + n.len <= |Area(n, cdata)|
    ensures Data(n, cdata) == Area(n, cdata)[n.data..n.data + n.len]
  {
  }

  lemma ShortenValid(mem: Mem, mem': Mem, a: nat, data: nat, len: nat)
    requires Valid(mem) && a in mem.nodes
    requires mem.nodes[a].data <= data && data + len <= mem.nodes[a].data + mem.nodes[a].len
    requires mem' == mem.(nodes := mem.nodes[a := mem.nodes[a].(data := data, len := len)])
    ensures Valid(mem')
  {
    assert forall a | a in mem.nodes :: NodeOk(mem.nodes[a], mem.cdata);
    ClusterSizes(mem);
    assert NodeOk(mem'.nodes[a], mem.cdata);
    hide NodeOk, ClusterOk, StoreOk;
    ValidChange(mem, mem');
  }

  /** Buffer c[i] holds the bytes y now; nothing else changed. */
  ghost predicate Cut(mem: Mem, mem': Mem, c: seq<nat>, i: nat, y: seq<byte>) {
    && i < |c| && c[i] in mem.nodes && c[i] in mem'.nodes && NoDup(c)
    && (var n := mem'.nodes[c[i]];
        mem' == mem.(nodes := mem.nodes[c[i] := mem.nodes[c[i]].(data := n.data, len := n.len)]))
    && At(mem'.nodes, mem'.cdata, c[i]) == y
  }

  lemma CutIs(mem: Mem, mem': Mem, c: seq<nat>, i: nat)
    requires i < |c| && c[i] in mem.nodes && c[i] in mem'.nodes && NoDup(c)
    requires var n := mem'.nodes[c[i]];
      mem' == mem.(nodes := mem.nodes[c[i] := mem.nodes[c[i]].(data := n.data, len := n.len)])
    ensures Cut(mem, mem', c, i, At(mem'.nodes, mem'.cdata, c[i]))
  {
    hide At;
  }

  /** The header of the packet is as before. */
  predicate HeaderKept(mem: Mem, mem': Mem, m: nat) {
    && m in mem.nodes && m in mem'.nodes && mem'.nodes[m].pkthdr == mem.nodes[m].pkthdr
    && mem'.nodes[m].plen == mem.nodes[m].plen
  }

  /** Buffers differ at most in how many bytes they hold, and what packet headers say. */
  predicate Narrowed(n0: map<nat, Mbuf>, n1: map<nat, Mbuf>) {
    n1.Keys == n0.Keys && forall a | a in n0 :: n1[a] == n0[a].(len := n1[a].len, plen := n1[a].plen)
  }

  lemma NarrowedLen(n0: map<nat, Mbuf>, n1: map<nat, Mbuf>, a: nat, len: nat)
    requires (Narrowed(n0, n1) || n1 == n0) && a in n1
    ensures Narrowed(n0, n1[a := n1[a].(data := n1[a].data, len := len)])
  {
  }

  /** A chain's bytes in three parts. */
  lemma SplitAt(mem: Mem, c: seq<nat>, i: nat)
    requires i < |c|
    ensures Bytes(mem.nodes, mem.cdata, c)
         == Bytes(mem.nodes, mem.cdata, c[..i]) + (At(mem.nodes, mem.cdata, c[i]) + Bytes(mem.nodes, mem.cdata, c[i + 1..]))
    ensures Bytes(mem.nodes, mem.cdata, c[..i + 1]) == Bytes(mem.nodes, mem.cdata, c[..i]) + At(mem.nodes, mem.cdata, c[i])
  {
    hide At, Bytes;
    Halves(c, i);
    var x, y, z := c[..i], c[i..], [c[i]];
    BytesAppend(mem.nodes, mem.cdata, x, y);
    BytesCons(mem, y);
    BytesAppend(mem.nodes, mem.cdata, x, z);
    BytesOne(mem, c[i]);
  }

  lemma BytesOne(mem: Mem, a: nat)
    ensures Bytes(mem.nodes, mem.cdata, [a]) == At(mem.nodes, mem.cdata, a)
  {
    hide At;
    BytesCons(mem, [a]);
    BytesEmpty(mem.nodes, mem.cdata);
  }

  lemma Halves(c: seq<nat>, i: nat)
    requires i < |c|
    ensures c == c[..i] + c[i..] && c[i..][1..] == c[i + 1..] && c[i..][0] == c[i]
    ensures c[..i + 1] == c[..i] + [c[i]] && [c[i]][1..] == []
  {
  }

  lemma CutOthers(mem: Mem, mem': Mem, c: seq<nat>, i: nat, y: seq<byte>)
    requires Cut(mem, mem', c, i, y)
    ensures Bytes(mem'.nodes, mem'.cdata, c[..i]) == Bytes(mem.nodes, mem.cdata, c[..i])
    ensures Bytes(mem'.nodes, mem'.cdata, c[i + 1..]) == Bytes(mem.nodes, mem.cdata, c[i + 1..])
    ensures Others(mem, Elements(c), mem', Elements(c))
    ensures c[0] in mem.nodes ==> HeaderKept(mem, mem', c[0])
  {
    assert c[i] in Elements(c);
    forall a | a != c[i] ensures At(mem'.nodes, mem'.cdata, a) == At(mem.nodes, mem.cdata, a) {}
    hide At;
    BytesKept(mem.nodes, mem.cdata, mem'.nodes, mem'.cdata, c[..i]);
    BytesKept(mem.nodes, mem.cdata, mem'.nodes, mem'.cdata, c[i + 1..]);
  }

  /** The bytes of the chain, and of its start, after a cut. */
  lemma CutBytes(mem: Mem, mem': Mem, c: seq<nat>, i: nat, y: seq<byte>)
    requires Cut(mem, mem', c, i, y)
    ensures Bytes(mem.nodes, mem.cdata, c) == Bytes(mem.nodes, mem.cdata, c[..i]) +
              (At(mem.nodes, mem.cdata, c[i]) + Bytes(mem.nodes, mem.cdata, c[i + 1..]))
    ensures Bytes(mem'.nodes, mem'.cdata, c)
         == Bytes(mem.nodes, mem.cdata, c[..i]) + (y + Bytes(mem.nodes, mem.cdata, c[i + 1..]))
    ensures Bytes(mem'.nodes, mem'.cdata, c[..i + 1]) == Bytes(mem.nodes, mem.cdata, c[..i]) + y
  {
    hide At, Bytes, Others;
    CutOthers(mem, mem', c, i, y);
    SplitAt(mem, c, i);
    SplitAt(mem', c, i);
  }

  /** `cut` bytes are cut off the head so far. */
  ghost predicate HeadTrim(mem0: Mem, mem: Mem, m: nat, c: seq<nat>, cut: nat) {
    && Others(mem0, Elements(c), mem, Elements(c)) && HeaderKept(mem0, mem, m)
    && cut <= |Bytes(mem0.nodes, mem0.cdata, c)|
    && Bytes(mem.nodes, mem.cdata, c) == Bytes(mem0.nodes, mem0.cdata, c)[cut..]
  }

  lemma HeadTrimStart(mem: Mem, m: nat, c: seq<nat>)
    requires m in mem.nodes
    ensures HeadTrim(mem, mem, m, c, 0) && Bytes(mem.nodes, mem.cdata, c[..0]) == []
  {
    hide At;
    assert c[..0] == [];
  }

  lemma HeadTrimStep(mem0: Mem, mem1: Mem, mem2: Mem, m: nat, c: seq<nat>, i: nat, cut: nat, skip: nat)
    requires HeadTrim(mem0, mem1, m, c, cut) && i < |c| && c[0] == m
    requires Bytes(mem1.nodes, mem1.cdata, c[..i]) == [] && skip <= |At(mem1.nodes, mem1.cdata, c[i])|
    requires Cut(mem1, mem2, c, i, At(mem1.nodes, mem1.cdata, c[i])[skip..])
    ensures HeadTrim(mem0, mem2, m, c, cut + skip)
    ensures skip == |At(mem1.nodes, mem1.cdata, c[i])| ==> Bytes(mem2.nodes, mem2.cdata, c[..i + 1]) == []
  {
    hide At, Bytes, Others, Cut;
    var y := At(mem1.nodes, mem1.cdata, c[i]);
    CutOthers(mem1, mem2, c, i, y[skip..]);
    CutBytes(mem1, mem2, c, i, y[skip..]);
    OthersTrans(mem0, Elements(c), mem1, Elements(c), mem2, Elements(c));
    Fronts(y, Bytes(mem1.nodes, mem1.cdata, c[i + 1..]), skip, Bytes(mem0.nodes, mem0.cdata, c), cut,
           Bytes(mem1.nodes, mem1.cdata, c), Bytes(mem2.nodes, mem2.cdata, c));
  }

  lemma Fronts(y: seq<byte>, z: seq<byte>, skip: nat, b: seq<byte>, cut: nat, x: seq<byte>, x': seq<byte>)
    requires skip <= |y| && cut <= |b| && x == b[cut..] && x == [] + (y + z) && x' == [] + (y[skip..] + z)
    ensures cut + skip <= |b| && x' == b[cut + skip..]
  {
    assert x' == x[skip..];
  }

  lemma HeadTrimEnd(mem0: Mem, mem: Mem, m: nat, c: seq<nat>, i: nat, trimlen: nat, len: nat)
    requires len <= trimlen && HeadTrim(mem0, mem, m, c, trimlen - len) && IsChain(mem.nodes, m, c) && i <= |c|
    requires len > 0 ==> (if i < |c| then c[i] else 0) == 0 && Bytes(mem.nodes, mem.cdata, c[..i]) == []
    ensures Others(mem0, Elements(c), mem, Elements(c)) && HeaderKept(mem0, mem, m)
    ensures var b := Bytes(mem0.nodes, mem0.cdata, c);
      Bytes(mem.nodes, mem.cdata, c) == b[Min(trimlen, |b|)..] && (len > 0 <==> trimlen > |b|)
  {
    hide At, Bytes, Others;
    if len > 0 { NothingLeft(mem, m, c, i); }
  }

  /** The first i buffers hold the bytes that are kept. */
  ghost predicate TailTrim(mem0: Mem, mem: Mem, m: nat, c: seq<nat>, i: nat, count: nat) {
    && Others(mem0, Elements(c), mem, Elements(c)) && HeaderKept(mem0, mem, m) && i <= |c|
    && count <= |Bytes(mem0.nodes, mem0.cdata, c)|
    && Bytes(mem.nodes, mem.cdata, c[..i]) == Bytes(mem0.nodes, mem0.cdata, c)[..count]
  }

  lemma TailTrimFirst(mem0: Mem, mem: Mem, m: nat, c: seq<nat>, i: nat, count0: nat, count: nat)
    requires i < |c| && c[0] == m && m in mem0.nodes && count <= |At(mem0.nodes, mem0.cdata, c[i])|
    requires |Bytes(mem0.nodes, mem0.cdata, c[..i])| + count == count0
    requires Cut(mem0, mem, c, i, At(mem0.nodes, mem0.cdata, c[i])[0..count])
    ensures TailTrim(mem0, mem, m, c, i + 1, count0)
  {
    hide At, Bytes, Others, Cut;
    var y := At(mem0.nodes, mem0.cdata, c[i]);
    CutOthers(mem0, mem, c, i, y[0..count]);
    CutBytes(mem0, mem, c, i, y[0..count]);
    var x, z := Bytes(mem0.nodes, mem0.cdata, c[..i]), Bytes(mem0.nodes, mem0.cdata, c[i + 1..]);
    assert (x + (y + z))[..count0] == x + y[0..count];
  }

  lemma TailTrimStep(mem0: Mem, mem1: Mem, mem2: Mem, m: nat, c: seq<nat>, i: nat, count: nat)
    requires i < |c| && c[0] == m && TailTrim(mem0, mem1, m, c, i, count) && Cut(mem1, mem2, c, i, [])
    ensures TailTrim(mem0, mem2, m, c, i + 1, count)
  {
    hide At, Bytes, Others, Cut;
    CutOthers(mem1, mem2, c, i, []);
    CutBytes(mem1, mem2, c, i, []);
    OthersTrans(mem0, Elements(c), mem1, Elements(c), mem2, Elements(c));
  }

  lemma TailTrimEnd(mem0: Mem, mem: Mem, m: nat, c: seq<nat>, count: nat)
    requires TailTrim(mem0, mem, m, c, |c|, count)
    ensures Others(mem0, Elements(c), mem, Elements(c)) && HeaderKept(mem0, mem, m)
    ensures Bytes(mem.nodes, mem.cdata, c) == Bytes(mem0.nodes, mem0.cdata, c)[..count]
  {
    hide At, Bytes, Others;
    assert c[..|c|] == c;
  }

  lemma WholeChain(mem: Mem, c: seq<nat>, i: nat)
    requires i <= |c|
    ensures i == |c| ==> Bytes(mem.nodes, mem.cdata, c[..i]) == Bytes(mem.nodes, mem.cdata, c)
  {
    assert c[..|c|] == c;
  }

  lemma PacketIff(mem: Mem, m: nat, c: seq<nat>)
    requires IsChain(mem.nodes, m, c) && m != 0
    ensures m in mem.nodes && (PacketOk(mem.nodes, mem.cdata, c) <==>
                               (mem.nodes[m].pkthdr ==> mem.nodes[m].plen == |Bytes(mem.nodes, mem.cdata, c)|))
  {
    ChainEnds(mem.nodes, m, c);
  }

  lemma ChainNext(nodes: map<nat, Mbuf>, m: nat, c: seq<nat>, i: nat)
    requires IsChain(nodes, m, c) && i < |c|
    ensures c[i] in nodes && nodes[c[i]].next == (if i + 1 < |c| then c[i + 1] else 0)
  {
    assert Linked(nodes, c, i);
  }

  lemma NothingLeft(mem: Mem, m: nat, c: seq<nat>, i: nat)
    requires IsChain(mem.nodes, m, c) && i <= |c| && 0 == (if i < |c| then c[i] else 0)
    ensures i == |c| && c[..i] == c
  {
  }

  /** Setting the packet length of a trimmed chain. */
  lemma PacketSet(mem0: Mem, mem1: Mem, mem: Mem, m: nat, c: seq<nat>)
    requires Valid(mem1) && IsChain(mem1.nodes, m, c) && m != 0 && m in mem1.nodes && HeaderKept(mem0, mem1, m)
    requires Others(mem0, Elements(c), mem1, Elements(c))
    requires m in mem.nodes && mem == mem1.(nodes := mem1.nodes[m := mem1.nodes[m].(plen := mem.nodes[m].plen)])
    ensures Valid(mem) && IsChain(mem.nodes, m, c) && Others(mem0, Elements(c), mem, Elements(c))
    ensures Bytes(mem.nodes, mem.cdata, c) == Bytes(mem1.nodes, mem1.cdata, c)
  {
    hide At, Valid, IsChain, Others;
    ChainEnds(mem1.nodes, m, c);
    PlenOthers(mem1, mem, m, Elements(c));
    PlenValid(mem1, mem, m);
    BytesKept(mem1.nodes, mem1.cdata, mem.nodes, mem.cdata, c);
    ChainKept(mem1.nodes, mem.nodes, m, c);
    OthersTrans(mem0, Elements(c), mem1, Elements(c), mem, Elements(c));
  }

  lemma PlenOthers(mem: Mem, mem': Mem, m: nat, c: set<nat>)
    requires m in mem.nodes && m in mem'.nodes && m in c
    requires mem' == mem.(nodes := mem.nodes[m := mem.nodes[m].(plen := mem'.nodes[m].plen)])
    ensures forall a :: At(mem'.nodes, mem'.cdata, a) == At(mem.nodes, mem.cdata, a)
    ensures Others(mem, c, mem', c)
  {
  }

  lemma PlenValid(mem: Mem, mem': Mem, m: nat)
    requires Valid(mem) && m in mem.nodes && m in mem'.nodes
    requires mem' == mem.(nodes := mem.nodes[m := mem.nodes[m].(plen := mem'.nodes[m].plen)])
    ensures Valid(mem')
  {
    assert forall a | a in mem.nodes :: NodeOk(mem.nodes[a], mem.cdata);
    ClusterSizes(mem);
    assert NodeOk(mem'.nodes[m], mem.cdata);
    hide NodeOk, ClusterOk, StoreOk;
    ValidChange(mem, mem');
  }

  lemma AtIs(mem: Mem, a: nat)
    requires a in mem.nodes
    ensures At(mem.nodes, mem.cdata, a) == Data(mem.nodes[a], mem.cdata)
  {
  }

  lemma Prefix(b: seq<byte>, done: nat, y: seq<byte>, z: seq<byte>, cnt: nat)
    requires done <= |b| && b[done..] == y + z && cnt <= |y|
    ensures done + cnt <= |b| && b[..done + cnt] == b[..done] + y[..cnt]
    ensures cnt == |y| ==> b[done + cnt..] == z
  {
    assert b == b[..done] + b[done..];
  }

  /** b is a copy of the buffer a, with or without its packet header: of the same type, in the same cluster if
      a has one, and ending a record only if a does and its header is copied. */
  predicate Alike(a: Mbuf, b: Mbuf, header: bool) {
    && b.kind == a.kind && b.pkthdr == header && b.eor == (header && a.eor)
    && b.ext == a.ext && (a.ext ==> b.cl == a.cl && b.data == a.data)
  }

  /** The buffers d are copies of the first ones of c, the first one with its packet header, if it has one. */
  predicate AllAlike(mem0: Mem, mem: Mem, c: seq<nat>, d: seq<nat>) {
    |d| <= |c| && forall i | 0 <= i < |d| :: AlikeAt(mem0, mem, c, d, i)
  }

  predicate AlikeAt(mem0: Mem, mem: Mem, c: seq<nat>, d: seq<nat>, i: nat)
    requires i < |d| <= |c|
  {
    c[i] in mem0.nodes && d[i] in mem.nodes && Alike(mem0.nodes[c[i]], mem.nodes[d[i]], i == 0 && mem0.nodes[c[i]].pkthdr)
  }

  lemma AlikeNone(mem: Mem, c: seq<nat>)
    ensures AllAlike(mem, mem, c, [])
  {
  }

  lemma AlikeHeader(a: Mbuf, b: Mbuf, header: bool)
    requires Alike(a, b, header)
    ensures b.pkthdr == header
  {
  }

  lemma AlikeMore(mem0: Mem, mem1: Mem, mem2: Mem, c: seq<nat>, d: seq<nat>, n: nat)
    requires AllAlike(mem0, mem1, c, d) && |d| < |c| && c[|d|] in mem0.nodes && n in mem2.nodes
    requires Alike(mem0.nodes[c[|d|]], mem2.nodes[n], d == [] && mem0.nodes[c[|d|]].pkthdr)
    requires forall a | a in mem1.nodes :: a in mem2.nodes && mem2.nodes[a] == mem1.nodes[a].(next := mem2.nodes[a].next)
    ensures AllAlike(mem0, mem2, c, d + [n])
  {
    forall i: nat | i < |d| + 1 ensures AlikeAt(mem0, mem2, c, d + [n], i) {
      if i < |d| { assert AlikeAt(mem0, mem1, c, d, i); }
    }
  }

  /** n holds a copy of the first len bytes of m, with the header when copyhdr says so. */
  ghost predicate Copied(mem0: Mem, mem: Mem, m: nat, n: nat, len: nat, copyhdr: bool) {
    && m in mem0.nodes && n in mem.nodes && mem0.nodes[m].len == |At(mem0.nodes, mem0.cdata, m)|
    && At(mem.nodes, mem.cdata, n) == At(mem0.nodes, mem0.cdata, m)[..Min(mem0.nodes[m].len, len)]
    && mem.nodes[n].len == Min(mem0.nodes[m].len, len)
    && mem.nodes[n].next == 0 && Alike(mem0.nodes[m], mem.nodes[n], copyhdr)
    && (copyhdr ==> mem.nodes[n].plen == if len == M_COPYALL then mem0.nodes[m].plen else len)
  }

  lemma CopiedOk(mem0: Mem, mem: Mem, m: nat, n: nat, len: nat, copyhdr: bool)
    requires m in mem0.nodes && NodeOk(mem0.nodes[m], mem0.cdata) && n in mem.nodes && mem.cdata == mem0.cdata
    requires var a, b := mem0.nodes[m], mem.nodes[n]; var k := Min(a.len, len);
      && b.len == k && b.next == 0 && |b.dat| == MLEN && Alike(a, b, copyhdr)
      && (if a.ext then b.data == a.data
          else (copyhdr ==> PKTDAT <= b.data) && b.data + k <= MLEN
               && b.dat[b.data..b.data + k] == Data(a, mem0.cdata)[..k])
      && (copyhdr ==> b.plen == if len == M_COPYALL then a.plen else len)
    ensures NodeOk(mem.nodes[n], mem.cdata) && Copied(mem0, mem, m, n, len, copyhdr)
  {
    var a := mem0.nodes[m];
    if a.ext { SubSlice(Area(a, mem0.cdata), a.data, a.data + a.len, 0, Min(a.len, len)); }
  }

  /** MBUF_COPY_PKTHDR: d with the packet header of s. */
  function HeaderCopied(d: Mbuf, s: Mbuf): Mbuf {
    d.(plen := s.plen, pkthdr := s.pkthdr, eor := s.eor, ext := false, cast := false, data := PKTDAT)
  }

  /** The new buffers d are a chain, and all other buffers are as they were. */
  ghost predicate CopyOf(mem0: Mem, mem: Mem, top: nat, d: seq<nat>) {
    && IsChain(mem.nodes, top, d) && mem.nodes - Elements(d) == mem0.nodes
    && (forall a | a in d :: a !in mem0.nodes) && mem.cdata == mem0.cdata
  }

  lemma CopyNothing(mem0: Mem, mem: Mem)
    requires mem.nodes == mem0.nodes && mem.cdata == mem0.cdata
    ensures CopyOf(mem0, mem, 0, []) && Bytes(mem.nodes, mem.cdata, []) == []
  {
    assert mem.nodes - {} == mem.nodes;
  }

  /** The packet header of a copy. */
  predicate CopyHeader(mem0: Mem, mem: Mem, m0: nat, top: nat, len: nat) {
    && m0 in mem0.nodes && top in mem.nodes && mem.nodes[top].pkthdr == mem0.nodes[m0].pkthdr
    && (mem.nodes[top].pkthdr ==> mem.nodes[top].plen == if len == M_COPYALL then mem0.nodes[m0].plen else len)
  }

  lemma CopyHas(mem0: Mem, mem: Mem, top: nat, d: seq<nat>, a: nat)
    requires CopyOf(mem0, mem, top, d) && a in mem0.nodes
    ensures a in mem.nodes && a !in d && mem.nodes[a] == mem0.nodes[a] && mem.cdata == mem0.cdata
    ensures At(mem.nodes, mem.cdata, a) == At(mem0.nodes, mem0.cdata, a)
  {
    hide IsChain, Data;
    assert a in mem.nodes - Elements(d);
  }

  lemma RoomLess(room: map<nat, Mbuf>, n: nat)
    requires n in room
    ensures |room - {n}| + 1 == |room|
  {
    assert (room - {n}).Keys == room.Keys - {n};
  }

  /** The loop of mbuf_copy: `done` bytes are copied, and chain `rest`, from m on, is to be copied. */
  ghost predicate Copying(mem0: Mem, mem: Mem, c: seq<nat>, m: nat, rest: seq<nat>, d: seq<nat>, done: nat, len: nat) {
    && IsChain(mem0.nodes, m, rest) && (forall a | a in rest :: a in c)
    && |d| + |rest| == |c| && |mem.room| + |d| == |mem0.room|
    && done <= |Bytes(mem0.nodes, mem0.cdata, c)|
    && Bytes(mem.nodes, mem.cdata, d) == Bytes(mem0.nodes, mem0.cdata, c)[..done]
    && (len > 0 ==> Bytes(mem0.nodes, mem0.cdata, rest) == Bytes(mem0.nodes, mem0.cdata, c)[done..])
  }

  /** mbuf_get fails for a copy of m. */
  predicate CopyFails(mem0: Mem, room: map<nat, Mbuf>, m: nat) {
    m in mem0.nodes && (room == map[] || mem0.nodes[m].kind >= 256)
  }

  lemma CopyingStart(mem: Mem, c: seq<nat>, m: nat)
    requires IsChain(mem.nodes, m, c) && m != 0
    ensures m in mem.nodes && forall len :: Copying(mem, mem, c, m, c, [], 0, len)
  {
    hide At;
    ChainEnds(mem.nodes, m, c);
    BytesEmpty(mem.nodes, mem.cdata);
  }

  lemma CopyingNext(mem0: Mem, mem: Mem, c: seq<nat>, m: nat, rest: seq<nat>, d: seq<nat>, done: nat, len: nat)
    requires Copying(mem0, mem, c, m, rest, d, done, len) && m != 0
    ensures m in mem0.nodes && rest != [] && rest[0] == m && m in c
  {
    hide Bytes, At;
    ChainEnds(mem0.nodes, m, rest);
  }

  lemma CopyingStep(mem0: Mem, mem1: Mem, mem2: Mem, c: seq<nat>, m: nat, rest: seq<nat>, d: seq<nat>, done: nat,
                    n: nat, len: nat, cnt: nat)
    requires Valid(mem0) && Copying(mem0, mem1, c, m, rest, d, done, len) && m in mem0.nodes && m != 0 && len > 0
    requires cnt == Min(mem0.nodes[m].len, len) <= |At(mem0.nodes, mem0.cdata, m)|
    requires Bytes(mem2.nodes, mem2.cdata, d + [n])
          == Bytes(mem1.nodes, mem1.cdata, d) + At(mem0.nodes, mem0.cdata, m)[..cnt]
    requires |mem2.room| + 1 == |mem1.room|
    ensures rest != []
    ensures Copying(mem0, mem2, c, mem0.nodes[m].next, rest[1..], d + [n], done + cnt,
                    if len == M_COPYALL then len else len - cnt)
  {
    AreaSize(mem0, m);
    NodeFits(mem0, m);
    ValidLen(mem0, m);
    hide Valid, At, Bytes, IsChain, NodeOk, Area;
    ChainEnds(mem0.nodes, m, rest);
    ChainTail(mem0.nodes, m, rest);
    BytesCons(mem0, rest);
    Prefix(Bytes(mem0.nodes, mem0.cdata, c), done, At(mem0.nodes, mem0.cdata, m),
           Bytes(mem0.nodes, mem0.cdata, rest[1..]), cnt);
  }

  lemma EmptyRoom(room: map<nat, Mbuf>)
    ensures room == map[] ==> |room| == 0
  {
  }

  lemma CopyHeaderNew(mem0: Mem, mem: Mem, m0: nat, top: nat, n: nat, len0: nat, d: seq<nat>)
    requires d == [] ==> top == n && n in mem.nodes && m0 in mem0.nodes && mem.nodes[n].pkthdr == mem0.nodes[m0].pkthdr
    requires d == [] && mem0.nodes[m0].pkthdr ==> mem.nodes[n].plen == if len0 == M_COPYALL then mem0.nodes[m0].plen else len0
    ensures d == [] ==> CopyHeader(mem0, mem, m0, top, len0)
  {
  }

  /** What the end of the loop means. */
  lemma CopyEnd(mem0: Mem, mem: Mem, c: seq<nat>, m0: nat, m: nat, rest: seq<nat>, top: nat, d: seq<nat>, done: nat,
                len0: nat, len: nat, failed: bool)
    requires Valid(mem0) && IsChain(mem0.nodes, m0, c) && m0 != 0 && m0 in mem0.nodes
    requires CopyOf(mem0, mem, top, d) && Copying(mem0, mem, c, m, rest, d, done, len) && (top == 0 <==> d == [])
    requires len0 <= M_COPYALL ==> len == if len0 == M_COPYALL then M_COPYALL else len0 - done
    requires d == [] ==> m == m0 && len == len0
    requires d != [] ==> len0 > 0 && CopyHeader(mem0, mem, m0, top, len0)
    requires failed ==> len > 0 && ((m == 0 && len != M_COPYALL) || CopyFails(mem0, mem.room, m))
    requires !failed ==> len == 0 || (m == 0 && len == M_COPYALL)
    ensures IsChain(mem.nodes, top, d) && mem.nodes - Elements(d) == mem0.nodes && mem.cdata == mem0.cdata
    ensures var b := Bytes(mem0.nodes, mem0.cdata, c);
      failed && len0 <= M_COPYALL && (len0 == M_COPYALL || len0 <= |b|) ==>
        |mem0.room| < |c| || exists a | a in c && a in mem0.nodes :: mem0.nodes[a].kind >= 256
    ensures !failed && len0 <= M_COPYALL && len0 > 0 ==> top != 0
    ensures !failed && len0 <= M_COPYALL && top != 0 ==>
      len0 > 0 && (len0 == M_COPYALL || len0 <= |Bytes(mem0.nodes, mem0.cdata, c)|)
    ensures var b := Bytes(mem0.nodes, mem0.cdata, c); !failed && len0 <= M_COPYALL && top != 0 ==>
      Bytes(mem.nodes, mem.cdata, d) == if len0 == M_COPYALL then b else b[..len0]
    ensures !failed && len0 <= M_COPYALL && top != 0 && PacketOk(mem0.nodes, mem0.cdata, c) ==>
      PacketOk(mem.nodes, mem.cdata, d)
  {
    ValidNotNull(mem0);
    hide Valid, At, Bytes, IsChain;
    CopyParts(mem0, mem, top, d);
    ChainEnds(mem0.nodes, m0, c);
    if m != 0 { CopyingNext(mem0, mem, c, m, rest, d, done, len); }
    EmptyRoom(mem.room);
    ChainEnds(mem0.nodes, m, rest);
    BytesEmpty(mem0.nodes, mem0.cdata);
    BytesEmpty(mem.nodes, mem.cdata);
    var b := Bytes(mem0.nodes, mem0.cdata, c);
    assert done == |b| ==> b[..done] == b;
  }

  /** A copied buffer n is put at the end of the new chain. */
  lemma CopyLinked(mem0: Mem, mem1: Mem, mem2: Mem, mem3: Mem, top: nat, d: seq<nat>, n: nat)
    requires Valid(mem2) && CopyOf(mem0, mem1, if d == [] then 0 else d[0], d) && n !in mem1.nodes && n in mem2.nodes
    requires mem2.nodes == mem1.nodes[n := mem2.nodes[n]] && mem2.cdata == mem1.cdata && mem2.nodes[n].next == 0
    requires top == if d == [] then n else d[0]
    requires d == [] ==> mem3 == mem2
    requires d != [] ==> d[|d| - 1] in mem2.nodes
    requires d != [] ==> mem3 == mem2.(nodes := mem2.nodes[d[|d| - 1] := mem2.nodes[d[|d| - 1]].(next := n)])
    ensures Valid(mem3) && CopyOf(mem0, mem3, top, d + [n])
    ensures Bytes(mem3.nodes, mem3.cdata, d + [n]) == Bytes(mem1.nodes, mem1.cdata, d) + At(mem2.nodes, mem2.cdata, n)
    ensures forall a | a in mem1.nodes :: a in mem3.nodes && mem3.nodes[a] == mem1.nodes[a].(next := mem3.nodes[a].next)
    ensures n in mem3.nodes && mem3.nodes[n] == mem2.nodes[n]
  {
    hide Valid, IsChain, At, CopyOf;
    CopyParts(mem0, mem1, if d == [] then 0 else d[0], d);
    ChainEnds(mem1.nodes, if d == [] then 0 else d[0], d);
    CopyLinkedValid(mem2, mem3, d, n);
    CopyLinkedNodes(mem1, mem2, mem3, d, n);
    ValidNotNull(mem2);
    ChainSnoc(mem1.nodes, mem3.nodes, d, n);
    BytesSnoc(mem1, mem3, d, n);
    CopyLinkedOf(mem0, mem1, mem3, top, d, n);
  }

  lemma BytesSnoc(mem1: Mem, mem3: Mem, d: seq<nat>, n: nat)
    requires forall a | a in d :: At(mem3.nodes, mem3.cdata, a) == At(mem1.nodes, mem1.cdata, a)
    ensures Bytes(mem3.nodes, mem3.cdata, d + [n])
         == Bytes(mem1.nodes, mem1.cdata, d) + At(mem3.nodes, mem3.cdata, n)
  {
    hide At, Bytes;
    BytesKept(mem1.nodes, mem1.cdata, mem3.nodes, mem3.cdata, d);
    BytesAppend(mem3.nodes, mem3.cdata, d, [n]);
    BytesCons(mem3, [n]);
    assert [n][1..] == [];
    BytesEmpty(mem3.nodes, mem3.cdata);
  }

  lemma CopyLinkedValid(mem2: Mem, mem3: Mem, d: seq<nat>, n: nat)
    requires Valid(mem2) && (d == [] ==> mem3 == mem2)
    requires d != [] ==> d[|d| - 1] in mem2.nodes
    requires d != [] ==> mem3 == mem2.(nodes := mem2.nodes[d[|d| - 1] := mem2.nodes[d[|d| - 1]].(next := n)])
    ensures Valid(mem3)
  {
    hide Valid;
    if d != [] { RelinkedValid(mem2, mem3, d[|d| - 1], n); }
  }

  lemma CopyLinkedNodes(mem1: Mem, mem2: Mem, mem3: Mem, d: seq<nat>, n: nat)
    requires n !in mem1.nodes && n in mem2.nodes && mem2.nodes == mem1.nodes[n := mem2.nodes[n]] && mem2.cdata == mem1.cdata
    requires d == [] ==> mem3 == mem2
    requires d != [] ==> d[|d| - 1] in mem1.nodes
    requires d != [] ==> mem3 == mem2.(nodes := mem2.nodes[d[|d| - 1] := mem2.nodes[d[|d| - 1]].(next := n)])
    ensures mem3.nodes.Keys == mem1.nodes.Keys + {n} && mem3.cdata == mem1.cdata && n in mem3.nodes
    ensures At(mem3.nodes, mem3.cdata, n) == At(mem2.nodes, mem2.cdata, n)
    ensures forall a | a in mem1.nodes :: a in mem3.nodes && mem3.nodes[a] == mem1.nodes[a].(next := mem3.nodes[a].next)
    ensures forall a | a in mem1.nodes :: At(mem3.nodes, mem3.cdata, a) == At(mem1.nodes, mem1.cdata, a)
    ensures forall a | a in mem1.nodes && (d == [] || a != d[|d| - 1]) :: mem3.nodes[a] == mem1.nodes[a]
    ensures d != [] ==> mem3.nodes[d[|d| - 1]].next == n
    ensures mem3.nodes[n] == mem2.nodes[n]
  {
    CopyLinkedAt(mem1, mem2, mem3, d, n);
    hide At;
  }

  lemma CopyLinkedAt(mem1: Mem, mem2: Mem, mem3: Mem, d: seq<nat>, n: nat)
    requires n !in mem1.nodes && n in mem2.nodes && mem2.nodes == mem1.nodes[n := mem2.nodes[n]] && mem2.cdata == mem1.cdata
    requires d == [] ==> mem3 == mem2
    requires d != [] ==> d[|d| - 1] in mem1.nodes
    requires d != [] ==> mem3 == mem2.(nodes := mem2.nodes[d[|d| - 1] := mem2.nodes[d[|d| - 1]].(next := n)])
    ensures forall a | a in mem1.nodes :: At(mem3.nodes, mem3.cdata, a) == At(mem1.nodes, mem1.cdata, a)
    ensures At(mem3.nodes, mem3.cdata, n) == At(mem2.nodes, mem2.cdata, n)
  {
  }

  lemma ChainSnoc(n0: map<nat, Mbuf>, n1: map<nat, Mbuf>, d: seq<nat>, n: nat)
    requires IsChain(n0, if d == [] then 0 else d[0], d) && n != 0 && n !in n0 && n in n1 && n1[n].next == 0
    requires forall a | a in n0 && (d == [] || a != d[|d| - 1]) :: a in n1 && n1[a] == n0[a]
    requires d != [] ==> d[|d| - 1] in n1 && n1[d[|d| - 1]].next == n
    ensures IsChain(n1, (d + [n])[0], d + [n])
  {
    var e := d + [n];
    ChainEnds(n0, if d == [] then 0 else d[0], d);
    forall i: nat | i < |e| ensures Linked(n1, e, i) {
      if i < |d| { assert Linked(n0, d, i); }
    }
  }

  lemma CopyLinkedOf(mem0: Mem, mem1: Mem, mem3: Mem, top: nat, d: seq<nat>, n: nat)
    requires CopyOf(mem0, mem1, if d == [] then 0 else d[0], d) && n !in mem1.nodes
    requires IsChain(mem3.nodes, top, d + [n]) && mem3.cdata == mem1.cdata
    requires mem3.nodes.Keys == mem1.nodes.Keys + {n}
    requires forall a | a in mem1.nodes && (d == [] || a != d[|d| - 1]) :: mem3.nodes[a] == mem1.nodes[a]
    ensures CopyOf(mem0, mem3, top, d + [n])
  {
    hide IsChain;
    var e := d + [n];
    assert Elements(e) == Elements(d) + {n};
    if d != [] { assert d[|d| - 1] in Elements(d); }
    assert mem3.nodes - Elements(e) == mem1.nodes - Elements(d);
    assert forall a | a in mem0.nodes :: a in mem1.nodes - Elements(d);
  }

  lemma CopyParts(mem0: Mem, mem: Mem, top: nat, d: seq<nat>)
    requires CopyOf(mem0, mem, top, d)
    ensures IsChain(mem.nodes, top, d) && mem.nodes - Elements(d) == mem0.nodes && mem.cdata == mem0.cdata
    ensures top == (if d == [] then 0 else d[0]) && 0 !in d && forall a | a in d :: a in mem.nodes
  {
    ChainEnds(mem.nodes, top, d);
  }

  lemma CopiedParts(mem0: Mem, mem: Mem, m: nat, n: nat, len: nat, copyhdr: bool)
    requires Copied(mem0, mem, m, n, len, copyhdr)
    ensures m in mem0.nodes && n in mem.nodes && mem.nodes[n].next == 0
    ensures mem.nodes[n].len == Min(mem0.nodes[m].len, len) <= |At(mem0.nodes, mem0.cdata, m)|
    ensures At(mem.nodes, mem.cdata, n) == At(mem0.nodes, mem0.cdata, m)[..mem.nodes[n].len]
    ensures Alike(mem0.nodes[m], mem.nodes[n], copyhdr)
    ensures copyhdr ==> mem.nodes[n].plen == if len == M_COPYALL then mem0.nodes[m].plen else len
  {
    hide At;
  }

  /** The header of the copy does not change once it is made. */
  lemma CopyHeaderKept(mem0: Mem, mem1: Mem, mem: Mem, m0: nat, top: nat, len0: nat, d: seq<nat>)
    requires d != [] ==> CopyHeader(mem0, mem1, m0, top, len0) && HeaderKept(mem1, mem, top)
    ensures d != [] ==> CopyHeader(mem0, mem, m0, top, len0)
  {
  }

  /** b leads its packet as a did: the type is the same, and so are packet header, record end and length,
      but for what was added. */
  predicate Leads(a: Mbuf, b: Mbuf, more: int) {
    b.kind == a.kind && b.pkthdr == a.pkthdr && (a.pkthdr ==> b.eor == a.eor && b.plen == a.plen + more)
  }

  /** What a pull-up promises: the bytes stay, the first buffer holds enough of them, the packet header
      stays, and nothing else changes; on failure every buffer of the chain is released. */
  ghost predicate PulledUp(mem0: Mem, mem: Mem, c: seq<nat>, r: nat, d: seq<nat>, len: nat) {
    Pulled(mem0, mem, c, r, d, len) && Others(mem0, Elements(c), mem, Elements(d))
  }

  /** The same, without the bytes of other buffers. */
  ghost predicate Pulled(mem0: Mem, mem: Mem, c: seq<nat>, r: nat, d: seq<nat>, len: nat) {
    && Records(mem0, Elements(c), mem, Elements(d))
    && (r == 0 ==> d == [])
    && (r != 0 ==> c != [] && c[0] in mem0.nodes && d != [] && IsChain(mem.nodes, r, d) && r in mem.nodes
                   && Bytes(mem.nodes, mem.cdata, d) == Bytes(mem0.nodes, mem0.cdata, c)
                   && len <= mem.nodes[r].len && Leads(mem0.nodes[c[0]], mem.nodes[r], 0)
                   && (PacketOk(mem0.nodes, mem0.cdata, c) ==> PacketOk(mem.nodes, mem.cdata, d)))
  }

  /** A new buffer m took over the packet header of the chain c that starts at n. */
  ghost predicate HeadMade(mem0: Mem, mem: Mem, m: nat, n: nat, c: seq<nat>) {
    && Valid(mem) && m in mem.nodes && m !in c && n in mem0.nodes && IsChain(mem.nodes, n, c)
    && At(mem.nodes, mem.cdata, m) == []
    && Bytes(mem.nodes, mem.cdata, c) == Bytes(mem0.nodes, mem0.cdata, c)
    && Others(mem0, Elements(c), mem, {m} + Elements(c))
    && Leads(mem0.nodes[n], mem.nodes[m], 0) && mem.nodes[m].len == 0
  }

  lemma PulledNone(mem0: Mem, mem: Mem, c: seq<nat>, len: nat)
    requires mem.nodes == mem0.nodes - Elements(c) && mem.cdata == mem0.cdata
    ensures PulledUp(mem0, mem, c, 0, [], len)
  {
    hide Data;
    assert mem.nodes - {} == mem.nodes && Elements([]) == {};
  }

  lemma HeadRoom(mem: Mem, m: nat, len: nat, w: set<nat>)
    requires Valid(mem) && m in mem.nodes && !mem.nodes[m].ext
    requires mem.nodes[m].data + mem.nodes[m].len + len <= MLEN || len == 0
    ensures CanAppend(mem, m, len, w) && mem.nodes[m].data + mem.nodes[m].len <= MLEN
  {
    assert NodeOk(mem.nodes[m], mem.cdata);
  }

  lemma PulledInPlace(mem0: Mem, mem: Mem, m: nat, c: seq<nat>, len0: nat, r: nat, d: seq<nat>)
    requires c != [] && c[0] == m && m in mem0.nodes && m !in c[1..]
    requires r == 0 ==> d == []
    requires r != 0 ==> r == m && d != [] && IsChain(mem.nodes, m, d) && m in mem.nodes
    requires r != 0 ==> Bytes(mem.nodes, mem.cdata, d)
                        == At(mem0.nodes, mem0.cdata, m) + Bytes(mem0.nodes, mem0.cdata, c[1..])
    requires var n := mem0.nodes[m];
      r != 0 ==> mem.nodes[m] == n.(len := n.len + (len0 - Min(len0, n.len)), dat := mem.nodes[m].dat,
                                    next := mem.nodes[m].next)
    requires Records(mem0, {m} + Elements(c[1..]), mem, Elements(d))
    ensures Pulled(mem0, mem, c, r, d, len0)
  {
    hide At, Records;
    ElementsCons(c);
    if r != 0 { ChainEnds(mem.nodes, r, d); }
  }

  lemma PulledNew(mem0: Mem, mem1: Mem, mem: Mem, m: nat, c: seq<nat>, len0: nat, r: nat, d: seq<nat>)
    requires c != [] && c[0] in mem0.nodes && HeadMade(mem0, mem1, m, c[0], c)
    requires r == 0 ==> d == []
    requires r != 0 ==> r == m && d != [] && IsChain(mem.nodes, m, d) && m in mem.nodes
    requires r != 0 ==> Bytes(mem.nodes, mem.cdata, d)
                        == At(mem1.nodes, mem1.cdata, m) + Bytes(mem1.nodes, mem1.cdata, c)
    requires m in mem1.nodes
    requires var n := mem1.nodes[m];
      r != 0 ==> mem.nodes[m] == n.(len := n.len + len0, dat := mem.nodes[m].dat, next := mem.nodes[m].next)
    requires Others(mem1, {m} + Elements(c), mem, Elements(d))
    ensures PulledUp(mem0, mem, c, r, d, len0)
  {
    hide At, Others, Valid;
    OthersTrans(mem0, Elements(c), mem1, {m} + Elements(c), mem, Elements(d));
    OthersRecords(mem0, Elements(c), mem, Elements(d));
    if r != 0 {
      ChainEnds(mem.nodes, r, d);
      assert [] + Bytes(mem1.nodes, mem1.cdata, c) == Bytes(mem1.nodes, mem1.cdata, c);
    }
  }

  lemma NodeFits(mem: Mem, m: nat)
    requires Valid(mem) && m in mem.nodes
    ensures NodeOk(mem.nodes[m], mem.cdata)
  {
  }

  lemma ClusterRoom(mem: Mem, m: nat, len: nat, w: set<nat>)
    requires Valid(mem) && m in mem.nodes && mem.nodes[m].ext
    requires len > 0 ==> mem.nodes[m].data + mem.nodes[m].len + len <= MCLBYTES && forall a | a in w :: !Touches(mem, m, a, len)
    ensures CanAppend(mem, m, len, w) && Room(mem, m, len)
  {
    AreaSize(mem, m);
    assert NodeOk(mem.nodes[m], mem.cdata);
  }

  lemma BigRoom(raw: Mem, mem1: Mem, mem2: Mem, m: nat, n: nat)
    requires Valid(mem2) && m in raw.nodes && n in raw.nodes && m != n && mem1 == Emptied(raw, m) && m in mem2.nodes
    requires raw.nodes[m].ext && raw.nodes[m].data == 0 && Users(raw.nodes, raw.nodes[m].cl) == {m}
    requires mem2.nodes == if mem1.nodes[n].pkthdr
      then mem1.nodes[m := mem2.nodes[m]][n := mem1.nodes[n].(pkthdr := false)] else mem1.nodes
    requires mem2.nodes[m] == mem1.nodes[m].(plen := mem2.nodes[m].plen, pkthdr := mem2.nodes[m].pkthdr,
                                             eor := mem2.nodes[m].eor, cast := mem2.nodes[m].cast)
    ensures CanAppend(mem2, m, MCLBYTES, mem2.nodes.Keys)
  {
    var k := raw.nodes[m].cl;
    assert Users(mem2.nodes, k) == Users(raw.nodes, k);
    forall a ensures !Touches(mem2, m, a, MCLBYTES) { assert Share(mem2, m, a) ==> a in Users(mem2.nodes, k); }
    hide Users;
    ClusterRoom(mem2, m, MCLBYTES, mem2.nodes.Keys);
  }

  lemma RoomSize(mem: Mem, m: nat)
    requires Valid(mem) && m in mem.room
    ensures |mem.room[m].dat| == MLEN && m !in mem.nodes
  {
  }

  /** m was added to memory, clusters may have been, and the packet header of n moved to m. */
  predicate HeaderGone(mem0: Mem, mem1: Mem, mem2: Mem, m: nat, n: nat) {
    && m in mem1.nodes && m in mem2.nodes && n in mem0.nodes && m !in mem0.nodes
    && mem1.nodes == mem0.nodes[m := mem1.nodes[m]] && mem2.cdata == mem1.cdata
    && (forall k | k in mem0.cdata :: k in mem1.cdata && mem1.cdata[k] == mem0.cdata[k])
    && mem2 == mem1.(nodes := if mem0.nodes[n].pkthdr
                              then mem1.nodes[m := mem2.nodes[m]][n := mem0.nodes[n].(pkthdr := false)] else mem1.nodes)
    && mem1.nodes[m].ext == mem2.nodes[m].ext && mem1.nodes[m].cl == mem2.nodes[m].cl
    && mem2.nodes[m].len == 0 && NodeOk(mem2.nodes[m], mem1.cdata)
    && Leads(mem0.nodes[n], mem2.nodes[m], 0)
  }

  lemma HeadMadeIs(mem0: Mem, mem1: Mem, mem2: Mem, m: nat, n: nat, c: seq<nat>)
    requires Valid(mem0) && Valid(mem1) && IsChain(mem0.nodes, n, c) && n != 0
    requires HeaderGone(mem0, mem1, mem2, m, n)
    ensures HeadMade(mem0, mem2, m, n, c)
  {
    HeaderMoved(mem0, mem1, mem2, m, n);
    ChainEnds(mem0.nodes, n, c);
    ValidLen(mem2, m);
    forall a | a in mem0.nodes
      ensures a in mem2.nodes && mem2.nodes[a].next == mem0.nodes[a].next
      ensures At(mem2.nodes, mem2.cdata, a) == At(mem0.nodes, mem0.cdata, a)
      ensures a != n ==> mem2.nodes[a] == mem0.nodes[a]
    {
      assert NodeOk(mem0.nodes[a], mem0.cdata);
      HeadElement(mem0, mem1, mem2, m, n, a);
    }
    HeadKeys(mem0, mem1, mem2, m, n);
    hide Valid, IsChain, At, HeaderGone;
    ChainKept(mem0.nodes, mem2.nodes, n, c);
    BytesKept(mem0.nodes, mem0.cdata, mem2.nodes, mem2.cdata, c);
    assert n in Elements(c);
    assert mem2.nodes - ({m} + Elements(c)) == mem0.nodes - Elements(c);
  }

  lemma HeadKeys(mem0: Mem, mem1: Mem, mem2: Mem, m: nat, n: nat)
    requires HeaderGone(mem0, mem1, mem2, m, n)
    ensures mem2.nodes.Keys == mem0.nodes.Keys + {m} && m !in mem0.nodes && n in mem0.nodes && m in mem2.nodes
    ensures Leads(mem0.nodes[n], mem2.nodes[m], 0) && mem2.nodes[m].len == 0
  {
  }

  lemma HeadElement(mem0: Mem, mem1: Mem, mem2: Mem, m: nat, n: nat, a: nat)
    requires HeaderGone(mem0, mem1, mem2, m, n) && a in mem0.nodes && NodeOk(mem0.nodes[a], mem0.cdata)
    ensures a in mem2.nodes && mem2.nodes[a].next == mem0.nodes[a].next
    ensures At(mem2.nodes, mem2.cdata, a) == At(mem0.nodes, mem0.cdata, a)
    ensures a != n ==> mem2.nodes[a] == mem0.nodes[a]
  {
  }

  lemma HeaderMoved(mem0: Mem, mem1: Mem, mem2: Mem, m: nat, n: nat)
    requires Valid(mem1) && HeaderGone(mem0, mem1, mem2, m, n)
    ensures Valid(mem2)
  {
    ClusterSizes(mem1);
    forall a | a in mem1.nodes ensures NodeOk(mem2.nodes[a], mem2.cdata) {
      assert NodeOk(mem1.nodes[a], mem1.cdata);
    }
    hide NodeOk;
    ValidChange(mem1, mem2);
  }

  lemma BytesCons(mem: Mem, c: seq<nat>)
    requires c != []
    ensures Bytes(mem.nodes, mem.cdata, c) == At(mem.nodes, mem.cdata, c[0]) + Bytes(mem.nodes, mem.cdata, c[1..])
  {
  }

  /** The effect of one step: bytes went from the front of c to m, and c became rest. */
  ghost predicate Stepped(mem0: Mem, mem1: Mem, m: nat, c: seq<nat>, rest: seq<nat>, count: nat) {
    && m in mem0.nodes && m in mem1.nodes && m !in rest && Elements(rest) <= Elements(c)
    && At(mem1.nodes, mem1.cdata, m) + Bytes(mem1.nodes, mem1.cdata, rest)
       == At(mem0.nodes, mem0.cdata, m) + Bytes(mem0.nodes, mem0.cdata, c)
    && mem1.nodes[m] == mem0.nodes[m].(len := mem0.nodes[m].len + count, dat := mem1.nodes[m].dat)
    && Records(mem0, {m} + Elements(c), mem1, {m} + Elements(rest))
    && count <= |Bytes(mem0.nodes, mem0.cdata, c)|
    && mem1.cdata == Written(mem0, m, Bytes(mem0.nodes, mem0.cdata, c)[..count])
    && Shrunk(mem0.nodes, mem1.nodes, m)
  }

  /** No buffer came or changed its cluster, and none but m holds more places than before. */
  predicate Shrunk(n0: map<nat, Mbuf>, n1: map<nat, Mbuf>, m: nat) {
    forall a | a in n1 :: a in n0 && n1[a].ext == n0[a].ext && n1[a].cl == n0[a].cl &&
      (a != m ==> n0[a].data <= n1[a].data && n1[a].data + n1[a].len <= n0[a].data + n0[a].len)
  }

  lemma StepStart(mem: Mem, m: nat, n: nat, c: seq<nat>, count: nat, w: set<nat>)
    requires Valid(mem) && CanAppend(mem, m, count, w) && IsChain(mem.nodes, n, c) && n != 0
    ensures c != [] && c[0] == n && n in mem.nodes && m in mem.nodes && n in Elements(c)
  {
    hide Valid, At;
    ChainEnds(mem.nodes, n, c);
  }

  lemma StepMoved(mem0: Mem, mem1: Mem, m: nat, n: nat, c: seq<nat>, count: nat, w: set<nat>)
    requires IsChain(mem0.nodes, n, c) && c != [] && m !in c && Elements(c) <= w && MovedTo(mem0, mem1, m, n, count, w)
    ensures IsChain(mem1.nodes, n, c) && n in mem1.nodes && n in mem0.nodes
    ensures mem1.nodes[n].len == mem0.nodes[n].len - count
    ensures Stepped(mem0, mem1, m, c, c, count)
  {
    hide At, IsChain, Bytes, Written;
    ChainEnds(mem0.nodes, n, c);
    ChainTail(mem0.nodes, n, c);
    ChainKept(mem0.nodes, mem1.nodes, n, c);
    Shifted(mem0, mem1, m, c, count);
    BytesCons(mem0, c);
    FrontOf(At(mem0.nodes, mem0.cdata, n), Bytes(mem0.nodes, mem0.cdata, c[1..]), count);
    assert n in Elements(c);
    assert mem1.nodes - ({m} + Elements(c)) == mem0.nodes - ({m} + Elements(c));
  }

  lemma FrontOf(x: seq<byte>, y: seq<byte>, count: nat)
    requires count <= |x|
    ensures (x + y)[..count] == x[..count]
  {
  }

  lemma StepFreed(mem0: Mem, mem1: Mem, mem2: Mem, m: nat, n: nat, c: seq<nat>, count: nat)
    requires IsChain(mem1.nodes, n, c) && c != [] && m !in c && Stepped(mem0, mem1, m, c, c, count)
    requires Valid(mem1) && n in mem1.nodes && mem1.nodes[n].len == 0
    requires mem2.nodes == mem1.nodes - {n} && mem2.cdata == mem1.cdata
    ensures IsChain(mem2.nodes, mem1.nodes[n].next, c[1..])
    ensures mem1.nodes[n].next == 0 <==> c[1..] == []
    ensures Stepped(mem0, mem2, m, c, c[1..], count)
  {
    hide At, Bytes, IsChain, Valid, Records, Shrunk, Elements, Written;
    ValidLen(mem1, n);
    ChainEnds(mem1.nodes, n, c);
    TailFreed(mem1, mem2, n, c);
    Unlinked(mem1, mem2, c);
    StillShrunk(mem0.nodes, mem1.nodes, n, m);
    ElementsCons(c);
    RecordsRemove(mem0, {m} + Elements(c), mem1, {m} + Elements(c), mem2, n, {m} + Elements(c[1..]));
    assert mem2.nodes[m] == mem1.nodes[m];
  }

  lemma TailFreed(mem1: Mem, mem2: Mem, n: nat, c: seq<nat>)
    requires IsChain(mem1.nodes, n, c) && c != [] && n in mem1.nodes && mem2.nodes == mem1.nodes - {n}
    ensures IsChain(mem2.nodes, mem1.nodes[n].next, c[1..]) && n !in c[1..] && c[0] == n
    ensures mem1.nodes[n].next == 0 <==> c[1..] == []
  {
    hide IsChain, Elements;
    ChainEnds(mem1.nodes, n, c);
    ChainTail(mem1.nodes, n, c);
    ChainEnds(mem1.nodes, mem1.nodes[n].next, c[1..]);
    ChainKept(mem1.nodes, mem2.nodes, mem1.nodes[n].next, c[1..]);
  }

  lemma StillShrunk(n0: map<nat, Mbuf>, n1: map<nat, Mbuf>, n: nat, m: nat)
    requires Shrunk(n0, n1, m)
    ensures Shrunk(n0, n1 - {n}, m)
  {
  }

  lemma RecordsRemove(mem0: Mem, c: set<nat>, mem: Mem, d: set<nat>, mem': Mem, m: nat, d': set<nat>)
    requires Records(mem0, c, mem, d) && d == d' + {m}
    requires mem'.nodes == mem.nodes - {m}
    ensures Records(mem0, c, mem', d')
  {
    assert mem'.nodes - d' == mem.nodes - d;
  }

  lemma RecordsRelinked(mem0: Mem, c: set<nat>, mem: Mem, mem': Mem, d: set<nat>, m: nat)
    requires Records(mem0, c, mem, d) && m in d && m in mem.nodes && m in mem'.nodes
    requires mem'.nodes == mem.nodes[m := mem'.nodes[m]]
    ensures Records(mem0, c, mem', d)
  {
    assert mem'.nodes - d == mem.nodes - d;
  }

  /** With no cluster written, records are all there is to keep. */
  lemma RecordsOthers(mem0: Mem, c: set<nat>, mem: Mem, d: set<nat>)
    requires Records(mem0, c, mem, d) && mem.cdata == mem0.cdata
    ensures Others(mem0, c, mem, d)
  {
    hide Data;
    forall a | a in mem0.nodes && a !in c ensures At(mem.nodes, mem.cdata, a) == At(mem0.nodes, mem0.cdata, a) {
      assert a in mem0.nodes - c;
      assert a in mem.nodes - d;
    }
  }

  lemma OthersRecords(mem0: Mem, c: set<nat>, mem: Mem, d: set<nat>)
    requires Others(mem0, c, mem, d)
    ensures Records(mem0, c, mem, d)
  {
  }

  /** A buffer without a cluster writes none. */
  lemma WrittenOwn(mem: Mem, m: nat, x: seq<byte>)
    requires m in mem.nodes && !mem.nodes[m].ext
    ensures Written(mem, m, x) == mem.cdata
  {
  }

  function First(s: seq<byte>, n: nat): seq<byte> {
    if n <= |s| then s[..n] else s
  }

  /** What is put behind the bytes of the chain's first buffer agrees with what others hold there. */
  ghost predicate Unharmed(mem: Mem, c: seq<nat>, len: nat) {
    c != [] ==> forall a | a in mem.nodes && a !in c :: Agrees(mem, c[0], a, First(TailBytes(mem, c), len))
  }

  /** The bytes of a chain behind its first buffer. */
  function TailBytes(mem: Mem, c: seq<nat>): seq<byte> {
    if c == [] then [] else Bytes(mem.nodes, mem.cdata, c[1..])
  }

  lemma UnharmedNone(mem: Mem, c: seq<nat>)
    ensures Unharmed(mem, c, 0)
  {
    hide Bytes;
  }

  lemma UnharmedIff(mem0: Mem, mem: Mem, c: seq<nat>, d: seq<nat>, len: nat)
    requires Valid(mem0) && c != [] && Room(mem0, c[0], len) && Records(mem0, Elements(c), mem, Elements(d))
    requires mem.cdata == Written(mem0, c[0], First(Bytes(mem0.nodes, mem0.cdata, c[1..]), len))
    ensures Others(mem0, Elements(c), mem, Elements(d)) <==> Unharmed(mem0, c, len)
    ensures forall a | a in mem0.nodes && a !in c ::
      (At(mem.nodes, mem.cdata, a) == At(mem0.nodes, mem0.cdata, a) <==> Agrees(mem0, c[0], a, First(TailBytes(mem0, c), len)))
  {
    hide Valid, At, Agrees, Bytes;
    var m, x := c[0], First(Bytes(mem0.nodes, mem0.cdata, c[1..]), len);
    assert m in Elements(c);
    forall a | a in mem0.nodes && a !in c
      ensures At(mem.nodes, mem.cdata, a) == At(mem0.nodes, mem0.cdata, a) <==> Agrees(mem0, m, a, x)
    {
      assert a in mem0.nodes - Elements(c);
      assert a in mem.nodes - Elements(d);
      OthersWritten(mem0, mem, m, x, a);
    }
  }

  lemma OthersWritten(mem0: Mem, mem: Mem, m: nat, x: seq<byte>, a: nat)
    requires Valid(mem0) && Room(mem0, m, |x|) && a != m && a in mem0.nodes && a in mem.nodes && mem.nodes[a] == mem0.nodes[a]
    requires mem.cdata == Written(mem0, m, x)
    ensures At(mem.nodes, mem.cdata, a) == At(mem0.nodes, mem0.cdata, a) <==> Agrees(mem0, m, a, x)
  {
    hide Valid, Agrees, Splice;
    ValidNode(mem0, m);
    KeptIff(mem0, m, x, a);
  }

  /** A cluster that nobody else uses harms nobody. */
  lemma NewUnharmed(mem0: Mem, mem: Mem, m: nat, c: seq<nat>, d: seq<nat>, len: nat)
    requires Valid(mem0) && CanAppend(mem0, m, len, mem0.nodes.Keys) && Records(mem0, {m} + Elements(c), mem, Elements(d))
    requires mem.cdata == Written(mem0, m, First(Bytes(mem0.nodes, mem0.cdata, c), len))
    ensures Others(mem0, {m} + Elements(c), mem, Elements(d))
  {
    hide Valid, At, Agrees, Bytes;
    var x := First(Bytes(mem0.nodes, mem0.cdata, c), len);
    forall a | a in mem0.nodes && a !in {m} + Elements(c) ensures At(mem.nodes, mem.cdata, a) == At(mem0.nodes, mem0.cdata, a) {
      assert a in mem0.nodes - ({m} + Elements(c));
      assert a in mem.nodes - Elements(d);
      OthersWritten(mem0, mem, m, x, a);
      Untouched(mem0, m, a, x);
    }
  }

  lemma Untouched(mem: Mem, m: nat, a: nat, x: seq<byte>)
    requires !Touches(mem, m, a, |x|)
    ensures Agrees(mem, m, a, x)
  {
  }

  lemma NullOutside(mem: Mem)
    requires Valid(mem)
    ensures 0 !in mem.nodes
  {
  }

  /** What the loop keeps: `used` bytes went to m, and no bytes were lost or changed. */
  ghost predicate Gathering(mem0: Mem, mem: Mem, m: nat, c: seq<nat>, rest: seq<nat>, used: nat) {
    && m in mem0.nodes && m in mem.nodes && m !in rest
    && At(mem.nodes, mem.cdata, m) + Bytes(mem.nodes, mem.cdata, rest)
       == At(mem0.nodes, mem0.cdata, m) + Bytes(mem0.nodes, mem0.cdata, c)
    && mem.nodes[m] == mem0.nodes[m].(len := mem0.nodes[m].len + used, dat := mem.nodes[m].dat)
    && Records(mem0, {m} + Elements(c), mem, {m} + Elements(rest)) && Elements(rest) <= Elements(c)
    && used <= |Bytes(mem0.nodes, mem0.cdata, c)|
    && mem.cdata == Written(mem0, m, Bytes(mem0.nodes, mem0.cdata, c)[..used])
  }

  lemma GatherStart(mem: Mem, m: nat, c: seq<nat>, len: nat)
    requires CanAppend(mem, m, len, Elements(c)) && m !in c
    ensures Gathering(mem, mem, m, c, c, 0) && Room(mem, m, len)
  {
    hide At, Bytes, Written;
    WrittenNothing(mem, m);
    assert Bytes(mem.nodes, mem.cdata, c)[..0] == [];
  }

  lemma GatherAway(mem0: Mem, mem: Mem, m: nat, c: seq<nat>, rest: seq<nat>, used: nat)
    requires Gathering(mem0, mem, m, c, rest, used)
    ensures m !in rest && m in mem.nodes && Elements(rest) <= Elements(c)
  {
  }

  lemma GatherKept(mem0: Mem, mem1: Mem, mem2: Mem, m: nat, c: seq<nat>, rest1: seq<nat>, rest2: seq<nat>,
                   used: nat, count: nat, len0: nat)
    requires Valid(mem0) && Valid(mem1) && Room(mem0, m, len0) && used + count <= len0
    requires Gathering(mem0, mem1, m, c, rest1, used) && Stepped(mem1, mem2, m, rest1, rest2, count)
    ensures Gathering(mem0, mem2, m, c, rest2, used + count)
  {
    hide At, Bytes, Written, Valid, Area;
    ValidLen(mem0, m);
    ValidLen(mem1, m);
    var x, y := Bytes(mem0.nodes, mem0.cdata, c), Bytes(mem1.nodes, mem1.cdata, rest1);
    RestOf(At(mem0.nodes, mem0.cdata, m), x, At(mem1.nodes, mem1.cdata, m), y, used, count);
    WrittenTwice(mem0, mem1, m, x[..used], y[..count]);
  }

  /** The bytes that are left are those behind the ones moved. */
  lemma RestOf(a: seq<byte>, x: seq<byte>, b: seq<byte>, y: seq<byte>, used: nat, count: nat)
    requires a + x == b + y && |b| == |a| + used && used <= |x| && count <= |y|
    ensures used + count <= |x| && x[..used] + y[..count] == x[..used + count]
  {
    assert |x| == used + |y|;
    assert forall i | 0 <= i < |y| :: y[i] == (b + y)[|b| + i] == (a + x)[|b| + i] == x[used + i];
  }

  /** What the end of the loop says about lengths. */
  lemma GatherEnd(mem0: Mem, mem: Mem, m: nat, c: seq<nat>, rest: seq<nat>, len0: nat, len: nat)
    requires Valid(mem0) && Valid(mem) && len <= len0 && Gathering(mem0, mem, m, c, rest, len0 - len)
    ensures m != 0 && m in mem0.nodes && m in mem.nodes && m !in rest
    ensures At(mem.nodes, mem.cdata, m) + Bytes(mem.nodes, mem.cdata, rest)
         == At(mem0.nodes, mem0.cdata, m) + Bytes(mem0.nodes, mem0.cdata, c)
    ensures mem.nodes[m] == mem0.nodes[m].(len := mem0.nodes[m].len + (len0 - len), dat := mem.nodes[m].dat)
    ensures Records(mem0, {m} + Elements(c), mem, {m} + Elements(rest))
    ensures len == 0 || rest == [] ==> mem.cdata == Written(mem0, m, First(Bytes(mem0.nodes, mem0.cdata, c), len0))
    ensures len == 0 ==> len0 <= |Bytes(mem0.nodes, mem0.cdata, c)|
    ensures len > 0 && rest == [] ==> |Bytes(mem0.nodes, mem0.cdata, c)| < len0
  {
    hide At, Bytes, Records, Valid, Written;
    ValidNotNull(mem0);
    ValidLen(mem0, m);
    ValidLen(mem, m);
    BytesEmpty(mem.nodes, mem.cdata);
    assert |At(mem.nodes, mem.cdata, m) + Bytes(mem.nodes, mem.cdata, rest)|
        == |At(mem0.nodes, mem0.cdata, m)| + |Bytes(mem0.nodes, mem0.cdata, c)|;
    var x := Bytes(mem0.nodes, mem0.cdata, c);
    assert x[..|x|] == x;
    if len > 0 && rest == [] { assert len0 - len == |x|; }
  }

  /** Nothing in the source sets it. */
  const MAX_PROTOHDR: nat := 0

  function Max(a: nat, b: nat): nat {
    if a <= b then b else a
  }

  lemma OthersRefl(mem: Mem, c: set<nat>)
    ensures Others(mem, c, mem, c)
  {
  }

  lemma OthersTrans(mem0: Mem, c0: set<nat>, mem1: Mem, c1: set<nat>, mem2: Mem, c2: set<nat>)
    requires Others(mem0, c0, mem1, c1) && Others(mem1, c1, mem2, c2)
    ensures Others(mem0, c0, mem2, c2)
  {
    hide At;
    forall a | a in mem0.nodes && a !in c0 ensures At(mem2.nodes, mem2.cdata, a) == At(mem0.nodes, mem0.cdata, a) {
      assert a in mem0.nodes - c0;
      assert a in mem1.nodes - c1;
    }
  }

  /** No buffer came or changed its cluster. */
  predicate SameClusters(n0: map<nat, Mbuf>, n1: map<nat, Mbuf>) {
    forall a | a in n1 :: a in n0 && n1[a].ext == n0[a].ext && n1[a].cl == n0[a].cl
  }

  lemma StillAppend(mem: Mem, mem': Mem, m: nat, c: seq<nat>, rest: seq<nat>, count: nat, used: nat, w: set<nat>)
    requires Valid(mem) && Valid(mem') && CanAppend(mem, m, count, w) && used <= count
    requires Stepped(mem, mem', m, c, rest, used)
    ensures CanAppend(mem', m, count - used, w)
  {
    AreaSize(mem, m);
    AreaSize(mem', m);
    hide Valid, Area, At, Bytes, Records, Written;
    forall a | a in w ensures !Touches(mem', m, a, count - used) {
      assert !Touches(mem, m, a, count);
    }
  }

  lemma AreaSize(mem: Mem, m: nat)
    requires Valid(mem) && m in mem.nodes
    ensures |Area(mem.nodes[m], mem.cdata)| == if mem.nodes[m].ext then MCLBYTES else MLEN
  {
    assert NodeOk(mem.nodes[m], mem.cdata);
    if mem.nodes[m].ext { ExtCluster(mem, m); }
  }

  lemma ValidLen(mem: Mem, m: nat)
    requires Valid(mem) && m in mem.nodes
    ensures |At(mem.nodes, mem.cdata, m)| == mem.nodes[m].len
  {
    assert NodeOk(mem.nodes[m], mem.cdata);
  }

  lemma BytesEmpty(nodes: map<nat, Mbuf>, cdata: map<nat, seq<byte>>)
    ensures Bytes(nodes, cdata, []) == []
  {
  }

  /** Buffer m is put before the chain c. */
  lemma Relinked(mem: Mem, mem': Mem, m: nat, n: nat, c: seq<nat>)
    requires Valid(mem) && m in mem.nodes && m !in c && IsChain(mem.nodes, n, c)
    requires mem' == mem.(nodes := mem.nodes[m := mem.nodes[m].(next := n)])
    ensures Valid(mem') && IsChain(mem'.nodes, m, [m] + c)
    ensures Bytes(mem'.nodes, mem'.cdata, [m] + c) == At(mem.nodes, mem.cdata, m) + Bytes(mem.nodes, mem.cdata, c)
    ensures Others(mem, Elements([m] + c), mem', Elements([m] + c))
  {
    ValidNotNull(mem);
    RelinkedValid(mem, mem', m, n);
    RelinkedOthers(mem, mem', m, n, Elements([m] + c));
    hide At, Valid, Others;
    ChainEnds(mem.nodes, n, c);
    ChainKept(mem.nodes, mem'.nodes, n, c);
    ChainCons(mem'.nodes, m, c);
    BytesKept(mem.nodes, mem.cdata, mem'.nodes, mem'.cdata, c);
    assert ([m] + c)[1..] == c;
  }

  lemma RelinkedOthers(mem: Mem, mem': Mem, m: nat, n: nat, d: set<nat>)
    requires m in mem.nodes && m in d
    requires mem' == mem.(nodes := mem.nodes[m := mem.nodes[m].(next := n)])
    ensures Others(mem, d, mem', d)
    ensures forall a :: At(mem'.nodes, mem'.cdata, a) == At(mem.nodes, mem.cdata, a)
  {
  }

  lemma RelinkedValid(mem: Mem, mem': Mem, m: nat, n: nat)
    requires Valid(mem) && m in mem.nodes
    requires mem' == mem.(nodes := mem.nodes[m := mem.nodes[m].(next := n)])
    ensures Valid(mem')
  {
    assert forall a | a in mem.nodes :: NodeOk(mem.nodes[a], mem.cdata);
    ClusterSizes(mem);
    assert NodeOk(mem'.nodes[m], mem.cdata);
    hide NodeOk, StoreOk, ClusterOk;
    ValidChange(mem, mem');
  }

  /** A chain with no buffer in common with the one worked on stays a chain and keeps its bytes, also
      when it shares clusters with it. */
  lemma OtherChain(mem0: Mem, c: seq<nat>, mem: Mem, d: seq<nat>, m: nat, e: seq<nat>)
    requires Others(mem0, Elements(c), mem, Elements(d)) && IsChain(mem0.nodes, m, e)
    requires forall a | a in e :: a !in c
    ensures IsChain(mem.nodes, m, e) && Bytes(mem.nodes, mem.cdata, e) == Bytes(mem0.nodes, mem0.cdata, e)
  {
    hide At, IsChain;
    ChainEnds(mem0.nodes, m, e);
    forall a | a in e ensures a in mem.nodes && mem.nodes[a] == mem0.nodes[a] {
      assert a in mem0.nodes - Elements(c);
      assert a in mem.nodes - Elements(d);
    }
    ChainKept(mem0.nodes, mem.nodes, m, e);
    BytesKept(mem0.nodes, mem0.cdata, mem.nodes, mem.cdata, e);
  }

  lemma CanAppendLess(mem: Mem, m: nat, count: nat, less: nat, w: set<nat>)
    requires CanAppend(mem, m, count, w) && less <= count
    ensures CanAppend(mem, m, less, w)
  {
    forall a | a in w ensures !Touches(mem, m, a, less) { assert !Touches(mem, m, a, count); }
  }

  lemma CanAppendIn(mem: Mem, m: nat, count: nat, w: set<nat>, w': set<nat>)
    requires CanAppend(mem, m, count, w) && w' <= w
    ensures CanAppend(mem, m, count, w')
  {
  }

  /** Moving bytes to the front keeps the bytes of both together. */
  lemma Shifted(mem: Mem, mem': Mem, m: nat, c: seq<nat>, count: nat)
    requires c != [] && m !in c && c[0] !in c[1..]
    requires count <= |At(mem.nodes, mem.cdata, c[0])|
    requires At(mem'.nodes, mem'.cdata, m) == At(mem.nodes, mem.cdata, m) + At(mem.nodes, mem.cdata, c[0])[..count]
    requires At(mem'.nodes, mem'.cdata, c[0]) == At(mem.nodes, mem.cdata, c[0])[count..]
    requires forall a | a in c[1..] :: At(mem'.nodes, mem'.cdata, a) == At(mem.nodes, mem.cdata, a)
    ensures At(mem'.nodes, mem'.cdata, m) + Bytes(mem'.nodes, mem'.cdata, c)
         == At(mem.nodes, mem.cdata, m) + Bytes(mem.nodes, mem.cdata, c)
  {
    hide At;
    var x, y := At(mem.nodes, mem.cdata, m), At(mem.nodes, mem.cdata, c[0]);
    BytesKept(mem.nodes, mem.cdata, mem'.nodes, mem'.cdata, c[1..]);
    var z := Bytes(mem.nodes, mem.cdata, c[1..]);
    assert (x + y[..count]) + (y[count..] + z) == x + (y + z);
  }

  /** Releasing an empty first buffer keeps the bytes of a chain. */
  lemma Unlinked(mem: Mem, mem': Mem, c: seq<nat>)
    requires c != [] && c[0] !in c[1..] && At(mem.nodes, mem.cdata, c[0]) == []
    requires mem'.nodes == mem.nodes - {c[0]} && mem'.cdata == mem.cdata
    ensures Bytes(mem'.nodes, mem'.cdata, c[1..]) == Bytes(mem.nodes, mem.cdata, c)
    ensures forall a | a != c[0] :: At(mem'.nodes, mem'.cdata, a) == At(mem.nodes, mem.cdata, a)
  {
    forall a | a != c[0] ensures At(mem'.nodes, mem'.cdata, a) == At(mem.nodes, mem.cdata, a) {
      assert a in mem'.nodes <==> a in mem.nodes;
    }
    hide At;
    BytesKept(mem.nodes, mem.cdata, mem'.nodes, mem'.cdata, c[1..]);
  }

  lemma AreaFits(mem: Mem, m: nat, n: nat, count: nat, w: set<nat>)
    requires Valid(mem) && CanAppend(mem, m, count, w) && n in w && n in mem.nodes && count <= mem.nodes[n].len
    ensures m in mem.nodes && Room(mem, m, count) && !Touches(mem, m, n, count)
    ensures |Data(mem.nodes[n], mem.cdata)| == mem.nodes[n].len
    ensures At(mem.nodes, mem.cdata, n) == Data(mem.nodes[n], mem.cdata)
    ensures mem.nodes[m].ext ==> mem.nodes[m].cl in mem.cdata
  {
    assert NodeOk(mem.nodes[n], mem.cdata) && NodeOk(mem.nodes[m], mem.cdata);
  }

  /** The first count bytes of n went to the end of m, and nothing else changed. */
  ghost predicate MovedTo(mem: Mem, mem': Mem, m: nat, n: nat, count: nat, w: set<nat>)
  {
    && mem'.nodes.Keys == mem.nodes.Keys && mem'.cdata.Keys == mem.cdata.Keys
    && m in mem.nodes && n in mem.nodes && count <= |At(mem.nodes, mem.cdata, n)| == mem.nodes[n].len
    && At(mem'.nodes, mem'.cdata, m) == At(mem.nodes, mem.cdata, m) + At(mem.nodes, mem.cdata, n)[..count]
    && At(mem'.nodes, mem'.cdata, n) == At(mem.nodes, mem.cdata, n)[count..]
    && mem'.nodes[m] == mem.nodes[m].(len := mem.nodes[m].len + count, dat := mem'.nodes[m].dat)
    && mem'.nodes[n] == mem.nodes[n].(len := mem.nodes[n].len - count, data := mem'.nodes[n].data)
    && mem.nodes[n].data <= mem'.nodes[n].data && mem'.nodes[n].data + mem'.nodes[n].len <= mem.nodes[n].data + mem.nodes[n].len
    && (forall a | a in mem.nodes && a != m && a != n :: mem'.nodes[a] == mem.nodes[a])
    && (forall a | a in mem.nodes && a in w && a != m && a != n ::
          At(mem'.nodes, mem'.cdata, a) == At(mem.nodes, mem.cdata, a))
    && mem'.cdata == Written(mem, m, At(mem.nodes, mem.cdata, n)[..count])
  }

  lemma AppendParts(mem: Mem, m: nat, x: seq<byte>)
    requires Valid(mem) && Room(mem, m, |x|)
    ensures m in mem.nodes && (mem.nodes[m].ext ==> mem.nodes[m].cl in mem.cdata)
    ensures var mem' := Appended(mem, m, x);
      && mem'.nodes.Keys == mem.nodes.Keys && mem'.cdata.Keys == mem.cdata.Keys
      && mem' == mem.(nodes := mem'.nodes, cdata := mem'.cdata)
      && mem'.nodes[m] == mem.nodes[m].(len := mem.nodes[m].len + |x|, dat := mem'.nodes[m].dat)
      && mem'.cdata == Written(mem, m, x)
  {
    hide Splice;
    if mem.nodes[m].ext { ExtCluster(mem, m); }
  }

  lemma DropOthers(mem: Mem, n: nat, count: nat, a: nat)
    requires n in mem.nodes && count <= mem.nodes[n].len && a in mem.nodes && a != n
    ensures var mem' := Dropped(mem, n, count);
      mem'.nodes[a] == mem.nodes[a] && At(mem'.nodes, mem.cdata, a) == At(mem.nodes, mem.cdata, a)
  {
  }

  lemma DropParts(mem: Mem, n: nat, count: nat)
    requires n in mem.nodes && count <= mem.nodes[n].len
    ensures var mem' := Dropped(mem, n, count);
      && mem' == mem.(nodes := mem'.nodes) && mem'.nodes.Keys == mem.nodes.Keys
      && mem'.nodes[n] == mem.nodes[n].(len := mem.nodes[n].len - count, data := mem'.nodes[n].data)
      && mem.nodes[n].data <= mem'.nodes[n].data && mem'.nodes[n].data + mem'.nodes[n].len <= mem.nodes[n].data + mem.nodes[n].len
  {
  }

  lemma MovedIs(mem: Mem, m: nat, n: nat, x: seq<byte>, w: set<nat>)
    requires Valid(mem) && CanAppend(mem, m, |x|, w) && n in w && n in mem.nodes && n != m && Room(mem, m, |x|)
    requires |x| <= mem.nodes[n].len && x == Data(mem.nodes[n], mem.cdata)[..|x|]
    requires |Data(mem.nodes[n], mem.cdata)| == mem.nodes[n].len
    ensures var mem1 := Appended(mem, m, x);
      n in mem1.nodes && mem1.nodes[n] == mem.nodes[n] && MovedTo(mem, Dropped(mem1, n, |x|), m, n, |x|, w)
  {
    hide Valid, At, CanAppend, Appended, Dropped, Data, Room, Touches, Written;
    AreaFits(mem, m, n, |x|, w);
    var mem1 := Appended(mem, m, x);
    AppendParts(mem, m, x);
    ValidAppend(mem, m, x);
    AppendOthers(mem, m, x, n);
    DropParts(mem1, n, |x|);
    ValidDrop(mem1, n, |x|);
    var mem2 := Dropped(mem1, n, |x|);
    DropOthers(mem1, n, |x|, m);
    forall a | a in mem.nodes && a != m && a != n ensures mem2.nodes[a] == mem.nodes[a] {
      KeptIff(mem, m, x, a);
      DropOthers(mem1, n, |x|, a);
    }
    forall a | a in mem.nodes && a in w && a != m && a != n
      ensures At(mem2.nodes, mem2.cdata, a) == At(mem.nodes, mem.cdata, a)
    {
      AwayFrom(mem, m, |x|, w, a);
      AppendOthers(mem, m, x, a);
      DropOthers(mem1, n, |x|, a);
    }
  }

  lemma AwayFrom(mem: Mem, m: nat, count: nat, w: set<nat>, a: nat)
    requires CanAppend(mem, m, count, w) && a in w
    ensures !Touches(mem, m, a, count)
  {
  }

  /** Buffer m made external. */
  function WithExt(mem: Mem, m: nat): Mem
    requires m in mem.nodes
  {
    mem.(nodes := mem.nodes[m := mem.nodes[m].(ext := true, data := 0)])
  }

  function Zeros(): (d: seq<byte>)
    ensures |d| == MCLBYTES
  {
    seq(MCLBYTES, i => 0)
  }

  /** The first n clusters not yet in use, put on the free list one by one. */
  function Grown(mem: Mem, n: nat): Mem
    requires n <= |mem.spare|
    decreases n
  {
    if n == 0 then mem
    else
      var c := mem.spare[0];
      Grown(mem.(cdata := mem.cdata[c := Zeros()], free := [c] + mem.free, spare := mem.spare[1..]), n - 1)
  }

  // ---------- The array of counts ----------

  /** The words hold a count for every cluster that kernel memory has. */
  predicate Covers(words: map<nat, int>) {
    forall c: nat | c < NCLUSTERS :: c in words
  }

  /** Clusters of kernel memory, and not the first one. */
  predicate InMemory(s: seq<nat>) {
    forall i | 0 <= i < |s| :: 0 < s[i] < NCLUSTERS
  }

  /** The count of the cluster is in the array: the offset of the cluster is less than a quarter of
      kernel memory. */
  predicate InCounts(c: nat) {
    c * MCLBYTES < KernMalloc.KMEM_SIZE / LONG
  }

  /** bzero of the array. */
  function Cleared(words: map<nat, int>): (r: map<nat, int>)
    ensures r.Keys == words.Keys
  {
    map c | c in words :: if c < NCOUNTS then 0 else words[c]
  }

  /** Memory after mbufinit, but for the clusters that it takes at once. */
  function Fresh(room: map<nat, Mbuf>, spare: seq<nat>, words: map<nat, int>): Mem {
    Mem(map[], room, map[], Cleared(words), [], spare)
  }

  /** Every cluster taken from the kernel has the count of its users. */
  predicate CountsOk(mem: Mem) {
    forall c | c in mem.cdata :: c in mem.refs && mem.refs[c] == |Users(mem.nodes, c)|
  }

  lemma {:induction false} GrownCounts(mem: Mem, n: nat)
    requires n <= |mem.spare|
    ensures Grown(mem, n).nodes == mem.nodes && Grown(mem, n).refs == mem.refs
    ensures Grown(mem, n).cdata.Keys == mem.cdata.Keys + Elements(mem.spare[..n])
    decreases n
  {
    if n > 0 {
      var c := mem.spare[0];
      var mem' := mem.(cdata := mem.cdata[c := Zeros()], free := [c] + mem.free, spare := mem.spare[1..]);
      GrownCounts(mem', n - 1);
      assert mem.spare[..n][1..] == mem'.spare[..n - 1];
      ElementsCons(mem.spare[..n]);
    }
  }

  /** Memory full of ones. */
  lemma Ones(n: nat) returns (words: map<nat, int>)
    ensures forall c: nat | c < n :: c in words && words[c] == 1
  {
    words := map[];
    if n > 0 {
      words := Ones(n - 1);
      words := words[n - 1 := 1];
    }
  }

  /** The counts of the first n clusters are right, whatever memory held before, if and only if each of
      them has its count in the array. */
  lemma CountsRight(room: map<nat, Mbuf>, spare: seq<nat>, n: nat)
    requires n <= |spare| && InMemory(spare)
    ensures (forall words | Covers(words) :: CountsOk(Grown(Fresh(room, spare, words), n))) <==>
            (forall i | 0 <= i < n :: InCounts(spare[i]))
  {
    hide Grown, CountsOk, Cleared, InCounts;
    var ones := Ones(NCLUSTERS);
    CountsAre(room, spare, ones, n);
    forall i | 0 <= i < n ensures InCounts(spare[i]) <==> Cleared(ones)[spare[i]] == 0 { CountCleared(ones, spare[i]); }
    if forall i | 0 <= i < n :: InCounts(spare[i]) {
      forall words | Covers(words) ensures CountsOk(Grown(Fresh(room, spare, words), n)) {
        CountsAre(room, spare, words, n);
        forall i | 0 <= i < n ensures Cleared(words)[spare[i]] == 0 { CountCleared(words, spare[i]); }
      }
    }
  }

  /** The first n clusters have right counts just when their words are zero. */
  lemma CountsAre(room: map<nat, Mbuf>, spare: seq<nat>, words: map<nat, int>, n: nat)
    requires n <= |spare| && Covers(words) && InMemory(spare)
    ensures CountsOk(Grown(Fresh(room, spare, words), n)) <==> forall i | 0 <= i < n :: Cleared(words)[spare[i]] == 0
  {
    hide Grown, Cleared;
    GrownCounts(Fresh(room, spare, words), n);
    forall c | c in spare ensures Users(map[], c) == {} {}
    forall i | 0 <= i < n ensures spare[i] in Elements(spare[..n]) { assert spare[..n][i] == spare[i]; }
  }

  lemma CountCleared(words: map<nat, int>, c: nat)
    requires c in words
    ensures Cleared(words)[c] == if InCounts(c) then 0 else words[c]
  {
  }

  /** Buffer b comes to share the cluster of buffer a. */
  function Shared(mem: Mem, a: nat, b: nat): Mem
    requires a in mem.nodes && b in mem.nodes && mem.nodes[a].cl in mem.refs
  {
    var c := mem.nodes[a].cl;
    mem.(nodes := mem.nodes[b := mem.nodes[b].(ext := true, cl := c)], refs := mem.refs[c := mem.refs[c] + 1])
  }

  /** A word -1 behind the array: the cluster is on the free list again while b still refers to it. */
  lemma FreeInUse(mem: Mem, a: nat, b: nat)
    requires a in mem.nodes && b in mem.nodes && a != b && mem.free != []
    requires mem.free[0] in mem.refs && mem.refs[mem.free[0]] == -1
    ensures var c, mem' := mem.free[0], Released(Shared(Taken(mem, a), a, b), a);
      mem'.free == [c] + mem.free[1..] && b in Users(mem'.nodes, c)
  {
  }

  /** Memory with the length of buffer m set to 0. */
  function Emptied(mem: Mem, m: nat): Mem
    requires m in mem.nodes
  {
    mem.(nodes := mem.nodes[m := mem.nodes[m].(len := 0)])
  }

  /** New memory with the fields that MGET sets; the others keep what was left there. */
  function Blank(n: Mbuf, kind: nat): Mbuf {
    n.(kind := kind, data := 0, next := 0, nextpkt := 0, pkthdr := false, eor := false, ext := false, cast := false)
  }

  function Got(mem: Mem, a: nat, kind: nat): Mem
    requires a in mem.room
  {
    mem.(nodes := mem.nodes[a := Blank(mem.room[a], kind)], room := mem.room - {a})
  }

  function Elements(c: seq<nat>): set<nat> {
    set a | a in c
  }

  lemma ElementsCons(c: seq<nat>)
    requires c != []
    ensures Elements(c) == {c[0]} + Elements(c[1..])
    ensures NoDup(c) ==> c[0] !in Elements(c[1..])
  {
  }

  lemma {:induction false} ValidGrown(mem: Mem, m: nat, n: nat)
    requires m in mem.nodes && Valid(Emptied(mem, m)) && n <= |mem.spare|
    ensures Grown(mem, n).nodes == mem.nodes && Grown(mem, n).room == mem.room
    ensures n > 0 ==> Grown(mem, n).free != []
    ensures Valid(Emptied(Grown(mem, n), m))
    ensures forall c | c in mem.cdata :: c in Grown(mem, n).cdata && Grown(mem, n).cdata[c] == mem.cdata[c]
    decreases n
  {
    if n > 0 {
      var c := mem.spare[0];
      var mem' := mem.(cdata := mem.cdata[c := Zeros()], free := [c] + mem.free, spare := mem.spare[1..]);
      assert c in mem.spare && c !in mem.cdata;
      ValidGrow(Emptied(mem, m), Emptied(mem', m), c, Zeros());
      hide Valid;
      ValidGrown(mem', m, n - 1);
      GrownFree(mem', n - 1);
    }
  }

  lemma {:induction false} GrownFree(mem: Mem, n: nat)
    requires n <= |mem.spare|
    ensures |Grown(mem, n).free| == |mem.free| + n
    decreases n
  {
    if n > 0 {
      var c := mem.spare[0];
      GrownFree(mem.(cdata := mem.cdata[c := Zeros()], free := [c] + mem.free, spare := mem.spare[1..]), n - 1);
    }
  }

  lemma ValidTakenRaw(mem: Mem, m: nat)
    requires m in mem.nodes && !mem.nodes[m].ext && Valid(Emptied(mem, m)) && mem.free != []
    ensures mem.free[0] in mem.refs && mem.free[0] != 0 && Valid(Emptied(Taken(mem, m), m))
    ensures Users(Taken(mem, m).nodes, mem.free[0]) == {m}
    ensures Taken(mem, m) == mem.(nodes := mem.nodes[m := mem.nodes[m].(ext := true, data := 0, cl := mem.free[0])],
                                  refs := mem.refs[mem.free[0] := mem.refs[mem.free[0]] + 1], free := mem.free[1..])
  {
    var mem0 := Emptied(mem, m);
    ValidTaken(mem0, m);
    FreeNotNull(mem0);
    hide Valid;
    TakenEmptied(mem, m);
    SameUsers(Taken(mem0, m).nodes, Taken(mem, m).nodes, mem.free[0]);
  }

  lemma TakenEmptied(mem: Mem, m: nat)
    requires m in mem.nodes && mem.free != [] && mem.free[0] in mem.refs
    ensures Taken(Emptied(mem, m), m) == Emptied(Taken(mem, m), m)
    ensures SameClusters(Taken(Emptied(mem, m), m).nodes, Taken(mem, m).nodes)
    ensures SameClusters(Taken(mem, m).nodes, Taken(Emptied(mem, m), m).nodes)
  {
  }

  lemma SameUsers(n0: map<nat, Mbuf>, n1: map<nat, Mbuf>, c: nat)
    requires SameClusters(n0, n1) && SameClusters(n1, n0)
    ensures Users(n0, c) == Users(n1, c)
  {
  }

  lemma EmptiedValid(mem: Mem, m: nat)
    requires Valid(mem) && m in mem.nodes
    ensures Valid(Emptied(mem, m))
  {
    var mem' := Emptied(mem, m);
    assert forall a | a in mem.nodes :: NodeOk(mem.nodes[a], mem.cdata);
    ClusterSizes(mem);
    assert NodeOk(mem'.nodes[m], mem.cdata);
    hide NodeOk, ClusterOk;
    ValidChange(mem, mem');
  }

  /** A buffer whose length was not set yet can be released. */
  lemma ValidReleaseRaw(mem: Mem, m: nat)
    requires m in mem.nodes && Valid(Emptied(mem, m))
    ensures (mem.nodes[m].ext ==> mem.nodes[m].cl in mem.refs) && Valid(Released(mem, m))
  {
    var mem0 := Emptied(mem, m);
    ValidRelease(mem0, m);
    ReleasedRaw(mem, m);
    hide Valid, Released, Emptied;
    ValidRoom(Released(mem0, m), Released(mem, m));
  }

  lemma ReleasedRaw(mem: Mem, m: nat)
    requires m in mem.nodes && Valid(Emptied(mem, m)) && (mem.nodes[m].ext ==> mem.nodes[m].cl in mem.refs)
    ensures var r0, r := Released(Emptied(mem, m), m), Released(mem, m);
      r == r0.(room := r.room) && r.room.Keys == r0.room.Keys && forall a | a in r.room :: |r.room[a].dat| == MLEN
  {
    var mem0 := Emptied(mem, m);
    assert NodeOk(mem0.nodes[m], mem0.cdata);
    assert mem0.nodes - {m} == mem.nodes - {m};
  }

  /** What free memory holds does not matter. */
  lemma ValidRoom(mem: Mem, mem': Mem)
    requires Valid(mem) && mem' == mem.(room := mem'.room)
    requires mem'.room.Keys == mem.room.Keys && forall a | a in mem'.room :: |mem'.room[a].dat| == MLEN
    ensures Valid(mem')
  {
    assert StoreOk(mem');
    hide StoreOk, NodeOk;
    forall c | c in mem'.cdata ensures ClusterOk(mem', c) { assert ClusterOk(mem, c); }
  }

  lemma FreeNotNull(mem: Mem)
    requires Valid(mem) && mem.free != []
    ensures mem.free[0] != 0 && mem.free[0] in mem.refs
  {
    assert ClusterOk(mem, mem.free[0]);
  }

  /** A buffer made to refer to a cluster that it does not count for leaves memory invalid. */
  lemma StaleCluster(mem: Mem, m: nat)
    requires m in mem.nodes && !mem.nodes[m].ext && Valid(Emptied(mem, m))
    ensures !Valid(Emptied(WithExt(mem, m), m))
  {
    var n := mem.nodes[m].(ext := true, data := 0);
    var mem0, mem1 := Emptied(mem, m), Emptied(mem.(nodes := mem.nodes[m := n]), m);
    var c := n.cl;
    assert Users(mem1.nodes, c) == Users(mem0.nodes, c) + {m};
    assert m !in Users(mem0.nodes, c);
    if c in mem.cdata {
      assert ClusterOk(mem0, c);
      assert !ClusterOk(mem1, c);
    } else {
      assert !NodeOk(mem1.nodes[m], mem1.cdata);
    }
  }

  lemma MinusMore(nodes: map<nat, Mbuf>, all: set<nat>, rest: set<nat>, m: nat, rest': set<nat>)
    requires rest <= all && m !in rest' && rest == {m} + rest'
    ensures nodes - (all - rest) - {m} == nodes - (all - rest')
  {
    assert all - rest' == (all - rest) + {m};
  }

  lemma ValidNotNull(mem: Mem)
    requires Valid(mem)
    ensures 0 !in mem.nodes && 0 !in mem.room && mem.nodes.Keys !! mem.room.Keys
  {
  }

  lemma ChainEnds(nodes: map<nat, Mbuf>, m: nat, c: seq<nat>)
    requires IsChain(nodes, m, c)
    ensures (m == 0 <==> c == []) && NoDup(c) && Elements(c) <= nodes.Keys
    ensures c != [] ==> c[0] == m
    ensures forall a | a in c :: a in nodes
  {
    forall a | a in c ensures a in nodes {
      var i: nat :| i < |c| && c[i] == a;
      assert Linked(nodes, c, i);
    }
  }
}

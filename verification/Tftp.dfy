/** The TFTP client of fs/netio/tftp.c against a server that follows RFC 1350 (sections 2, 4 and 6),
    over a network that may lose, repeat, delay and reorder packets.

    The network is the set of all packets ever sent: any of them may arrive at any time, any number
    of times, or never.  What happens while the client waits is read off a finite schedule, and a
    call that is still waiting when the schedule ends reports `cut`; as the schedule is arbitrary,
    what is proved holds in every state of every run. */
module TftpWire {
  import opened Common

  type u16 = x: int | 0 <= x < 0x1_0000
  type u32 = x: int | 0 <= x < 0x1_0000_0000

  const BLKSIZE: nat := 512
  const WORD: nat := 0x1_0000_0000  // positions are 32 bits wide

  datatype Packet =
    | Rrq
    | Wrq
    | Data(block: u16, data: seq<byte>)
    | Ack(block: u16)
    | Error(code: u16)
    | Runt  // fewer than four bytes

  /** A block number as the 16-bit field of a packet. */
  function Wire(k: nat): u16 {
    k % 0x1_0000
  }

  /** Block k (from 1) of a file: its 512 bytes, fewer for the last one. */
  function Chunk(file: seq<byte>, k: nat): (r: seq<byte>)
    requires 1 <= k
    ensures |r| <= BLKSIZE
  {
    var from := BLKSIZE * (k - 1);
    if |file| <= from then [] else if |file| < from + BLKSIZE then file[from..] else file[from..from + BLKSIZE]
  }

  /** Blocks of a file: the last one is short, and empty after a whole number of full ones. */
  function Blocks(file: seq<byte>): nat {
    |file| / BLKSIZE + 1
  }

  lemma LastBlock(file: seq<byte>, k: nat)
    requires 1 <= k && BLKSIZE * (k - 1) <= |file|
    ensures |Chunk(file, k)| < BLKSIZE <==> k >= Blocks(file)
    ensures k <= Blocks(file)
  {
  }

  // ---------- The server ----------

  /** Waiting for a request; sending a file, of which blocks 1, ..., hi were sent; or receiving one,
      of which blocks 1, ..., hi arrived. */
  datatype Server =
    | Idle
    | Serving(hi: nat)
    | Taking(hi: nat, held: seq<byte>, done: bool)

  /** What the server does on a packet. */
  function Step(file: seq<byte>, s: Server, p: Packet): Server {
    match s
    case Idle => if p.Rrq? then Serving(1) else if p.Wrq? then Taking(0, [], false) else s
    case Serving(hi) =>
      if p.Ack? && p.block == Wire(hi) && 0 < hi && |Chunk(file, hi)| == BLKSIZE then Serving(hi + 1) else s
    case Taking(hi, held, done) =>
      if p.Data? && !done && p.block == Wire(hi + 1) then Taking(hi + 1, held + p.data, |p.data| < BLKSIZE) else s
  }

  function Run(file: seq<byte>, s: Server, trace: seq<Packet>): Server {
    if trace == [] then s else Step(file, Run(file, s, trace[..|trace| - 1]), trace[|trace| - 1])
  }

  /** The packet is the k-th data block or acknowledgment that the server sent, or an error or a
      fragment, which may come at any time. */
  predicate Came(file: seq<byte>, s: Server, p: Packet, k: nat) {
    || p.Error? || p.Runt?
    || (s.Serving? && 1 <= k <= s.hi && p == Data(Wire(k), Chunk(file, k)))
    || (s.Taking? && k <= s.hi && p == Ack(Wire(k)))
  }

  /** What happens next: the server handles a packet, one of its packets arrives, an error or a
      fragment arrives, or the local network layer refuses to send. */
  datatype Event =
    | Serve(p: Packet)
    | Arrive(k: nat)
    | Complain(code: u16)
    | Fragment
    | Refuse

  /** The server sent block or acknowledgment k. */
  predicate Sends(s: Server, k: nat) {
    (s.Serving? && 1 <= k <= s.hi) || (s.Taking? && k <= s.hi)
  }

  /** What becomes of a client that waits: it waits for ever, or an event reaches it and the rest is still
      to come. */
  datatype Wake =
    | Asleep(server: Server)
    | Awake(server: Server, ev: Event, rest: seq<Event>)

  function Wait(file: seq<byte>, s: Server, sent: set<Packet>, schedule: seq<Event>): Wake
    decreases |schedule|
  {
    if schedule == [] then Asleep(s)
    else match schedule[0]
      case Serve(p) => Wait(file, if p in sent then Step(file, s, p) else s, sent, schedule[1..])
      case Arrive(k) => if Sends(s, k) then Awake(s, schedule[0], schedule[1..]) else Wait(file, s, sent, schedule[1..])
      case Refuse => Wait(file, s, sent, schedule[1..])
      case _ => Awake(s, schedule[0], schedule[1..])
  }

  /** The packet is served, and block or acknowledgment k answers it. */
  lemma Prompt(file: seq<byte>, s: Server, sent: set<Packet>, schedule: seq<Event>, p: Packet, k: nat)
    requires |schedule| >= 2 && schedule[0] == Serve(p) && schedule[1] == Arrive(k) && p in sent && Sends(Step(file, s, p), k)
    ensures Wait(file, s, sent, schedule) == Awake(Step(file, s, p), Arrive(k), schedule[2..])
  {
    hide Step, Sends;
    assert schedule[1..][0] == schedule[1] && schedule[1..][1..] == schedule[2..];
  }

  /** What goes over the wire before block k: the request or acknowledgment that asks for it, or the block. */
  function Asking(file: seq<byte>, reading: bool, k: nat): Packet
    requires 1 <= k
  {
    if !reading then Data(Wire(k), Chunk(file, k)) else if k == 1 then Rrq else Ack(Wire(k - 1))
  }

  /** A schedule in which every packet that is needed from block k on is served, and answered at once. */
  function Quick(file: seq<byte>, reading: bool, k: nat): seq<Event>
    requires 1 <= k
    decreases Blocks(file) - k
  {
    if k > Blocks(file) then [] else [Serve(Asking(file, reading, k)), Arrive(k)] + Quick(file, reading, k + 1)
  }

  lemma QuickStep(file: seq<byte>, reading: bool, k: nat)
    requires 1 <= k
    ensures var q := Quick(file, reading, k);
      if k > Blocks(file) then q == []
      else |q| >= 2 && q[0] == Serve(Asking(file, reading, k)) && q[1] == Arrive(k) && q[2..] == Quick(file, reading, k + 1)
           && (|q| == 2 || q[2] != Refuse)
  {
    hide Asking;
    if k <= Blocks(file) { assert Quick(file, reading, k)[2..] == Quick(file, reading, k + 1); }
  }

  /** The event by which the packet reached the client. */
  predicate Brings(e: Event, p: Packet) {
    match p
    case Error(code) => e == Complain(code)
    case Runt => e == Fragment
    case Data(n, _) => e.Arrive? && n == Wire(e.k)
    case Ack(n) => e.Arrive? && n == Wire(e.k)
    case _ => false
  }

  /** Packets that a client waiting for `block` ignores: fragments, packets of the other
      direction's kind, and the number before `block`. */
  predicate Ignored(p: Packet, reading: bool, block: int) {
    match p
    case Error(_) => false
    case Data(n, _) => !reading || n == block - 1
    case Ack(n) => reading || n == block - 1
    case _ => true
  }

  /** Some event makes a client that waits for `block` give up: the local network layer refuses a packet,
      the server complains, or a block or acknowledgment arrives that is neither `block` nor the one before. */
  predicate Trouble(e: Event, block: int) {
    e.Refuse? || e.Complain? || (e.Arrive? && Wire(e.k) != block && Wire(e.k) != block - 1)
  }

  predicate Troubled(schedule: seq<Event>, block: int) {
    exists e :: e in schedule && Trouble(e, block)
  }

  /** Nothing that reached the client went wrong: no packet was refused, the server did not complain, and
      blocks or acknowledgments, whose numbers fit in their field, came in order, repeated or not. */
  predicate Smooth(heard: seq<Event>) {
    forall j | 0 <= j < |heard| :: !heard[j].Refuse? && !heard[j].Complain? && (heard[j].Arrive? ==> InOrder(heard, j))
  }

  predicate InOrder(heard: seq<Event>, j: nat)
    requires j < |heard| && heard[j].Arrive?
  {
    heard[j].k < 0x1_0000 && forall i | 0 <= i < j && heard[i].Arrive? :: heard[i].k <= heard[j].k
  }

  /** Nothing went wrong so far, and no block behind k came. */
  predicate UpTo(heard: seq<Event>, k: int) {
    Smooth(heard) && forall e | e in heard && e.Arrive? :: e.k <= k
  }

  lemma Rough(heard: seq<Event>, e: Event)
    requires e in heard && (e.Refuse? || e.Complain? || (e.Arrive? && e.k >= 0x1_0000))
    ensures !Smooth(heard)
  {
    var j: nat :| j < |heard| && heard[j] == e;
  }

  /** A block or acknowledgment that comes after a later one. */
  lemma OutOfOrder(heard: seq<Event>, m: nat, n: nat)
    requires Arrive(m) in heard && n < m
    ensures !Smooth(heard + [Arrive(n)])
  {
    var all := heard + [Arrive(n)];
    var i: nat :| i < |heard| && heard[i] == Arrive(m);
    assert all[i] == Arrive(m) && all[|heard|] == Arrive(n);
    assert !InOrder(all, |heard|);
  }

  lemma StillRough(heard: seq<Event>, heard': seq<Event>)
    requires heard <= heard'
    ensures Smooth(heard') ==> Smooth(heard)
  {
    if Smooth(heard') {
      forall j | 0 <= j < |heard|
        ensures !heard[j].Refuse? && !heard[j].Complain? && (heard[j].Arrive? ==> InOrder(heard, j))
      {
        assert heard[j] == heard'[j];
        assert heard'[j].Arrive? ==> InOrder(heard', j);
      }
    }
  }

  /** The next packet is a fragment, or a block that is not before those that came. */
  lemma SmoothMore(heard: seq<Event>, e: Event, k: int, k': int)
    requires UpTo(heard, k) && k <= k' && (e.Fragment? || (e.Arrive? && k <= e.k <= k' && e.k < 0x1_0000))
    ensures UpTo(heard + [e], k')
  {
    var all := heard + [e];
    forall j | 0 <= j < |all|
      ensures !all[j].Refuse? && !all[j].Complain? && (all[j].Arrive? ==> InOrder(all, j))
    {
      if j < |heard| {
        assert all[j] == heard[j];
      } else if e.Arrive? {
        forall i | 0 <= i < j && all[i].Arrive? ensures all[i].k <= all[j].k { assert all[i] in heard; }
      }
    }
  }

  /** a is b with some elements left out. */
  predicate Sub<T(==)>(a: seq<T>, b: seq<T>) {
    a == [] || (b != [] && (Sub(a, b[..|b| - 1]) || (a[|a| - 1] == b[|b| - 1] && Sub(a[..|a| - 1], b[..|b| - 1]))))
  }

  lemma SubMore<T>(a: seq<T>, b: seq<T>, e: T)
    requires Sub(a, b)
    ensures Sub(a, b + [e]) && Sub(a + [e], b + [e])
  {
    assert (b + [e])[..|b|] == b && (a + [e])[..|a|] == a;
  }

  predicate Rest(later: seq<Event>, schedule: seq<Event>) {
    forall e | e in later :: e in schedule
  }

  lemma LaterTrouble(later: seq<Event>, schedule: seq<Event>, block: int)
    requires Rest(later, schedule) && Troubled(later, block)
    ensures Troubled(schedule, block)
  {
    var e :| e in later && Trouble(e, block);
    assert e in schedule;
  }

  lemma RefusalTrouble(schedule: seq<Event>, block: int)
    requires Refuse in schedule
    ensures Troubled(schedule, block)
  {
    TroubleBy(Refuse, schedule, block);
  }

  lemma TroubleBy(e: Event, schedule: seq<Event>, block: int)
    requires e in schedule && Trouble(e, block)
    ensures Troubled(schedule, block)
  {
  }

  /** The server and the network as the client sees them. */
  class Link {
    const file: seq<byte>
    ghost const all: seq<Event>
    var server: Server
    var sent: set<Packet>
    var schedule: seq<Event>
    ghost var past: seq<Event>
    ghost var heard: seq<Event>  // those of the past that reached the client

    constructor (file: seq<byte>, schedule: seq<Event>)
      ensures this.file == file && server == Idle && sent == {} && this.schedule == schedule
      ensures Valid() && all == schedule && past == heard == []
    {
      this.file, this.schedule, server, sent := file, schedule, Idle, {};
      all, past, heard := schedule, [], [];
    }

    /** The past and what is to come are the whole run. */
    ghost predicate Valid()
      reads this
    {
      past + schedule == all && Sub(heard, past)
    }

    /** The next packet sent will be refused. */
    predicate Refuses()
      reads this
    {
      schedule != [] && schedule[0] == Refuse
    }

    /** The packet req is served, block or acknowledgment k answers it, and no refusal comes right behind. */
    predicate Answers(req: Packet, k: nat)
      reads this
    {
      && |schedule| >= 2 && schedule[0] == Serve(req) && schedule[1] == Arrive(k) && Sends(Step(file, server, req), k)
      && (|schedule| == 2 || schedule[2] != Refuse)
    }

    /** A refusal was all that happened. */
    predicate Skipped(before: seq<Event>, s: Server)
      requires before != []
      reads this
    {
      schedule == before[1..] && server == s
    }

    /** sendto: the packet joins the set of packets sent, unless it is refused. */
    method Send(p: Packet) returns (ok: bool)
      requires Valid()
      modifies this
      ensures Valid() && heard == if ok then old(heard) else old(heard) + [Refuse]
      ensures ok <==> old(schedule) == [] || old(schedule)[0] != Refuse
      ensures server == old(server) && schedule == if ok then old(schedule) else old(schedule)[1..]
      ensures sent == if ok then old(sent) + {p} else old(sent)
      ensures Rest(schedule, old(schedule)) && (!ok ==> Refuse in old(schedule))
    {
      ok := schedule == [] || schedule[0] != Refuse;
      if ok {
        sent := sent + {p};
      } else {
        SubMore(heard, past, Refuse);
        past, heard, schedule := past + [Refuse], heard + [Refuse], schedule[1..];
      }
    }

    /** recvfrom: waits until a packet arrives, while the server handles packets that were sent. */
    method Recv() returns (cut: bool, p: Packet, ghost k: nat, ghost trace: seq<Packet>, ghost ev: Event)
      requires Valid()
      modifies this
      ensures Valid() && heard == if cut then old(heard) else old(heard) + [ev]
      ensures Rest(schedule, old(schedule)) && (!cut ==> ev in old(schedule) && Brings(ev, p))
      ensures sent == old(sent) && |schedule| <= |old(schedule)|
      ensures !cut ==> |schedule| < |old(schedule)|
      ensures (forall q | q in trace :: q in sent) && server == Run(file, old(server), trace)
      ensures !cut ==> Came(file, server, p, k) && (p.Data? || p.Ack? ==> ev == Arrive(k))
      ensures Wait(file, old(server), sent, old(schedule)) == if cut then Asleep(server) else Awake(server, ev, schedule)
    {
      trace, cut, p, k, ev := [], true, Runt, 0, Fragment;
      while cut && |schedule| > 0
        invariant Valid() && heard == if cut then old(heard) else old(heard) + [ev]
        invariant Rest(schedule, old(schedule)) && (!cut ==> ev in old(schedule) && Brings(ev, p))
        invariant sent == old(sent) && |schedule| <= |old(schedule)|
        invariant !cut ==> |schedule| < |old(schedule)|
        invariant (forall q | q in trace :: q in sent) && server == Run(file, old(server), trace)
        invariant !cut ==> Came(file, server, p, k) && (p.Data? || p.Ack? ==> ev == Arrive(k))
        invariant Wait(file, old(server), sent, old(schedule)) ==
          if cut then Wait(file, server, sent, schedule) else Awake(server, ev, schedule)
        decreases |schedule|
      {
        var e := schedule[0];
        SubMore(heard, past, e);
        past, schedule := past + [e], schedule[1..];
        match e {
          case Serve(q) =>
            if q in sent {
              server := Step(file, server, q);
              assert (trace + [q])[..|trace|] == trace;
              trace := trace + [q];
            }
          case Arrive(n) =>
            if server.Serving? && 1 <= n <= server.hi {
              cut, p, k := false, Data(Wire(n), Chunk(file, n)), n;
            } else if server.Taking? && n <= server.hi {
              cut, p, k := false, Ack(Wire(n)), n;
            }
          case Complain(code) => cut, p := false, Error(code);
          case Fragment => cut, p := false, Runt;
          case Refuse =>
        }
        if !cut { ev, heard := e, heard + [e]; }
      }
    }
  }
}

module Tftp {
  import opened Common
  import opened TftpWire

  // ---------- Reading: what the server has sent ----------

  /** Blocks 1, ..., acked of the file were acknowledged, in packets whose numbers did not wrap
      around, and the server sent no more than one block beyond. */
  predicate ReadOk(s: Server, sent: set<Packet>, acked: nat) {
    && acked < 0x1_0000
    && (s.Idle? || (s.Serving? && 1 <= s.hi <= acked + 1))
    && forall p | p in sent :: p.Rrq? || p.Error? || (p.Ack? && 1 <= p.block <= acked)
  }

  lemma ReadStep(file: seq<byte>, s: Server, sent: set<Packet>, acked: nat, p: Packet)
    requires ReadOk(s, sent, acked) && p in sent
    ensures ReadOk(Step(file, s, p), sent, acked)
  {
  }

  lemma {:induction false} ReadRun(file: seq<byte>, s: Server, sent: set<Packet>, acked: nat, trace: seq<Packet>)
    requires ReadOk(s, sent, acked) && forall p | p in trace :: p in sent
    ensures ReadOk(Run(file, s, trace), sent, acked)
  {
    hide ReadOk, Step;
    if trace != [] {
      ReadRun(file, s, sent, acked, trace[..|trace| - 1]);
      ReadStep(file, Run(file, s, trace[..|trace| - 1]), sent, acked, trace[|trace| - 1]);
    }
  }

  // ---------- Writing: what the server holds ----------

  function Concat(chunks: seq<seq<byte>>): seq<byte> {
    if chunks == [] then [] else Concat(chunks[..|chunks| - 1]) + chunks[|chunks| - 1]
  }

  predicate IsChunk(p: Packet, chunks: seq<seq<byte>>, k: nat) {
    p.Data? && 1 <= k <= |chunks| && p.block == Wire(k) && p.data == chunks[k - 1]
  }

  /** The data packets sent carry the chunks, and the server holds the first of them. */
  predicate WriteOk(s: Server, sent: set<Packet>, chunks: seq<seq<byte>>) {
    && |chunks| < 0x1_0000
    && (forall p | p in sent :: p.Wrq? || (p.Data? && IsChunk(p, chunks, p.block)))
    && (s.Idle? || (s.Taking? && s.hi <= |chunks| && s.held == Concat(chunks[..s.hi])
                    && (s.done <==> s.hi > 0 && |chunks[s.hi - 1]| < BLKSIZE)))
  }

  lemma WriteStep(file: seq<byte>, s: Server, sent: set<Packet>, chunks: seq<seq<byte>>, p: Packet)
    requires WriteOk(s, sent, chunks) && p in sent
    ensures WriteOk(Step(file, s, p), sent, chunks) && (s.Taking? ==> Step(file, s, p).Taking?)
  {
    if s.Taking? && p.Data? && !s.done && p.block == Wire(s.hi + 1) {
      assert IsChunk(p, chunks, p.block);
      assert chunks[..s.hi + 1][..s.hi] == chunks[..s.hi];
    }
  }

  lemma {:induction false} WriteRun(file: seq<byte>, s: Server, sent: set<Packet>, chunks: seq<seq<byte>>,
                                    trace: seq<Packet>)
    requires WriteOk(s, sent, chunks) && forall p | p in trace :: p in sent
    ensures WriteOk(Run(file, s, trace), sent, chunks) && (s.Taking? ==> Run(file, s, trace).Taking?)
  {
    hide WriteOk, Step;
    if trace != [] {
      WriteRun(file, s, sent, chunks, trace[..|trace| - 1]);
      WriteStep(file, Run(file, s, trace[..|trace| - 1]), sent, chunks, trace[|trace| - 1]);
    }
  }

  lemma WriteLess(s: Server, sent: set<Packet>, sent': set<Packet>, chunks: seq<seq<byte>>)
    requires WriteOk(s, sent', chunks) && sent <= sent'
    ensures WriteOk(s, sent, chunks)
  {
  }

  /** A new chunk may be sent. */
  lemma WriteMore(s: Server, sent: set<Packet>, chunks: seq<seq<byte>>, d: seq<byte>)
    requires WriteOk(s, sent, chunks) && |chunks| + 1 < 0x1_0000
    ensures WriteOk(s, sent + {Data(Wire(|chunks| + 1), d)}, chunks + [d])
  {
    forall p | p in sent + {Data(Wire(|chunks| + 1), d)}
      ensures p.Wrq? || (p.Data? && IsChunk(p, chunks + [d], p.block))
    {
      if p in sent && p.Data? { assert IsChunk(p, chunks, p.block); }
    }
    if s.Taking? { assert (chunks + [d])[..s.hi] == chunks[..s.hi]; }
  }

  // ---------- The client ----------

  method Memcpy(dst: array<byte>, at: nat, src: array<byte>, from: nat, n: nat)
    requires dst != src && at + n <= dst.Length && from + n <= src.Length
    modifies dst
    ensures dst[..at + n] == old(dst[..at]) + src[from..from + n]
    ensures dst[at + n..] == old(dst[..])[at + n..]
  {
    forall i | 0 <= i < n { dst[at + i] := src[from + i]; }
    assert dst[at..at + n] == src[from..from + n];
    assert dst[..at] == old(dst[..at]);
    assert dst[..at + n] == dst[..at] + dst[at..at + n];
  }

  datatype Whence = SeekSet | SeekCur | SeekEnd

  /** The position a seek asks for. */
  function Target(foffs: u32, off: u32, whence: Whence): u32 {
    if whence == SeekCur then (foffs + off) % WORD else off
  }

  /** An offset from the current position may be negative, in two's complement. */
  lemma TargetIs(foffs: u32, d: int)
    requires -0x8000_0000 <= d < 0x8000_0000 && 0 <= foffs + d < WORD
    ensures Target(foffs, (d + WORD) % WORD, SeekCur) == foffs + d
    ensures d >= 0 ==> Target(foffs, d, SeekSet) == d
  {
  }

  /** An open transfer.  `data` is the data part of the packet buffer tf->buf; positions are 32-bit
      unsigned, as the source compares them.  `chunks` lists the data blocks sent so far, and `good`
      says that every tftpwrq returned success.  `seen` is what was refused or arrived while the client
      waited for an answer. */
  class TftpFile {
    const link: Link
    const writing: bool
    const data: array<byte>
    var block: nat
    var start: u32
    var end: u32
    var foffs: u32
    var eof: bool
    ghost var chunks: seq<seq<byte>>
    ghost var good: bool
    ghost var seen: seq<Event>

    constructor (link: Link, writing: bool)
      ensures this.link == link && this.writing == writing && fresh(data) && data.Length == BLKSIZE
      ensures block == (if writing then 0 else 1) && start == end == foffs == 0 && !eof
      ensures chunks == [] && good && seen == []
    {
      this.link, this.writing := link, writing;
      data := new byte[BLKSIZE];
      block := if writing then 0 else 1;
      start, end, foffs, eof, chunks, good, seen := 0, 0, 0, false, [], true, [];
    }

    /** Sends a read request or an acknowledgment and waits for the block that answers it; the result
        is its size, or -1. */
    method Request(req: Packet) returns (cut: bool, size: int)
      requires block >= 1 && data.Length == BLKSIZE && link.Valid()
      requires ReadOk(link.server, link.sent, block - 1) && Expecting()
      requires req == Rrq || (req == Ack(Wire(block - 1)) && block > 1)
      modifies this`eof, this`seen, data, link
      ensures link.Valid() && seen <= link.heard && |link.schedule| <= |old(link.schedule)|
      ensures !cut && size < 0 ==> !Smooth(seen)
      ensures !cut && size >= 0 && !old(eof) ==> Accepted(size)
      ensures old(eof) ==> eof && !cut && size <= 0 && data[..] == old(data[..]) && (size == 0 ==> seen == old(seen))
      ensures !cut && size >= 0 && !old(eof) ==> block < 0x1_0000 && |link.schedule| < |old(link.schedule)|
      ensures !cut && size < 0 ==> eof == old(eof)
      ensures size >= -1
      ensures Rest(link.schedule, old(link.schedule)) && (!cut && size < 0 ==> Troubled(old(link.schedule), block))
      ensures old(link.sent) <= link.sent && (if old(link.Refuses()) then !cut && size == -1 else req in link.sent)
      ensures old(eof) && !old(link.Refuses()) ==> size == 0 && link.schedule == old(link.schedule)
      ensures !old(eof) && old(link.Answers(req, block)) && block < 0x1_0000 ==>
        && !cut && size >= 0 && link.heard == seen
        && link.server == Step(link.file, old(link.server), req) && link.schedule == old(link.schedule)[2..]
    {
      hide ReadOk, Came, Run, Chunk, Troubled, Smooth, UpTo, Sub, Step, Wait, Sends;
      cut, size := false, -1;
      var waiting := true;
      ghost var first := true;
      while waiting && !cut
        invariant link.Valid() && seen <= link.heard && |link.schedule| <= |old(link.schedule)|
        invariant waiting && !cut ==> ReadOk(link.server, link.sent, block - 1) && Expecting() && eof == old(eof) && size == -1
        invariant old(eof) ==> eof && !cut && size <= 0 && data[..] == old(data[..]) && (waiting || size == 0 ==> seen == old(seen))
        invariant !cut && size >= 0 && !old(eof) ==> Accepted(size) && |link.schedule| < |old(link.schedule)|
        invariant !cut && size < 0 ==> eof == old(eof)
        invariant size >= -1
        invariant Rest(link.schedule, old(link.schedule))
        invariant !cut && size < 0 && !waiting ==> Troubled(old(link.schedule), block) && !Smooth(seen)
        invariant first ==> waiting && !cut && link.server == old(link.server) && link.schedule == old(link.schedule) && link.sent == old(link.sent)
        invariant !first ==> old(link.sent) <= link.sent && (if old(link.Refuses()) then !cut && !waiting && size == -1 else req in link.sent)
        invariant !first && old(eof) && !old(link.Refuses()) ==> size == 0 && !waiting && link.schedule == old(link.schedule)
        invariant !first && !old(eof) && old(link.Answers(req, block)) && block < 0x1_0000 ==>
          && !cut && !waiting && size >= 0 && link.heard == seen
          && link.server == Step(link.file, old(link.server), req) && link.schedule == old(link.schedule)[2..]
        decreases !cut && waiting, |link.schedule|
      {
        ghost var sent, before := link.sent, link.schedule;
        var sentOk := link.Send(req);
        if !sentOk {
          seen := link.heard;
          RefusalTrouble(old(link.schedule), block);
          Rough(seen, Refuse);
          waiting := false;
        } else {
          ReadSent(link.server, sent, link.sent, block - 1, req);
          if eof {
            size, waiting := 0, false;
          } else {
            ghost var got;
            before := link.schedule;
            cut, size, waiting, got := Answer(req);
            if !cut && !waiting && size < 0 { LaterTrouble(before, old(link.schedule), block); }
          }
        }
        first := false;
      }
    }

    /** Nothing has gone wrong, and the last block that came is the one before `block`. */
    ghost predicate Expecting()
      reads this`block, this`seen, link
    {
      seen == link.heard && UpTo(seen, block - 1) && (block > 1 ==> Arrive(block - 1) in seen)
    }

    /** The block that was waited for is in the buffer. */
    ghost predicate Accepted(size: nat)
      reads this`block, this`eof, this`seen, data, link
    {
      && 1 <= block < 0x1_0000 && size <= data.Length
      && size == |Chunk(link.file, block)| && data[..size] == Chunk(link.file, block)
      && UpTo(seen, block) && Arrive(block) in seen && (size > 0 ==> seen == link.heard)
      && (size == 0 ==> Ack(Wire(block)) in link.sent || link.heard == seen + [Refuse])
      && (eof <==> size < BLKSIZE)
      && ReadOk(link.server, link.sent, block)
    }

    /** The block waited for has come; an empty one, which ends the file, is acknowledged at once. */
    method Take(n: nat) returns (size: nat)
      requires data.Length == BLKSIZE && link.Valid() && seen == link.heard && 1 <= block < 0x1_0000 && !eof
      requires n == |Chunk(link.file, block)| && data[..n] == Chunk(link.file, block) && UpTo(seen, block) && Arrive(block) in seen
      requires ReadOk(link.server, link.sent, block)
      modifies this`eof, link
      ensures link.Valid() && seen <= link.heard && size == n && Accepted(size) && link.server == old(link.server)
      ensures link.sent == old(link.sent) + if size == 0 && link.heard == seen then {Ack(Wire(block))} else {}
      ensures Rest(link.schedule, old(link.schedule)) && |link.schedule| <= |old(link.schedule)|
      ensures size > 0 || !old(link.Refuses()) ==> link.schedule == old(link.schedule) && link.heard == seen
    {
      hide ReadOk, Chunk, Smooth, UpTo, Sub;
      size := n;
      if size < BLKSIZE { eof := true; }
      if size == 0 {
        var sentOk := link.Send(Ack(Wire(block)));
        if sentOk { ReadSent(link.server, old(link.sent), link.sent, block, Ack(Wire(block))); }
      }
    }

    /** Receives one packet, after req was sent, and handles it. */
    method Answer(ghost req: Packet) returns (cut: bool, size: int, waiting: bool, ghost got: Packet)
      requires block >= 1 && data.Length == BLKSIZE && !eof && link.Valid()
      requires ReadOk(link.server, link.sent, block - 1) && Expecting()
      modifies this`eof, this`seen, data, link
      ensures link.Valid() && old(seen) <= seen <= link.heard
      ensures !cut && !waiting && size < 0 ==> !Smooth(seen)
      ensures |link.schedule| <= |old(link.schedule)|
      ensures !cut ==> |link.schedule| < |old(link.schedule)|
      ensures !cut && waiting ==> ReadOk(link.server, link.sent, block - 1) && Expecting() && size == -1
      ensures cut || size < 0 ==> !eof
      ensures !cut && size >= 0 ==> Accepted(size)
      ensures size >= -1
      ensures Rest(link.schedule, old(link.schedule))
      ensures !cut ==> (waiting <==> Ignored(got, true, block)) && (size >= 0 <==> got.Data? && got.block == block)
      ensures !cut ==> exists ev | ev in old(link.schedule) :: Brings(ev, got)
      ensures !cut && !waiting && size < 0 ==> Troubled(old(link.schedule), block)
      ensures link.sent == old(link.sent) + if !cut && size == 0 && link.heard == seen then {Ack(Wire(block))} else {}
      ensures old(link.Answers(req, block)) && req in old(link.sent) && block < 0x1_0000 ==>
        && !cut && size >= 0 && link.heard == seen
        && link.server == Step(link.file, old(link.server), req) && link.schedule == old(link.schedule)[2..]
    {
      hide ReadOk, Run, Chunk, Troubled, Smooth, UpTo, Sub, Step, Wait, Sends, Accepted, Came, Trouble;
      size, waiting := -1, true;
      ghost var server, before := link.server, seen;
      var p;
      ghost var k, trace, ev;
      if link.Answers(req, block) && req in link.sent {
        Prompt(link.file, server, link.sent, link.schedule, req, block);
      }
      cut, p, k, trace, ev := link.Recv();
      got := p;
      ReadRun(link.file, server, link.sent, block - 1, trace);
      if !cut {
        seen := link.heard;
        ReadKind(link.file, link.server, link.sent, block - 1, p, k);
        size, waiting := Handle(p, k, ev, before);
        if !waiting && size < 0 { TroubleBy(ev, old(link.schedule), block); }
      }
    }

    /** What the client does with the packet that came. */
    method Handle(p: Packet, ghost k: nat, ghost ev: Event, ghost before: seq<Event>) returns (size: int, waiting: bool)
      requires block >= 1 && data.Length == BLKSIZE && !eof && link.Valid() && ReadOk(link.server, link.sent, block - 1)
      requires seen == link.heard == before + [ev] && UpTo(before, block - 1) && (block > 1 ==> Arrive(block - 1) in before)
      requires Came(link.file, link.server, p, k) && Brings(ev, p) && (p.Data? || p.Ack? ==> ev == Arrive(k))
      requires p.Error? || p.Runt? || p.Data?
      modifies this`eof, data, link
      ensures link.Valid() && seen <= link.heard && link.server == old(link.server) && |link.schedule| <= |old(link.schedule)|
      ensures waiting <==> Ignored(p, true, block)
      ensures size >= -1 && (size >= 0 <==> p.Data? && p.block == block) && (size < 0 ==> !eof)
      ensures waiting ==> ReadOk(link.server, link.sent, block - 1) && Expecting()
      ensures size >= 0 ==> Accepted(size)
      ensures !waiting && size < 0 ==> Trouble(ev, block) && !Smooth(seen)
      ensures Rest(link.schedule, old(link.schedule))
      ensures link.sent == old(link.sent) + if size == 0 && link.heard == seen then {Ack(Wire(block))} else {}
      ensures size != 0 || !old(link.Refuses()) ==> link.schedule == old(link.schedule) && link.heard == seen
    {
      hide ReadOk, Chunk, Smooth, UpTo, Sub, Accepted, Came;
      size, waiting := -1, true;
      match p {
        case Error(_) =>
          Rough(seen, ev);
          waiting := false;
        case Data(n, d) =>
          ReadNumber(link.file, link.server, link.sent, block - 1, p, k);
          forall i | 0 <= i < |d| { data[i] := d[i]; }
          if n == block {
            ReadAccepted(link.server, link.sent, block - 1);
            SmoothMore(before, ev, block - 1, block);
            size := Take(|d|);
            waiting := false;
          } else if n != block - 1 {
            ReadStale(link.file, link.server, link.sent, block, p, k);
            if k >= 0x1_0000 { Rough(seen, ev); } else { OutOfOrder(before, block - 1, k); }
            waiting := false;
          } else {
            SmoothMore(before, ev, block - 1, block - 1);
          }
        case _ =>
          SmoothMore(before, ev, block - 1, block - 1);
      }
    }

    // ---------- tftp_open, tftp_read, tftp_lseek, tftp_close of a file that is read ----------

    /** tftprrq failed: `end` became one less than `start`, and nothing more is delivered. */
    ghost predicate Failed()
      reads this`start, this`end, this`eof, this`seen, link
    {
      end < start <= |link.file| && (eof ==> start == |link.file|) && !Smooth(seen)
    }

    /** The last block was acknowledged. */
    ghost predicate Done()
      reads this`start, this`end, this`eof, this`seen, this`block, link
    {
      && eof && start == end == |link.file| && Smooth(seen)
      && block == Blocks(link.file) + 1 && Ack(Wire(block - 1)) in link.sent
    }

    /** The buffer holds the block at file position `start`. */
    ghost predicate Holding()
      reads this`block, this`eof, this`start, this`end, this`seen, data, link
    {
      start <= end && Accepted(end - start) && start == BLKSIZE * (block - 1) <= |link.file|
    }

    ghost predicate Reading()
      reads this, data, link
    {
      && !writing && data.Length == BLKSIZE && start <= foffs && link.Valid() && seen <= link.heard
      && (Failed() || Done() || Holding())
    }

    /** The buffer is not yet read to its end. */
    predicate Fresh()
      reads this`start, this`end, this`foffs
    {
      start < end ==> foffs < end
    }

    /** What is still to be sent will be served and answered at once. */
    ghost predicate Lively()
      reads this`block, this`eof, link
    {
      && |link.file| < BLKSIZE * 0xffff && link.schedule == Quick(link.file, true, block + 1)
      && (eof <==> block >= Blocks(link.file)) && (!eof ==> link.server == Serving(block))
    }

    /** Sends the read request and waits for the first block; false closes the transfer again. */
    method OpenRead() returns (cut: bool, ok: bool)
      requires !writing && data.Length == BLKSIZE && block == 1 && start == end == foffs == 0 && !eof
      requires link.server == Idle && link.sent == {} && link.Valid() && link.heard == seen == []
      modifies this, data, link
      ensures link.Valid() && seen <= link.heard
      ensures !cut && ok ==> Reading() && foffs == 0 && start <= end
      ensures !cut && !ok ==> Troubled(old(link.schedule), 1) && !Smooth(seen)
      ensures |link.file| < BLKSIZE * 0xffff && old(link.schedule) == Quick(link.file, true, 1) ==> !cut && ok && Lively()
    {
      hide Chunk, Sub, Quick;
      QuickStep(link.file, true, 1);
      LastBlock(link.file, 1);
      var size;
      cut, size := Request(Rrq);
      ok := size >= 0;
      if !cut && ok { end := end + size; }
    }

    /** Acknowledges the block in the buffer and waits for the next one. */
    method Next() returns (cut: bool)
      requires Reading() && start < end <= foffs
      modifies this, data, link
      ensures foffs == old(foffs)
      ensures !cut ==> Reading() && (start < end ==> |link.schedule| < |old(link.schedule)|)
      ensures block == old(block) + 1
      ensures !cut && start > end ==> Troubled(old(link.schedule), block)
      ensures link.Valid() && seen <= link.heard
      ensures !cut && start <= end ==> start == old(end) && Ack(Wire(old(block))) in link.sent
      ensures old(Lively()) ==> !cut && start <= end && Lively()
    {
      hide Chunk, ReadOk, Troubled, Smooth, Accepted, UpTo, Sub, Quick, Lively, Blocks;
      assert Holding();
      HeldBytes();
      var size;
      cut, size := Acknowledge();
      if !cut {
        Advance(size, old(eof));
        if old(Lively()) {
          if !old(eof) { HeldLast(); }
          LivelyThen();
        }
      }
    }

    /** Acknowledges the block in the buffer; the result is the size of the next one. */
    method Acknowledge() returns (cut: bool, size: int)
      requires data.Length == BLKSIZE && link.Valid() && seen <= link.heard && Holding() && start < end
      modifies this`block, this`eof, this`seen, data, link
      ensures block == old(block) + 1 && size >= -1 && (!cut && size < 0 ==> eof == old(eof))
      ensures link.Valid() && seen <= link.heard
      ensures !cut && size < 0 ==> Troubled(old(link.schedule), block) && !Smooth(seen)
      ensures !cut && size >= 0 ==> Ack(Wire(block - 1)) in link.sent
      ensures !cut && size >= 0 && old(eof) ==> eof && size == 0 && Smooth(seen) && block == Blocks(link.file) + 1
      ensures !cut && size >= 0 && !old(eof) ==>
        Accepted(size) && block < 0x1_0000 && size <= BLKSIZE && |link.schedule| < |old(link.schedule)|
      ensures old(Lively()) ==> !cut && size >= 0 && |link.file| < BLKSIZE * 0xffff && link.schedule == Quick(link.file, true, block + 1)
      ensures old(Lively()) && !old(eof) ==> link.server == Serving(block)
    {
      hide Chunk, ReadOk, Troubled, Smooth, Accepted, UpTo, Sub, Quick, Lively, Blocks, Step, Sends;
      HeldBytes();
      HeldLast();
      HeldNumber(end - start);
      UpToSmooth(seen, block);
      if Lively() { LivelyNow(); }
      var ack := Ack(Wire(block));
      block := block + 1;
      cut, size := Request(ack);
      if !cut && size >= 0 && !old(eof) { HeldNumber(size); }
    }

    /** The buffer now holds the next `size` bytes of the file; -1 is taken for a size too. */
    method Advance(size: int, ghost wasLast: bool)
      requires size >= -1 && 0 < end <= |link.file| && (eof && (wasLast || size < 0) ==> end == |link.file|)
      requires size < 0 ==> !Smooth(seen)
      requires size >= 0 && wasLast ==> eof && size == 0 && Smooth(seen)
      requires size >= 0 && wasLast ==> block == Blocks(link.file) + 1 && Ack(Wire(block - 1)) in link.sent
      requires size >= 0 && !wasLast ==> Accepted(size) && block < 0x1_0000 && size <= BLKSIZE && end == BLKSIZE * (block - 1)
      modifies this`start, this`end
      ensures start == old(end)
      ensures if size < 0 then Failed() else if wasLast then Done() else Holding()
    {
      hide Chunk, ReadOk, Smooth, Accepted, UpTo;
      // The size is kept in an unsigned variable: the test for -1 is never true.
      var n := if size < 0 then WORD + size else size;
      start := end;
      end := (end + n) % WORD;
    }

    /** The first r bytes of dst are those of the file from f0 up to the file position. */
    ghost predicate Delivered(dst: array<byte>, f0: nat, r: nat)
      reads this`foffs, dst, link
    {
      r <= dst.Length && foffs == f0 + r && (r > 0 ==> foffs <= |link.file| && dst[..r] == link.file[f0..foffs])
    }

    /** memcpy from the packet buffer, and the advance of the file position. */
    method CopyOut(dst: array<byte>, ghost f0: nat, r: nat, n: nat)
      requires Holding() && data.Length == BLKSIZE && dst != data && Delivered(dst, f0, r)
      requires start <= foffs && foffs + n <= end && r + n <= dst.Length
      modifies this`foffs, dst
      ensures Delivered(dst, f0, r + n) && foffs == old(foffs) + n
      ensures dst[r + n..] == old(dst[..])[r + n..]
    {
      hide Chunk, ReadOk, Accepted;
      HeldBytes();
      var from := foffs - start;
      ghost var was := dst[..r];
      assert data[..][..end - start] == data[..end - start];
      Piece(link.file, data[..], start, end, from, n);
      Memcpy(dst, r, data, from, n);
      Pieces(link.file, was, dst[..r + n], f0, foffs, n);
      foffs := foffs + n;
    }

    /** Reads up to len bytes at the file position into dst. */
    method Read(dst: array<byte>, len: nat) returns (cut: bool, r: nat)
      requires Reading() && len <= dst.Length && dst != data
      modifies this, data, link, dst
      ensures r <= len && foffs == old(foffs) + r && (r > 0 ==> foffs <= |link.file|)
      ensures r > 0 ==> dst[..r] == link.file[old(foffs)..foffs]
      ensures dst[r..] == old(dst[..])[r..]
      ensures !cut ==> Reading()
      ensures !cut && r < len ==> start > end || (eof && foffs >= |link.file|)
      ensures old(Failed()) ==> r == 0 && Failed() && !cut
      ensures link.Valid() && seen <= link.heard
      ensures old(Fresh()) && !cut ==> Fresh()
      ensures old(Lively() && start <= end) ==> !cut && start <= end && Lively()
    {
      hide Chunk, ReadOk, Accepted, Smooth, Sub, Quick, Lively, Blocks;
      cut, r := false, 0;
      while !cut && r < len && start < end
        invariant r <= len && Delivered(dst, old(foffs), r)
        invariant dst[r..] == old(dst[..])[r..]
        invariant !cut ==> Reading()
        invariant old(Failed()) ==> r == 0 && Failed() && !cut
        invariant link.Valid() && seen <= link.heard
        invariant old(Fresh()) && !cut ==> Fresh()
        invariant old(Lively() && start <= end) ==> !cut && start <= end && Lively()
        decreases !cut && start < end, |link.schedule|, len - r
      {
        if start <= foffs < end {
          var n := if len - r < end - foffs then len - r else end - foffs;
          TailOf(dst[..], old(dst[..]), r, r + n);
          CopyOut(dst, old(foffs), r, n);
          r := r + n;
        }
        if foffs >= end {
          cut := Next();
        }
      }
      if !cut && r < len && Holding() { HeldBytes(); }
    }

    /** tftp_lseek; the offset is the 32-bit pattern of the source's signed one. */
    method Seek(off: u32, whence: Whence) returns (ok: bool)
      modifies this`foffs
      ensures writing ==> foffs == old(foffs)
      ensures !writing ==> (ok <==> whence != SeekEnd && Target(old(foffs), off, whence) >= start)
      ensures !writing ==> foffs == if ok then Target(old(foffs), off, whence) else old(foffs)
      ensures old(Reading()) ==> Reading()
    {
      hide Chunk, ReadOk;
      var noff := Target(foffs, off, whence);
      if whence == SeekEnd {
        ok := false;
      } else if writing {
        ok := noff == foffs;
      } else {
        ok := noff >= start;
        if ok { foffs := noff; }
      }
    }

    /** tftp_close of a file that was read: tells the server when there was more to read. */
    method CloseRead()
      requires Reading()
      modifies link
      ensures link.Valid() && old(link.heard) <= link.heard && link.server == old(link.server)
      ensures var told := (foffs < end || !eof) && !old(link.Refuses());
        link.sent == old(link.sent) + if told then {Error(0)} else {}
      ensures foffs >= end && eof ==> link.heard == old(link.heard)
    {
      if foffs < end || !eof {
        var sentOk := link.Send(Error(0));
      }
    }

    /** Any run of reads from the start of a transfer. */
    method ReadAll(lens: seq<nat>) returns (cut: bool, out: seq<byte>)
      requires Reading() && foffs == 0
      modifies this, data, link
      ensures |out| <= |link.file| && out == link.file[..|out|]
      ensures !cut ==> Reading()
      ensures !cut && eof && foffs >= end ==> out == link.file
      ensures !cut && start <= end ==> |out| == Min(Total(lens), |link.file|)
      ensures link.Valid() && seen <= link.heard && (!cut ==> Fresh())
      ensures old(Lively() && start <= end) ==> !cut && start <= end && Lively()
    {
      hide Chunk, ReadOk, Accepted, Smooth, Sub, Quick, Lively, Blocks;
      cut, out := false, [];
      var i := 0;
      while i < |lens| && !cut
        invariant !cut ==> Reading()
        invariant foffs == |out| <= |link.file| && out == link.file[..|out|] && i <= |lens|
        invariant !cut && start <= end ==> |out| == Min(Total(lens[..i]), |link.file|)
        invariant link.Valid() && seen <= link.heard && (!cut ==> Fresh())
        invariant old(Lively() && start <= end) ==> !cut && start <= end && Lively()
      {
        assert lens[..i + 1][..i] == lens[..i] && lens[..i + 1][i] == lens[i];
        var dst := new byte[lens[i]];
        var r;
        cut, r := Read(dst, lens[i]);
        ghost var was := out;
        out := out + dst[..r];
        if r > 0 { assert link.file[..|out|] == link.file[..|was|] + link.file[|was|..|out|]; }
        i := i + 1;
      }
      if !cut {
        assert lens[..i] == lens;
        if Holding() { HeldBytes(); }
      }
    }

    lemma HeldNumber(size: nat)
      requires Accepted(size)
      ensures 1 <= block < 0x1_0000 && size <= BLKSIZE && (eof <==> size < BLKSIZE)
      ensures ReadOk(link.server, link.sent, block) && Arrive(block) in seen && UpTo(seen, block)
      ensures size > 0 ==> seen == link.heard
    {
    }

    lemma HeldBytes()
      requires Holding()
      ensures start <= end <= |link.file| && end - start <= data.Length
      ensures data[..end - start] == link.file[start..end]
      ensures (eof <==> end - start < BLKSIZE) && (eof ==> end == |link.file|)
    {
      ChunkIs(link.file, block);
    }

    lemma HeldLast()
      requires Holding()
      ensures (eof <==> block >= Blocks(link.file)) && block <= Blocks(link.file)
    {
      LastBlock(link.file, block);
    }

    lemma LivelyNow()
      requires Lively() && Holding()
      ensures |link.file| < BLKSIZE * 0xffff
      ensures if eof then link.schedule == [] && Quick(link.file, true, block + 2) == []
              else link.Answers(Ack(Wire(block)), block + 1) && block + 1 < 0x1_0000 &&
                   Step(link.file, link.server, Ack(Wire(block))) == Serving(block + 1) &&
                   link.schedule[2..] == Quick(link.file, true, block + 2)
    {
      hide Quick;
      QuickStep(link.file, true, block + 1);
      QuickStep(link.file, true, block + 2);
      LastBlock(link.file, block);
    }

    lemma LivelyThen()
      requires |link.file| < BLKSIZE * 0xffff && link.schedule == Quick(link.file, true, block + 1)
      requires (eof <==> block >= Blocks(link.file)) && (!eof ==> link.server == Serving(block))
      ensures Lively()
    {
    }

    // ---------- tftp_open, tftp_write, tftp_close of a file that is written ----------

    /** Everything the caller wrote. */
    ghost function Written(): seq<byte>
      requires end <= data.Length
      reads this`chunks, this`end, data
    {
      Concat(chunks) + data[..end]
    }

    /** As long as the numbers of the blocks fit, the server holds the first of them; it acknowledged each of
        them when every tftpwrq returned success, and that was so just when nothing went wrong. */
    ghost predicate Underway()
      reads this`block, this`chunks, this`good, this`seen, link
    {
      && link.Valid() && seen == link.heard
      && (|chunks| < 0x1_0000 ==> WriteOk(link.server, link.sent, chunks) && link.server.Taking? && block == |chunks|)
      && (good ==> |chunks| < 0x1_0000 && link.server.hi == block && Arrive(block) in seen && UpTo(seen, block))
      && (!good ==> |chunks| >= 0x1_0000 || !Smooth(seen))
    }

    lemma UnderwayLink()
      requires Underway()
      ensures link.Valid() && seen == link.heard
    {
    }

    /** The blocks sent so far were full, and the rest is in the buffer. */
    ghost predicate Writing()
      reads this, data, link
    {
      writing && data.Length == BLKSIZE && end < BLKSIZE && AllFull(chunks) && Underway()
    }

    /** The acknowledgment waited for is the next one, and nothing has gone wrong. */
    ghost predicate Awaiting()
      reads this`block, this`seen
    {
      UpTo(seen, block - 1) && (block > 0 ==> Arrive(block - 1) in seen)
    }

    /** Sends a request or data packet and waits for its acknowledgment; the result is -1 or the number
        of data bytes.  On success the number of the block did not wrap around, and the server holds
        every block up to this one. */
    method Put(req: Packet, pktsize: nat, ghost tracked: bool, ghost calm: bool) returns (cut: bool, size: int)
      requires pktsize >= 4 && link.Valid() && seen == link.heard
      requires tracked ==> block == |chunks| && WriteOk(link.server, link.sent + {req}, chunks)
      requires calm ==> tracked && Awaiting()
      modifies link, this`seen
      ensures link.Valid() && seen == link.heard && old(seen) <= seen
      ensures tracked ==> WriteOk(link.server, link.sent, chunks) && (old(link.server.Taking?) ==> link.server.Taking?)
      ensures !cut && size >= 0 && calm ==> UpTo(seen, block) && Arrive(block) in seen
      ensures !cut && size < 0 && calm ==> !Smooth(seen)
      ensures size == -1 || size == pktsize - 4
      ensures old(link.Refuses()) ==> !cut && size == -1 && link.Skipped(old(link.schedule), old(link.server))
      ensures !cut && size >= 0 ==> block < 0x1_0000
      ensures !cut && size >= 0 && tracked ==> link.server.Taking? && link.server.hi == block
      ensures !cut && size < 0 ==> Troubled(old(link.schedule), block)
      ensures link.sent == old(link.sent) + if old(link.Refuses()) then {} else {req}
      ensures old(link.Answers(req, block)) && block < 0x1_0000 && Step(link.file, old(link.server), req).Taking? ==>
        !cut && size >= 0 && link.server == Step(link.file, old(link.server), req) && link.schedule == old(link.schedule)[2..]
    {
      hide WriteOk, Run, Troubled, Smooth, UpTo, Sub, Step, Wait, Sends, Awaiting, Trouble;
      cut, size := false, -1;
      var waiting := true;
      ghost var first := true;
      while waiting && !cut
        invariant link.Valid() && seen == link.heard && old(seen) <= seen
        invariant size == -1 || size == pktsize - 4
        invariant tracked ==> WriteOk(link.server, link.sent + {req}, chunks) && (old(link.server.Taking?) ==> link.server.Taking?)
        invariant waiting ==> size == -1
        invariant calm && waiting && !cut ==> Awaiting()
        invariant old(link.Refuses()) && waiting ==> link.schedule == old(link.schedule) && link.server == old(link.server)
        invariant old(link.Refuses()) ==> !cut && size == -1
        invariant old(link.Refuses()) && !waiting ==> link.Skipped(old(link.schedule), old(link.server))
        invariant !cut && size >= 0 ==> block < 0x1_0000
        invariant !cut && size >= 0 && tracked ==> link.server.Taking? && link.server.hi == block
        invariant Rest(link.schedule, old(link.schedule))
        invariant !cut && size < 0 && !waiting ==> Troubled(old(link.schedule), block) && (calm ==> !Smooth(seen))
        invariant !cut && size >= 0 && calm ==> UpTo(seen, block) && Arrive(block) in seen
        invariant first ==> waiting && !cut && link.server == old(link.server) && link.schedule == old(link.schedule)
        invariant link.sent == old(link.sent) + if first || old(link.Refuses()) then {} else {req}
        invariant !first && old(link.Answers(req, block)) && block < 0x1_0000 && Step(link.file, old(link.server), req).Taking? ==>
          !cut && !waiting && size >= 0 && link.server == Step(link.file, old(link.server), req) && link.schedule == old(link.schedule)[2..]
        invariant !first && old(link.Refuses()) ==> !waiting
        decreases !cut && waiting, |link.schedule|
      {
        var sentOk := link.Send(req);
        if !sentOk {
          seen := link.heard;
          RefusalTrouble(old(link.schedule), block);
          Rough(seen, Refuse);
          waiting := false;
        } else {
          assert tracked ==> link.sent + {req} == link.sent;
          ghost var before, got := link.schedule, Runt;
          cut, size, waiting, got := TakeAck(req, pktsize, tracked, calm);
          assert tracked ==> link.sent + {req} == link.sent;
          if !cut && !waiting && size < 0 { LaterTrouble(before, old(link.schedule), block); }
        }
        first := false;
      }
      if tracked { WriteLess(link.server, link.sent, link.sent + {req}, chunks); }
    }

    /** Receives one packet, after req was sent, and handles it. */
    method TakeAck(ghost req: Packet, pktsize: nat, ghost tracked: bool, ghost calm: bool) returns (cut: bool, size: int, waiting: bool, ghost got: Packet)
      requires pktsize >= 4 && link.Valid() && seen == link.heard
      requires tracked ==> block == |chunks| && WriteOk(link.server, link.sent, chunks)
      requires calm ==> tracked && Awaiting()
      modifies link, this`seen
      ensures link.Valid() && seen == link.heard && old(seen) <= seen && link.sent == old(link.sent)
      ensures tracked ==> WriteOk(link.server, link.sent, chunks) && (old(link.server.Taking?) ==> link.server.Taking?)
      ensures !cut ==> (waiting <==> Ignored(got, false, block)) && (size >= 0 <==> got.Ack? && got.block == block)
      ensures !cut ==> exists ev | ev in old(link.schedule) :: Brings(ev, got)
      ensures size == if !cut && got == Ack(Wire(block)) && block < 0x1_0000 then pktsize - 4 else -1
      ensures !cut && waiting && calm ==> Awaiting()
      ensures !cut && size >= 0 && calm ==> UpTo(seen, block) && Arrive(block) in seen
      ensures !cut && !waiting && size < 0 ==> Troubled(old(link.schedule), block) && (calm ==> !Smooth(seen))
      ensures !cut && size >= 0 && tracked ==> link.server.Taking? && link.server.hi == block
      ensures Rest(link.schedule, old(link.schedule)) && |link.schedule| <= |old(link.schedule)|
      ensures !cut ==> |link.schedule| < |old(link.schedule)|
      ensures old(link.Answers(req, block)) && req in old(link.sent) && block < 0x1_0000 && Step(link.file, old(link.server), req).Taking? ==>
        !cut && size >= 0 && link.server == Step(link.file, old(link.server), req) && link.schedule == old(link.schedule)[2..]
    {
      hide WriteOk, Run, Chunk, Troubled, Smooth, UpTo, Sub, Step, Wait, Sends;
      size, waiting := -1, true;
      ghost var server, before := link.server, seen;
      var p;
      ghost var k, trace, ev;
      if link.Answers(req, block) && req in link.sent {
        Prompt(link.file, server, link.sent, link.schedule, req, block);
      }
      cut, p, k, trace, ev := link.Recv();
      got := p;
      if tracked { WriteRun(link.file, server, link.sent, chunks, trace); }
      if !cut {
        seen := link.heard;
        size, waiting := HandleAck(p, k, ev, before, pktsize, tracked, calm);
        if !waiting && size < 0 { TroubleBy(ev, old(link.schedule), block); }
      }
    }

    /** What the client does with the packet that came. */
    method HandleAck(p: Packet, ghost k: nat, ghost ev: Event, ghost before: seq<Event>, pktsize: nat,
                     ghost tracked: bool, ghost calm: bool)
      returns (size: int, waiting: bool)
      requires pktsize >= 4 && seen == before + [ev]
      requires Came(link.file, link.server, p, k) && Brings(ev, p) && (p.Data? || p.Ack? ==> ev == Arrive(k))
      requires tracked ==> block == |chunks| && WriteOk(link.server, link.sent, chunks)
      requires calm ==> tracked && UpTo(before, block - 1) && (block > 0 ==> Arrive(block - 1) in before)
      ensures waiting <==> Ignored(p, false, block)
      ensures size == if p.Ack? && p.block == block then pktsize - 4 else -1
      ensures waiting && calm ==> Awaiting()
      ensures size >= 0 && calm ==> UpTo(seen, block) && Arrive(block) in seen
      ensures !waiting && size < 0 ==> Trouble(ev, block) && (calm ==> !Smooth(seen))
      ensures size >= 0 && tracked ==> link.server.Taking? && link.server.hi == block
    {
      hide WriteOk, Chunk, Smooth, UpTo, Sub, Came;
      size, waiting := -1, true;
      if tracked { WriteKind(link.file, link.server, link.sent, chunks, p, k); }
      match p {
        case Error(_) =>
          Rough(seen, ev);
          waiting := false;
        case Ack(n) =>
          if n == block {
            if tracked { WriteNumber(link.file, link.server, link.sent, chunks, p, k); }
            if calm { SmoothMore(before, ev, block - 1, block); }
            size, waiting := pktsize - 4, false;
          } else if n != block - 1 {
            if calm {
              WriteStale(link.file, link.server, link.sent, chunks, p, k);
              OutOfOrder(before, block - 1, k);
            }
            waiting := false;
          } else if calm {
            SmoothMore(before, ev, block - 1, block - 1);
          }
        case _ =>
          if calm { SmoothMore(before, ev, block - 1, block - 1); }
      }
    }

    /** Sends the write request and waits for its acknowledgment. */
    method OpenWrite() returns (cut: bool, ok: bool)
      requires writing && data.Length == BLKSIZE && block == 0 && end == 0 && chunks == [] && good
      requires link.server == Idle && link.sent == {} && link.Valid() && link.heard == seen == []
      modifies this, link
      ensures link.Valid() && seen == link.heard
      ensures !cut && ok ==> Writing() && Written() == [] && good && end == 0
      ensures !cut && !ok ==> Troubled(old(link.schedule), 0) && !Smooth(seen)
      ensures old(link.Answers(Wrq, 0)) ==>
        !cut && ok && link.server == Taking(0, [], false) && link.schedule == old(link.schedule)[2..]
    {
      hide Troubled, Sub;
      var size;
      cut, size := Put(Wrq, 4, true, true);
      ok := size >= 0;
    }

    /** Sends the first n bytes of the buffer as the next block. */
    method SendBlock(n: nat) returns (cut: bool, size: int)
      requires data.Length == BLKSIZE && n <= BLKSIZE && end == n && Underway()
      modifies this`block, this`chunks, this`good, this`seen, link
      ensures block == old(block) + 1 && chunks == old(chunks) + [data[..n]]
      ensures good == (old(good) && size >= 0) && link.Valid() && seen == link.heard
      ensures !cut ==> Underway()
      ensures !cut && size >= 0 && |chunks| < 0x1_0000 ==> link.server.hi == |chunks|
      ensures !cut && old(good) && !good ==> Troubled(old(link.schedule), block)
      ensures old(link.Refuses()) ==> !cut && !good && link.Skipped(old(link.schedule), old(link.server))
      ensures !old(link.Refuses()) ==> Data(Wire(block), data[..n]) in link.sent
      ensures old(link.Answers(Data(Wire(block + 1), data[..n]), block + 1) && link.server.Taking?) && block < 0x1_0000 ==>
        !cut && size >= 0 && link.server == Step(link.file, old(link.server), Data(Wire(block), data[..n])) &&
        link.schedule == old(link.schedule)[2..]
    {
      hide WriteOk, Troubled, Smooth, UpTo, Sub;
      ghost var tracked, before := |chunks| + 1 < 0x1_0000, seen;
      ghost var calm := tracked && good;
      block := block + 1;
      if tracked { WriteMore(link.server, link.sent, chunks, data[..n]); }
      chunks := chunks + [data[..n]];
      cut, size := Put(Data(Wire(block), data[..n]), 4 + n, tracked, calm);
      good := good && size >= 0;
      StillRough(before, seen);
    }

    /** memcpy into the packet buffer. */
    method Fill(d: seq<byte>)
      requires end + |d| <= BLKSIZE == data.Length
      modifies this`end, this`foffs, data
      ensures end == old(end) + |d| && Written() == old(Written()) + d
    {
      hide Concat;
      ghost var was := data[..end];
      forall i | 0 <= i < |d| { data[end + i] := d[i]; }
      assert data[..end + |d|] == was + d;
      end, foffs := end + |d|, (foffs + |d|) % WORD;
      assert Concat(chunks) + (was + d) == (Concat(chunks) + was) + d;
    }

    /** What was written is the front of w, and the rest of its blocks will be served and answered at once. */
    ghost predicate Going(w: seq<byte>)
      reads this`block, this`chunks, this`end, this`good, data, link
    {
      && good && |w| < BLKSIZE * 0xffff && end <= data.Length && Written() <= w
      && link.schedule == Quick(w, false, block + 1) && link.server.Taking? && !link.server.done
    }

    /** The bytes in the buffer are the next block of w. */
    lemma GoingNow(w: seq<byte>)
      requires Underway() && AllFull(chunks) && data.Length == BLKSIZE && Going(w) && (end == BLKSIZE || Written() == w)
      ensures block + 1 < 0x1_0000 && data[..end] == Chunk(w, block + 1)
      ensures link.Answers(Data(Wire(block + 1), data[..end]), block + 1)
      ensures link.schedule[2..] == Quick(w, false, block + 2)
      ensures Step(link.file, link.server, Data(Wire(block + 1), data[..end])).Taking?
      ensures Step(link.file, link.server, Data(Wire(block + 1), data[..end])).done <==> end < BLKSIZE
    {
      hide Quick, Smooth, UpTo, Sub, WriteOk, Concat, Chunk;
      ConcatFull(chunks);
      ChunkAfter(Concat(chunks), data[..end], w, block);
      QuickStep(w, false, block + 1);
    }

    /** Writes src; the result is always its length, whether or not tftpwrq failed on the way. */
    method Write(src: seq<byte>, ghost w: seq<byte>) returns (cut: bool, r: nat)
      requires Writing()
      modifies this, data, link
      ensures good ==> old(good)
      ensures !cut ==> r == |src| && Writing() && Written() == old(Written()) + src
      ensures link.Valid() && seen == link.heard
      ensures old(link.Refuses()) && old(end) + |src| == BLKSIZE ==>
        !cut && end == 0 && !good && link.Skipped(old(link.schedule), old(link.server))
      ensures old(Going(w)) && old(Written()) + src <= w ==> !cut && Going(w)
    {
      hide WriteOk, Concat, Smooth, UpTo, Sub, Quick, Underway;
      cut, r := false, 0;
      UnderwayLink();
      while !cut && r < |src|
        invariant old(Going(w)) && old(Written()) + src <= w ==> !cut && Going(w)
        invariant r <= |src| && (good ==> old(good))
        invariant !cut ==> Writing() && Written() == old(Written()) + src[..r]
        invariant link.Valid() && seen == link.heard
        invariant old(link.Refuses()) && old(end) + |src| == BLKSIZE ==> !cut && (r == 0 || r == |src|)
        invariant r == 0 ==> end == old(end) && link.schedule == old(link.schedule) && link.server == old(link.server)
        invariant old(link.Refuses()) && old(end) + |src| == BLKSIZE && r > 0 ==>
          end == 0 && !good && link.Skipped(old(link.schedule), old(link.server))
      {
        var n := if |src| - r < BLKSIZE - end then |src| - r else BLKSIZE - end;
        Fill(src[r..r + n]);
        Grown(old(Written()), src, r, n);
        r := r + n;
        if end == BLKSIZE { cut := Flush(w); }
      }
    }

    /** Sends the full buffer. */
    method Flush(ghost w: seq<byte>) returns (cut: bool)
      requires writing && data.Length == end == BLKSIZE && AllFull(chunks) && Underway()
      modifies this`block, this`chunks, this`good, this`seen, this`end, link
      ensures good ==> old(good)
      ensures !cut ==> Writing() && end == 0 && Written() == old(Written())
      ensures link.Valid() && seen == link.heard
      ensures old(link.Refuses()) ==> !cut && !good && link.Skipped(old(link.schedule), old(link.server))
      ensures old(Going(w)) ==> !cut && Going(w)
    {
      hide WriteOk, Concat, Smooth, UpTo, Sub, Quick, Chunk;
      ConcatMore(chunks, data[..BLKSIZE]);
      if Going(w) { GoingNow(w); }
      var size;
      cut, size := SendBlock(BLKSIZE);
      // The size is kept in an unsigned variable: the test for -1 is never true.
      if !cut { end := 0; }
    }

    /** tftp_close: sends the rest as the last block, which is empty after a whole number of blocks.  Its
        result is not looked at: `took` says that it was a success. */
    method CloseWrite(ghost w: seq<byte>) returns (cut: bool, ghost took: bool)
      requires Writing()
      modifies this, link
      ensures link.Valid() && seen == link.heard && good == (old(good) && took)
      ensures old(link.Refuses()) ==> !cut && !good && link.server == old(link.server)
      ensures !cut && old(good) && !good ==> Troubled(old(link.schedule), old(block) + 1)
      ensures !cut ==> Underway() && |chunks| == |old(chunks)| + 1
      ensures !cut && |chunks| < 0x1_0000 ==> link.server.Taking? && HeldOf(link.server, old(Written()))
      ensures !cut && |chunks| < 0x1_0000 && took ==> link.server.done
      ensures !old(link.Refuses()) ==> Data(Wire(block), old(data[..end])) in link.sent
      ensures old(Going(w) && Written() == w) ==> !cut && took
    {
      hide WriteOk, Concat, Troubled, Smooth, UpTo, Sub, HeldOf, Quick;
      ghost var before := chunks;
      if Going(w) && Written() == w { GoingNow(w); }
      var size;
      cut, size := SendBlock(end);
      took := size >= 0;
      ConcatMore(before, data[..end]);
      if !cut && |chunks| < 0x1_0000 { HeldIs(link.server, link.sent, before, data[..end]); }
    }
  }

  /** The server holds the first hi blocks of w, and all of it exactly when its last block has come. */
  predicate HeldOf(s: Server, w: seq<byte>)
    requires s.Taking?
  {
    && s.held == w[..Min(BLKSIZE * s.hi, |w|)]
    && (s.done <==> s.hi == |w| / BLKSIZE + 1) && s.hi <= |w| / BLKSIZE + 1
  }

  lemma HeldIs(s: Server, sent: set<Packet>, before: seq<seq<byte>>, d: seq<byte>)
    requires WriteOk(s, sent, before + [d]) && s.Taking? && AllFull(before) && |d| < BLKSIZE
    ensures HeldOf(s, Concat(before) + d) && (s.hi == |before| + 1 ==> s.done)
  {
    hide Concat, HeldOf;
    var w, chunks := Concat(before) + d, before + [d];
    ConcatFull(before);
    if s.hi <= |before| {
      assert chunks[..s.hi] == before[..s.hi];
      if s.hi > 0 { assert chunks[s.hi - 1] == before[s.hi - 1]; }
      ConcatFront(before, s.hi);
      Front(Concat(before), d, BLKSIZE * s.hi);
    } else {
      ConcatMore(before, d);
      assert chunks[..s.hi] == chunks && chunks[s.hi - 1] == d;
    }
    HeldAs(s, w, |before|, |d|);
  }

  lemma Front(s: seq<byte>, t: seq<byte>, n: nat)
    requires n <= |s|
    ensures (s + t)[..n] == s[..n]
  {
  }

  lemma ChunkAfter(front: seq<byte>, d: seq<byte>, w: seq<byte>, k: nat)
    requires |front| == BLKSIZE * k && front + d <= w && |d| <= BLKSIZE && (|d| == BLKSIZE || front + d == w)
    ensures d == Chunk(w, k + 1) && k + 1 <= Blocks(w)
  {
    assert w[BLKSIZE * k..BLKSIZE * k + |d|] == d;
  }

  lemma {:induction false} ConcatPrefix(srcs: seq<seq<byte>>, i: nat)
    requires i <= |srcs|
    ensures Concat(srcs[..i]) <= Concat(srcs)
  {
    if i == |srcs| {
      assert srcs[..i] == srcs;
    } else {
      ConcatPrefix(srcs[..|srcs| - 1], i);
      assert srcs[..|srcs| - 1][..i] == srcs[..i];
    }
  }

  lemma HeldAll(s: Server, w: seq<byte>)
    requires s.Taking? && HeldOf(s, w) && s.done
    ensures s.held == w
  {
    Divide(|w|, BLKSIZE);
  }

  lemma HeldAs(s: Server, w: seq<byte>, m: nat, r: nat)
    requires s.Taking? && |w| == BLKSIZE * m + r && r < BLKSIZE && s.hi <= m + 1
    requires s.held == if s.hi <= m then w[..BLKSIZE * s.hi] else w
    requires s.done <==> s.hi == m + 1
    ensures HeldOf(s, w)
  {
    assert |w| / BLKSIZE == m;
    assert w[..|w|] == w;
  }

  lemma {:induction false} ConcatFront(chunks: seq<seq<byte>>, n: nat)
    requires n <= |chunks| && AllFull(chunks)
    ensures BLKSIZE * n <= |Concat(chunks)| && Concat(chunks[..n]) == Concat(chunks)[..BLKSIZE * n]
  {
    ConcatFull(chunks);
    if n == |chunks| {
      assert chunks[..n] == chunks;
    } else {
      var front := chunks[..|chunks| - 1];
      ConcatFull(front);
      ConcatFront(front, n);
      assert front[..n] == chunks[..n];
    }
  }

  function Total(lens: seq<nat>): nat {
    if lens == [] then 0 else Total(lens[..|lens| - 1]) + lens[|lens| - 1]
  }

  /** Every chunk fills a block. */
  predicate AllFull(chunks: seq<seq<byte>>) {
    forall i | 0 <= i < |chunks| :: |chunks[i]| == BLKSIZE
  }

  lemma Grown(w: seq<byte>, src: seq<byte>, r: nat, n: nat)
    requires r + n <= |src|
    ensures w + src[..r] + src[r..r + n] == w + src[..r + n]
  {
    assert src[..r + n] == src[..r] + src[r..r + n];
  }

  lemma ConcatMore(chunks: seq<seq<byte>>, d: seq<byte>)
    ensures Concat(chunks + [d]) == Concat(chunks) + d
  {
    assert (chunks + [d])[..|chunks|] == chunks;
  }

  lemma {:induction false} ConcatFull(chunks: seq<seq<byte>>)
    requires AllFull(chunks)
    ensures |Concat(chunks)| == BLKSIZE * |chunks|
  {
    if chunks != [] { ConcatFull(chunks[..|chunks| - 1]); }
  }

  /** The acknowledgment of the last chunk comes only from a server that has it. */
  lemma WriteNumber(file: seq<byte>, s: Server, sent: set<Packet>, chunks: seq<seq<byte>>, p: Packet, k: nat)
    requires WriteOk(s, sent, chunks) && Came(file, s, p, k) && p.Ack? && p.block == |chunks|
    ensures s.Taking? && s.hi == |chunks| && k == |chunks|
  {
    hide Concat, Chunk;
  }

  /** To a client that writes only acknowledgments come, with the numbers of blocks. */
  lemma WriteKind(file: seq<byte>, s: Server, sent: set<Packet>, chunks: seq<seq<byte>>, p: Packet, k: nat)
    requires WriteOk(s, sent, chunks) && Came(file, s, p, k)
    ensures p.Error? || p.Runt? || (p.Ack? && p.block == k)
  {
    hide Concat, Chunk;
  }

  /** An acknowledgment that makes the client give up comes late. */
  lemma WriteStale(file: seq<byte>, s: Server, sent: set<Packet>, chunks: seq<seq<byte>>, p: Packet, k: nat)
    requires WriteOk(s, sent, chunks) && Came(file, s, p, k) && p.Ack?
    requires p.block != |chunks| && p.block != |chunks| - 1
    ensures k < |chunks| - 1
  {
    hide Concat, Chunk;
  }

  lemma Piece(file: seq<byte>, data: seq<byte>, start: nat, end: nat, from: nat, n: nat)
    requires start <= end <= |file| && end - start <= |data| && data[..end - start] == file[start..end]
    requires from + n <= end - start
    ensures data[from..from + n] == file[start + from..start + from + n]
  {
    SubSlice(data, 0, end - start, from, n);
    SubSlice(file, start, end, from, n);
    assert data[0..end - start] == data[..end - start];
  }

  lemma Pieces(file: seq<byte>, was: seq<byte>, now: seq<byte>, f0: nat, pos: nat, n: nat)
    requires pos + n <= |file| && f0 + |was| == pos && (|was| > 0 ==> was == file[f0..pos])
    requires now == was + file[pos..pos + n]
    ensures now == file[f0..pos + n]
  {
    Slices(file, f0, pos, pos + n);
    assert |was| == 0 ==> was == file[f0..pos];
  }

  lemma TailOf(s: seq<byte>, t: seq<byte>, i: nat, j: nat)
    requires |s| == |t| && i <= j <= |s| && s[i..] == t[i..]
    ensures s[j..] == t[j..]
  {
    assert s[j..] == s[i..][j - i..];
    assert t[j..] == t[i..][j - i..];
  }

  /** What a chunk is in terms of the file, and that a short one ends it. */
  lemma ChunkIs(file: seq<byte>, k: nat)
    requires 1 <= k && BLKSIZE * (k - 1) <= |file|
    ensures var from := BLKSIZE * (k - 1); var to := from + |Chunk(file, k)|;
      to <= |file| && Chunk(file, k) == file[from..to] && (|Chunk(file, k)| < BLKSIZE ==> to == |file|)
  {
  }

  /** A data packet with the number waited for carries the block waited for. */
  lemma ReadNumber(file: seq<byte>, s: Server, sent: set<Packet>, acked: nat, p: Packet, k: nat)
    requires ReadOk(s, sent, acked) && Came(file, s, p, k) && p.Data?
    ensures p.block == acked + 1 ==> acked + 1 < 0x1_0000 && p.data == Chunk(file, acked + 1) && k == acked + 1
    ensures |p.data| <= BLKSIZE && (p.block == acked ==> k == acked)
  {
    hide Chunk;
  }

  /** To a client that reads only data come. */
  lemma ReadKind(file: seq<byte>, s: Server, sent: set<Packet>, acked: nat, p: Packet, k: nat)
    requires ReadOk(s, sent, acked) && Came(file, s, p, k)
    ensures p.Error? || p.Runt? || p.Data?
  {
    hide Chunk;
  }

  lemma UpToSmooth(heard: seq<Event>, k: int)
    requires UpTo(heard, k)
    ensures Smooth(heard)
  {
  }

  /** A data packet that makes the client give up comes late, or its number does not fit. */
  lemma ReadStale(file: seq<byte>, s: Server, sent: set<Packet>, block: nat, p: Packet, k: nat)
    requires 1 <= block && ReadOk(s, sent, block - 1) && Came(file, s, p, k) && p.Data?
    requires p.block != block && p.block != block - 1
    ensures k >= 0x1_0000 || 1 <= k < block - 1
  {
    hide Chunk;
  }

  lemma ReadAccepted(s: Server, sent: set<Packet>, acked: nat)
    requires ReadOk(s, sent, acked) && acked + 1 < 0x1_0000
    ensures ReadOk(s, sent, acked + 1)
  {
  }

  lemma ReadSent(s: Server, sent: set<Packet>, sent': set<Packet>, acked: nat, req: Packet)
    requires ReadOk(s, sent, acked) && sent' == sent + {req}
    requires req == Rrq || (req == Ack(Wire(acked)) && acked >= 1)
    ensures ReadOk(s, sent', acked)
  {
  }

  /** The promise of tftp_write fails: when the packets of a full block and of the close are refused,
      both calls report success, and nothing of the block reached the server. */
  method LostBlock(tf: TftpFile, src: seq<byte>) returns (cut: bool, r: nat)
    requires tf.Writing() && tf.end == 0 && |src| == BLKSIZE && tf.link.schedule == [Refuse, Refuse]
    modifies tf, tf.data, tf.link
    ensures !cut && r == |src| && tf.link.server == old(tf.link.server) && !tf.good
  {
    cut, r := tf.Write(src, []);
    ghost var took;
    cut, took := tf.CloseWrite([]);
  }

  // ---------- Whole transfers ----------

  /** Opens a file, reads it in pieces of the given sizes and closes it: what was read is the start of
      the file, and all of it once the last block has been consumed; as long as no tftprrq failed it is
      as much as was asked for or the file has.  One fails if and only if something goes wrong. */
  method Download(link: Link, lens: seq<nat>)
    returns (cut: bool, ok: bool, out: seq<byte>, last: bool, failed: bool, ghost seen: seq<Event>)
    requires link.server == Idle && link.sent == {} && link.Valid() && link.heard == []
    modifies link
    ensures link.Valid() && seen <= link.heard
    ensures !cut ==> (ok && !failed <==> Smooth(seen))
    ensures |out| <= |link.file| && out == link.file[..|out|]
    ensures !cut && ok && last ==> out == link.file
    ensures !cut && ok && !failed ==> |out| == Min(Total(lens), |link.file|)
    ensures !cut && !ok ==> Troubled(old(link.schedule), 1)
    ensures !cut && ok && last && !failed ==> Ack(Wire(Blocks(link.file))) in link.sent || link.heard == seen + [Refuse]
    ensures |link.file| < BLKSIZE * 0xffff && old(link.schedule) == Quick(link.file, true, 1) ==> !cut && ok && !failed
  {
    hide Troubled, Smooth, Sub, Quick, Blocks;
    out, last, failed := [], false, false;
    var tf := new TftpFile(link, false);
    cut, ok := tf.OpenRead();
    seen := tf.seen;
    if !cut && ok {
      cut, out := tf.ReadAll(lens);
      seen := tf.seen;
      if !cut {
        last, failed := tf.eof && tf.foffs >= tf.end, tf.start > tf.end;
        if tf.Holding() {
          UpToSmooth(seen, tf.block);
          tf.HeldLast();
          tf.HeldBytes();
        }
        tf.CloseRead();
      }
    }
  }

  /** Opens a file, writes the pieces and closes it.  The server always holds the first blocks of what was
      written, and everything when the last tftpwrq succeeded.  All of them succeed if and only if nothing
      goes wrong. */
  method Upload(link: Link, srcs: seq<seq<byte>>) returns (cut: bool, ok: bool, ghost good: bool, ghost took: bool)
    requires link.server == Idle && link.sent == {} && link.Valid() && link.heard == []
    modifies link
    ensures link.Valid() && (good ==> took)
    ensures !cut && |Concat(srcs)| < BLKSIZE * 0xffff ==> (ok && good <==> Smooth(link.heard))
    ensures !cut && ok && |Concat(srcs)| < BLKSIZE * 0xffff ==> link.server.Taking? && HeldOf(link.server, Concat(srcs))
    ensures !cut && ok && |Concat(srcs)| < BLKSIZE * 0xffff && took ==> link.server.done && link.server.held == Concat(srcs)
    ensures !cut && ok && good ==> link.server.Taking? && HeldOf(link.server, Concat(srcs)) && link.server.done
    ensures !cut && !ok ==> Troubled(old(link.schedule), 0)
    ensures |Concat(srcs)| < BLKSIZE * 0xffff && old(link.schedule) == [Serve(Wrq), Arrive(0)] + Quick(Concat(srcs), false, 1) ==>
      !cut && ok && good
  {
    hide Concat, Troubled, Smooth, Sub, Quick;
    ghost var w := Concat(srcs);
    ghost var quick := |w| < BLKSIZE * 0xffff && link.schedule == [Serve(Wrq), Arrive(0)] + Quick(w, false, 1);
    QuickStep(w, false, 1);
    assert quick ==> link.schedule[2..] == Quick(w, false, 1);
    var tf := new TftpFile(link, true);
    cut, ok := tf.OpenWrite();
    good, took := ok, ok;
    if !cut && ok {
      var i := 0;
      ConcatNone();
      while i < |srcs| && !cut
        invariant i <= |srcs| && link.Valid() && (good ==> took)
        invariant !cut ==> tf.Writing() && tf.Written() == Concat(srcs[..i])
        invariant quick ==> !cut && tf.Going(w)
      {
        var r;
        ConcatMore(srcs[..i], srcs[i]);
        assert srcs[..i + 1] == srcs[..i] + [srcs[i]];
        ConcatPrefix(srcs, i + 1);
        cut, r := tf.Write(srcs[i], w);
        i := i + 1;
      }
      if !cut {
        assert srcs[..i] == srcs;
        ConcatFull(tf.chunks);
        cut, took := tf.CloseWrite(w);
        good := tf.good;
        if !cut && |tf.chunks| < 0x1_0000 && link.server.done { HeldAll(link.server, Concat(srcs)); }
      }
    }
  }

  lemma ConcatNone()
    ensures Concat([]) == []
  {
  }
}

/** The transmit ring of drivers/net/stmmac/stmmac_main.c: the driver fills slots and takes them back,
    the device sends from them, each at its own pace; both counters wrap around at 32 bits. */
module TxRing {
  import opened Common

  const TX_DMA_SIZE: nat := 8
  const WORD32: nat := 0x1_0000_0000
  const BUFSIZE: nat := 2048

  datatype Result = Done | Busy | NoBuffers

  /** A buffer handed to the device: its address and what was put there. */
  datatype Sent = Sent(addr: nat, data: seq<byte>)

  /** Things that may happen while the driver is at work: the device finishes with a slot, or it
      interrupts. */
  datatype Event = Finish(failed: bool) | Interrupt

  // ---------- Slots ----------

  /** The number, from `first` on, of the buffer that slot s is for. */
  function Number(s: nat, first: nat): (k: nat)
    requires s < TX_DMA_SIZE
    ensures first <= k < first + TX_DMA_SIZE && k % TX_DMA_SIZE == s
  {
    first + (s + TX_DMA_SIZE - first % TX_DMA_SIZE) % TX_DMA_SIZE
  }

  /** A slot is for one number only among any eight in a row. */
  lemma NumberUnique(s: nat, first: nat, k: nat)
    requires s < TX_DMA_SIZE && first <= k < first + TX_DMA_SIZE && k % TX_DMA_SIZE == s
    ensures Number(s, first) == k
  {
  }

  /** Taking back the first slot makes it the one for the number eight further on. */
  lemma NumberNext(s: nat, first: nat)
    requires s < TX_DMA_SIZE
    ensures Number(s, first + 1) == if s == first % TX_DMA_SIZE then first + TX_DMA_SIZE else Number(s, first)
  {
    if s == first % TX_DMA_SIZE {
      NumberUnique(s, first + 1, first + TX_DMA_SIZE);
    } else {
      NumberUnique(s, first + 1, Number(s, first));
    }
  }

  lemma NextSlot(n: nat)
    ensures (n % TX_DMA_SIZE + 1) % TX_DMA_SIZE == (n + 1) % TX_DMA_SIZE && n % TX_DMA_SIZE < TX_DMA_SIZE
  {
  }

  /** The counters wrap around without losing the slot or the distance between them. */
  lemma Counters(n: nat, m: nat)
    requires m <= n < m + TX_DMA_SIZE
    ensures n % WORD32 % TX_DMA_SIZE == n % TX_DMA_SIZE
    ensures (m % WORD32 + TX_DMA_SIZE - n % WORD32 - 1) % WORD32 == TX_DMA_SIZE - 1 - (n - m)
    ensures n % WORD32 == m % WORD32 <==> n == m
    ensures (n % WORD32 + 1) % WORD32 == (n + 1) % WORD32
  {
    Divide(n, WORD32);
    Divide(m, WORD32);
    WrapDistance(n / WORD32, n % WORD32, m / WORD32, m % WORD32);
  }

  lemma WrapDistance(a: nat, x: nat, b: nat, y: nat)
    requires x < WORD32 && y < WORD32
    requires 0 <= a * WORD32 + x - (b * WORD32 + y) < TX_DMA_SIZE
    ensures a == b || a == b + 1
  {
  }

  // ---------- The state ----------

  /** Slot s holds the buffer with its number when that one was sent and not taken back, and belongs to
      the device when it has not finished with it; otherwise it is empty. */
  predicate SlotOk(own: seq<bool>, buf: seq<nat>, sent: seq<Sent>, freed: nat, done: nat, s: nat)
    requires |own| == |buf| == TX_DMA_SIZE && s < TX_DMA_SIZE
  {
    var k := Number(s, freed);
    if k < |sent| then buf[s] == sent[k].addr && (own[s] <==> done <= k) else buf[s] == 0 && !own[s]
  }

  ghost predicate SlotsOk(own: seq<bool>, buf: seq<nat>, sent: seq<Sent>, freed: nat, done: nat) {
    && |own| == |buf| == TX_DMA_SIZE && freed <= done <= |sent| < freed + TX_DMA_SIZE
    && forall s: nat | s < TX_DMA_SIZE :: SlotOk(own, buf, sent, freed, done, s)
  }

  /** The memory in use is that of the buffers sent and not taken back, one piece each, and holds what
      was put there. */
  ghost predicate HeapOk(heap: map<nat, seq<byte>>, room: set<nat>, sent: seq<Sent>, freed: nat) {
    && freed <= |sent| && heap.Keys !! room && 0 !in heap && 0 !in room
    && (forall k | freed <= k < |sent| :: sent[k].addr in heap && heap[sent[k].addr] == sent[k].data)
    && (forall j, k | freed <= j < k < |sent| :: sent[j].addr != sent[k].addr)
    && forall a | a in heap :: exists k | freed <= k < |sent| :: sent[k].addr == a
  }

  /** Buffers are released in the order in which they were sent, and the device sends their contents in
      that order. */
  predicate HistoryOk(sent: seq<Sent>, freed: seq<nat>, wire: seq<seq<byte>>) {
    && |freed| <= |sent| && |wire| <= |sent|
    && (forall k | 0 <= k < |freed| :: freed[k] == sent[k].addr)
    && forall k | 0 <= k < |wire| :: wire[k] == sent[k].data
  }

  class Ring {
    var cur: nat
    var dirty: nat
    var own: seq<bool>
    var buf: seq<nat>
    var failed: seq<bool>
    var device: nat
    var heap: map<nat, seq<byte>>
    var room: set<nat>
    var queue: seq<seq<byte>>
    var opackets: nat
    var oerrors: nat
    var schedule: seq<seq<Event>>
    ghost var sent: seq<Sent>
    ghost var freed: seq<nat>
    ghost var wire: seq<seq<byte>>
    ghost var held: seq<seq<byte>>  // packets taken off the queue whose mbuf chain was not released

    ghost predicate Ok()
      reads this`cur, this`own, this`buf, this`heap, this`room, this`failed, this`device, this`dirty, this`opackets,
        this`oerrors, this`sent, this`freed, this`wire
    {
      Core(buf, heap, room) && cur == |sent| % WORD32
    }

    /** The ring, but for the counter of slots filled, with the slots b and the memory h and rm. */
    ghost predicate Core(b: seq<nat>, h: map<nat, seq<byte>>, rm: set<nat>)
      reads this`own, this`failed, this`device, this`dirty, this`opackets, this`oerrors, this`sent, this`freed, this`wire
    {
      && SlotsOk(own, b, sent, |freed|, |wire|) && HeapOk(h, rm, sent, |freed|) && HistoryOk(sent, freed, wire)
      && dirty == |freed| % WORD32 && device == |wire| % TX_DMA_SIZE
      && |failed| == TX_DMA_SIZE && opackets + oerrors == |freed|
    }

    /** What the device can see of the slots and the memory is what b and h say. */
    ghost predicate Sees(b: seq<nat>, h: map<nat, seq<byte>>)
      reads this`own, this`buf, this`heap
    {
      && |own| == |buf| == |b| && (forall s | 0 <= s < |own| && own[s] :: buf[s] == b[s])
      && forall a | a in h :: a in heap && heap[a] == h[a]
    }

    constructor (room: set<nat>, queue: seq<seq<byte>>, schedule: seq<seq<Event>>)
      requires 0 !in room
      ensures Ok() && sent == [] && held == [] && this.queue == queue
    {
      cur, dirty, device, opackets, oerrors := 0, 0, 0, 0, 0;
      own, failed := seq(TX_DMA_SIZE, i => false), seq(TX_DMA_SIZE, i => false);
      buf := seq(TX_DMA_SIZE, i => 0);
      heap, this.room, this.queue, this.schedule := map[], room, queue, schedule;
      sent, freed, wire, held := [], [], [], [];
    }

    /** The device sends the buffer of the slot it has come to, if that slot is its own. */
    method Finish(bad: bool, ghost b: seq<nat>, ghost h: map<nat, seq<byte>>, ghost rm: set<nat>)
      requires Core(b, h, rm) && Sees(b, h)
      modifies this`own, this`failed, this`device, this`wire
      ensures Core(b, h, rm) && Sees(b, h) && |old(wire)| <= |sent|
      ensures wire == if |old(wire)| < |sent| then old(wire) + [sent[|old(wire)|].data] else old(wire)
      ensures failed == if |old(wire)| < |sent| then old(failed)[old(device) := bad] else old(failed)
    {
      hide SlotsOk, HeapOk, HistoryOk;
      SlotSizes(own, b, sent, |freed|, |wire|);
      DeviceSlot(own, b, sent, |freed|, |wire|);
      NextSlot(|wire|);
      if own[device] {
        DeviceBuffer(h, rm, sent, |freed|, |wire|);
        assert heap[buf[device]] == sent[|wire|].data;
        Finished(own, b, sent, |freed|, |wire|);
        FinishedHistory(sent, freed, wire);
        var d := device;
        device := (device + 1) % TX_DMA_SIZE;
        wire := wire + [heap[buf[d]]];
        own, failed := own[d := false], failed[d := bad];
      }
    }

    /** stmmac_tx_avail */
    function Avail(): (n: nat)
      requires Ok()
      reads this
      ensures n == TX_DMA_SIZE - 1 - (|sent| - |freed|)
    {
      Counters(|sent|, |freed|);
      (dirty + TX_DMA_SIZE - cur - 1) % WORD32
    }

    /** kmem_free of a piece in use. */
    method Release(a: nat)
      requires a in heap
      modifies this`heap, this`room
      ensures heap == old(heap) - {a} && room == old(room) + {a}
    {
      heap, room := heap - {a}, room + {a};
    }

    /** stmmac_tx: takes back the slots that the device has finished with, in order, and all of them. */
    method Tx()
      requires Ok()
      modifies this`dirty, this`own, this`buf, this`failed, this`device, this`heap, this`room, this`opackets,
        this`oerrors, this`schedule, this`freed, this`wire
      ensures Ok() && old(freed) <= freed && old(wire) <= wire && |freed| == |wire|
      ensures |schedule| <= |old(schedule)|
    {
      hide SlotsOk, HeapOk, HistoryOk;
      var more := true;
      SlotSizes(own, buf, sent, |freed|, |wire|);
      Counters(|sent|, |freed|);
      while dirty != cur && more
        invariant Ok() && old(freed) <= freed && old(wire) <= wire && |schedule| <= |old(schedule)|
        invariant |freed| <= |wire| <= |sent| && (dirty == cur <==> |freed| == |sent|)
        invariant !more ==> |freed| == |wire|
        decreases more, |sent| - |freed|
      {
        SlotSizes(own, buf, sent, |freed|, |wire|);
        Counters(|sent|, |freed|);
        Counters(|freed|, |freed|);
        var entry := dirty % TX_DMA_SIZE;
        FinishSome(buf, heap, room);
        SlotSizes(own, buf, sent, |freed|, |wire|);
        FirstSlot(own, buf, heap, room, sent, |freed|, |wire|);
        if own[entry] {
          more := false;
        } else {
          Reap(entry);
          SlotSizes(own, buf, sent, |freed|, |wire|);
          Counters(|sent|, |freed|);
        }
      }
    }

    /** The device is at work while the driver is. */
    method FinishSome(ghost b: seq<nat>, ghost h: map<nat, seq<byte>>, ghost rm: set<nat>)
      requires Core(b, h, rm) && Sees(b, h)
      modifies this`own, this`failed, this`device, this`wire, this`schedule
      ensures Core(b, h, rm) && Sees(b, h) && old(wire) <= wire && |schedule| <= |old(schedule)|
    {
      if schedule != [] {
        var batch := schedule[0];
        schedule := schedule[1..];
        var i := 0;
        while i < |batch|
          invariant Core(b, h, rm) && Sees(b, h) && old(wire) <= wire && |schedule| <= |old(schedule)|
        {
          if batch[i].Finish? { Finish(batch[i].failed, b, h, rm); }
          i := i + 1;
        }
      }
    }

    /** One round of stmmac_tx: counts the buffer, releases it and empties its slot. */
    method Reap(entry: nat)
      requires Ok() && entry == |freed| % TX_DMA_SIZE && |freed| < |sent| && !own[entry]
      modifies this`dirty, this`buf, this`heap, this`room, this`opackets, this`oerrors, this`freed
      ensures Ok() && |old(freed)| < |sent| && freed == old(freed) + [sent[|old(freed)|].addr]
      ensures opackets == old(opackets) + (if failed[entry] then 0 else 1)
      ensures oerrors == old(oerrors) + (if failed[entry] then 1 else 0)
    {
      hide SlotsOk, HeapOk, HistoryOk;
      SlotSizes(own, buf, sent, |freed|, |wire|);
      FirstSlot(own, buf, heap, room, sent, |freed|, |wire|);
      ReapedSlots(own, buf, sent, |freed|, |wire|);
      ReapedHeap(heap, room, sent, |freed|);
      ReapedHistory(sent, freed, wire);
      Counters(|freed|, |freed|);
      if failed[entry] { oerrors := oerrors + 1; } else { opackets := opackets + 1; }
      freed := freed + [buf[entry]];
      if buf[entry] != 0 {
        Release(buf[entry]);
        buf := buf[entry := 0];
      }
      dirty := (dirty + 1) % WORD32;
    }

    /** What happens between two packets: the device finishes with slots, and interrupts. */
    method Events()
      requires Ok()
      modifies this`dirty, this`own, this`buf, this`failed, this`device, this`heap, this`room, this`opackets,
        this`oerrors, this`schedule, this`freed, this`wire
      ensures Ok() && old(freed) <= freed && old(wire) <= wire
    {
      hide Ok;
      if schedule != [] {
        var batch := schedule[0];
        schedule := schedule[1..];
        var i := 0;
        while i < |batch|
          invariant Ok() && old(freed) <= freed && old(wire) <= wire
        {
          Happen(batch[i]);
          i := i + 1;
        }
      }
    }

    /** One thing that happens. */
    method Happen(e: Event)
      requires Ok()
      modifies this`dirty, this`own, this`buf, this`failed, this`device, this`heap, this`room, this`opackets,
        this`oerrors, this`schedule, this`freed, this`wire
      ensures Ok() && old(freed) <= freed && old(wire) <= wire
    {
      hide Core, Sees;
      match e
      case Finish(bad) =>
        Started();
        Finish(bad, buf, heap, room);
      case Interrupt => Tx();
    }

    /** stmmac_xmit: sends the queued packets.  A packet that cannot be sent is lost, its chain is never
        released, and the packets behind it stay in the queue. */
    method Xmit() returns (r: Result)
      requires Ok()
      modifies this
      ensures Ok() && old(freed) <= freed && old(wire) <= wire && old(sent) <= sent
      ensures var n := |sent| - |old(sent)|;
        && n <= |old(queue)| && (forall k | 0 <= k < n :: sent[|old(sent)| + k].data == old(queue)[k])
        && (r == Done ==> n == |old(queue)| && queue == [])
        && (r != Done ==> n < |old(queue)| && queue == old(queue)[n + 1..])
      ensures held == old(held) + if r == Done then [] else [old(queue)[|sent| - |old(sent)|]]
      ensures forall k | 0 <= k < |sent| - |old(sent)| :: |old(queue)[k]| <= BUFSIZE
      ensures r == Busy ==> |sent| - |freed| == TX_DMA_SIZE - 1
      ensures r == NoBuffers ==> |sent| - |freed| < TX_DMA_SIZE - 1
      ensures r == NoBuffers ==> |old(queue)[|sent| - |old(sent)|]| > BUFSIZE || room == {}
    {
      hide Ok, Core, Sees;
      r := Done;
      ghost var n: nat := 0;
      while queue != [] && r == Done
        invariant Ok() && old(freed) <= freed && old(wire) <= wire && old(sent) <= sent
        invariant |sent| == |old(sent)| + n && n <= |old(queue)|
        invariant forall k | 0 <= k < n :: sent[|old(sent)| + k].data == old(queue)[k] && |old(queue)[k]| <= BUFSIZE
        invariant r == Done ==> queue == old(queue)[n..]
        invariant r != Done ==> n < |old(queue)| && queue == old(queue)[n + 1..]
        invariant held == old(held) + if r == Done then [] else [old(queue)[n]]
        invariant r == Busy ==> |sent| - |freed| == TX_DMA_SIZE - 1
        invariant r == NoBuffers ==> |sent| - |freed| < TX_DMA_SIZE - 1
        invariant r == NoBuffers ==> n < |old(queue)| && (|old(queue)[n]| > BUFSIZE || room == {})
        decreases r == Done, |old(queue)| - n
      {
        var p := queue[0];
        queue, held := queue[1..], held + [p];
        Events();
        if Avail() == 0 {
          r := Busy;
        } else if |p| > BUFSIZE || room == {} {
          r := NoBuffers;
        } else {
          Fill(p);
          n := n + 1;
        }
      }
    }

    /** Copies a packet to new memory and hands it to the device in the next slot, in the order of the
        source: the slot gets its memory, the packet is copied and its chain released, the slot is given to
        the device, and it is counted.  The device may be at work between any two of these steps. */
    method Fill(p: seq<byte>)
      requires Ok() && room != {} && |sent| - |freed| < TX_DMA_SIZE - 1 && held != [] && held[|held| - 1] == p
      modifies this`cur, this`own, this`buf, this`heap, this`room, this`sent, this`held,
        this`failed, this`device, this`wire, this`schedule
      ensures Ok() && |sent| == |old(sent)| + 1 && old(sent) <= sent && sent[|old(sent)|].data == p
      ensures old(wire) <= wire && |old(held)| > 0 && held == old(held)[..|old(held)| - 1]
    {
      hide Ok, Core, Sees;
      Started();
      Counters(|sent|, |freed|);
      ghost var b, h, rm := buf, heap, room;
      var entry := cur % TX_DMA_SIZE;
      var a :| a in room;
      CopyIn(p, entry, a);
      HandOver(p, entry, a, b, h, rm);
      FinishSome(buf, heap, room);
      cur := (cur + 1) % WORD32;
      Again();
    }

    lemma Started()
      requires Ok()
      ensures |own| == |buf| == TX_DMA_SIZE && |freed| <= |wire| <= |sent| < |freed| + TX_DMA_SIZE && Sees(buf, heap)
      ensures Core(buf, heap, room) && cur == |sent| % WORD32
    {
    }

    /** The slot that is filled next is empty, and new memory is not in use. */
    lemma FreeSlot()
      requires Ok() && |sent| - |freed| < TX_DMA_SIZE - 1
      ensures |own| == TX_DMA_SIZE && !own[|sent| % TX_DMA_SIZE] && heap.Keys !! room
    {
      NextFree(own, buf, sent, |freed|, |wire|);
    }

    lemma Again()
      requires Core(buf, heap, room) && cur == |sent| % WORD32
      ensures Ok()
    {
    }

    /** The memory of a slot, and the copy of the packet. */
    method CopyIn(p: seq<byte>, entry: nat, a: nat)
      requires Ok() && entry == |sent| % TX_DMA_SIZE && |sent| - |freed| < TX_DMA_SIZE - 1 && a in room
      requires held != [] && held[|held| - 1] == p
      modifies this`own, this`buf, this`heap, this`room, this`held, this`failed, this`device, this`wire, this`schedule
      ensures Core(old(buf), old(heap), old(room)) && Sees(old(buf), old(heap)) && |buf| == |own| == |old(buf)| == TX_DMA_SIZE
      ensures buf == old(buf)[entry := a] && heap == old(heap)[a := p] && room == old(room) - {a}
      ensures old(wire) <= wire && |old(held)| > 0 && held == old(held)[..|old(held)| - 1]
    {
      hide Ok, Core;
      Started();
      FreeSlot();
      ghost var b, h, rm := buf, heap, room;
      var junk: seq<byte> := *;
      room, heap, buf := room - {a}, heap[a := junk], buf[entry := a];
      FinishSome(b, h, rm);
      heap, held := heap[a := p], held[..|held| - 1];
      FinishSome(b, h, rm);
    }

    /** set_tx_owner: from here on the buffer is the device's. */
    method HandOver(p: seq<byte>, entry: nat, a: nat, ghost b: seq<nat>, ghost h: map<nat, seq<byte>>, ghost rm: set<nat>)
      requires Core(b, h, rm) && entry == |sent| % TX_DMA_SIZE && |sent| - |freed| < TX_DMA_SIZE - 1 && a in rm
      requires |own| == |b| == TX_DMA_SIZE && buf == b[entry := a] && heap == h[a := p] && room == rm - {a}
      modifies this`own, this`sent
      ensures Core(buf, heap, room) && Sees(buf, heap) && sent == old(sent) + [Sent(a, p)]
    {
      hide SlotsOk, HeapOk, HistoryOk;
      SlotSizes(own, b, sent, |freed|, |wire|);
      FilledSlots(own, b, sent, |freed|, |wire|, Sent(a, p));
      FilledHeap(h, rm, sent, |freed|, a, p);
      FilledHistory(sent, freed, wire, Sent(a, p));
      own, sent := own[entry := true], sent + [Sent(a, p)];
      SlotSizes(own, buf, sent, |freed|, |wire|);
    }
  }

  /** The slot that is filled next is empty. */
  lemma NextFree(own: seq<bool>, buf: seq<nat>, sent: seq<Sent>, freed: nat, done: nat)
    requires SlotsOk(own, buf, sent, freed, done) && |sent| + 1 < freed + TX_DMA_SIZE
    ensures !own[|sent| % TX_DMA_SIZE]
  {
    var e := |sent| % TX_DMA_SIZE;
    NumberUnique(e, freed, |sent|);
    assert SlotOk(own, buf, sent, freed, done, e);
  }

  lemma SlotSizes(own: seq<bool>, buf: seq<nat>, sent: seq<Sent>, freed: nat, done: nat)
    requires SlotsOk(own, buf, sent, freed, done)
    ensures |own| == |buf| == TX_DMA_SIZE && freed <= done <= |sent| < freed + TX_DMA_SIZE
  {
  }

  /** The slot that the device has come to. */
  lemma DeviceSlot(own: seq<bool>, buf: seq<nat>, sent: seq<Sent>, freed: nat, done: nat)
    requires SlotsOk(own, buf, sent, freed, done)
    ensures own[done % TX_DMA_SIZE] <==> done < |sent|
    ensures done < |sent| ==> buf[done % TX_DMA_SIZE] == sent[done].addr
  {
    var s := done % TX_DMA_SIZE;
    NumberUnique(s, freed, done);
    assert SlotOk(own, buf, sent, freed, done, s);
  }

  lemma DeviceBuffer(heap: map<nat, seq<byte>>, room: set<nat>, sent: seq<Sent>, freed: nat, k: nat)
    requires HeapOk(heap, room, sent, freed) && freed <= k < |sent|
    ensures sent[k].addr in heap && heap[sent[k].addr] == sent[k].data && sent[k].addr != 0
  {
  }

  lemma Finished(own: seq<bool>, buf: seq<nat>, sent: seq<Sent>, freed: nat, done: nat)
    requires SlotsOk(own, buf, sent, freed, done) && done < |sent|
    ensures SlotsOk(own[done % TX_DMA_SIZE := false], buf, sent, freed, done + 1)
  {
    var d := done % TX_DMA_SIZE;
    NumberUnique(d, freed, done);
    var own', done' := own[d := false], done + 1;
    forall s: nat | s < TX_DMA_SIZE ensures SlotOk(own', buf, sent, freed, done', s) {
      assert SlotOk(own, buf, sent, freed, done, s);
    }
  }

  lemma FinishedHistory(sent: seq<Sent>, freed: seq<nat>, wire: seq<seq<byte>>)
    requires HistoryOk(sent, freed, wire) && |wire| < |sent|
    ensures HistoryOk(sent, freed, wire + [sent[|wire|].data])
  {
  }

  /** The slot that is taken back next. */
  lemma FirstSlot(own: seq<bool>, buf: seq<nat>, heap: map<nat, seq<byte>>, room: set<nat>, sent: seq<Sent>, freed: nat,
                  done: nat)
    requires SlotsOk(own, buf, sent, freed, done) && HeapOk(heap, room, sent, freed) && freed < |sent|
    ensures var s := freed % TX_DMA_SIZE;
      buf[s] == sent[freed].addr && buf[s] in heap && buf[s] != 0 && (own[s] <==> done == freed)
  {
    var s := freed % TX_DMA_SIZE;
    NumberUnique(s, freed, freed);
    assert SlotOk(own, buf, sent, freed, done, s);
  }

  lemma ReapedSlots(own: seq<bool>, buf: seq<nat>, sent: seq<Sent>, freed: nat, done: nat)
    requires SlotsOk(own, buf, sent, freed, done) && freed < done
    ensures SlotsOk(own, buf[freed % TX_DMA_SIZE := 0], sent, freed + 1, done)
  {
    var e := freed % TX_DMA_SIZE;
    NumberUnique(e, freed, freed);
    var buf', freed' := buf[e := 0], freed + 1;
    forall s: nat | s < TX_DMA_SIZE ensures SlotOk(own, buf', sent, freed', done, s) {
      assert SlotOk(own, buf, sent, freed, done, s);
      NumberNext(s, freed);
    }
  }

  lemma ReapedHeap(heap: map<nat, seq<byte>>, room: set<nat>, sent: seq<Sent>, freed: nat)
    requires HeapOk(heap, room, sent, freed) && freed < |sent|
    ensures HeapOk(heap - {sent[freed].addr}, room + {sent[freed].addr}, sent, freed + 1)
  {
    var heap' := heap - {sent[freed].addr};
    forall a | a in heap' ensures exists k | freed + 1 <= k < |sent| :: sent[k].addr == a {
      var k :| freed <= k < |sent| && sent[k].addr == a;
      assert k != freed;
    }
  }

  lemma ReapedHistory(sent: seq<Sent>, freed: seq<nat>, wire: seq<seq<byte>>)
    requires HistoryOk(sent, freed, wire) && |freed| < |sent|
    ensures HistoryOk(sent, freed + [sent[|freed|].addr], wire)
  {
  }

  lemma FilledSlots(own: seq<bool>, buf: seq<nat>, sent: seq<Sent>, freed: nat, done: nat, x: Sent)
    requires SlotsOk(own, buf, sent, freed, done) && |sent| + 1 < freed + TX_DMA_SIZE
    ensures var e := |sent| % TX_DMA_SIZE; SlotsOk(own[e := true], buf[e := x.addr], sent + [x], freed, done)
  {
    var e := |sent| % TX_DMA_SIZE;
    NumberUnique(e, freed, |sent|);
    var own', buf', sent' := own[e := true], buf[e := x.addr], sent + [x];
    forall s: nat | s < TX_DMA_SIZE ensures SlotOk(own', buf', sent', freed, done, s) {
      assert SlotOk(own, buf, sent, freed, done, s);
      assert Number(s, freed) == |sent| ==> s == e;
    }
  }

  lemma FilledHeap(heap: map<nat, seq<byte>>, room: set<nat>, sent: seq<Sent>, freed: nat, a: nat, p: seq<byte>)
    requires HeapOk(heap, room, sent, freed) && a in room
    ensures HeapOk(heap[a := p], room - {a}, sent + [Sent(a, p)], freed)
  {
    var sent', heap' := sent + [Sent(a, p)], heap[a := p];
    forall b | b in heap' ensures exists k | freed <= k < |sent'| :: sent'[k].addr == b {
      if b == a {
        assert sent'[|sent|].addr == a;
      } else {
        var k :| freed <= k < |sent| && sent[k].addr == b;
        assert sent'[k].addr == b;
      }
    }
  }

  lemma FilledHistory(sent: seq<Sent>, freed: seq<nat>, wire: seq<seq<byte>>, x: Sent)
    requires HistoryOk(sent, freed, wire)
    ensures HistoryOk(sent + [x], freed, wire)
  {
  }
}

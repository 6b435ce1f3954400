/**
 * TaskGeneratePacket, which builds packets from `rand()` draws and posts
 * them to the input queue, alternating between generation and quiet phases.
 */
module Generator {
  import opened Machine
  import opened InternetChecksum
  import opened Router
  import opened PacketCheck

  /** Entries in the input queue's storage, `inputMsg[1024]`. */
  const QUEUE_CAPACITY: nat := 1024

  /** A generation phase is drawn as `rand() % 250`. */
  const MAX_PHASE: nat := 250

  /** The value written into the `crc` field of the one packet in ten made bad. */
  const BAD_CRC: U32 := 1234

  /** `shouldSlowThingsDown` as the generator sets it. */
  const SHOULD_SLOW_THINGS_DOWN: bool := true

  // ---------------------------------------------------------------------------
  // Building one packet
  // ---------------------------------------------------------------------------

  /** The twelve `rand()` results that fill `data`. */
  type RandPayload = s: seq<Rand> | |s| == 12
    witness [0, 0, 0, 0, 0, 0, 0, 0, 0, 0, 0, 0]

  /** The `rand()` results one loop iteration consumes, in call order: source,
      destination, type, the bad-CRC lottery and the payload in the generation
      phase; the size of the next phase in the quiet phase. */
  datatype Draws = Draws(src: Rand, dst: Rand, ptype: Rand, crcLottery: Rand, data: RandPayload, qty: Rand)

  /** `rand() * (UINT32_MAX / RAND_MAX)` in unsigned arithmetic. */
  function Scale(r: Rand): (a: U32)
    ensures a == 2 * r && a % 2 == 0
  {
    (r * (0xFFFF_FFFF / RAND_MAX)) % 0x1_0000_0000
  }

  /** `rand() % NB_PACKET_TYPE`, which is always one of the three types. */
  function TypeOfDraw(r: Rand): (t: PacketType)
    ensures Code(t) == r % NB_PACKET_TYPE
  {
    TypeOfCode(r % NB_PACKET_TYPE).value
  }

  /** One packet in ten gets a deliberately wrong checksum. */
  predicate BadCrcDrawn(d: Draws) {
    d.crcLottery % 10 == 9
  }

  /** The fields a generated packet gets from its draws, `crc` still zero. */
  function Body(seqNo: U32, d: Draws): Packet {
    var payload: seq<U32> := d.data;
    Packet(Scale(d.src), Scale(d.dst), TypeOfDraw(d.ptype), 0, payload[0 := seqNo])
  }

  /** The packet the generation phase builds, with its checksum computed over the
      filled record. */
  function Filled(seqNo: U32, d: Draws): Packet {
    var body := Body(seqNo, d);
    body.(crc := if BadCrcDrawn(d) then BAD_CRC else CorrectCrc(body))
  }

  /** Builds a packet: payload filled word by word, `data[0]` stamped with the
      sequence number, then the checksum field set. */
  method NewPacket(seqNo: U32, d: Draws) returns (p: Packet)
    ensures p == Filled(seqNo, d)
  {
    var data := new U32[DATA_WORDS];
    var i := 0;
    while i < DATA_WORDS
      invariant 0 <= i <= DATA_WORDS
      invariant data[..i] == d.data[..i]
    {
      data[i] := d.data[i];
      i := i + 1;
    }
    data[0] := seqNo;
    ghost var payload: seq<U32> := d.data;
    assert data[..] == payload[0 := seqNo];
    p := Packet(Scale(d.src), Scale(d.dst), TypeOfDraw(d.ptype), 0, data[..]);
    if BadCrcDrawn(d) {
      p := p.(crc := BAD_CRC);
    } else {
      var crc := ComputePacketCrc(p);
      p := p.(crc := crc);
    }
  }

  /** What a generated packet looks like: addresses even, a valid type, the stamp
      in `data[0]`, the other payload words as drawn, and a checksum field that
      checks unless the lottery chose the bad value. */
  lemma FilledPacket(seqNo: U32, d: Draws)
    ensures var p := Filled(seqNo, d);
      && p.src == 2 * d.src && p.dst == 2 * d.dst
      && Code(p.ptype) == d.ptype % NB_PACKET_TYPE
      && p.data[0] == seqNo && p.data[1..] == d.data[1..]
      && (BadCrcDrawn(d) ==> p.crc == BAD_CRC)
      && (!BadCrcDrawn(d) ==> PacketCrc(p) == 0)
      && (BadCrcDrawn(d) ==> (PacketCrc(p) == 0 <==> CorrectCrc(p) == BAD_CRC))
  {
    var p := Filled(seqNo, d);
    var body := Body(seqNo, d);
    assert p.(crc := 0) == body;
    if BadCrcDrawn(d) {
      CheckZeroIff(p);
    } else {
      StoredCrcChecks(body);
    }
  }

  // ---------------------------------------------------------------------------
  // The generator's loop as a state machine
  // ---------------------------------------------------------------------------

  /** What happened to a generated packet: posted to the queue, or freed because
      the queue was full. */
  datatype Fate = Posted | Freed

  /** One iteration of the loop: a packet generated, or a quiet phase that drew
      the size of the next generation phase. */
  datatype Event = Generated(packet: Packet, fate: Fate) | Rested(qty: int)

  /** The generator's locals, the created-packets counter and the input queue. */
  datatype GenState = GenState(isGenPhase: bool, packGenQty: int, created: int, queue: seq<Packet>)

  /** OSQPost: append when there is room, otherwise report the queue full. The
      queue never grows beyond its capacity, and a packet is freed exactly when
      the queue is left as it was. */
  function Post(queue: seq<Packet>, p: Packet): (r: (seq<Packet>, Fate))
    ensures |queue| <= QUEUE_CAPACITY ==> |r.0| <= QUEUE_CAPACITY
    ensures r.1 == Freed <==> r.0 == queue
  {
    if |queue| < QUEUE_CAPACITY then (queue + [p], Posted) else (queue, Freed)
  }

  /** The end-of-phase test in fast mode, with the phase size 0 (a possible draw)
      read as "end the phase now" instead of dividing by zero. */
  predicate EndsPhase(created: int, qty: int) {
    qty == 0 || created % qty == 0
  }

  /** One iteration of the generator's loop. */
  function Next(s: GenState, slow: bool, d: Draws): (r: (GenState, Event))
    requires 0 <= s.created < INT_MAX
    ensures s.created <= r.0.created <= s.created + 1
  {
    if s.isGenPhase then
      var p := Filled(s.created, d);
      var posted := Post(s.queue, p);
      var queue, fate := posted.0, posted.1;
      var created := s.created + 1;
      var ends := !slow && EndsPhase(created, s.packGenQty);
      (GenState(!ends, s.packGenQty, created, queue), Generated(p, fate))
    else
      var qty := d.qty % MAX_PHASE;
      (GenState(true, qty, s.created, s.queue), Rested(qty))
  }

  /** The states the generator can be in: a phase size from `rand() % 250`, a
      non-negative counter and no more packets queued than the queue holds. */
  predicate Inv(s: GenState) {
    0 <= s.packGenQty < MAX_PHASE && 0 <= s.created && |s.queue| <= QUEUE_CAPACITY
  }

  /** The generator's state before its first iteration: a generation phase of a
      size below 250, which keeps the invariant. */
  function Initial(qtyDraw: Rand, created: int, queue: seq<Packet>): (s: GenState)
    ensures s.isGenPhase && 0 <= s.packGenQty < MAX_PHASE && s.created == created && s.queue == queue
    ensures 0 <= created && |queue| <= QUEUE_CAPACITY ==> Inv(s)
  {
    GenState(true, qtyDraw % MAX_PHASE, created, queue)
  }

  /** Every iteration keeps the invariant; a generation step counts one packet and
      stamps it with the count before the increment, and a quiet step starts a new
      generation phase with a size below 250. */
  lemma NextStep(s: GenState, slow: bool, d: Draws)
    requires Inv(s) && s.created < INT_MAX
    ensures var r := Next(s, slow, d); var t, e := r.0, r.1;
      && Inv(t)
      && (s.isGenPhase ==> e.Generated? && t.created == s.created + 1
                           && e.packet == Filled(s.created, d) && e.packet.data[0] == s.created
                           && t.packGenQty == s.packGenQty)
      && (!s.isGenPhase ==> e == Rested(t.packGenQty) && t.isGenPhase
                            && t.packGenQty == d.qty % MAX_PHASE < MAX_PHASE
                            && t.created == s.created && t.queue == s.queue)
  {
    if s.isGenPhase {
      FilledPacket(s.created, d);
    }
  }

  /** The end-of-phase test as routeur.c writes it, `nbPacketCrees % packGenQty == 0`:
      None where it divides by zero. */
  function PhaseTestAsWritten(created: nat, qty: nat): (r: Option<bool>)
    ensures r.None? <==> qty == 0
    ensures r.Some? ==> (r.value <==> EndsPhase(created, qty))
  {
    if qty == 0 then None else Some(created % qty == 0)
  }

  /** A quiet step whose draw is a multiple of 250 starts a generation phase of
      size 0, and the first fast-mode packet of that phase reaches the as-written
      test with a zero divisor. */
  lemma ZeroPhaseDividesByZero(s: GenState, d: Draws)
    requires Inv(s) && s.created < INT_MAX && !s.isGenPhase && d.qty % MAX_PHASE == 0
    ensures var t := Next(s, false, d).0;
      t.isGenPhase && t.packGenQty == 0 && PhaseTestAsWritten(t.created + 1, t.packGenQty).None?
  {
  }

  // ---------------------------------------------------------------------------
  // Runs of the loop
  // ---------------------------------------------------------------------------

  /** The state and the events after running the loop once per element of `ds`. */
  function Run(s: GenState, slow: bool, ds: seq<Draws>): (r: (GenState, seq<Event>))
    requires 0 <= s.created && s.created + |ds| <= INT_MAX
    ensures |r.1| == |ds|
    ensures s.created <= r.0.created <= s.created + |ds|
    decreases |ds|
  {
    if ds == [] then (s, [])
    else
      var before := Run(s, slow, ds[..|ds| - 1]);
      var step := Next(before.0, slow, ds[|ds| - 1]);
      (step.0, before.1 + [step.1])
  }

  /** The packets of the events that were posted, in order. */
  function PostedPackets(es: seq<Event>): seq<Packet> {
    if es == [] then []
    else
      var e := es[|es| - 1];
      PostedPackets(es[..|es| - 1]) + if e.Generated? && e.fate == Posted then [e.packet] else []
  }

  /** True when some generated packet was freed. */
  predicate AnyFreed(es: seq<Event>) {
    exists i :: 0 <= i < |es| && es[i].Generated? && es[i].fate == Freed
  }

  /** What one iteration does to the queue: it grows by the posted packet, if
      any, and a packet is freed only when the queue is full. */
  lemma QueueStep(s: GenState, slow: bool, d: Draws)
    requires Inv(s) && s.created < INT_MAX
    ensures var r := Next(s, slow, d); var t, e := r.0, r.1;
      && Inv(t)
      && t.queue == s.queue + (if e.Generated? && e.fate == Posted then [e.packet] else [])
      && (e.Generated? && e.fate == Freed ==> |t.queue| == QUEUE_CAPACITY)
  {
  }

  /** A run's events freed a packet when its first events did or its last one did. */
  lemma AnyFreedAppend(es: seq<Event>, e: Event)
    ensures AnyFreed(es + [e]) <==> AnyFreed(es) || (e.Generated? && e.fate == Freed)
  {
    var all := es + [e];
    if AnyFreed(all) && !(e.Generated? && e.fate == Freed) {
      var i :| 0 <= i < |all| && all[i].Generated? && all[i].fate == Freed;
      assert i < |es| && es[i] == all[i];
    }
    if AnyFreed(es) {
      var i :| 0 <= i < |es| && es[i].Generated? && es[i].fate == Freed;
      assert all[i] == es[i];
    }
    if e.Generated? && e.fate == Freed {
      assert all[|es|] == e;
    }
  }

  /** The queue only grows, by exactly the posted packets in order, never beyond
      its capacity; a packet is freed only once the queue is full, and then it
      stays full. */
  lemma {:induction false} RunQueue(s: GenState, slow: bool, ds: seq<Draws>)
    requires Inv(s) && s.created + |ds| <= INT_MAX
    ensures var r := Run(s, slow, ds); var t, es := r.0, r.1;
      && Inv(t)
      && t.queue == s.queue + PostedPackets(es)
      && (AnyFreed(es) ==> |t.queue| == QUEUE_CAPACITY)
  {
    if ds != [] {
      var front := ds[..|ds| - 1];
      var t, es := Run(s, slow, front).0, Run(s, slow, front).1;
      RunQueue(s, slow, front);
      QueueStep(t, slow, ds[|ds| - 1]);
      var e := Next(t, slow, ds[|ds| - 1]).1;
      AnyFreedAppend(es, e);
      assert (es + [e])[..|es|] == es;
    }
  }

  /** Every event generated a packet, the i-th one built from `ds[i]` and stamped
      with `start + i`. */
  predicate Stamped(es: seq<Event>, start: int, ds: seq<Draws>)
    requires |es| == |ds| && 0 <= start && start + |ds| <= INT_MAX
  {
    forall i :: 0 <= i < |es| ==>
      es[i].Generated? && es[i].packet == Filled(start + i, ds[i]) && es[i].packet.data[0] == start + i
  }

  /** One more stamped event keeps the events stamped. */
  lemma StampedAppend(es: seq<Event>, e: Event, start: int, ds: seq<Draws>, seqNo: int)
    requires |ds| == |es| + 1 && 0 <= start && start + |ds| <= INT_MAX
    requires Stamped(es, start, ds[..|es|])
    requires seqNo == start + |es|
    requires e.Generated? && e.packet == Filled(seqNo, ds[|es|]) && e.packet.data[0] == seqNo
    ensures Stamped(es + [e], start, ds)
  {
    var all := es + [e];
    forall i | 0 <= i < |all|
      ensures all[i].Generated? && all[i].packet == Filled(start + i, ds[i]) && all[i].packet.data[0] == start + i
    {
      if i < |es| {
        assert all[i] == es[i] && ds[i] == ds[..|es|][i];
      }
    }
  }

  /** In slow mode every iteration generates a packet: the counter advances by
      the number of iterations and the i-th packet is built from the i-th draws
      and stamped with the starting count plus i. */
  lemma {:induction false} SlowRun(s: GenState, ds: seq<Draws>)
    requires Inv(s) && s.isGenPhase && s.created + |ds| <= INT_MAX
    ensures var r := Run(s, true, ds); var t, es := r.0, r.1;
      && t.isGenPhase && t.created == s.created + |ds| && t.packGenQty == s.packGenQty
      && Stamped(es, s.created, ds)
  {
    if ds != [] {
      var front := ds[..|ds| - 1];
      SlowRun(s, front);
      RunQueue(s, true, front);
      var t, es := Run(s, true, front).0, Run(s, true, front).1;
      NextStep(t, true, ds[|ds| - 1]);
      var u, e := Next(t, true, ds[|ds| - 1]).0, Next(t, true, ds[|ds| - 1]).1;
      StampedAppend(es, e, s.created, ds, t.created);
    }
  }

  /** The generator as configured (shouldSlowThingsDown set, counter from zero) only
      ever generates: after n iterations it has made n packets, numbered 0..n-1 in
      their `data[0]`, and its queue holds the posted ones in that order. */
  lemma ConfiguredTaskGenerates(qtyDraw: Rand, ds: seq<Draws>)
    requires |ds| <= INT_MAX
    ensures var r := Run(Initial(qtyDraw, 0, []), SHOULD_SLOW_THINGS_DOWN, ds); var t, es := r.0, r.1;
      && t.isGenPhase && t.created == |ds| && t.queue == PostedPackets(es)
      && (forall i :: 0 <= i < |es| ==> es[i].Generated? && es[i].packet.data[0] == i)
  {
    var s := Initial(qtyDraw, 0, []);
    SlowRun(s, ds);
    RunQueue(s, SHOULD_SLOW_THINGS_DOWN, ds);
    assert [] + PostedPackets(Run(s, SHOULD_SLOW_THINGS_DOWN, ds).1) == PostedPackets(Run(s, SHOULD_SLOW_THINGS_DOWN, ds).1);
  }

  /** How many more packets the current fast-mode generation phase produces. */
  function PacketsLeft(s: GenState): (n: int)
    requires s.created >= 0 && s.packGenQty >= 0
    ensures 1 <= n <= if s.packGenQty == 0 then 1 else s.packGenQty
  {
    if s.packGenQty == 0 then 1 else s.packGenQty - s.created % s.packGenQty
  }

  /** In fast mode a generation phase of size q produces between 1 and max(q, 1)
      packets: it runs exactly PacketsLeft iterations and then goes quiet. */
  lemma {:induction false} FastPhaseLength(s: GenState, ds: seq<Draws>)
    requires Inv(s) && s.isGenPhase && s.created + |ds| <= INT_MAX
    requires |ds| <= PacketsLeft(s)
    ensures var r := Run(s, false, ds); var t, es := r.0, r.1;
      && t.created == s.created + |ds| && t.packGenQty == s.packGenQty
      && (t.isGenPhase <==> |ds| < PacketsLeft(s))
      && (forall i :: 0 <= i < |es| ==> es[i].Generated?)
  {
    if ds != [] {
      var front := ds[..|ds| - 1];
      FastPhaseLength(s, front);
      RunQueue(s, false, front);
      var t, es := Run(s, false, front).0, Run(s, false, front).1;
      NextStep(t, false, ds[|ds| - 1]);
      PhaseEnds(s, |ds|, t.created + 1);
    }
  }

  /** The fast-mode test after the n-th packet of the phase ends the phase
      exactly when n is the number of packets the phase had left. */
  lemma PhaseEnds(s: GenState, n: int, after: int)
    requires s.created >= 0 && s.packGenQty >= 0
    requires 1 <= n <= PacketsLeft(s) && after == s.created + n
    ensures EndsPhase(after, s.packGenQty) <==> n == PacketsLeft(s)
  {
    if s.packGenQty != 0 {
      PhaseArith(s.created, s.packGenQty, n);
    }
  }

  /** Within one round of q, the count reaches the next multiple of q exactly
      when all of the round's remaining packets are made. */
  lemma PhaseArith(c: nat, q: nat, n: nat)
    requires q >= 1 && 1 <= n <= q - c % q
    ensures (c + n) % q == 0 <==> n == q - c % q
  {
    var a := c / q;
    var m := c % q;
    assert c + n == a * q + (m + n);
    if m + n < q {
      MulMod(a, q, m + n);
    } else {
      assert c + n == (a + 1) * q + 0;
      MulMod(a + 1, q, 0);
    }
  }

  lemma MulAtLeast(a: int, q: nat)
    requires a >= 1
    ensures a * q >= q
  {
    assert a * q == (a - 1) * q + q;
  }

  lemma Distrib(k: int, d: int, q: int)
    ensures k * q - d * q == (k - d) * q
  {
  }

  /** The remainder of k*q + t by q is t. */
  lemma MulMod(k: nat, q: nat, t: nat)
    requires q >= 1 && t < q
    ensures (k * q + t) % q == t
  {
    var x := k * q + t;
    var d := x / q;
    var r := x % q;
    assert x == d * q + r;
    Distrib(k, d, q);
    if k > d {
      MulAtLeast(k - d, q);
    } else if k < d {
      MulAtLeast(d - k, q);
      Distrib(d, k, q);
    }
  }

  // ---------------------------------------------------------------------------
  // The generator's objects
  // ---------------------------------------------------------------------------

  /** OSQPost's result as far as the generator looks at it. */
  datatype PostError = NoErr | QFull

  /** The input queue: a bounded FIFO of packets. */
  class PacketQueue {
    var items: seq<Packet>
    const capacity: nat

    constructor(capacity: nat)
      ensures this.capacity == capacity && items == []
    {
      this.capacity := capacity;
      items := [];
    }

    /** OSQPost: append `p`, or report OS_ERR_Q_FULL and leave the queue as it was. */
    method Post(p: Packet) returns (err: PostError)
      modifies this
      ensures err == NoErr <==> |old(items)| < capacity
      ensures items == if err == NoErr then old(items) + [p] else old(items)
    {
      if |items| < capacity {
        items := items + [p];
        err := NoErr;
      } else {
        err := QFull;
      }
    }
  }

  /** TaskGeneratePacket: its locals, the counters it updates and the queue it posts to. */
  class PacketGenerator {
    var isGenPhase: bool
    var packGenQty: int
    const slow: bool
    const counters: Counters
    const inputQ: PacketQueue

    ghost function State(): GenState
      reads this, counters, inputQ
    {
      GenState(isGenPhase, packGenQty, counters.created, inputQ.items)
    }

    ghost predicate Valid()
      reads this, counters, inputQ
    {
      inputQ.capacity == QUEUE_CAPACITY && Inv(State())
    }

    /** The generator's start: generation phase, and the first phase size drawn. */
    constructor(slow: bool, counters: Counters, inputQ: PacketQueue, qtyDraw: Rand)
      requires inputQ.capacity == QUEUE_CAPACITY && |inputQ.items| <= QUEUE_CAPACITY
      requires counters.created >= 0
      ensures this.slow == slow && this.counters == counters && this.inputQ == inputQ
      ensures State() == Initial(qtyDraw, counters.created, inputQ.items)
      ensures Valid()
    {
      this.slow := slow;
      this.counters := counters;
      this.inputQ := inputQ;
      isGenPhase := true;
      packGenQty := qtyDraw % MAX_PHASE;
    }

    /** One iteration of the generator's loop. */
    method Step(d: Draws) returns (ev: Event)
      requires Valid() && counters.created < INT_MAX
      modifies this, counters, inputQ
      ensures Valid()
      ensures (State(), ev) == Next(old(State()), slow, d)
      ensures counters.processed == old(counters.processed)
      ensures counters.sourceRejected == old(counters.sourceRejected)
      ensures counters.crcRejected == old(counters.crcRejected)
    {
      QueueStep(State(), slow, d);
      if isGenPhase {
        var packet := NewPacket(counters.created, d);
        counters.created := counters.created + 1;
        var err := inputQ.Post(packet);
        var fate := if err == QFull then Freed else Posted;
        if !slow && EndsPhase(counters.created, packGenQty) {
          isGenPhase := false;
        }
        ev := Generated(packet, fate);
      } else {
        isGenPhase := true;
        packGenQty := d.qty % MAX_PHASE;
        ev := Rested(packGenQty);
      }
    }

    /** The generator's loop, run once per element of `ds`. */
    method Loop(ds: seq<Draws>) returns (events: seq<Event>)
      requires Valid() && counters.created + |ds| <= INT_MAX
      modifies this, counters, inputQ
      ensures Valid()
      ensures (State(), events) == Run(old(State()), slow, ds)
      ensures counters.processed == old(counters.processed)
      ensures counters.sourceRejected == old(counters.sourceRejected)
      ensures counters.crcRejected == old(counters.crcRejected)
    {
      ghost var start := State();
      events := [];
      var i := 0;
      while i < |ds|
        invariant 0 <= i <= |ds|
        invariant Valid()
        invariant start.created + |ds| <= INT_MAX
        invariant (State(), events) == Run(start, slow, ds[..i])
        invariant counters.processed == old(counters.processed)
        invariant counters.sourceRejected == old(counters.sourceRejected)
        invariant counters.crcRejected == old(counters.crcRejected)
      {
        assert ds[..i + 1][..i] == ds[..i];
        var ev := Step(ds[i]);
        events := events + [ev];
        i := i + 1;
      }
      assert ds[..i] == ds;
    }
  }

  // ---------------------------------------------------------------------------
  // The checksum as the source computes it
  // ---------------------------------------------------------------------------

  /** The packet as routeur.c builds it: the checksum is taken over the 64 bytes
      found at the address of the local pointer variable, before the payload is
      filled, so it is the checksum of whatever `stack` holds. */
  function AsWrittenPacket(seqNo: U32, d: Draws, stack: seq<Byte>): (p: Packet)
    requires |stack| == PACKET_SIZE
    ensures p.(crc := 0) == Body(seqNo, d)
    ensures BadCrcDrawn(d) ==> p.crc == BAD_CRC
    ensures !BadCrcDrawn(d) ==> p.crc == Checksum(stack)
  {
    Body(seqNo, d).(crc := if BadCrcDrawn(d) then BAD_CRC else Checksum(stack))
  }

  /** Drawing a different payload word 1 changes only that word of the body. */
  lemma BodyPayload(seqNo: U32, d: Draws, x: Rand)
    ensures var b := Body(seqNo, d);
      Body(seqNo, d.(data := d.data[1 := x])) == b.(data := b.data[1 := x])
  {
    var payload: seq<U32> := d.data;
    var payload': seq<U32> := d.data[1 := x];
    assert payload'[0 := seqNo] == payload[0 := seqNo][1 := x];
  }

  /** The checksum the source stores does not depend on the packet: whatever the
      64 bytes at the pointer's address hold, of two packets whose payload word 1
      was drawn as an even value and as that value plus one, at least one fails
      the check although neither was meant to be bad. */
  lemma AsWrittenCrcMissesPayload(seqNo: U32, d: Draws, stack: seq<Byte>)
    requires |stack| == PACKET_SIZE && !BadCrcDrawn(d) && d.data[1] % 2 == 0
    ensures var d' := d.(data := d.data[1 := d.data[1] + 1]);
      PacketCrc(AsWrittenPacket(seqNo, d, stack)) != 0 || PacketCrc(AsWrittenPacket(seqNo, d', stack)) != 0
  {
    var x := d.data[1];
    var d' := d.(data := d.data[1 := x + 1]);
    PayloadIncrement(seqNo, d, x);
    NotBothCheck(AsWrittenPacket(seqNo, d, stack), AsWrittenPacket(seqNo, d', stack));
  }

  /** Drawing payload word 1 as an even value plus one adds exactly one to the
      plain sum of the packet's 16-bit words. */
  lemma PayloadIncrement(seqNo: U32, d: Draws, x: Rand)
    requires x == d.data[1] && x % 2 == 0
    ensures Sum(Words(PacketBytes(Body(seqNo, d.(data := d.data[1 := x + 1])))))
         == Sum(Words(PacketBytes(Body(seqNo, d)))) + 1
  {
    BodyPayload(seqNo, d, x + 1);
    PayloadWordSum(Body(seqNo, d), 1, x + 1);
    HalfSumNext(x);
  }
}

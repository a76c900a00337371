/**
 * Whole runs of two honest streams over the network of module RudpSystem:
 * what holds after any number of steps in any order, and what a burst that is
 * interrupted by an arriving packet does to it.
 */
module RudpRuns {
  import opened RudpVectors
  import opened RudpStream
  import opened RudpSystem

  /** Two streams, everything ever put on the network, the parity bits chosen and the data sent so far. */
  datatype System = System(
    left: Stream, right: Stream,
    toRight: set<Packet>, toLeft: set<Packet>,
    acksToRight: set<ExternalAck>, acksToLeft: set<ExternalAck>,
    leftBits: map<nat, bool>, rightBits: map<nat, bool>,
    leftTexts: map<nat, seq<Byte>>, rightTexts: map<nat, seq<Byte>>)

  datatype Event =
    | Send(ps: bool, ec: bool, data: seq<Byte>)  // a new packet with a randomly chosen parity bit
    | EndBurst                           // sendNow returns
    | GiveAck(room: nat)                 // an external ACK with room for that many vector bytes
    | Receive(packet: Packet, late: bool)
    | TakeAck(ack: ExternalAck)

  datatype Step = Step(atLeft: bool, event: Event)

  ghost function LeftStep(s: System, e: Event): System {
    match e
    case Send(ps, ec, data) =>
      if s.left.closed then s
      else s.(left := AfterSending(s.left, ps), toRight := s.toRight + {NewPacket(s.left, ps, ec, data)},
              leftBits := s.leftBits[s.left.next := ps], leftTexts := s.leftTexts[s.left.next := data])
    case EndBurst => s.(left := s.left.(burst := None))
    case GiveAck(room) =>
      if s.left.closed then s
      else s.(acksToRight := s.acksToRight + {ExternalAck(s.left.next, CurrentAck(s.left, room))})
    case Receive(p, late) => if p in s.toLeft then s.(left := HandlePacket(s.left, p, late)) else s
    case TakeAck(x) => if x in s.acksToLeft then s.(left := HandleExternalAck(s.left, x)) else s
  }

  ghost function Mirror(s: System): System {
    System(s.right, s.left, s.toLeft, s.toRight, s.acksToLeft, s.acksToRight, s.rightBits, s.leftBits,
           s.rightTexts, s.leftTexts)
  }

  ghost function After(s: System, step: Step): System {
    if step.atLeft then LeftStep(s, step.event) else Mirror(LeftStep(Mirror(s), step.event))
  }

  /** A packet of a burst is created after GSNFR moved only while nothing beyond GSNFR has arrived. */
  predicate Quiet(a: Stream, e: Event) {
    e.Send? && a.burst.Some? ==> a.burst.value.gsnfr == a.gsnfr || a.gsnr == a.gsnfr
  }

  ghost predicate QuietRun(s: System, steps: seq<Step>)
    decreases |steps|
  {
    steps == [] ||
    (Quiet(if steps[0].atLeft then s.left else s.right, steps[0].event) && QuietRun(After(s, steps[0]), steps[1..]))
  }

  ghost function Run(s: System, steps: seq<Step>): System
    decreases |steps|
  {
    if steps == [] then s else Run(After(s, steps[0]), steps[1..])
  }

  /** Two fresh streams that each expect the other's first number. */
  ghost function Initial(leftFirst: nat, rightFirst: nat): System
    requires leftFirst > 0 && rightFirst > 0
  {
    System(NewStream(leftFirst, rightFirst), NewStream(rightFirst, leftFirst), {}, {}, {}, {}, map[], map[], map[], map[])
  }

  ghost predicate Inv(s: System, leftFirst: nat, rightFirst: nat) {
    && !s.left.closed && !s.right.closed
    && FlowInv(s.left, s.right, leftFirst, s.leftBits, s.toRight, s.toLeft, s.acksToLeft)
    && FlowInv(s.right, s.left, rightFirst, s.rightBits, s.toLeft, s.toRight, s.acksToRight)
  }

  // ----- one stream at a time -----

  ghost predicate SameSender(a: Stream, c: Stream) {
    c.next == a.next && c.xoredToNow == a.xoredToNow && c.lowest == a.lowest && c.sending == a.sending
  }

  ghost predicate SameReceiver(b: Stream, c: Stream) {
    && c.gsnr == b.gsnr && c.gsnfr == b.gsnfr && c.gsnrParity == b.gsnrParity && c.xoredToGsnfr == b.xoredToGsnfr
    && c.received == b.received && c.seen == b.seen && c.burst == b.burst && c.delivered == b.delivered
  }

  lemma AckKeepsReceiver(s: Stream, reported: nat, ack: Ack)
    ensures SameReceiver(s, HandleAck(s, reported, ack)) && HandleAck(s, reported, ack).next == s.next
  {
  }

  lemma AcceptKeepsSender(s: Stream, p: Packet)
    ensures
      var c := Delivered(Accepted(s, p));
      SameSender(s, c) && c.burst == s.burst && c.closed == s.closed && c.gsnr == if p.number > s.gsnr then p.number else s.gsnr
  {
    DeliveredKeepsSender(Accepted(s, p));
    hide Delivered;
  }

  lemma PacketKeepsRest(s: Stream, p: Packet, late: bool)
    ensures
      var t := HandlePacket(s, p, late);
      t.next == s.next && t.burst == s.burst
  {
    AckKeepsReceiver(s, p.number, p.ack);
    AcceptKeepsSender(HandleAck(s, p.number, p.ack), p);
  }

  /** An honest packet, however late, leaves the sending half knowing only what is true. */
  lemma PacketToSender(s: Stream, peer: Stream, first: nat, bits: map<nat, bool>, p: Packet, late: bool)
    requires !s.closed && SenderInv(s, first, bits) && KnowledgeOk(s, peer) && AckOk(p.ack, peer, first, bits)
    ensures
      var t := HandlePacket(s, p, late);
      !t.closed && SenderInv(t, first, bits) && KnowledgeOk(t, peer)
  {
    var t := HandleAck(s, p.number, p.ack);
    HonestAck(s, peer, first, bits, p.number, p.ack);
    AcceptKeepsSender(t, p);
    SenderDependsOnly(t, Delivered(Accepted(t, p)), peer, first, bits);
  }

  /** An honest packet, however late, leaves the receiving half with exactly what arrived. */
  lemma PacketToReceiver(s: Stream, first: nat, bits: map<nat, bool>, p: Packet, late: bool)
    requires ReceiverInv(s, first, bits) && p.number in bits && p.ps == bits[p.number]
    ensures
      var t := HandlePacket(s, p, late);
      ReceiverInv(t, first, bits) && Grows(s, t) && (t.gsnr == s.gsnr || t.gsnr == p.number)
  {
    if !(s.closed || p.number <= s.gsnfr || p.number > s.gsnr + WINDOW) {
      var t := HandleAck(s, p.number, p.ack);
      AckKeepsReceiver(s, p.number, p.ack);
      ReceiverDependsOnly(s, t, first, bits);
      AcceptedOk(t, first, bits, p);
      AcceptKeepsSender(t, p);
    }
  }

  lemma ReceiverDependsOnly(b: Stream, c: Stream, first: nat, bits: map<nat, bool>)
    requires SameReceiver(b, c)
    ensures ReceiverInv(b, first, bits) <==> ReceiverInv(c, first, bits)
    ensures Grows(b, c) && Grows(c, b)
    ensures BurstOk(b, first, bits) <==> BurstOk(c, first, bits)
  {
  }

  /** The vector of a burst, new or not, is true of the GSNFR the burst started from. */
  lemma BurstVectorTells(b: Stream, first: nat, bits: map<nat, bool>)
    requires ReceiverInv(b, first, bits) && BurstOk(b, first, bits)
    ensures
      var u := CurrentBurst(b);
      u.gsnfr <= b.gsnfr && VectorOk(u.vector, u.vp, u.gsnfr, b, first, bits)
  {
    if b.burst.None? {
      FreshVectorOk(b, first, bits, MAX_VECTOR);
    }
  }

  /** Sending leaves the receiving half alone, but for the burst it may begin. */
  lemma SendingKeepsReceiver(b: Stream, first: nat, bits: map<nat, bool>, ps: bool)
    requires ReceiverInv(b, first, bits)
    requires
      var u := CurrentBurst(b);
      u.gsnfr <= b.gsnfr && VectorOk(u.vector, u.vp, u.gsnfr, b, first, bits)
    ensures ReceiverInv(AfterSending(b, ps), first, bits) && BurstOk(AfterSending(b, ps), first, bits)
    ensures Grows(b, AfterSending(b, ps))
  {
    BurstKept(b, first, bits, CurrentBurst(b));
    hide CurrentBurst, VectorOk, ReceiverInv, BurstOk;
    ReceiverDependsOnly(b.(burst := Some(CurrentBurst(b))), AfterSending(b, ps), first, bits);
  }

  lemma BurstKept(b: Stream, first: nat, bits: map<nat, bool>, u: Burst)
    requires ReceiverInv(b, first, bits) && u.gsnfr <= b.gsnfr && VectorOk(u.vector, u.vp, u.gsnfr, b, first, bits)
    ensures
      var d := b.(burst := Some(u));
      ReceiverInv(d, first, bits) && BurstOk(d, first, bits) && Grows(b, d)
  {
    hide Decode, RangeParity, ReportedParity;
  }

  lemma NoBurst(b: Stream, first: nat, bits: map<nat, bool>)
    requires ReceiverInv(b, first, bits)
    ensures ReceiverInv(b.(burst := None), first, bits) && BurstOk(b.(burst := None), first, bits)
    ensures Grows(b, b.(burst := None))
  {
  }

  /** Under the EQ flag no vector arrives, whatever was copied. */
  lemma EqMakesAck(b: Stream, first: nat, bits: map<nat, bool>, vector: seq<Run>, vp: bool)
    requires ReceiverInv(b, first, bits) && b.gsnr == b.gsnfr
    ensures AckOk(OnWire(Ack(b.gsnr, b.gsnfr, vector, vp, b.gsnrParity, b.xoredToGsnfr)), b, first, bits)
  {
  }

  /** In a quiet burst a new packet carries a true acknowledgement, and the burst goes on being true. */
  lemma NewPacketTells(b: Stream, first: nat, bits: map<nat, bool>, ps: bool, ec: bool, data: seq<Byte>)
    requires ReceiverInv(b, first, bits) && BurstOk(b, first, bits) && Quiet(b, Send(ps, ec, data))
    ensures AckOk(NewPacket(b, ps, ec, data).ack, AfterSending(b, ps), first, bits)
    ensures ReceiverInv(AfterSending(b, ps), first, bits) && BurstOk(AfterSending(b, ps), first, bits)
    ensures Grows(b, AfterSending(b, ps))
  {
    BurstVectorTells(b, first, bits);
    if b.gsnr == b.gsnfr {
      EqMakesAck(b, first, bits, CurrentBurst(b).vector, CurrentBurst(b).vp);
    } else {
      VectorMakesAck(b, first, bits, CurrentBurst(b).vector, CurrentBurst(b).vp);
    }
    SendingKeepsReceiver(b, first, bits, ps);
    AckStaysOk(NewPacket(b, ps, ec, data).ack, b, AfterSending(b, ps), first, bits);
  }

  // ----- one step -----

  /** The flow out of a stream that sends a new packet. */
  lemma SendOutward(a: Stream, b: Stream, first: nat, bits: map<nat, bool>, sent: set<Packet>, back: set<Packet>,
                    acks: set<ExternalAck>, ps: bool, ec: bool, data: seq<Byte>)
    requires FlowInv(a, b, first, bits, sent, back, acks)
    ensures FlowInv(AfterSending(a, ps), b, first, bits[a.next := ps], sent + {NewPacket(a, ps, ec, data)}, back, acks)
  {
    SentOk(a, first, bits, ps);
    ReceiverUnaffected(b, first, bits, a.next, ps);
    BurstUnaffected(b, first, bits, a.next, ps);
    forall p | p in back ensures AckOk(p.ack, b, first, bits[a.next := ps]) {
      AckUnaffected(p.ack, b, first, bits, a.next, ps);
    }
    forall x | x in acks ensures AckOk(x.ack, b, first, bits[a.next := ps]) {
      AckUnaffected(x.ack, b, first, bits, a.next, ps);
    }
  }

  /** The flow into a stream after that stream changed: it still holds if the change kept the receiving half true. */
  lemma FlowInward(a: Stream, b: Stream, c: Stream, first: nat, bits: map<nat, bool>, sent: set<Packet>,
                   back: set<Packet>, acks: set<ExternalAck>, newBack: set<Packet>, newAcks: set<ExternalAck>)
    requires FlowInv(a, b, first, bits, sent, back, acks)
    requires ReceiverInv(c, first, bits) && BurstOk(c, first, bits) && Grows(b, c) && c.gsnr < a.next
    requires forall p :: p in newBack && p !in back ==> AckOk(p.ack, c, first, bits)
    requires forall x :: x in newAcks && x !in acks ==> AckOk(x.ack, c, first, bits)
    ensures FlowInv(a, c, first, bits, sent, newBack, newAcks)
  {
    forall p | p in newBack ensures AckOk(p.ack, c, first, bits) {
      if p in back { AckStaysOk(p.ack, b, c, first, bits); }
    }
    forall x | x in newAcks ensures AckOk(x.ack, c, first, bits) {
      if x in acks { AckStaysOk(x.ack, b, c, first, bits); }
    }
  }

  /** The flow out of a stream whose sending half changed, but still knows only what is true. */
  lemma FlowOutward(a: Stream, c: Stream, b: Stream, first: nat, bits: map<nat, bool>, sent: set<Packet>,
                    back: set<Packet>, acks: set<ExternalAck>)
    requires FlowInv(a, b, first, bits, sent, back, acks)
    requires SenderInv(c, first, bits) && KnowledgeOk(c, b)
    ensures FlowInv(c, b, first, bits, sent, back, acks)
  {
  }

  lemma SenderDependsOnly(a: Stream, c: Stream, b: Stream, first: nat, bits: map<nat, bool>)
    requires SameSender(a, c)
    ensures SenderInv(a, first, bits) <==> SenderInv(c, first, bits)
    ensures KnowledgeOk(a, b) <==> KnowledgeOk(c, b)
  {
  }

  lemma SendKeepsInv(s: System, leftFirst: nat, rightFirst: nat, ps: bool, ec: bool, data: seq<Byte>)
    requires Inv(s, leftFirst, rightFirst) && Quiet(s.left, Send(ps, ec, data))
    ensures Inv(LeftStep(s, Send(ps, ec, data)), leftFirst, rightFirst)
  {
    var p := NewPacket(s.left, ps, ec, data);
    SendOutward(s.left, s.right, leftFirst, s.leftBits, s.toRight, s.toLeft, s.acksToLeft, ps, ec, data);
    NewPacketTells(s.left, rightFirst, s.rightBits, ps, ec, data);
    FlowInward(s.right, s.left, AfterSending(s.left, ps), rightFirst, s.rightBits, s.toLeft, s.toRight, s.acksToRight,
               s.toRight + {p}, s.acksToRight);
  }

  lemma GiveAckKeepsInv(s: System, leftFirst: nat, rightFirst: nat, room: nat)
    requires Inv(s, leftFirst, rightFirst)
    ensures Inv(LeftStep(s, GiveAck(room)), leftFirst, rightFirst)
  {
    var a := CurrentAck(s.left, room);
    FreshVectorOk(s.left, rightFirst, s.rightBits, room);
    VectorMakesAck(s.left, rightFirst, s.rightBits, a.vector, a.vp);
    FlowInward(s.right, s.left, s.left, rightFirst, s.rightBits, s.toLeft, s.toRight, s.acksToRight,
               s.toRight, s.acksToRight + {ExternalAck(s.left.next, a)});
  }

  lemma EndBurstKeepsInv(s: System, leftFirst: nat, rightFirst: nat)
    requires Inv(s, leftFirst, rightFirst)
    ensures Inv(LeftStep(s, EndBurst), leftFirst, rightFirst)
  {
    var c := s.left.(burst := None);
    SenderDependsOnly(s.left, c, s.right, leftFirst, s.leftBits);
    FlowOutward(s.left, c, s.right, leftFirst, s.leftBits, s.toRight, s.toLeft, s.acksToLeft);
    NoBurst(s.left, rightFirst, s.rightBits);
    hide SenderInv, ReceiverInv, BurstOk, KnowledgeOk, AckOk;
    FlowInward(s.right, s.left, c, rightFirst, s.rightBits, s.toLeft, s.toRight, s.acksToRight, s.toRight, s.acksToRight);
  }

  lemma ReceiveOutward(s: System, leftFirst: nat, rightFirst: nat, p: Packet, late: bool)
    requires Inv(s, leftFirst, rightFirst) && p in s.toLeft
    ensures
      var t := HandlePacket(s.left, p, late);
      !t.closed && FlowInv(t, s.right, leftFirst, s.leftBits, s.toRight, s.toLeft, s.acksToLeft)
  {
    hide HandlePacket, Inv;
    assert FlowInv(s.left, s.right, leftFirst, s.leftBits, s.toRight, s.toLeft, s.acksToLeft) && !s.left.closed by { InvParts(s, leftFirst, rightFirst); }
    PacketToSender(s.left, s.right, leftFirst, s.leftBits, p, late);
    FlowOutward(s.left, HandlePacket(s.left, p, late), s.right, leftFirst, s.leftBits, s.toRight, s.toLeft, s.acksToLeft);
  }

  lemma InvParts(s: System, leftFirst: nat, rightFirst: nat)
    requires Inv(s, leftFirst, rightFirst)
    ensures !s.left.closed && !s.right.closed
    ensures FlowInv(s.left, s.right, leftFirst, s.leftBits, s.toRight, s.toLeft, s.acksToLeft)
    ensures FlowInv(s.right, s.left, rightFirst, s.rightBits, s.toLeft, s.toRight, s.acksToRight)
  {
  }

  lemma ReceiveInward(s: System, leftFirst: nat, rightFirst: nat, p: Packet, late: bool)
    requires Inv(s, leftFirst, rightFirst) && p in s.toLeft
    ensures FlowInv(s.right, HandlePacket(s.left, p, late), rightFirst, s.rightBits, s.toLeft, s.toRight, s.acksToRight)
  {
    hide HandlePacket, Inv;
    assert FlowInv(s.right, s.left, rightFirst, s.rightBits, s.toLeft, s.toRight, s.acksToRight) by { InvParts(s, leftFirst, rightFirst); }
    var t := HandlePacket(s.left, p, late);
    PacketToReceiver(s.left, rightFirst, s.rightBits, p, late);
    PacketKeepsRest(s.left, p, late);
    BurstStaysOk(s.left, t, rightFirst, s.rightBits);
    FlowInward(s.right, s.left, t, rightFirst, s.rightBits, s.toLeft, s.toRight, s.acksToRight, s.toRight, s.acksToRight);
  }

  lemma ReceiveKeepsInv(s: System, leftFirst: nat, rightFirst: nat, p: Packet, late: bool)
    requires Inv(s, leftFirst, rightFirst)
    ensures Inv(LeftStep(s, Receive(p, late)), leftFirst, rightFirst)
  {
    hide HandlePacket, FlowInv;
    if p in s.toLeft {
      ReceiveOutward(s, leftFirst, rightFirst, p, late);
      ReceiveInward(s, leftFirst, rightFirst, p, late);
    }
  }

  lemma AckOutward(s: System, leftFirst: nat, rightFirst: nat, x: ExternalAck)
    requires Inv(s, leftFirst, rightFirst) && x in s.acksToLeft
    ensures
      var t := HandleExternalAck(s.left, x);
      !t.closed && FlowInv(t, s.right, leftFirst, s.leftBits, s.toRight, s.toLeft, s.acksToLeft)
  {
    var t := HandleExternalAck(s.left, x);
    InvParts(s, leftFirst, rightFirst);
    HonestAck(s.left, s.right, leftFirst, s.leftBits, x.nextNumber, x.ack);
    hide HandleAck, Inv;
    FlowOutward(s.left, t, s.right, leftFirst, s.leftBits, s.toRight, s.toLeft, s.acksToLeft);
  }

  lemma AckInward(s: System, leftFirst: nat, rightFirst: nat, x: ExternalAck)
    requires Inv(s, leftFirst, rightFirst) && x in s.acksToLeft
    ensures FlowInv(s.right, HandleExternalAck(s.left, x), rightFirst, s.rightBits, s.toLeft, s.toRight, s.acksToRight)
  {
    var t := HandleExternalAck(s.left, x);
    InvParts(s, leftFirst, rightFirst);
    AckKeepsReceiver(s.left, x.nextNumber, x.ack);
    ReceiverDependsOnly(s.left, t, rightFirst, s.rightBits);
    hide HandleAck, Inv;
    FlowInward(s.right, s.left, t, rightFirst, s.rightBits, s.toLeft, s.toRight, s.acksToRight, s.toRight, s.acksToRight);
  }

  lemma TakeAckKeepsInv(s: System, leftFirst: nat, rightFirst: nat, x: ExternalAck)
    requires Inv(s, leftFirst, rightFirst)
    ensures Inv(LeftStep(s, TakeAck(x)), leftFirst, rightFirst)
  {
    hide HandleExternalAck, FlowInv;
    if x in s.acksToLeft {
      AckOutward(s, leftFirst, rightFirst, x);
      AckInward(s, leftFirst, rightFirst, x);
    }
  }

  lemma LeftStepKeepsInv(s: System, leftFirst: nat, rightFirst: nat, e: Event)
    requires Inv(s, leftFirst, rightFirst) && Quiet(s.left, e)
    ensures Inv(LeftStep(s, e), leftFirst, rightFirst)
  {
    match e
    case Send(ps, ec, data) => SendKeepsInv(s, leftFirst, rightFirst, ps, ec, data);
    case EndBurst => EndBurstKeepsInv(s, leftFirst, rightFirst);
    case GiveAck(room) => GiveAckKeepsInv(s, leftFirst, rightFirst, room);
    case Receive(p, late) => ReceiveKeepsInv(s, leftFirst, rightFirst, p, late);
    case TakeAck(x) => TakeAckKeepsInv(s, leftFirst, rightFirst, x);
  }

  /** The two ends are treated alike. */
  lemma MirrorInv(s: System, leftFirst: nat, rightFirst: nat)
    ensures Inv(Mirror(s), rightFirst, leftFirst) <==> Inv(s, leftFirst, rightFirst)
  {
  }

  /** The invariant of every quiet run: one step. */
  lemma StepKeepsInv(s: System, leftFirst: nat, rightFirst: nat, step: Step)
    requires Inv(s, leftFirst, rightFirst)
    requires Quiet(if step.atLeft then s.left else s.right, step.event)
    ensures Inv(After(s, step), leftFirst, rightFirst)
  {
    if step.atLeft {
      LeftStepKeepsInv(s, leftFirst, rightFirst, step.event);
    } else {
      MirrorInv(s, leftFirst, rightFirst);
      LeftStepKeepsInv(Mirror(s), rightFirst, leftFirst, step.event);
      MirrorInv(LeftStep(Mirror(s), step.event), rightFirst, leftFirst);
    }
  }

  /** The invariant of every quiet run: any number of steps. */
  lemma {:induction false} RunKeepsInv(s: System, leftFirst: nat, rightFirst: nat, steps: seq<Step>)
    requires Inv(s, leftFirst, rightFirst) && QuietRun(s, steps)
    ensures Inv(Run(s, steps), leftFirst, rightFirst)
    decreases |steps|
  {
    if steps != [] {
      StepKeepsInv(s, leftFirst, rightFirst, steps[0]);
      RunKeepsInv(After(s, steps[0]), leftFirst, rightFirst, steps[1..]);
    }
  }

  lemma InitialInv(leftFirst: nat, rightFirst: nat)
    requires leftFirst > 0 && rightFirst > 0
    ensures Inv(Initial(leftFirst, rightFirst), leftFirst, rightFirst)
  {
  }

  // ----- what a reader of the protocol is promised -----

  /** The packets a sender treats as acknowledged: erased from its buffer, or with their data freed. */
  ghost predicate Acknowledges(a: Stream, first: nat, k: nat) {
    first <= k < a.next && (k < a.lowest || (k in a.sending && a.sending[k].received))
  }

  ghost predicate Truthful(a: Stream, b: Stream, first: nat) {
    forall k :: Acknowledges(a, first, k) ==> k in b.seen
  }

  /** GSNFR is the greatest number up to which everything arrived; GSNR is the greatest number that arrived. */
  ghost predicate ReportsArrivals(b: Stream, first: nat) {
    && b.gsnfr <= b.gsnr
    && (forall k :: first <= k <= b.gsnfr ==> k in b.seen)
    && b.gsnfr + 1 !in b.seen
    && (forall k :: k in b.seen ==> first <= k <= b.gsnr)
    && (b.seen != {} ==> b.gsnr in b.seen)
    && (b.seen == {} ==> b.gsnr == b.gsnfr == first - 1)
  }

  /**
   * In every quiet run, under any loss, duplication, reordering and delay: no honest stream is
   * ever closed for an illegal acknowledgement, no packet is treated as acknowledged that was not
   * received, and both ends report exactly what arrived.
   */
  lemma QuietRunsAreSafe(leftFirst: nat, rightFirst: nat, steps: seq<Step>)
    requires leftFirst > 0 && rightFirst > 0 && QuietRun(Initial(leftFirst, rightFirst), steps)
    ensures
      var s := Run(Initial(leftFirst, rightFirst), steps);
      && !s.left.closed && !s.right.closed
      && Truthful(s.left, s.right, leftFirst) && Truthful(s.right, s.left, rightFirst)
      && ReportsArrivals(s.left, rightFirst) && ReportsArrivals(s.right, leftFirst)
  {
    var s := Run(Initial(leftFirst, rightFirst), steps);
    InitialInv(leftFirst, rightFirst);
    RunKeepsInv(Initial(leftFirst, rightFirst), leftFirst, rightFirst, steps);
    InvIsSafe(s.left, s.right, leftFirst, s.leftBits, s.toRight, s.toLeft, s.acksToLeft);
    InvIsSafe(s.right, s.left, rightFirst, s.rightBits, s.toLeft, s.toRight, s.acksToRight);
  }

  lemma InvIsSafe(a: Stream, b: Stream, first: nat, bits: map<nat, bool>, sent: set<Packet>, back: set<Packet>, acks: set<ExternalAck>)
    requires FlowInv(a, b, first, bits, sent, back, acks)
    ensures Truthful(a, b, first) && ReportsArrivals(b, first)
  {
    assert first <= b.gsnfr ==> b.gsnfr in b.seen;
  }

  // ----- what holds of every run, quiet or not -----

  /** mSendingPackets holds exactly the numbers from its first key up to mNextSequenceNumber. */
  ghost predicate Contiguous(a: Stream) {
    a.lowest <= a.next && forall k :: k in a.sending <==> a.lowest <= k < a.next
  }

  /** Acknowledgements are never withdrawn, and what was received is never forgotten. */
  ghost predicate Advances(a: Stream, c: Stream) {
    && Grows(a, c)
    && a.next <= c.next
    && (forall k, first :: Acknowledges(a, first, k) ==> Acknowledges(c, first, k))
  }

  lemma DroppingAdvances(a: Stream, gsnfr: nat)
    requires Contiguous(a)
    ensures Contiguous(Dropped(a, gsnfr)) && Advances(a, Dropped(a, gsnfr))
  {
  }

  lemma MarkingAdvances(a: Stream, ack: Ack)
    requires Contiguous(a)
    ensures Contiguous(WithVector(a, ack)) && Advances(a, WithVector(a, ack))
  {
    assert WithVector(a, ack).sending.Keys == a.sending.Keys;
  }

  lemma AnyAckAdvances(a: Stream, reported: nat, ack: Ack)
    requires Contiguous(a)
    ensures Contiguous(HandleAck(a, reported, ack)) && Advances(a, HandleAck(a, reported, ack))
  {
    if !Ignores(a, reported, ack) && !HeaderWrong(a, ack) {
      DroppingAdvances(a, ack.gsnfr);
      MarkingAdvances(Dropped(a, ack.gsnfr), ack);
    }
  }

  lemma {:induction false} DeliveryAdvances(b: Stream)
    ensures Grows(b, Delivered(b))
    decreases |b.received|
  {
    if b.gsnfr + 1 in b.received {
      DeliveryAdvances(DeliverNext(b));
    }
  }

  lemma AnyPacketAdvances(a: Stream, p: Packet, late: bool)
    requires Contiguous(a)
    ensures Contiguous(HandlePacket(a, p, late)) && Advances(a, HandlePacket(a, p, late))
  {
    AnyAckAdvances(a, p.number, p.ack);
    var t := HandleAck(a, p.number, p.ack);
    AcceptKeepsSender(t, p);
    DeliveryAdvances(Accepted(t, p));
  }

  lemma SendingAdvances(a: Stream, ps: bool)
    requires Contiguous(a)
    ensures Contiguous(AfterSending(a, ps)) && Advances(a, AfterSending(a, ps))
    ensures Contiguous(a.(burst := None)) && Advances(a, a.(burst := None))
  {
  }

  lemma LeftStepAdvances(s: System, e: Event)
    requires Contiguous(s.left)
    ensures Contiguous(LeftStep(s, e).left) && Advances(s.left, LeftStep(s, e).left) && LeftStep(s, e).right == s.right
  {
    var a := s.left;
    assert Advances(a, a);
    hide Contiguous, Advances, AfterSending, HandlePacket, HandleAck, CurrentAck, NewPacket;
    match e
    case Send(ps, ec, data) => SendingAdvances(a, ps);
    case EndBurst => SendingAdvances(a, false);
    case GiveAck(room) =>
    case Receive(p, late) => AnyPacketAdvances(a, p, late);
    case TakeAck(x) => AnyAckAdvances(a, x.nextNumber, x.ack);
  }

  /** Whatever either end does and whatever it is sent, one step withdraws nothing. */
  lemma StepAdvances(s: System, step: Step)
    requires Contiguous(s.left) && Contiguous(s.right)
    ensures Contiguous(After(s, step).left) && Contiguous(After(s, step).right)
    ensures Advances(s.left, After(s, step).left) && Advances(s.right, After(s, step).right)
  {
    assert Advances(s.left, s.left) && Advances(s.right, s.right);
    LeftStepAdvances(if step.atLeft then s else Mirror(s), step.event);
    hide Contiguous, Advances, LeftStep;
  }

  lemma {:induction false} RunsAdvance(s: System, steps: seq<Step>)
    requires Contiguous(s.left) && Contiguous(s.right)
    ensures Advances(s.left, Run(s, steps).left) && Advances(s.right, Run(s, steps).right)
    decreases |steps|
  {
    if steps != [] {
      StepAdvances(s, steps[0]);
      RunsAdvance(After(s, steps[0]), steps[1..]);
    }
  }
}

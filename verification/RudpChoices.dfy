/**
 * The random parity bits decide nothing as long as both ends are honest: a quiet run takes the same
 * course whatever bits are chosen. With that, what a burst that is not quiet does, for every burst.
 */
module RudpChoices {
  import opened RudpVectors
  import opened RudpStream
  import opened RudpSystem
  import opened RudpRuns

  // ----- the same but for parity bits -----

  ghost predicate AlikeSent(x: map<nat, Sent>, y: map<nat, Sent>) {
    x.Keys == y.Keys && forall k :: k in x ==> x[k].received == y[k].received
  }

  ghost predicate AlikeGot(x: map<nat, Got>, y: map<nat, Got>) {
    x.Keys == y.Keys && forall k :: k in x ==> x[k].ec == y[k].ec && x[k].data == y[k].data
  }

  ghost predicate AlikeBursts(x: Option<Burst>, y: Option<Burst>) {
    x.Some? == y.Some? && (x.Some? ==> x.value.vector == y.value.vector && x.value.gsnfr == y.value.gsnfr)
  }

  ghost predicate AlikeSenders(a: Stream, c: Stream) {
    a.next == c.next && a.lowest == c.lowest && AlikeSent(a.sending, c.sending) && AlikeBursts(a.burst, c.burst)
  }

  ghost predicate AlikeReceivers(a: Stream, c: Stream) {
    a.gsnr == c.gsnr && a.gsnfr == c.gsnfr && AlikeGot(a.received, c.received) && a.seen == c.seen && a.delivered == c.delivered
  }

  ghost predicate AlikeStreams(a: Stream, c: Stream) {
    AlikeSenders(a, c) && AlikeReceivers(a, c) && a.closed == c.closed
  }

  ghost predicate AlikeAcks(x: Ack, y: Ack) {
    x.gsnr == y.gsnr && x.gsnfr == y.gsnfr && x.vector == y.vector
  }

  ghost predicate AlikePackets(p: Packet, q: Packet) {
    p.number == q.number && p.ec == q.ec && p.data == q.data && AlikeAcks(p.ack, q.ack)
  }

  ghost predicate AlikeExternal(x: ExternalAck, y: ExternalAck) {
    x.nextNumber == y.nextNumber && AlikeAcks(x.ack, y.ack)
  }

  /** Everything on one network has its like on the other. */
  ghost predicate AlikeTraffic(ps: set<Packet>, qs: set<Packet>, xs: set<ExternalAck>, ys: set<ExternalAck>) {
    && (forall p :: p in ps ==> exists q :: q in qs && AlikePackets(p, q))
    && (forall x :: x in xs ==> exists y :: y in ys && AlikeExternal(x, y))
  }

  /** The same system but for parity bits. */
  ghost predicate AlikeSystems(s: System, t: System) {
    && AlikeStreams(s.left, t.left) && AlikeStreams(s.right, t.right)
    && AlikeTraffic(s.toLeft, t.toLeft, s.acksToLeft, t.acksToLeft)
    && AlikeTraffic(s.toRight, t.toRight, s.acksToRight, t.acksToRight)
    && s.leftTexts == t.leftTexts && s.rightTexts == t.rightTexts
  }

  // ----- no parity bit decides what an honest stream does -----

  lemma {:induction false} EncodedAlike(e: Encoding, f: Encoding, items: seq<Item>, jtems: seq<Item>, gsnr: nat, max: nat)
    requires e.bytes == f.bytes && e.current == f.current
    requires |items| == |jtems| && forall i :: 0 <= i < |items| ==> items[i].state == jtems[i].state
    ensures EncodedAll(e, items, gsnr, max).bytes == EncodedAll(f, jtems, gsnr, max).bytes
    decreases |items|
  {
    if items != [] && Accepts(e, items[0], gsnr, max) {
      EncodedAlike(Added(e, items[0], gsnr, max), Added(f, jtems[0], gsnr, max), items[1..], jtems[1..], gsnr, max);
    }
  }

  lemma CurrentAlike(a: Stream, c: Stream, max: nat)
    requires AlikeReceivers(a, c)
    ensures AlikeAcks(CurrentAck(a, max), CurrentAck(c, max))
  {
    var items, jtems := Gap(a.received, a.gsnfr + 1, a.gsnr), Gap(c.received, c.gsnfr + 1, c.gsnr);
    forall i | 0 <= i < |items| ensures items[i].state == jtems[i].state {
      assert items[i] == ItemFor(a.received, a.gsnfr + 1 + i) && jtems[i] == ItemFor(c.received, c.gsnfr + 1 + i);
    }
    EncodedAlike(Start(a.gsnfr, a.xoredToGsnfr), Start(c.gsnfr, c.xoredToGsnfr), items, jtems, a.gsnr, max);
  }

  lemma SendingAlike(a: Stream, c: Stream, ps: bool, qs: bool, ec: bool, data: seq<Byte>)
    requires AlikeStreams(a, c)
    ensures AlikeStreams(AfterSending(a, ps), AfterSending(c, qs))
    ensures AlikePackets(NewPacket(a, ps, ec, data), NewPacket(c, qs, ec, data))
  {
    CurrentAlike(a, c, MAX_VECTOR);
    hide CurrentAck;
  }

  lemma DroppedAlike(a: Stream, c: Stream, gsnfr: nat)
    requires AlikeStreams(a, c)
    ensures AlikeStreams(Dropped(a, gsnfr), Dropped(c, gsnfr))
  {
  }

  lemma MarkedAlike(x: map<nat, Sent>, y: map<nat, Sent>, start: nat, states: seq<State>, gsnr: nat)
    requires AlikeSent(x, y)
    ensures AlikeSent(MarkedAll(x, start, states, gsnr), MarkedAll(y, start, states, gsnr))
  {
    var m, n := Marked(x, start, states), Marked(y, start, states);
    assert AlikeSent(m, n);
  }

  lemma IgnoresAlike(a: Stream, c: Stream, reported: nat, x: Ack, y: Ack)
    requires AlikeStreams(a, c) && AlikeAcks(x, y)
    ensures Ignores(a, reported, x) <==> Ignores(c, reported, y)
  {
    assert a.sending == map[] <==> a.sending.Keys == {};
    assert c.sending == map[] <==> c.sending.Keys == {};
  }

  lemma VectorAlike(a: Stream, c: Stream, x: Ack, y: Ack)
    requires AlikeStreams(a, c) && AlikeAcks(x, y) && !WithVector(a, x).closed && !WithVector(c, y).closed
    ensures AlikeStreams(WithVector(a, x), WithVector(c, y))
  {
    hide MarkedAll, DecodeAck, ParityWrong, AlikeSent, AlikeGot, AlikeBursts;
    MarkedAlike(a.sending, c.sending, x.gsnfr + 1, DecodeAck(x.vector, x.gsnr, x.gsnfr), x.gsnr);
  }

  lemma AcknowledgedAlike(a: Stream, c: Stream, x: Ack, y: Ack)
    requires AlikeStreams(a, c) && AlikeAcks(x, y) && !Acknowledged(a, x).closed && !Acknowledged(c, y).closed
    ensures AlikeStreams(Acknowledged(a, x), Acknowledged(c, y))
  {
    DroppedAlike(a, c, x.gsnfr);
    hide Dropped, WithVector, AlikeStreams;
    if x.gsnr != x.gsnfr {
      VectorAlike(Dropped(a, x.gsnfr), Dropped(c, x.gsnfr), x, y);
    }
  }

  lemma AckAlike(a: Stream, c: Stream, reported: nat, x: Ack, y: Ack)
    requires AlikeStreams(a, c) && AlikeAcks(x, y) && !HandleAck(a, reported, x).closed && !HandleAck(c, reported, y).closed
    ensures AlikeStreams(HandleAck(a, reported, x), HandleAck(c, reported, y))
  {
    IgnoresAlike(a, c, reported, x, y);
    hide Ignores, HeaderWrong, Acknowledged, AlikeStreams, AlikeAcks;
    if !Ignores(a, reported, x) {
      AcknowledgedAlike(a, c, x, y);
    }
  }

  lemma {:induction false} DeliveredAlike(a: Stream, c: Stream)
    requires AlikeStreams(a, c)
    ensures AlikeStreams(Delivered(a), Delivered(c))
    decreases |a.received|
  {
    if a.gsnfr + 1 in a.received {
      assert AlikeStreams(DeliverNext(a), DeliverNext(c));
      DeliveredAlike(DeliverNext(a), DeliverNext(c));
    }
  }

  lemma AcceptedAlike(a: Stream, c: Stream, p: Packet, q: Packet)
    requires AlikeStreams(a, c) && AlikePackets(p, q)
    ensures AlikeStreams(Delivered(Accepted(a, p)), Delivered(Accepted(c, q)))
    ensures Delivered(Accepted(a, p)).closed == a.closed && Delivered(Accepted(c, q)).closed == c.closed
  {
    hide Delivered, Accepted, AlikeStreams;
    AcceptKeepsSender(a, p);
    AcceptKeepsSender(c, q);
    JustAcceptedAlike(a, c, p, q);
    DeliveredAlike(Accepted(a, p), Accepted(c, q));
  }

  lemma AcceptedParts(a: Stream, p: Packet)
    ensures
      var b := Accepted(a, p);
      && b.next == a.next && b.lowest == a.lowest && b.sending == a.sending && b.burst == a.burst && b.closed == a.closed
      && b.gsnfr == a.gsnfr && b.delivered == a.delivered && b.gsnr == (if p.number > a.gsnr then p.number else a.gsnr)
      && b.received == a.received[p.number := Got(p.ps, p.ec, p.data)] && b.seen == a.seen + {p.number}
      && b.xoredToGsnfr == a.xoredToGsnfr && (p.number <= a.gsnr ==> b.gsnrParity == a.gsnrParity)
  {
  }

  lemma JustAcceptedAlike(a: Stream, c: Stream, p: Packet, q: Packet)
    requires AlikeStreams(a, c) && AlikePackets(p, q)
    ensures AlikeStreams(Accepted(a, p), Accepted(c, q))
  {
    AcceptedParts(a, p);
    AcceptedParts(c, q);
    hide Accepted, AlikeSent, AlikeBursts, AlikeGot;
    GotAlike(a.received, c.received, p.number, Got(p.ps, p.ec, p.data), Got(q.ps, q.ec, q.data));
  }

  lemma GotAlike(x: map<nat, Got>, y: map<nat, Got>, n: nat, g: Got, h: Got)
    requires AlikeGot(x, y) && g.ec == h.ec && g.data == h.data
    ensures AlikeGot(x[n := g], y[n := h])
  {
    assert x[n := g].Keys == x.Keys + {n} && y[n := h].Keys == y.Keys + {n};
  }

  lemma PacketAlike(a: Stream, c: Stream, p: Packet, q: Packet, late: bool)
    requires AlikeStreams(a, c) && AlikePackets(p, q)
    requires !HandlePacket(a, p, late).closed && !HandlePacket(c, q, late).closed
    ensures AlikeStreams(HandlePacket(a, p, late), HandlePacket(c, q, late))
  {
    if !(p.number <= a.gsnfr || p.number > a.gsnr + WINDOW) {
      var b, d := HandleAck(a, p.number, p.ack), HandleAck(c, q.number, q.ack);
      if !b.closed && !d.closed {
        hide HandleAck, Delivered, Accepted;
        AckAlike(a, c, p.number, p.ack, q.ack);
        AcceptedAlike(b, d, p, q);
      } else {
        assert false;
      }
    }
  }

  // ----- the same run with other parity bits -----

  /** The bits chosen so far are the given ones. */
  ghost predicate Follows(bits: map<nat, bool>, choice: nat -> bool) {
    forall k :: k in bits ==> bits[k] == choice(k)
  }

  lemma AlikeMirrors(s: System, t: System)
    ensures AlikeSystems(Mirror(s), Mirror(t)) <==> AlikeSystems(s, t)
  {
  }

  lemma AlikeItself(s: System)
    ensures AlikeSystems(s, s)
  {
    assert forall p :: p in s.toLeft || p in s.toRight ==> AlikePackets(p, p);
    assert forall x :: x in s.acksToLeft || x in s.acksToRight ==> AlikeExternal(x, x);
  }

  lemma MorePackets(ps: set<Packet>, qs: set<Packet>, xs: set<ExternalAck>, ys: set<ExternalAck>, p: Packet, q: Packet)
    requires AlikeTraffic(ps, qs, xs, ys) && AlikePackets(p, q)
    ensures AlikeTraffic(ps + {p}, qs + {q}, xs, ys)
  {
    forall r | r in ps + {p} ensures exists u :: u in qs + {q} && AlikePackets(r, u) {
      if r in ps {
        var u :| u in qs && AlikePackets(r, u);
        assert u in qs + {q};
      }
    }
  }

  lemma MoreAcks(ps: set<Packet>, qs: set<Packet>, xs: set<ExternalAck>, ys: set<ExternalAck>, x: ExternalAck, y: ExternalAck)
    requires AlikeTraffic(ps, qs, xs, ys) && AlikeExternal(x, y)
    ensures AlikeTraffic(ps, qs, xs + {x}, ys + {y})
  {
    forall r | r in xs + {x} ensures exists u :: u in ys + {y} && AlikeExternal(r, u) {
      if r in xs {
        var u :| u in ys && AlikeExternal(r, u);
        assert u in ys + {y};
      }
    }
  }

  lemma LeftReplaced(s: System, t: System, a: Stream, c: Stream)
    requires AlikeSystems(s, t) && AlikeStreams(a, c)
    ensures AlikeSystems(s.(left := a), t.(left := c))
  {
    hide AlikeStreams, AlikeTraffic;
  }

  lemma LikePacket(s: System, t: System, p: Packet) returns (q: Packet)
    requires AlikeSystems(s, t) && p in s.toLeft
    ensures q in t.toLeft && AlikePackets(p, q)
  {
    hide AlikePackets;
    q :| q in t.toLeft && AlikePackets(p, q);
  }

  lemma LikeAck(s: System, t: System, x: ExternalAck) returns (y: ExternalAck)
    requires AlikeSystems(s, t) && x in s.acksToLeft
    ensures y in t.acksToLeft && AlikeExternal(x, y)
  {
    hide AlikeExternal;
    y :| y in t.acksToLeft && AlikeExternal(x, y);
  }

  lemma SendAlike(s: System, t: System, ps: bool, qs: bool, ec: bool, data: seq<Byte>)
    requires AlikeSystems(s, t) && s.left.closed == t.left.closed == false
    ensures AlikeSystems(LeftStep(s, Send(ps, ec, data)), LeftStep(t, Send(qs, ec, data)))
  {
    SendingAlike(s.left, t.left, ps, qs, ec, data);
    var p, q := NewPacket(s.left, ps, ec, data), NewPacket(t.left, qs, ec, data);
    MorePackets(s.toRight, t.toRight, s.acksToRight, t.acksToRight, p, q);
    assert s.left.next == t.left.next;
    hide NewPacket, AfterSending, AlikeTraffic, AlikeStreams;
  }

  lemma GiveAckAlike(s: System, t: System, room: nat)
    requires AlikeSystems(s, t) && s.left.closed == t.left.closed == false
    ensures AlikeSystems(LeftStep(s, GiveAck(room)), LeftStep(t, GiveAck(room)))
  {
    CurrentAlike(s.left, t.left, room);
    var x, y := ExternalAck(s.left.next, CurrentAck(s.left, room)), ExternalAck(t.left.next, CurrentAck(t.left, room));
    assert AlikeExternal(x, y);
    MoreAcks(s.toRight, t.toRight, s.acksToRight, t.acksToRight, x, y);
    hide CurrentAck, AlikeTraffic, AlikeStreams;
  }

  lemma EndBurstAlike(s: System, t: System)
    requires AlikeSystems(s, t)
    ensures AlikeSystems(LeftStep(s, EndBurst), LeftStep(t, EndBurst))
  {
    LeftReplaced(s, t, s.left.(burst := None), t.left.(burst := None));
  }

  lemma ReceiveAlike(s: System, t: System, leftFirst: nat, rightFirst: nat, p: Packet, late: bool) returns (f: Option<Event>)
    requires Inv(s, leftFirst, rightFirst) && Inv(t, leftFirst, rightFirst) && AlikeSystems(s, t)
    ensures f.None? ==> AlikeSystems(LeftStep(s, Receive(p, late)), t)
    ensures f.Some? ==> f.value.Receive? && AlikeSystems(LeftStep(s, Receive(p, late)), LeftStep(t, f.value))
  {
    hide HandlePacket, FlowInv, Inv, AlikeStreams, AlikeTraffic;
    f := None;
    if p in s.toLeft {
      var q := LikePacket(s, t, p);
      f := Some(Receive(q, late));
      ReceiveOutward(s, leftFirst, rightFirst, p, late);
      ReceiveOutward(t, leftFirst, rightFirst, q, late);
      PacketAlike(s.left, t.left, p, q, late);
      LeftReplaced(s, t, HandlePacket(s.left, p, late), HandlePacket(t.left, q, late));
    }
  }

  lemma TakeAckAlike(s: System, t: System, leftFirst: nat, rightFirst: nat, x: ExternalAck) returns (f: Option<Event>)
    requires Inv(s, leftFirst, rightFirst) && Inv(t, leftFirst, rightFirst) && AlikeSystems(s, t)
    ensures f.None? ==> AlikeSystems(LeftStep(s, TakeAck(x)), t)
    ensures f.Some? ==> f.value.TakeAck? && AlikeSystems(LeftStep(s, TakeAck(x)), LeftStep(t, f.value))
  {
    hide HandleAck, FlowInv, AlikeStreams, AlikeTraffic;
    f := None;
    if x in s.acksToLeft {
      var y := LikeAck(s, t, x);
      f := Some(TakeAck(y));
      AckOutward(s, leftFirst, rightFirst, x);
      AckOutward(t, leftFirst, rightFirst, y);
      AckAlike(s.left, t.left, x.nextNumber, x.ack, y.ack);
      LeftReplaced(s, t, HandleExternalAck(s.left, x), HandleExternalAck(t.left, y));
    }
  }

  lemma QuietAlike(a: Stream, c: Stream, ps: bool, qs: bool, ec: bool, data: seq<Byte>)
    requires AlikeStreams(a, c)
    ensures Quiet(a, Send(ps, ec, data)) <==> Quiet(c, Send(qs, ec, data))
  {
  }

  /** Whatever the left end does in one system it can do in the other, with any parity bit. */
  lemma LeftStepAlike(s: System, t: System, leftFirst: nat, rightFirst: nat, e: Event, choice: nat -> bool) returns (f: Option<Event>)
    requires Inv(s, leftFirst, rightFirst) && Inv(t, leftFirst, rightFirst) && AlikeSystems(s, t)
    requires Quiet(s.left, e) && Follows(t.leftBits, choice)
    ensures f.None? ==> AlikeSystems(LeftStep(s, e), t)
    ensures f.Some? ==> Quiet(t.left, f.value) && AlikeSystems(LeftStep(s, e), LeftStep(t, f.value))
    ensures f.Some? ==> Follows(LeftStep(t, f.value).leftBits, choice) && LeftStep(t, f.value).rightBits == t.rightBits
  {
    hide *;
    LeftFacts(s, t, leftFirst, rightFirst);
    match e {
      case Send(ps, ec, data) =>
        var qs := choice(t.left.next);
        f := Some(Send(qs, ec, data));
        QuietAlike(s.left, t.left, ps, qs, ec, data);
        SendAlike(s, t, ps, qs, ec, data);
        FollowsMore(t.leftBits, choice, t.left.next);
      case EndBurst =>
        f := Some(EndBurst);
        EndBurstAlike(s, t);
      case GiveAck(room) =>
        f := Some(e);
        GiveAckAlike(s, t, room);
      case Receive(p, late) =>
        f := ReceiveAlike(s, t, leftFirst, rightFirst, p, late);
      case TakeAck(x) =>
        f := TakeAckAlike(s, t, leftFirst, rightFirst, x);
    }
    if f.Some? {
      BitsChosen(t, f.value);
      OthersAreQuiet(t.left, f.value);
    }
  }

  lemma LeftFacts(s: System, t: System, leftFirst: nat, rightFirst: nat)
    requires Inv(s, leftFirst, rightFirst) && Inv(t, leftFirst, rightFirst) && AlikeSystems(s, t)
    ensures !s.left.closed && !t.left.closed && AlikeStreams(s.left, t.left)
  {
  }

  lemma OthersAreQuiet(a: Stream, e: Event)
    ensures !e.Send? ==> Quiet(a, e)
  {
  }

  lemma FollowsMore(bits: map<nat, bool>, choice: nat -> bool, n: nat)
    requires Follows(bits, choice)
    ensures Follows(bits[n := choice(n)], choice)
  {
  }

  lemma BitsChosen(t: System, f: Event)
    requires !t.left.closed
    ensures LeftStep(t, f).leftBits == if f.Send? then t.leftBits[t.left.next := f.ps] else t.leftBits
    ensures LeftStep(t, f).rightBits == t.rightBits
  {
    hide AfterSending, NewPacket, CurrentAck, HandlePacket, HandleExternalAck;
  }

  /** The same for either end. */
  lemma StepAlike(s: System, t: System, leftFirst: nat, rightFirst: nat, step: Step, lefts: nat -> bool, rights: nat -> bool)
    returns (f: Option<Step>)
    requires Inv(s, leftFirst, rightFirst) && Inv(t, leftFirst, rightFirst) && AlikeSystems(s, t)
    requires Quiet(if step.atLeft then s.left else s.right, step.event) && Follows(t.leftBits, lefts) && Follows(t.rightBits, rights)
    ensures f.None? ==> AlikeSystems(After(s, step), t)
    ensures f.Some? ==>
      && Quiet(if f.value.atLeft then t.left else t.right, f.value.event) && AlikeSystems(After(s, step), After(t, f.value))
      && Follows(After(t, f.value).leftBits, lefts) && Follows(After(t, f.value).rightBits, rights)
  {
    hide Inv, AlikeSystems, LeftStep, Quiet, Follows;
    if step.atLeft {
      var e := LeftStepAlike(s, t, leftFirst, rightFirst, step.event, lefts);
      f := if e.Some? then Some(Step(true, e.value)) else None;
    } else {
      MirrorInv(s, leftFirst, rightFirst);
      MirrorInv(t, leftFirst, rightFirst);
      AlikeMirrors(s, t);
      var e := LeftStepAlike(Mirror(s), Mirror(t), rightFirst, leftFirst, step.event, rights);
      f := if e.Some? then Some(Step(false, e.value)) else None;
      AlikeMirrors(LeftStep(Mirror(s), step.event), if e.Some? then LeftStep(Mirror(t), e.value) else Mirror(t));
      assert Mirror(Mirror(t)) == t;
    }
  }

  /**
   * For every quiet run and every choice of parity bits there is a quiet run that makes this choice
   * and otherwise takes the same course.
   */
  lemma {:induction false} RunAlike(s: System, t: System, leftFirst: nat, rightFirst: nat, steps: seq<Step>,
                                    lefts: nat -> bool, rights: nat -> bool)
    returns (others: seq<Step>)
    requires Inv(s, leftFirst, rightFirst) && Inv(t, leftFirst, rightFirst) && AlikeSystems(s, t)
    requires QuietRun(s, steps) && Follows(t.leftBits, lefts) && Follows(t.rightBits, rights)
    ensures QuietRun(t, others) && AlikeSystems(RudpRuns.Run(s, steps), RudpRuns.Run(t, others))
    ensures Follows(RudpRuns.Run(t, others).leftBits, lefts) && Follows(RudpRuns.Run(t, others).rightBits, rights)
    decreases |steps|
  {
    hide Inv, AlikeSystems, After, Quiet, Follows;
    if steps == [] {
      others := [];
    } else {
      var f := StepAlike(s, t, leftFirst, rightFirst, steps[0], lefts, rights);
      StepKeepsInv(s, leftFirst, rightFirst, steps[0]);
      if f.None? {
        others := RunAlike(After(s, steps[0]), t, leftFirst, rightFirst, steps[1..], lefts, rights);
      } else {
        StepKeepsInv(t, leftFirst, rightFirst, f.value);
        var rest := RunAlike(After(s, steps[0]), After(t, f.value), leftFirst, rightFirst, steps[1..], lefts, rights);
        others := [f.value] + rest;
        assert others[0] == f.value && others[1..] == rest;
      }
    }
  }
}

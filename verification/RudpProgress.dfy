/**
 * What acknowledgements and packets achieve: exactly which packets leave the sender's buffer or are
 * marked, exactly when a stream closes, which packets are taken and what is delivered of them; and
 * that after any quiet run everything sent can still be delivered and acknowledged.
 */
module RudpProgress {
  import opened RudpVectors
  import opened RudpStream
  import opened RudpSystem
  import opened RudpRuns
  import opened RudpDelivery

  // ----- what an acknowledgement does -----

  /** There is something to acknowledge, and the acknowledgement is neither outdated nor too far ahead. */
  ghost predicate Heeded(a: Stream, reported: nat, ack: Ack) {
    a.sending != map[] && ack.gsnfr <= ack.gsnr <= a.next && a.gsnfr <= reported <= a.gsnr + 256
  }

  /** The vector reports the packet received. */
  ghost predicate Reports(ack: Ack, k: nat) {
    var states := DecodeAck(ack.vector, ack.gsnr, ack.gsnfr);
    && ack.gsnr != ack.gsnfr && ack.gsnfr < k <= ack.gsnfr + |states|
    && (states[k - ack.gsnfr - 1] == Received || states[k - ack.gsnfr - 1] == ReceivedEcn)
  }

  /** A parity bit for a packet that is still buffered is not the one that was chosen. */
  ghost predicate Contradicts(a: Stream, first: nat, bits: map<nat, bool>, ack: Ack) {
    || (ack.gsnfr in a.sending && ack.xp != RangeParity(bits, first, ack.gsnfr + 1))
    || (ack.gsnr in a.sending && ack.pg != BitOf(bits, ack.gsnr))
  }

  /** The parity bits of the packets that stay buffered. */
  ghost function Remaining(a: Stream, bits: map<nat, bool>, gsnfr: nat): map<nat, bool> {
    map k | k in bits && k in a.sending && k > gsnfr :: bits[k]
  }

  /** The vector parity is not that of the packets reported received, as far as their bits are still there. */
  ghost predicate VectorContradicts(a: Stream, bits: map<nat, bool>, ack: Ack) {
    && ack.gsnr != ack.gsnfr
    && ((exists k :: k in a.sending && k > ack.gsnfr) ==> forall k: nat :: Reports(ack, k) ==> k >= a.lowest)
    && ack.vp != Xor(ack.xp, ReportedParity(Remaining(a, bits, ack.gsnfr), ack.gsnfr + 1, DecodeAck(ack.vector, ack.gsnr, ack.gsnfr)))
  }

  /** The parity that is recomputed is that of the bits of the buffered packets. */
  lemma {:induction false} RecomputedParity(sending: map<nat, Sent>, bits: map<nat, bool>, start: nat, states: seq<State>)
    requires forall k :: k >= start ==> (BitOf(bits, k) <==> k in sending && sending[k].parity)
    ensures VectorParity(sending, start, states) == ReportedParity(bits, start, states)
    decreases |states|
  {
    if states != [] { RecomputedParity(sending, bits, start + 1, states[1..]); }
  }

  lemma ReportsAt(ack: Ack, i: nat)
    requires ack.gsnr != ack.gsnfr && i < |DecodeAck(ack.vector, ack.gsnr, ack.gsnfr)|
    ensures Reports(ack, ack.gsnfr + 1 + i) <==> IsReceived(DecodeAck(ack.vector, ack.gsnr, ack.gsnfr)[i])
  {
  }

  lemma UnverifiableExactlyWhen(a: Stream, ack: Ack)
    requires ack.gsnr != ack.gsnfr && a.lowest <= a.next
    requires forall k :: k in a.sending <==> a.lowest <= k < a.next
    ensures
      var kept := Dropped(a, ack.gsnfr);
      var states := DecodeAck(ack.vector, ack.gsnr, ack.gsnfr);
      && (kept.sending != map[] <==> exists k :: k in a.sending && k > ack.gsnfr)
      && (kept.sending != map[] ==>
            (Unverifiable(kept.lowest, ack.gsnfr + 1, states) <==> exists k: nat :: Reports(ack, k) && k < a.lowest))
  {
    var kept := Dropped(a, ack.gsnfr);
    var states := DecodeAck(ack.vector, ack.gsnr, ack.gsnfr);
    if k :| k in a.sending && k > ack.gsnfr {
      assert k in kept.sending;
    }
    if i :| 0 <= i < |states| && IsReceived(states[i]) && ack.gsnfr + 1 + i < kept.lowest {
      ReportsAt(ack, i);
      if kept.sending != map[] { assert Reports(ack, ack.gsnfr + 1 + i); }
    }
    if k: nat :| Reports(ack, k) && k < a.lowest {
      ReportsAt(ack, k - ack.gsnfr - 1);
      assert IsReceived(states[k - ack.gsnfr - 1]) && ack.gsnfr + 1 + (k - ack.gsnfr - 1) < kept.lowest;
    }
  }

  lemma ParityWrongExactlyWhen(a: Stream, first: nat, bits: map<nat, bool>, ack: Ack)
    requires SenderInv(a, first, bits) && ack.gsnr != ack.gsnfr
    ensures
      ParityWrong(Dropped(a, ack.gsnfr), ack, DecodeAck(ack.vector, ack.gsnr, ack.gsnfr)) <==> VectorContradicts(a, bits, ack)
  {
    var kept := Dropped(a, ack.gsnfr);
    var states := DecodeAck(ack.vector, ack.gsnr, ack.gsnfr);
    RecomputedParity(kept.sending, Remaining(a, bits, ack.gsnfr), ack.gsnfr + 1, states);
    UnverifiableExactlyWhen(a, ack);
    hide DecodeAck, Reports, Unverifiable, SenderInv;
  }

  /**
   * An acknowledgement closes the stream exactly when its two numbers are the wrong way round, or it
   * is heeded and contradicts a parity bit or the parity of what its vector reports.
   */
  lemma AckClosesExactlyWhen(a: Stream, first: nat, bits: map<nat, bool>, reported: nat, ack: Ack)
    requires SenderInv(a, first, bits) && !a.closed
    ensures
      HandleAck(a, reported, ack).closed <==>
        && a.sending != map[]
        && (ack.gsnfr > ack.gsnr || (Heeded(a, reported, ack) && (Contradicts(a, first, bits, ack) || VectorContradicts(a, bits, ack))))
  {
    if ack.gsnr != ack.gsnfr { ParityWrongExactlyWhen(a, first, bits, ack); }
    HeaderWrongExactlyWhen(a, first, bits, ack);
    hide ParityWrong, VectorContradicts, HeaderWrong, Contradicts, SenderInv, DecodeAck;
  }

  lemma HeaderWrongExactlyWhen(a: Stream, first: nat, bits: map<nat, bool>, ack: Ack)
    requires SenderInv(a, first, bits)
    ensures HeaderWrong(a, ack) <==> ack.gsnfr > ack.gsnr || Contradicts(a, first, bits, ack)
  {
  }

  /** A heeded acknowledgement that contradicts no parity bit. */
  ghost predicate Used(a: Stream, first: nat, bits: map<nat, bool>, reported: nat, ack: Ack) {
    Heeded(a, reported, ack) && !Contradicts(a, first, bits, ack)
  }

  /**
   * The buffer afterwards: exactly the packets up to GSNFR are gone, and of the others exactly those
   * are marked in addition that the vector reports received, or that GSNR names beside a vector.
   */
  ghost predicate Cleared(a: Stream, t: Stream, ack: Ack) {
    && (forall k :: k in t.sending <==> k in a.sending && k > ack.gsnfr)
    && (forall k :: k in t.sending ==>
          && t.sending[k].parity == a.sending[k].parity && t.sending[k].xoredToNow == a.sending[k].xoredToNow
          && (t.sending[k].received <==> a.sending[k].received || k == ack.gsnr || Reports(ack, k)))
    && t.lowest == (if ack.gsnfr < a.lowest then a.lowest else if ack.gsnfr < a.next then ack.gsnfr + 1 else a.next)
  }

  lemma MarksAreReports(sending: map<nat, Sent>, ack: Ack)
    requires ack.gsnr != ack.gsnfr
    ensures
      var t := MarkedAll(sending, ack.gsnfr + 1, DecodeAck(ack.vector, ack.gsnr, ack.gsnfr), ack.gsnr);
      && t.Keys == sending.Keys
      && forall k :: k in t ==>
        && t[k].parity == sending[k].parity && t[k].xoredToNow == sending[k].xoredToNow
        && (t[k].received <==> sending[k].received || k == ack.gsnr || Reports(ack, k))
  {
    hide DecodeAck;
  }

  lemma AcknowledgedClears(a: Stream, ack: Ack)
    requires a.lowest <= a.next && forall k :: k in a.sending <==> a.lowest <= k < a.next
    ensures
      var t := Acknowledged(a, ack);
      Cleared(a, t, ack) && t == a.(sending := t.sending, lowest := t.lowest, closed := t.closed)
  {
    hide DecodeAck, ParityWrong, MarkedAll, Reports;
    if ack.gsnr == ack.gsnfr {
      EqualNumbersReportNothing(ack);
    } else {
      MarksAreReports(Dropped(a, ack.gsnfr).sending, ack);
    }
  }

  lemma UsedExactlyWhen(a: Stream, first: nat, bits: map<nat, bool>, reported: nat, ack: Ack)
    requires SenderInv(a, first, bits)
    ensures Used(a, first, bits, reported, ack) <==> !Ignores(a, reported, ack) && !HeaderWrong(a, ack)
  {
    HeaderWrongExactlyWhen(a, first, bits, ack);
    hide HeaderWrong, Contradicts, SenderInv;
  }

  /** Any acknowledgement, honest or not: what it does to the buffer when it is used, and that it does nothing otherwise. */
  lemma AckTakesEffect(a: Stream, first: nat, bits: map<nat, bool>, reported: nat, ack: Ack)
    requires SenderInv(a, first, bits)
    ensures
      var t := HandleAck(a, reported, ack);
      && t == a.(sending := t.sending, lowest := t.lowest, closed := t.closed)
      && (Used(a, first, bits, reported, ack) ==> Cleared(a, t, ack))
      && (!Used(a, first, bits, reported, ack) ==> t.sending == a.sending && t.lowest == a.lowest)
  {
    UsedExactlyWhen(a, first, bits, reported, ack);
    AcknowledgedClears(a, ack);
    hide Used, Cleared, HeaderWrong, Ignores, Acknowledged;
  }

  lemma EqualNumbersReportNothing(ack: Ack)
    requires ack.gsnr == ack.gsnfr
    ensures forall k: nat :: !Reports(ack, k)
  {
  }

  /**
   * An honest acknowledgement that is heeded acknowledges exactly the packets up to its GSNFR, the one
   * its GSNR names and those its vector reports, besides what was acknowledged before.
   */
  lemma HonestAckAcknowledges(a: Stream, b: Stream, first: nat, bits: map<nat, bool>, reported: nat, ack: Ack, k: nat)
    requires SenderInv(a, first, bits) && KnowledgeOk(a, b) && AckOk(ack, b, first, bits) && !a.closed
    requires a.sending != map[] && a.gsnfr <= reported <= a.gsnr + 256 && ack.gsnr <= a.next
    ensures
      var t := HandleAck(a, reported, ack);
      && !t.closed
      && (k in t.sending <==> k in a.sending && k > ack.gsnfr)
      && (Acknowledges(t, first, k) <==>
            Acknowledges(a, first, k) || first <= k <= ack.gsnfr || (first <= k && k == ack.gsnr) || Reports(ack, k))
  {
    HonestAck(a, b, first, bits, reported, ack);
    HonestHeader(a, b, first, bits, ack);
    HeaderWrongExactlyWhen(a, first, bits, ack);
    AckTakesEffect(a, first, bits, reported, ack);
    hide HandleAck, Reports, Contradicts, HeaderWrong, RangeParity, AckOk;
    AckNumbers(a, b, first, bits, ack);
  }

  lemma AckNumbers(a: Stream, b: Stream, first: nat, bits: map<nat, bool>, ack: Ack)
    requires KnowledgeOk(a, b) && AckOk(ack, b, first, bits)
    ensures first <= ack.gsnfr + 1 && ack.gsnfr <= ack.gsnr < a.next
    ensures forall k: nat :: Reports(ack, k) ==> ack.gsnfr < k < ack.gsnr
  {
    hide DecodeAck;
  }

  // ----- what a packet does -----

  /** The data of the received packets from one number up to another. */
  ghost function Collected(received: map<nat, Got>, lo: nat, hi: nat): seq<Byte>
    decreases hi
  {
    if hi <= lo then [] else Collected(received, lo, hi - 1) + if hi - 1 in received then received[hi - 1].data else []
  }

  lemma {:induction false} CollectedFromFront(received: map<nat, Got>, lo: nat, hi: nat)
    requires lo < hi && lo in received
    ensures Collected(received, lo, hi) == received[lo].data + Collected(received, lo + 1, hi)
    decreases hi
  {
    if lo + 1 == hi {
      assert Collected(received, lo, lo) == [] && Collected(received, lo + 1, hi) == [];
      assert [] + received[lo].data == received[lo].data == received[lo].data + [];
    } else {
      CollectedFromFront(received, lo, hi - 1);
      assert received[lo].data + (Collected(received, lo + 1, hi - 1) + if hi - 1 in received then received[hi - 1].data else [])
          == (received[lo].data + Collected(received, lo + 1, hi - 1)) + if hi - 1 in received then received[hi - 1].data else [];
    }
  }

  lemma {:induction false} CollectedFromRest(received: map<nat, Got>, rest: map<nat, Got>, lo: nat, hi: nat)
    requires forall k :: k >= lo ==> (k in received <==> k in rest) && (k in rest ==> received[k] == rest[k])
    ensures Collected(received, lo, hi) == Collected(rest, lo, hi)
    decreases hi
  {
    if lo < hi { CollectedFromRest(received, rest, lo, hi - 1); }
  }

  /** What was next in the series is delivered, and GSNFR moves to the first gap. */
  ghost predicate Advanced(b: Stream, t: Stream) {
    && b.gsnfr <= t.gsnfr
    && (forall k :: b.gsnfr < k <= t.gsnfr ==> k in b.received) && t.gsnfr + 1 !in b.received
    && t.delivered == b.delivered + Collected(b.received, b.gsnfr + 1, t.gsnfr + 1)
    && (forall k :: k in t.received <==> k in b.received && !(b.gsnfr < k <= t.gsnfr))
    && (forall k :: k in t.received ==> t.received[k] == b.received[k])
  }

  lemma AdvancedOne(b: Stream, t: Stream)
    requires b.gsnfr + 1 in b.received && Advanced(DeliverNext(b), t)
    ensures Advanced(b, t)
  {
    hide Collected;
    var c := DeliverNext(b);
    CollectedOne(b, t.gsnfr + 1);
    forall k | b.gsnfr < k <= t.gsnfr ensures k in b.received {
      if k > c.gsnfr { assert k in c.received; }
    }
  }

  lemma CollectedOne(b: Stream, hi: nat)
    requires b.gsnfr + 1 in b.received && hi > b.gsnfr + 1
    ensures
      var c := DeliverNext(b);
      c.delivered + Collected(c.received, c.gsnfr + 1, hi) == b.delivered + Collected(b.received, b.gsnfr + 1, hi)
  {
    var c := DeliverNext(b);
    CollectedFromFront(b.received, b.gsnfr + 1, hi);
    CollectedFromRest(b.received, c.received, c.gsnfr + 1, hi);
    hide Collected;
    assert b.delivered + b.received[b.gsnfr + 1].data + Collected(c.received, c.gsnfr + 1, hi)
        == b.delivered + (b.received[b.gsnfr + 1].data + Collected(c.received, c.gsnfr + 1, hi));
  }

  /** deliverReadPackets. */
  lemma {:induction false} DeliveryAdvancesToGap(b: Stream)
    ensures Advanced(b, Delivered(b))
    ensures
      var t := Delivered(b);
      t == b.(gsnfr := t.gsnfr, received := t.received, xoredToGsnfr := t.xoredToGsnfr, delivered := t.delivered)
    decreases |b.received|
  {
    hide Advanced;
    DeliveredKeepsSender(b);
    if b.gsnfr + 1 in b.received {
      DeliveryAdvancesToGap(DeliverNext(b));
      AdvancedOne(b, Delivered(b));
    } else {
      NothingToDeliver(b);
    }
  }

  lemma NothingToDeliver(b: Stream)
    requires b.gsnfr + 1 !in b.received
    ensures Advanced(b, b)
  {
    assert Collected(b.received, b.gsnfr + 1, b.gsnfr + 1) == [];
    assert b.delivered + [] == b.delivered;
  }

  /** A packet that was not received before, in the window; the age of the last delivery counts only beyond both ends. */
  ghost predicate Welcome(b: Stream, p: Packet, late: bool) {
    && b.gsnfr < p.number <= b.gsnr + 256 && p.number !in b.received
    && !(p.number > b.gsnfr + 256 && p.number > b.gsnr && late)
  }

  /** The state of the receiving half with the packet put in its place. */
  ghost function Holding(b: Stream, p: Packet): map<nat, Got> {
    b.received[p.number := Got(p.ps, p.ec, p.data)]
  }

  ghost predicate Takes(b: Stream, p: Packet, t: Stream) {
    && t.seen == b.seen + {p.number}
    && t.gsnr == (if p.number > b.gsnr then p.number else b.gsnr)
    && t.gsnrParity == (if p.number > b.gsnr then p.ps else b.gsnrParity)
    && Advanced(b.(received := Holding(b, p)), t)
  }

  /**
   * Any packet that reaches an open stream: outside the window it is ignored; inside, its acknowledgement
   * is handled first. If that does not close the stream, the packet is taken exactly when it is welcome.
   */
  lemma PacketTakesEffect(b: Stream, p: Packet, late: bool)
    requires !b.closed
    ensures
      var t := HandlePacket(b, p, late);
      var inWindow := b.gsnfr < p.number <= b.gsnr + 256;
      && (t.closed <==> inWindow && HandleAck(b, p.number, p.ack).closed)
      && (inWindow ==> SameSender(HandleAck(b, p.number, p.ack), t))
      && (!inWindow ==> t == b)
      && (!t.closed && Welcome(b, p, late) ==> Takes(b, p, t))
      && (t.closed || !Welcome(b, p, late) ==> SameReceiver(b, t))
  {
    var u := HandleAck(b, p.number, p.ack);
    AckKeepsReceiver(b, p.number, p.ack);
    DeliveryAdvancesToGap(Accepted(u, p));
    AcceptedIs(u, p);
    TakenFrom(b, u, p, Delivered(Accepted(u, p)));
    hide HandleAck, Delivered, Accepted, Advanced, Takes;
  }

  lemma AcceptedIs(u: Stream, p: Packet)
    ensures
      Accepted(u, p) == u.(received := Holding(u, p), seen := u.seen + {p.number},
                           gsnr := if p.number > u.gsnr then p.number else u.gsnr,
                           gsnrParity := if p.number > u.gsnr then p.ps else u.gsnrParity)
  {
  }

  lemma TakenFrom(b: Stream, u: Stream, p: Packet, t: Stream)
    requires SameReceiver(b, u) && Advanced(Accepted(u, p), t) && t.seen == Accepted(u, p).seen
    requires t.gsnr == Accepted(u, p).gsnr && t.gsnrParity == Accepted(u, p).gsnrParity
    ensures Takes(b, p, t)
  {
    AcceptedIs(u, p);
    hide Accepted, Collected;
  }

  /**
   * An honest packet, however late, never closes a stream, and is among the packets received exactly when
   * it was before, or is in the window and not beyond both ends of it after delivery has stalled.
   */
  lemma HonestPacketIsTakenExactlyWhen(b: Stream, peer: Stream, first: nat, peerFirst: nat, bits: map<nat, bool>, p: Packet, late: bool)
    requires !b.closed && SenderInv(b, first, bits) && KnowledgeOk(b, peer) && AckOk(p.ack, peer, first, bits) && Arrivals(b, peerFirst)
    ensures
      var t := HandlePacket(b, p, late);
      && !t.closed
      && (p.number in t.seen <==>
            p.number in b.seen || (b.gsnfr < p.number <= b.gsnr + 256 && !(p.number > b.gsnfr + 256 && p.number > b.gsnr && late)))
      && (forall k :: k != p.number ==> (k in t.seen <==> k in b.seen))
      && (p.number == b.gsnfr + 1 ==> Takes(b, p, t) && t.gsnfr >= p.number)
  {
    PacketTakesEffect(b, p, late);
    HonestAck(b, peer, first, bits, p.number, p.ack);
    hide HandlePacket, HandleAck, SenderInv, AckOk, KnowledgeOk, Takes;
    if Welcome(b, p, late) {
      TakingAdds(b, p, HandlePacket(b, p, late));
    }
    KnownInWindow(b, peerFirst, p.number);
  }

  lemma KnownInWindow(b: Stream, first: nat, k: nat)
    requires Arrivals(b, first)
    ensures k > b.gsnfr ==> (k in b.seen <==> k in b.received)
    ensures k == b.gsnfr + 1 ==> k !in b.received
    ensures b.gsnfr <= b.gsnr
  {
  }

  lemma TakingAdds(b: Stream, p: Packet, t: Stream)
    requires Takes(b, p, t)
    ensures t.seen == b.seen + {p.number} && (p.number == b.gsnfr + 1 ==> t.gsnfr >= p.number)
  {
    hide Collected;
  }

  // ----- what an acknowledgement tells -----

  /** A vector with a byte for every packet has room for all of them. */
  lemma {:induction false} RoomForAll(e: Encoding, items: seq<Item>, gsnr: nat, max: nat)
    requires e.current + |items| < gsnr && |e.bytes| + |items| <= max
    ensures Taken(e, items, gsnr, max) == |items|
    decreases |items|
  {
    if items != [] { RoomForAll(Added(e, items[0], gsnr, max), items[1..], gsnr, max); }
  }

  lemma GapIsRead(b: Stream, room: nat)
    requires b.gsnfr < b.gsnr - 1 && b.gsnr <= b.gsnfr + room + 1
    ensures
      var ack := CurrentAck(b, room);
      DecodeAck(ack.vector, ack.gsnr, ack.gsnfr) == States(Gap(b.received, b.gsnfr + 1, b.gsnr))
  {
    var items := Gap(b.received, b.gsnfr + 1, b.gsnr);
    RoomForAll(Start(b.gsnfr, b.xoredToGsnfr), items, b.gsnr, room);
    VectorRoundTrip(items, b.gsnr, b.gsnfr, b.xoredToGsnfr, room);
    hide DecodeAck, Gap, Finalized, States;
  }

  lemma GapReports(b: Stream, ack: Ack, k: nat)
    requires ack.gsnr == b.gsnr && ack.gsnfr == b.gsnfr && b.gsnfr < k < b.gsnr
    requires DecodeAck(ack.vector, ack.gsnr, ack.gsnfr) == States(Gap(b.received, b.gsnfr + 1, b.gsnr))
    ensures Reports(ack, k) <==> k in b.received
  {
    hide DecodeAck, States, Gap;
    GapStateAt(b.received, b.gsnfr + 1, b.gsnr, k);
  }

  lemma GapStateAt(received: map<nat, Got>, lo: nat, hi: nat, k: nat)
    requires lo <= k < hi
    ensures |States(Gap(received, lo, hi))| == hi - lo
    ensures States(Gap(received, lo, hi))[k - lo] == ItemFor(received, k).state
  {
    assert Gap(received, lo, hi)[k - lo] == ItemFor(received, lo + (k - lo));
  }

  lemma ReportsWithin(b: Stream, ack: Ack, k: nat)
    requires ack.gsnr == b.gsnr && ack.gsnfr == b.gsnfr < b.gsnr
    requires DecodeAck(ack.vector, ack.gsnr, ack.gsnfr) == States(Gap(b.received, b.gsnfr + 1, b.gsnr))
    ensures Reports(ack, k) ==> b.gsnfr < k < b.gsnr
  {
    hide DecodeAck;
  }

  /** With room for a byte for every packet in the gap, an acknowledgement reports exactly what was received. */
  lemma AckReportsExactly(b: Stream, first: nat, room: nat, k: nat)
    requires Arrivals(b, first) && b.gsnr <= b.gsnfr + room + 1
    ensures
      var ack := CurrentAck(b, room);
      && ack.gsnr == b.gsnr && ack.gsnfr == b.gsnfr
      && (first <= k ==> (k in b.seen <==> k <= ack.gsnfr || k == ack.gsnr || Reports(ack, k)))
  {
    var ack := CurrentAck(b, room);
    if b.gsnfr < b.gsnr - 1 {
      GapIsRead(b, room);
      ReportsWithin(b, ack, k);
      if b.gsnfr < k < b.gsnr { GapReports(b, ack, k); }
    } else if b.gsnfr < b.gsnr {
      NoGap(ack);
    }
    hide DecodeAck, Gap, Finalized, Reports;
  }

  /** A packet in the gap that came with its EC flag set is reported as such. */
  lemma AckReportsEcn(b: Stream, first: nat, room: nat, k: nat)
    requires Arrivals(b, first) && b.gsnr <= b.gsnfr + room + 1 && b.gsnfr < k < b.gsnr && k in b.received
    ensures
      var ack := CurrentAck(b, room);
      var states := DecodeAck(ack.vector, ack.gsnr, ack.gsnfr);
      k <= ack.gsnfr + |states| && states[k - ack.gsnfr - 1] == if b.received[k].ec then ReceivedEcn else Received
  {
    hide DecodeAck, CurrentAck, Gap, States, Reports, Arrivals;
    GapIsRead(b, room);
    GapStateAt(b.received, b.gsnfr + 1, b.gsnr, k);
    AckReportsExactly(b, first, room, k);
  }

  lemma NoGap(ack: Ack)
    requires ack.gsnr == ack.gsnfr + 1 && ack.vector == []
    ensures forall k: nat :: !Reports(ack, k)
  {
    assert MissingRun(ack.gsnr, ack.gsnfr) == 0;
  }

  /** After an acknowledgement with enough room the sender knows exactly what the receiver has received. */
  lemma AckTransfersKnowledge(a: Stream, b: Stream, first: nat, bits: map<nat, bool>, reported: nat, room: nat, k: nat)
    requires SenderInv(a, first, bits) && KnowledgeOk(a, b) && ReceiverInv(b, first, bits) && !a.closed
    requires a.gsnfr <= reported <= a.gsnr + 256 && b.gsnr <= b.gsnfr + room + 1
    ensures Acknowledges(HandleAck(a, reported, CurrentAck(b, room)), first, k) <==> k in b.seen
  {
    var ack := CurrentAck(b, room);
    FreshVectorOk(b, first, bits, room);
    VectorMakesAck(b, first, bits, ack.vector, ack.vp);
    assert ack == Ack(b.gsnr, b.gsnfr, ack.vector, ack.vp, b.gsnrParity, b.xoredToGsnfr);
    AckReportsExactly(b, first, room, k);
    if a.sending != map[] {
      KnowledgeIsBefore(a, b, first, bits, k);
      HonestAckAcknowledges(a, b, first, bits, reported, ack, k);
      AckNumbers(a, b, first, bits, ack);
    } else {
      AllAcknowledged(a, b, first, bits, reported, ack, k);
    }
    hide HandleAck, CurrentAck, Reports, AckOk, VectorOk;
  }

  lemma KnowledgeIsBefore(a: Stream, b: Stream, first: nat, bits: map<nat, bool>, k: nat)
    requires SenderInv(a, first, bits) && KnowledgeOk(a, b) && Arrivals(b, first)
    ensures Acknowledges(a, first, k) ==> k in b.seen
    ensures k in b.seen ==> first <= k
  {
  }

  lemma AllAcknowledged(a: Stream, b: Stream, first: nat, bits: map<nat, bool>, reported: nat, ack: Ack, k: nat)
    requires SenderInv(a, first, bits) && KnowledgeOk(a, b) && Arrivals(b, first) && a.sending == map[]
    ensures Acknowledges(HandleAck(a, reported, ack), first, k) <==> k in b.seen
  {
    assert a.lowest !in a.sending;
  }

  // ----- everything can still arrive -----

  /** Every packet that was given a parity bit was sent. */
  ghost predicate EverySent(bits: map<nat, bool>, sent: set<Packet>) {
    forall k :: k in bits ==> exists p :: p in sent && p.number == k
  }

  ghost predicate AllSent(s: System) {
    EverySent(s.leftBits, s.toRight) && EverySent(s.rightBits, s.toLeft)
  }

  lemma MoreSent(bits: map<nat, bool>, sent: set<Packet>, p: Packet, ps: bool)
    requires EverySent(bits, sent)
    ensures EverySent(bits[p.number := ps], sent + {p})
  {
    var more, allBits := sent + {p}, bits[p.number := ps];
    forall k | k in allBits ensures exists q :: q in more && q.number == k {
      if k == p.number {
        assert p in more;
      } else {
        var q :| q in sent && q.number == k;
        assert q in more;
      }
    }
  }

  lemma StepKeepsSent(s: System, step: Step)
    requires AllSent(s)
    ensures AllSent(After(s, step))
  {
    var u := if step.atLeft then s else Mirror(s);
    if step.event.Send? {
      var p := NewPacket(u.left, step.event.ps, step.event.ec, step.event.data);
      MoreSent(u.leftBits, u.toRight, p, step.event.ps);
    }
    hide EverySent, HandlePacket, HandleAck, AfterSending, CurrentAck, CurrentBurst;
  }

  lemma {:induction false} RunKeepsSent(s: System, steps: seq<Step>)
    requires AllSent(s)
    ensures AllSent(RudpRuns.Run(s, steps))
    decreases |steps|
  {
    hide AllSent, After;
    if steps != [] {
      StepKeepsSent(s, steps[0]);
      RunKeepsSent(After(s, steps[0]), steps[1..]);
    }
  }

  lemma {:induction false} RunAppends(s: System, steps: seq<Step>, more: seq<Step>)
    ensures RudpRuns.Run(s, steps + more) == RudpRuns.Run(RudpRuns.Run(s, steps), more)
    decreases |steps|
  {
    hide After;
    if steps == [] {
      assert [] + more == more;
    } else {
      RunAppends(After(s, steps[0]), steps[1..], more);
      assert (steps + more)[1..] == steps[1..] + more;
    }
  }

  /** The same steps with the two ends swapped. */
  function Flipped(steps: seq<Step>): (f: seq<Step>)
    ensures |f| == |steps|
  {
    if steps == [] then [] else [Step(!steps[0].atLeft, steps[0].event)] + Flipped(steps[1..])
  }

  lemma {:induction false} FlippedRun(s: System, steps: seq<Step>)
    ensures RudpRuns.Run(Mirror(s), Flipped(steps)) == Mirror(RudpRuns.Run(s, steps))
    decreases |steps|
  {
    if steps != [] {
      FlippedRun(After(s, steps[0]), steps[1..]);
      assert Flipped(steps)[1..] == Flipped(steps[1..]);
      assert After(Mirror(s), Flipped(steps)[0]) == Mirror(After(s, steps[0]));
    }
  }

  /** Nothing new is sent, and every packet that arrives finds delivery stalled, or none does. */
  predicate Settling(steps: seq<Step>, late: bool) {
    forall i :: 0 <= i < |steps| ==>
      match steps[i].event
      case Receive(_, l) => l == late
      case GiveAck(_) => true
      case TakeAck(_) => true
      case _ => false
  }

  lemma FlippedSettles(steps: seq<Step>, late: bool)
    requires Settling(steps, late)
    ensures Settling(Flipped(steps), late)
  {
    if steps != [] {
      assert forall i :: 0 <= i < |steps[1..]| ==> steps[1..][i] == steps[i + 1];
      FlippedSettles(steps[1..], late);
    }
  }

  lemma {:induction false} SettlingIsQuiet(s: System, steps: seq<Step>, late: bool)
    requires Settling(steps, late)
    ensures QuietRun(s, steps)
    decreases |steps|
  {
    if steps != [] {
      assert forall i :: 0 <= i < |steps[1..]| ==> steps[1..][i] == steps[i + 1];
      SettlingIsQuiet(After(s, steps[0]), steps[1..], late);
    }
  }

  /** What a settling run keeps of the run before it: the invariant, and what was sent. */
  ghost predicate Settled(s: System, t: System, leftFirst: nat, rightFirst: nat) {
    && Inv(t, leftFirst, rightFirst) && AllSent(t)
    && t.left.next == s.left.next && t.right.next == s.right.next
    && t.leftTexts == s.leftTexts && t.rightTexts == s.rightTexts
  }

  lemma SettlingMore(steps: seq<Step>, more: seq<Step>, late: bool)
    requires Settling(steps, late) && Settling(more, late)
    ensures Settling(steps + more, late)
  {
  }

  lemma RunOne(s: System, step: Step, more: seq<Step>)
    ensures RudpRuns.Run(s, [step] + more) == RudpRuns.Run(After(s, step), more)
    ensures RudpRuns.Run(s, [step]) == After(s, step)
  {
    hide After;
    assert ([step] + more)[1..] == more && [step][1..] == [];
  }

  lemma InvNumbers(s: System, leftFirst: nat, rightFirst: nat)
    requires Inv(s, leftFirst, rightFirst)
    ensures s.left.gsnfr < s.right.next && s.right.gsnfr < s.left.next
    ensures forall k: nat :: s.left.gsnfr < k < s.right.next ==> k in s.rightBits
  {
  }

  lemma HonestArrival(s: System, leftFirst: nat, rightFirst: nat, p: Packet, late: bool)
    requires Inv(s, leftFirst, rightFirst) && p in s.toLeft && p.number == s.left.gsnfr + 1
    ensures HandlePacket(s.left, p, late).gsnfr > s.left.gsnfr
  {
    assert SenderInv(s.left, leftFirst, s.leftBits) && KnowledgeOk(s.left, s.right) && AckOk(p.ack, s.right, leftFirst, s.leftBits)
      && Arrivals(s.left, rightFirst) && !s.left.closed;
    HonestPacketIsTakenExactlyWhen(s.left, s.right, leftFirst, rightFirst, s.leftBits, p, late);
    hide HandlePacket, Inv, Takes;
  }

  lemma ReceiveStep(s: System, p: Packet, late: bool)
    requires p in s.toLeft
    ensures After(s, Step(true, Receive(p, late))) == s.(left := HandlePacket(s.left, p, late))
    ensures HandlePacket(s.left, p, late).next == s.left.next
  {
    PacketKeepsRest(s.left, p, late);
    hide HandlePacket;
  }

  /** The next packet of the series arrives at the left. */
  lemma NextArrives(s: System, leftFirst: nat, rightFirst: nat, late: bool) returns (step: Step)
    requires Inv(s, leftFirst, rightFirst) && AllSent(s) && s.left.gsnfr + 1 < s.right.next
    ensures Settling([step], late)
    ensures
      var t := After(s, step);
      Settled(s, t, leftFirst, rightFirst) && t.right == s.right && t.left.gsnfr > s.left.gsnfr
  {
    hide After, HandlePacket, Inv, Settled, AllSent;
    InvNumbers(s, leftFirst, rightFirst);
    var p := WasSent(s, s.left.gsnfr + 1);
    step := Step(true, Receive(p, late));
    ReceiveStep(s, p, late);
    HonestArrival(s, leftFirst, rightFirst, p, late);
    SettlingKeeps(s, leftFirst, rightFirst, step, late);
  }

  lemma WasSent(s: System, k: nat) returns (p: Packet)
    requires AllSent(s) && k in s.rightBits
    ensures p in s.toLeft && p.number == k
  {
    p :| p in s.toLeft && p.number == k;
  }

  lemma SettledItself(s: System, leftFirst: nat, rightFirst: nat)
    requires Inv(s, leftFirst, rightFirst) && AllSent(s)
    ensures Settled(s, s, leftFirst, rightFirst)
  {
    hide Inv, AllSent;
  }

  lemma SettlingKeeps(s: System, leftFirst: nat, rightFirst: nat, step: Step, late: bool)
    requires Inv(s, leftFirst, rightFirst) && AllSent(s) && Settling([step], late)
    ensures Settled(s, After(s, step), leftFirst, rightFirst)
  {
    assert [step][0] == step;
    StepKeepsInv(s, leftFirst, rightFirst, step);
    StepKeepsSent(s, step);
    SettlingSendsNothing(if step.atLeft then s else Mirror(s), step.event);
    hide Inv, AllSent, LeftStep;
  }

  lemma SettlingSendsNothing(s: System, e: Event)
    requires !e.Send?
    ensures LeftStep(s, e).left.next == s.left.next && LeftStep(s, e).right == s.right
    ensures LeftStep(s, e).leftTexts == s.leftTexts && LeftStep(s, e).rightTexts == s.rightTexts
  {
    match e {
      case Receive(p, late) => PacketKeepsRest(s.left, p, late);
      case TakeAck(x) => AckKeepsReceiver(s.left, x.nextNumber, x.ack);
      case _ =>
    }
    hide HandlePacket, HandleAck, CurrentAck;
  }

  lemma {:induction false} DeliverToLeft(s: System, leftFirst: nat, rightFirst: nat, late: bool) returns (more: seq<Step>)
    requires Inv(s, leftFirst, rightFirst) && AllSent(s)
    ensures Settling(more, late)
    ensures
      var t := RudpRuns.Run(s, more);
      Settled(s, t, leftFirst, rightFirst) && t.right == s.right && t.left.gsnfr + 1 == t.right.next
    decreases s.right.next - s.left.gsnfr
  {
    hide After, Inv, AllSent, Settling;
    InvNumbers(s, leftFirst, rightFirst);
    if s.left.gsnfr + 1 == s.right.next {
      more := [];
      SettledItself(s, leftFirst, rightFirst);
      assert Settling([], late) by { NothingSettles(late); }
    } else {
      var step := NextArrives(s, leftFirst, rightFirst, late);
      more := DeliverToLeft(After(s, step), leftFirst, rightFirst, late);
      SettlingMore([step], more, late);
      RunOne(s, step, more);
      more := [step] + more;
    }
  }

  lemma NothingSettles(late: bool)
    ensures Settling([], late)
  {
  }

  /** Once both ends have received everything, an acknowledgement from the right empties the left buffer. */
  lemma AckToLeft(s: System, leftFirst: nat, rightFirst: nat, late: bool) returns (more: seq<Step>)
    requires Inv(s, leftFirst, rightFirst) && AllSent(s)
    requires s.left.gsnfr + 1 == s.right.next && s.right.gsnfr + 1 == s.left.next
    ensures Settling(more, late)
    ensures
      var t := RudpRuns.Run(s, more);
      && Settled(s, t, leftFirst, rightFirst) && t.right == s.right
      && SameReceiver(s.left, t.left) && t.left.sending == map[]
  {
    hide Inv, AllSent, After, SameReceiver, CurrentAck, HandleAck;
    var x := ExternalAck(s.right.next, CurrentAck(s.right, 0));
    var give, take := Step(false, GiveAck(0)), Step(true, TakeAck(x));
    more := [give, take];
    SettlingKeeps(s, leftFirst, rightFirst, give, late);
    var u := After(s, give);
    SettlingKeeps(u, leftFirst, rightFirst, take, late);
    RunOne(s, give, [take]);
    RunOne(u, take, []);
    assert more == [give] + [take];
    LastAckEmpties(s, leftFirst, rightFirst);
    AckIsGivenAndTaken(s, x, leftFirst, rightFirst);
  }

  lemma AckIsGivenAndTaken(s: System, x: ExternalAck, leftFirst: nat, rightFirst: nat)
    requires Inv(s, leftFirst, rightFirst) && x == ExternalAck(s.right.next, CurrentAck(s.right, 0))
    ensures
      var t := After(After(s, Step(false, GiveAck(0))), Step(true, TakeAck(x)));
      && t.left == HandleAck(s.left, x.nextNumber, x.ack) && t.right == s.right && SameReceiver(s.left, t.left)
  {
    InvParts(s, leftFirst, rightFirst);
    hide CurrentAck, HandleAck, Inv, FlowInv;
    AckKeepsReceiver(s.left, x.nextNumber, x.ack);
    assert After(s, Step(false, GiveAck(0))) == s.(acksToLeft := s.acksToLeft + {x});
  }

  lemma LastAckEmpties(s: System, leftFirst: nat, rightFirst: nat)
    requires Inv(s, leftFirst, rightFirst)
    requires s.left.gsnfr + 1 == s.right.next && s.right.gsnfr + 1 == s.left.next
    ensures HandleAck(s.left, s.right.next, CurrentAck(s.right, 0)).sending == map[]
  {
    var ack := CurrentAck(s.right, 0);
    FreshVectorOk(s.right, leftFirst, s.leftBits, 0);
    VectorMakesAck(s.right, leftFirst, s.leftBits, ack.vector, ack.vp);
    assert ack == Ack(s.right.gsnr, s.right.gsnfr, ack.vector, ack.vp, s.right.gsnrParity, s.right.xoredToGsnfr);
    hide CurrentAck, HandleAck, AckOk, VectorOk;
    if s.left.sending != map[] {
      var t := HandleAck(s.left, s.right.next, ack);
      forall k ensures k !in t.sending {
        HonestAckAcknowledges(s.left, s.right, leftFirst, s.leftBits, s.right.next, ack, k);
      }
    } else {
      IgnoredWhenEmpty(s.left, s.right.next, ack);
    }
  }

  lemma IgnoredWhenEmpty(a: Stream, reported: nat, ack: Ack)
    requires a.sending == map[]
    ensures HandleAck(a, reported, ack) == a
  {
  }

  /** Everything sent was delivered and acknowledged. */
  ghost predicate Complete(s: System) {
    && s.left.gsnfr + 1 == s.right.next && s.right.gsnfr + 1 == s.left.next
    && s.left.sending == map[] && s.right.sending == map[]
  }

  /** From any state of a quiet run a settling run leads to a complete one. */
  lemma Completes(s: System, leftFirst: nat, rightFirst: nat, late: bool) returns (more: seq<Step>)
    requires Inv(s, leftFirst, rightFirst) && AllSent(s)
    ensures Settling(more, late)
    ensures
      var t := RudpRuns.Run(s, more);
      Settled(s, t, leftFirst, rightFirst) && Complete(t)
  {
    hide Inv, AllSent, Settling, RudpRuns.Run;
    var first := DeliverToLeft(s, leftFirst, rightFirst, late);
    var s1 := RudpRuns.Run(s, first);
    SettledMirrors(s1, leftFirst, rightFirst);
    var second := DeliverToLeft(Mirror(s1), rightFirst, leftFirst, late);
    var s2 := RudpRuns.Run(s1, Flipped(second));
    FlippedBack(s1, second);
    SettledMirrors(RudpRuns.Run(Mirror(s1), second), rightFirst, leftFirst);
    FlippedSettles(second, late);
    var third := AckToLeft(s2, leftFirst, rightFirst, late);
    var s3 := RudpRuns.Run(s2, third);
    SettledMirrors(s3, leftFirst, rightFirst);
    var fourth := AckToLeft(Mirror(s3), rightFirst, leftFirst, late);
    FlippedBack(s3, fourth);
    SettledMirrors(RudpRuns.Run(Mirror(s3), fourth), rightFirst, leftFirst);
    FlippedSettles(fourth, late);
    more := first + Flipped(second) + third + Flipped(fourth);
    RunAppends(s, first, Flipped(second));
    RunAppends(s, first + Flipped(second), third);
    RunAppends(s, first + Flipped(second) + third, Flipped(fourth));
    SettlingMore(first, Flipped(second), late);
    SettlingMore(first + Flipped(second), third, late);
    SettlingMore(first + Flipped(second) + third, Flipped(fourth), late);
  }

  lemma SettledMirrors(s: System, leftFirst: nat, rightFirst: nat)
    requires Inv(s, leftFirst, rightFirst) && AllSent(s)
    ensures Inv(Mirror(s), rightFirst, leftFirst) && AllSent(Mirror(s))
  {
    hide FlowInv, EverySent;
  }

  lemma FlippedBack(s: System, steps: seq<Step>)
    ensures RudpRuns.Run(s, Flipped(steps)) == Mirror(RudpRuns.Run(Mirror(s), steps))
  {
    FlippedRun(Mirror(s), steps);
  }

  /**
   * After any quiet run, whatever was lost, and even if delivery has been stalled for long, the packets
   * and acknowledgements still to come can make the run complete: everything that was sent has been
   * delivered in both directions, and no buffer holds a packet.
   */
  lemma EverythingCanArrive(leftFirst: nat, rightFirst: nat, steps: seq<Step>, late: bool) returns (more: seq<Step>)
    requires leftFirst > 0 && rightFirst > 0 && QuietRun(Initial(leftFirst, rightFirst), steps)
    ensures Settling(more, late)
    ensures
      var s := RudpRuns.Run(Initial(leftFirst, rightFirst), steps);
      var t := RudpRuns.Run(Initial(leftFirst, rightFirst), steps + more);
      && Complete(t) && !t.left.closed && !t.right.closed
      && t.left.next == s.left.next && t.right.next == s.right.next
      && t.leftTexts == s.leftTexts && t.rightTexts == s.rightTexts
  {
    var start := Initial(leftFirst, rightFirst);
    InitialInv(leftFirst, rightFirst);
    assert AllSent(start);
    RunKeepsInv(start, leftFirst, rightFirst, steps);
    RunKeepsSent(start, steps);
    hide Initial, AllSent, QuietRun, RudpRuns.Run, FlowInv, Complete, Settling;
    more := Completes(RudpRuns.Run(start, steps), leftFirst, rightFirst, late);
    RunAppends(start, steps, more);
  }

  lemma {:induction false} IntactAppends(s: System, steps: seq<Step>, more: seq<Step>, late: bool)
    requires IntactRun(s, steps) && Settling(more, late)
    ensures IntactRun(s, steps + more)
    decreases |steps| + |more|
  {
    hide After, Intact;
    if steps != [] {
      assert (steps + more)[1..] == steps[1..] + more;
      IntactAppends(After(s, steps[0]), steps[1..], more, late);
    } else if more != [] {
      assert steps + more == more && [] + more[1..] == more[1..];
      assert forall i :: 0 <= i < |more[1..]| ==> more[1..][i] == more[i + 1];
      IntactAppends(After(s, more[0]), [], more[1..], late);
    }
  }

  /** If no packet of the run was spoiled, all the data that was sent can still be delivered, in order. */
  lemma AllDataCanArrive(leftFirst: nat, rightFirst: nat, steps: seq<Step>, late: bool) returns (more: seq<Step>)
    requires leftFirst > 0 && rightFirst > 0
    requires QuietRun(Initial(leftFirst, rightFirst), steps) && IntactRun(Initial(leftFirst, rightFirst), steps)
    ensures Settling(more, late)
    ensures
      var s := RudpRuns.Run(Initial(leftFirst, rightFirst), steps);
      var t := RudpRuns.Run(Initial(leftFirst, rightFirst), steps + more);
      && Complete(t)
      && t.right.delivered == Joined(s.leftTexts, leftFirst, s.left.next)
      && t.left.delivered == Joined(s.rightTexts, rightFirst, s.right.next)
  {
    more := EverythingCanArrive(leftFirst, rightFirst, steps, late);
    IntactAppends(Initial(leftFirst, rightFirst), steps, more, late);
    DeliveredIsWhatWasSent(leftFirst, rightFirst, steps + more);
    hide QuietRun, IntactRun, RudpRuns.Run, Settling, Joined, Initial;
  }
}

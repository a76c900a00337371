/**
 * Two honest streams and a network that loses, duplicates, reorders and delays
 * without bound. Nothing leaves the network: a packet once sent may be
 * delivered any number of times, at any later moment, or never, which also
 * covers every retransmission.
 */
module RudpSystem {
  import opened RudpVectors
  import opened RudpStream

  // ----- parities -----

  /** The parity of the packets from one number up to another, as their sender chose the bits. */
  ghost function RangeParity(bits: map<nat, bool>, lo: nat, hi: nat): bool
    decreases hi
  {
    if hi <= lo then false else Xor(RangeParity(bits, lo, hi - 1), hi - 1 in bits && bits[hi - 1])
  }

  /** The parity of the packets a vector reports received. */
  ghost function ReportedParity(bits: map<nat, bool>, start: nat, states: seq<State>): bool
    decreases |states|
  {
    if states == [] then false
    else Xor(IsReceived(states[0]) && start in bits && bits[start], ReportedParity(bits, start + 1, states[1..]))
  }

  ghost function BitOf(bits: map<nat, bool>, n: nat): bool {
    n in bits && bits[n]
  }

  // ----- what holds of each part -----

  /** The sending half of a stream, against the parity bits it has chosen so far. */
  ghost predicate SenderInv(a: Stream, first: nat, bits: map<nat, bool>) {
    && 1 <= first <= a.lowest <= a.next
    && (forall k :: k in bits <==> first <= k < a.next)
    && (forall k :: k in a.sending <==> a.lowest <= k < a.next)
    && (forall k :: k in a.sending ==>
          a.sending[k].parity == bits[k] && a.sending[k].xoredToNow == RangeParity(bits, first, k + 1))
    && a.xoredToNow == RangeParity(bits, first, a.next)
  }

  /** What has arrived: GSNFR is the greatest fully received prefix, GSNR the greatest number received. */
  ghost predicate Arrivals(b: Stream, first: nat) {
    && PartlyDelivered(b, first)
    && b.gsnfr + 1 !in b.received
  }

  /** Arrivals while deliverReadPackets has yet to run. */
  ghost predicate PartlyDelivered(b: Stream, first: nat) {
    && 1 <= first <= b.gsnfr + 1
    && b.gsnfr <= b.gsnr
    && (forall k :: k in b.received ==> b.gsnfr < k <= b.gsnr)
    && (b.gsnr > b.gsnfr ==> b.gsnr in b.received)
    && (forall k :: k in b.seen <==> first <= k <= b.gsnfr || k in b.received)
  }

  /** The parities kept of what has arrived. */
  ghost predicate ArrivedBits(b: Stream, first: nat, bits: map<nat, bool>) {
    && (forall k :: k in b.seen ==> k in bits)
    && (forall k :: k in b.received ==> k in bits && b.received[k].parity == bits[k])
    && b.xoredToGsnfr == RangeParity(bits, first, b.gsnfr + 1)
    && b.gsnrParity == BitOf(bits, b.gsnr)
    && (b.gsnr + 1 == first ==> b.gsnr !in bits)
  }

  /** The receiving half of a stream. */
  ghost predicate ReceiverInv(b: Stream, first: nat, bits: map<nat, bool>) {
    Arrivals(b, first) && ArrivedBits(b, first, bits)
  }

  /** The states say only what is true of the packets after GSNFR, and the parity is that of the packets they report. */
  ghost predicate ReportOk(states: seq<State>, vp: bool, gsnfr: nat, b: Stream, first: nat, bits: map<nat, bool>) {
    && first <= gsnfr + 1
    && (states != [] ==> gsnfr + 1 + |states| <= b.gsnr && !IsReceived(states[0]))
    && (forall i :: 0 <= i < |states| && IsReceived(states[i]) ==> gsnfr + 1 + i in b.seen)
    && vp == Xor(RangeParity(bits, first, gsnfr + 1), ReportedParity(bits, gsnfr + 1, states))
  }

  /** The vector a burst repeats, at the GSNFR where the burst began. */
  ghost predicate VectorOk(vector: seq<Run>, vp: bool, gsnfr: nat, b: Stream, first: nat, bits: map<nat, bool>) {
    WellFormed(vector) && ReportOk(Decode(vector), vp, gsnfr, b, first, bits)
  }

  ghost predicate BurstOk(b: Stream, first: nat, bits: map<nat, bool>) {
    b.burst.Some? ==> b.burst.value.gsnfr <= b.gsnfr && VectorOk(b.burst.value.vector, b.burst.value.vp, b.burst.value.gsnfr, b, first, bits)
  }

  /** An acknowledgement that b gave, now or before, to the sender that chose the bits. */
  ghost predicate AckOk(ack: Ack, b: Stream, first: nat, bits: map<nat, bool>) {
    var states := DecodeAck(ack.vector, ack.gsnr, ack.gsnfr);
    && first <= ack.gsnfr + 1
    && ack.gsnfr <= ack.gsnr <= b.gsnr
    && ack.gsnfr <= b.gsnfr
    && (first <= ack.gsnr ==> ack.gsnr in b.seen)
    && ack.xp == RangeParity(bits, first, ack.gsnfr + 1)
    && ack.pg == BitOf(bits, ack.gsnr)
    && (ack.gsnr != ack.gsnfr ==>
          && ack.gsnfr + 1 + |states| <= ack.gsnr
          && (forall i :: 0 <= i < |states| && IsReceived(states[i]) ==> ack.gsnfr + 1 + i in b.seen)
          && ack.vp == Xor(ack.xp, ReportedParity(bits, ack.gsnfr + 1, states)))
  }

  /** What a knows to be received was received. */
  ghost predicate KnowledgeOk(a: Stream, b: Stream) {
    && a.lowest <= b.gsnfr + 1
    && b.gsnr < a.next
    && (forall k :: k in a.sending && a.sending[k].received ==> k in b.seen)
  }

  /** Everything about the flow of data from a to b and of acknowledgements back. */
  ghost predicate FlowInv(a: Stream, b: Stream, first: nat, bits: map<nat, bool>,
                          sent: set<Packet>, back: set<Packet>, acks: set<ExternalAck>) {
    && SenderInv(a, first, bits)
    && ReceiverInv(b, first, bits)
    && BurstOk(b, first, bits)
    && KnowledgeOk(a, b)
    && (forall p :: p in sent ==> p.number in bits && p.ps == bits[p.number])
    && (forall p :: p in back ==> AckOk(p.ack, b, first, bits))
    && (forall x :: x in acks ==> AckOk(x.ack, b, first, bits))
  }

  // ----- parity lemmas -----

  lemma {:induction false} RangeParityStable(bits: map<nat, bool>, lo: nat, hi: nat, n: nat, x: bool)
    requires hi <= n
    ensures RangeParity(bits[n := x], lo, hi) == RangeParity(bits, lo, hi)
    decreases hi
  {
    if hi > lo { RangeParityStable(bits, lo, hi - 1, n, x); }
  }

  lemma {:induction false} ReportedParityStable(bits: map<nat, bool>, start: nat, states: seq<State>, n: nat, x: bool)
    requires start + |states| <= n
    ensures ReportedParity(bits[n := x], start, states) == ReportedParity(bits, start, states)
    decreases |states|
  {
    if states != [] { ReportedParityStable(bits, start + 1, states[1..], n, x); }
  }

  lemma {:induction false} NothingReported(bits: map<nat, bool>, start: nat, states: seq<State>)
    requires forall i :: 0 <= i < |states| ==> !IsReceived(states[i])
    ensures ReportedParity(bits, start, states) == false
    decreases |states|
  {
    if states != [] { NothingReported(bits, start + 1, states[1..]); }
  }

  // ----- the sender handles an honest acknowledgement -----

  /** When every reported packet is still buffered, the sender recomputes the parity its peer computed. */
  lemma {:induction false} VectorParityAgrees(sending: map<nat, Sent>, bits: map<nat, bool>, start: nat, states: seq<State>)
    requires forall i :: 0 <= i < |states| && IsReceived(states[i]) ==>
      start + i in sending && start + i in bits && sending[start + i].parity == bits[start + i]
    ensures VectorParity(sending, start, states) == ReportedParity(bits, start, states)
    decreases |states|
  {
    if states != [] {
      forall i | 0 <= i < |states[1..]| && IsReceived(states[1..][i])
        ensures start + 1 + i in sending && start + 1 + i in bits && sending[start + 1 + i].parity == bits[start + 1 + i]
      {
        assert states[1..][i] == states[i + 1];
        assert start + (i + 1) == start + 1 + i;
      }
      VectorParityAgrees(sending, bits, start + 1, states[1..]);
      if IsReceived(states[0]) { assert start + 0 in sending; }
    }
  }

  lemma HonestDrop(a: Stream, b: Stream, first: nat, bits: map<nat, bool>, gsnfr: nat)
    requires SenderInv(a, first, bits) && KnowledgeOk(a, b) && gsnfr <= b.gsnfr
    ensures SenderInv(Dropped(a, gsnfr), first, bits) && KnowledgeOk(Dropped(a, gsnfr), b)
  {
  }

  /** The parity check passes, or cannot be made. */
  lemma HonestVectorStaysOpen(kept: Stream, b: Stream, first: nat, bits: map<nat, bool>, ack: Ack, states: seq<State>)
    requires SenderInv(kept, first, bits) && b.gsnr < kept.next
    requires kept.sending != map[] && ack.gsnfr + 1 + |states| <= b.gsnr
    requires ack.vp == Xor(ack.xp, ReportedParity(bits, ack.gsnfr + 1, states))
    ensures !ParityWrong(kept, ack, states)
  {
    var start := ack.gsnfr + 1;
    if !Unverifiable(kept.lowest, start, states) {
      forall i | 0 <= i < |states| && IsReceived(states[i])
        ensures start + i in kept.sending && start + i in bits && kept.sending[start + i].parity == bits[start + i]
      {
        assert kept.lowest <= start + i < kept.next;
      }
      VectorParityAgrees(kept.sending, bits, start, states);
    }
  }

  /** Marking changes nothing but the marks, and marks only received packets. */
  lemma HonestMarks(sending: map<nat, Sent>, start: nat, states: seq<State>, gsnr: nat, seen: set<nat>)
    requires forall k :: k in sending && sending[k].received ==> k in seen
    requires forall i :: 0 <= i < |states| && IsReceived(states[i]) ==> start + i in seen
    requires gsnr in seen
    ensures
      var t := MarkedAll(sending, start, states, gsnr);
      && t.Keys == sending.Keys
      && (forall k :: k in t ==> t[k].parity == sending[k].parity && t[k].xoredToNow == sending[k].xoredToNow)
      && (forall k :: k in t && t[k].received ==> k in seen)
  {
    var m := Marked(sending, start, states);
    forall k | k in m && m[k].received ensures k in seen {
      if !sending[k].received {
        assert start + (k - start) == k;
      }
    }
  }

  lemma SenderKeepsMarks(a: Stream, t: map<nat, Sent>, first: nat, bits: map<nat, bool>)
    requires SenderInv(a, first, bits)
    requires t.Keys == a.sending.Keys
    requires forall k :: k in t ==> t[k].parity == a.sending[k].parity && t[k].xoredToNow == a.sending[k].xoredToNow
    ensures SenderInv(a.(sending := t), first, bits)
  {
  }

  lemma HonestHeader(a: Stream, b: Stream, first: nat, bits: map<nat, bool>, ack: Ack)
    requires SenderInv(a, first, bits) && AckOk(ack, b, first, bits)
    ensures !HeaderWrong(a, ack)
  {
  }

  lemma HonestVector(kept: Stream, b: Stream, first: nat, bits: map<nat, bool>, ack: Ack)
    requires SenderInv(kept, first, bits) && KnowledgeOk(kept, b)
    requires AckOk(ack, b, first, bits) && !kept.closed && ack.gsnr != ack.gsnfr && kept.lowest < kept.next
    ensures !WithVector(kept, ack).closed
  {
    assert kept.lowest in kept.sending;
    HonestVectorStaysOpen(kept, b, first, bits, ack, DecodeAck(ack.vector, ack.gsnr, ack.gsnfr));
  }

  lemma HonestVectorMarks(kept: Stream, b: Stream, first: nat, bits: map<nat, bool>, ack: Ack)
    requires SenderInv(kept, first, bits) && KnowledgeOk(kept, b)
    requires AckOk(ack, b, first, bits) && ack.gsnr != ack.gsnfr
    ensures SenderInv(kept.(sending := WithVector(kept, ack).sending), first, bits)
    ensures KnowledgeOk(WithVector(kept, ack), b)
  {
    hide MarkedAll, DecodeAck, SenderInv, AckOk, ParityWrong;
    var states := DecodeAck(ack.vector, ack.gsnr, ack.gsnfr);
    HonestAckMarks(ack, b, first, bits);
    HonestMarks(kept.sending, ack.gsnfr + 1, states, ack.gsnr, b.seen);
    SenderKeepsMarks(kept, MarkedAll(kept.sending, ack.gsnfr + 1, states, ack.gsnr), first, bits);
  }

  lemma HonestAckMarks(ack: Ack, b: Stream, first: nat, bits: map<nat, bool>)
    requires AckOk(ack, b, first, bits) && ack.gsnr != ack.gsnfr
    ensures
      var states := DecodeAck(ack.vector, ack.gsnr, ack.gsnfr);
      ack.gsnr in b.seen && forall i :: 0 <= i < |states| && IsReceived(states[i]) ==> ack.gsnfr + 1 + i in b.seen
  {
  }

  /** An honest acknowledgement never closes the stream and never claims a packet that was not received. */
  lemma HonestAck(a: Stream, b: Stream, first: nat, bits: map<nat, bool>, reported: nat, ack: Ack)
    requires SenderInv(a, first, bits) && KnowledgeOk(a, b)
    requires AckOk(ack, b, first, bits) && !a.closed
    ensures
      var t := HandleAck(a, reported, ack);
      !t.closed && SenderInv(t, first, bits) && KnowledgeOk(t, b)
  {
    if !Ignores(a, reported, ack) {
      HonestHeader(a, b, first, bits, ack);
      HonestDrop(a, b, first, bits, ack.gsnfr);
      if ack.gsnr != ack.gsnfr {
        HonestVector(Dropped(a, ack.gsnfr), b, first, bits, ack);
        HonestVectorMarks(Dropped(a, ack.gsnfr), b, first, bits, ack);
      }
    }
  }

  // ----- the receiver -----

  /** What a receiver knows only grows: packets received, GSNR and GSNFR. */
  ghost predicate Grows(b: Stream, c: Stream) {
    b.seen <= c.seen && b.gsnr <= c.gsnr && b.gsnfr <= c.gsnfr
  }

  lemma {:induction false} DeliveredOk(b: Stream, first: nat, bits: map<nat, bool>)
    requires PartlyDelivered(b, first) && ArrivedBits(b, first, bits)
    ensures ReceiverInv(Delivered(b), first, bits) && Grows(b, Delivered(b))
    decreases |b.received|
  {
    if b.gsnfr + 1 in b.received {
      DeliverNextOk(b, first, bits);
      DeliveredOk(DeliverNext(b), first, bits);
    }
    hide DeliverNext, PartlyDelivered, ArrivedBits;
  }

  lemma DeliverNextOk(b: Stream, first: nat, bits: map<nat, bool>)
    requires PartlyDelivered(b, first) && ArrivedBits(b, first, bits) && b.gsnfr + 1 in b.received
    ensures PartlyDelivered(DeliverNext(b), first) && ArrivedBits(DeliverNext(b), first, bits) && Grows(b, DeliverNext(b))
  {
    assert RangeParity(bits, first, b.gsnfr + 2) == Xor(RangeParity(bits, first, b.gsnfr + 1), bits[b.gsnfr + 1]);
  }

  lemma AcceptedArrives(b: Stream, first: nat, p: Packet)
    requires Arrivals(b, first) && p.number > b.gsnfr
    ensures PartlyDelivered(Accepted(b, p), first) && Grows(b, Accepted(b, p))
  {
  }

  lemma AcceptedBits(b: Stream, first: nat, bits: map<nat, bool>, p: Packet)
    requires ArrivedBits(b, first, bits) && p.number in bits && p.ps == bits[p.number]
    requires first <= b.gsnr + 1
    ensures ArrivedBits(Accepted(b, p), first, bits)
  {
    assert Accepted(b, p).gsnfr == b.gsnfr;
  }

  /** A packet of the sender, accepted at any time in any order, keeps GSNFR the greatest fully received prefix. */
  lemma AcceptedOk(b: Stream, first: nat, bits: map<nat, bool>, p: Packet)
    requires ReceiverInv(b, first, bits) && p.number > b.gsnfr
    requires p.number in bits && p.ps == bits[p.number]
    ensures ReceiverInv(Delivered(Accepted(b, p)), first, bits) && Grows(b, Delivered(Accepted(b, p)))
  {
    AcceptedArrives(b, first, p);
    AcceptedBits(b, first, bits, p);
    DeliveredOk(Accepted(b, p), first, bits);
  }

  /** Delivery and handling an acknowledgement touch different halves of a stream. */
  lemma {:induction false} DeliveredKeepsSender(b: Stream)
    ensures
      var c := Delivered(b);
      c == b.(gsnfr := c.gsnfr, received := c.received, xoredToGsnfr := c.xoredToGsnfr, delivered := c.delivered)
    decreases |b.received|
  {
    if b.gsnfr + 1 in b.received {
      DeliveredKeepsSender(DeliverNext(b));
    }
  }

  // ----- acknowledgements an honest receiver gives -----

  lemma {:induction false} GapParity(b: Stream, bits: map<nat, bool>, start: nat, items: seq<Item>)
    requires forall k :: k in b.received ==> k in bits && b.received[k].parity == bits[k]
    requires forall i :: 0 <= i < |items| ==> items[i] == ItemFor(b.received, start + i)
    ensures ReportedParity(bits, start, States(items)) == ItemsParity(items)
    decreases |items|
  {
    if items != [] {
      assert items[0] == ItemFor(b.received, start + 0);
      forall i | 0 <= i < |items[1..]| ensures items[1..][i] == ItemFor(b.received, start + 1 + i) {
        assert items[1..][i] == items[i + 1] == ItemFor(b.received, start + (i + 1));
      }
      GapParity(b, bits, start + 1, items[1..]);
      StatesTail(items);
    }
  }

  lemma StatesTail(items: seq<Item>)
    requires items != []
    ensures States(items)[1..] == States(items[1..])
  {
    var a, b := States(items)[1..], States(items[1..]);
    assert |a| == |b|;
    forall i | 0 <= i < |a| ensures a[i] == b[i] {
      assert a[i] == items[i + 1].state == items[1..][i].state;
    }
  }

  lemma {:induction false} AllMissing(items: seq<Item>)
    requires forall i :: 0 <= i < |items| ==> items[i].state == NotReceived
    ensures ItemsParity(items) == false
  {
    if items != [] { AllMissing(items[1..]); }
  }

  /** The packets the vector has room for: a prefix of the gap. */
  ghost function Told(b: Stream, max: nat): (items: seq<Item>)
    ensures b.gsnfr + 1 + |items| <= b.gsnr || items == []
    ensures forall i :: 0 <= i < |items| ==> items[i] == ItemFor(b.received, b.gsnfr + 1 + i)
  {
    var gap := Gap(b.received, b.gsnfr + 1, b.gsnr);
    gap[..Taken(Start(b.gsnfr, b.xoredToGsnfr), gap, b.gsnr, max)]
  }

  lemma EncodedTells(b: Stream, max: nat)
    ensures Decode(Encoded(b, max).bytes) == States(Told(b, max))
    ensures Encoded(b, max).xored == Xor(b.xoredToGsnfr, ItemsParity(Told(b, max)))
    ensures WellFormed(Encoded(b, max).bytes)
  {
    EncodedAllDecodes(Start(b.gsnfr, b.xoredToGsnfr), Gap(b.received, b.gsnfr + 1, b.gsnr), b.gsnr, max);
    assert Decode([]) == [];
  }

  /** A vector is left out only when it reports nothing received. */
  lemma LeftOut(b: Stream, max: nat)
    requires Finalized(Encoded(b, max).bytes, b.gsnr, b.gsnfr) == []
    ensures ItemsParity(Told(b, max)) == false
  {
    EncodedTells(b, max);
    var bytes, items := Encoded(b, max).bytes, Told(b, max);
    if b.gsnfr != b.gsnr {
      if bytes != [] {
        assert bytes == [bytes[0]];
        DecodeOne(bytes[0]);
      } else {
        assert Decode(bytes) == [];
      }
      forall i | 0 <= i < |items| ensures items[i].state == NotReceived {
        assert items[i].state == States(items)[i];
      }
    }
    AllMissing(items);
  }

  lemma TrueReport(b: Stream, bits: map<nat, bool>, items: seq<Item>)
    requires forall k :: k in b.received ==> k in b.seen && k in bits && b.received[k].parity == bits[k]
    requires forall i :: 0 <= i < |items| ==> items[i] == ItemFor(b.received, b.gsnfr + 1 + i)
    ensures forall i :: 0 <= i < |items| && IsReceived(States(items)[i]) ==> b.gsnfr + 1 + i in b.seen
    ensures ReportedParity(bits, b.gsnfr + 1, States(items)) == ItemsParity(items)
  {
    GapParity(b, bits, b.gsnfr + 1, items);
  }

  lemma ReceivedTruths(b: Stream, first: nat, bits: map<nat, bool>)
    requires ReceiverInv(b, first, bits)
    ensures forall k :: k in b.received ==> k in b.seen && k in bits && b.received[k].parity == bits[k]
    ensures first <= b.gsnfr + 1 && b.gsnfr + 1 !in b.received && b.xoredToGsnfr == RangeParity(bits, first, b.gsnfr + 1)
  {
  }

  lemma ToldIsTrue(b: Stream, first: nat, bits: map<nat, bool>, max: nat)
    requires ReceiverInv(b, first, bits)
    ensures ReportOk(States(Told(b, max)), Encoded(b, max).xored, b.gsnfr, b, first, bits)
  {
    ReceivedTruths(b, first, bits);
    EncodedTells(b, max);
    var items := Told(b, max);
    assert items != [] ==> items[0] == ItemFor(b.received, b.gsnfr + 1 + 0);
    TrueReport(b, bits, items);
    ReportIsOk(b, first, bits, States(items), Encoded(b, max).xored, ItemsParity(items));
  }

  lemma ReportIsOk(b: Stream, first: nat, bits: map<nat, bool>, states: seq<State>, vp: bool, parity: bool)
    requires first <= b.gsnfr + 1 && b.xoredToGsnfr == RangeParity(bits, first, b.gsnfr + 1)
    requires states != [] ==> b.gsnfr + 1 + |states| <= b.gsnr && !IsReceived(states[0])
    requires forall i :: 0 <= i < |states| && IsReceived(states[i]) ==> b.gsnfr + 1 + i in b.seen
    requires parity == ReportedParity(bits, b.gsnfr + 1, states) && vp == Xor(b.xoredToGsnfr, parity)
    ensures ReportOk(states, vp, b.gsnfr, b, first, bits)
  {
  }

  /** However little room there is for the vector, what it says is true and its parity is right. */
  lemma FreshVectorOk(b: Stream, first: nat, bits: map<nat, bool>, max: nat)
    requires ReceiverInv(b, first, bits)
    ensures VectorOk(CurrentAck(b, max).vector, CurrentAck(b, max).vp, b.gsnfr, b, first, bits)
  {
    ToldIsTrue(b, first, bits, max);
    EncodedTells(b, max);
    var bytes := Encoded(b, max).bytes;
    if Finalized(bytes, b.gsnr, b.gsnfr) == [] {
      LeftOut(b, max);
      ReceivedTruths(b, first, bits);
      assert Decode([]) == [];
    } else {
      hide ReportOk, Told, Encoded;
      assert CurrentAck(b, max).vector == bytes;
    }
  }

  /** What the decoder reads is true, even when the vector was left out. */
  lemma DecodedIsTrue(b: Stream, first: nat, bits: map<nat, bool>, vector: seq<Run>, vp: bool)
    requires b.gsnfr < b.gsnr && VectorOk(vector, vp, b.gsnfr, b, first, bits)
    ensures ReportOk(DecodeAck(vector, b.gsnr, b.gsnfr), vp, b.gsnfr, b, first, bits)
  {
    if vector == [] {
      var r, states := MissingRun(b.gsnr, b.gsnfr), DecodeAck(vector, b.gsnr, b.gsnfr);
      if r == 0 {
        assert states == [];
      } else {
        DecodeOne(RunByte(NotReceived, r));
        assert states == Repeat(NotReceived, r);
      }
      assert Decode(vector) == [];
      NothingReported(bits, b.gsnfr + 1, states);
    }
  }

  /** A true vector, put in a packet while GSNFR is where the vector starts, makes a true acknowledgement. */
  lemma VectorMakesAck(b: Stream, first: nat, bits: map<nat, bool>, vector: seq<Run>, vp: bool)
    requires ReceiverInv(b, first, bits) && VectorOk(vector, vp, b.gsnfr, b, first, bits)
    ensures AckOk(Ack(b.gsnr, b.gsnfr, vector, vp, b.gsnrParity, b.xoredToGsnfr), b, first, bits)
    ensures AckOk(OnWire(Ack(b.gsnr, b.gsnfr, vector, vp, b.gsnrParity, b.xoredToGsnfr)), b, first, bits)
  {
    if b.gsnr != b.gsnfr { DecodedIsTrue(b, first, bits, vector, vp); }
    hide VectorOk, DecodeAck, RangeParity, ReportedParity;
  }

  lemma AckStaysOk(ack: Ack, b: Stream, c: Stream, first: nat, bits: map<nat, bool>)
    requires AckOk(ack, b, first, bits) && Grows(b, c)
    ensures AckOk(ack, c, first, bits)
  {
  }

  lemma BurstStaysOk(b: Stream, c: Stream, first: nat, bits: map<nat, bool>)
    requires BurstOk(b, first, bits) && Grows(b, c) && c.burst == b.burst
    ensures BurstOk(c, first, bits)
  {
  }

  // ----- a new packet is given its parity bit -----

  lemma AckUnaffected(ack: Ack, b: Stream, first: nat, bits: map<nat, bool>, n: nat, x: bool)
    requires AckOk(ack, b, first, bits) && b.gsnr < n && first <= n
    ensures AckOk(ack, b, first, bits[n := x])
  {
    RangeParityStable(bits, first, ack.gsnfr + 1, n, x);
    if ack.gsnr != ack.gsnfr {
      ReportedParityStable(bits, ack.gsnfr + 1, DecodeAck(ack.vector, ack.gsnr, ack.gsnfr), n, x);
    }
  }

  lemma ReceiverUnaffected(b: Stream, first: nat, bits: map<nat, bool>, n: nat, x: bool)
    requires ReceiverInv(b, first, bits) && b.gsnr < n && first <= n
    ensures ReceiverInv(b, first, bits[n := x])
  {
    RangeParityStable(bits, first, b.gsnfr + 1, n, x);
  }

  lemma BurstUnaffected(b: Stream, first: nat, bits: map<nat, bool>, n: nat, x: bool)
    requires BurstOk(b, first, bits) && b.gsnfr <= b.gsnr < n && first <= n
    ensures BurstOk(b, first, bits[n := x])
  {
    if b.burst.Some? {
      var u := b.burst.value;
      RangeParityStable(bits, first, u.gsnfr + 1, n, x);
      ReportedParityStable(bits, u.gsnfr + 1, Decode(u.vector), n, x);
    }
  }

  lemma SentOk(a: Stream, first: nat, bits: map<nat, bool>, ps: bool)
    requires SenderInv(a, first, bits)
    ensures SenderInv(AfterSending(a, ps), first, bits[a.next := ps])
  {
    SentParities(a, first, bits, ps);
    hide RangeParity, CurrentBurst;
  }

  lemma SentParities(a: Stream, first: nat, bits: map<nat, bool>, ps: bool)
    requires SenderInv(a, first, bits)
    ensures forall k :: k in a.sending ==> RangeParity(bits[a.next := ps], first, k + 1) == a.sending[k].xoredToNow
    ensures RangeParity(bits[a.next := ps], first, a.next + 1) == Xor(a.xoredToNow, ps)
  {
    forall k | k in a.sending ensures RangeParity(bits[a.next := ps], first, k + 1) == a.sending[k].xoredToNow {
      RangeParityStable(bits, first, k + 1, a.next, ps);
    }
    RangeParityStable(bits, first, a.next, a.next, ps);
  }
}

/**
 * What a burst does whose vector no longer fits: a packet of the burst is created after GSNFR moved
 * while something beyond GSNFR has arrived, so it carries the vector of the burst's first packet
 * behind a GSNFR it was not made for.
 */
module RudpBursts {
  import opened RudpVectors
  import opened RudpStream
  import opened RudpSystem
  import opened RudpRuns
  import opened RudpChoices

  // ----- flipping one parity bit -----

  function Flipped(bits: map<nat, bool>, n: nat): map<nat, bool>
    requires n in bits
  {
    bits[n := !bits[n]]
  }

  lemma {:induction false} RangeFlips(bits: map<nat, bool>, lo: nat, hi: nat, n: nat)
    requires n in bits
    ensures RangeParity(Flipped(bits, n), lo, hi) == Xor(RangeParity(bits, lo, hi), lo <= n < hi)
    decreases hi
  {
    if hi > lo { RangeFlips(bits, lo, hi - 1, n); }
  }

  lemma {:induction false} ReportStays(bits: map<nat, bool>, start: nat, states: seq<State>, n: nat)
    requires n in bits && forall i :: 0 <= i < |states| && start + i == n ==> !IsReceived(states[i])
    ensures ReportedParity(Flipped(bits, n), start, states) == ReportedParity(bits, start, states)
    decreases |states|
  {
    if states != [] {
      assert start + 0 == start;
      assert forall i :: 0 <= i < |states[1..]| ==> states[1..][i] == states[i + 1] && start + 1 + i == start + (i + 1);
      ReportStays(bits, start + 1, states[1..], n);
    }
  }

  /** The parity over buffered packets depends on their parities from the first reported number on. */
  lemma {:induction false} SameVectorParity(x: map<nat, Sent>, y: map<nat, Sent>, start: nat, states: seq<State>)
    requires x.Keys == y.Keys && forall k :: k in x && k >= start ==> x[k].parity == y[k].parity
    ensures VectorParity(x, start, states) == VectorParity(y, start, states)
    decreases |states|
  {
    if states != [] { SameVectorParity(x, y, start + 1, states[1..]); }
  }

  // ----- the peer of such a burst -----

  /** The packet that the burst creates next. */
  ghost predicate Misfits(b: Stream) {
    b.burst.Some? && b.burst.value.gsnfr != b.gsnfr && b.gsnr != b.gsnfr
  }

  lemma MisfitsExactlyWhen(b: Stream, ps: bool, ec: bool, data: seq<Byte>)
    ensures Misfits(b) <==> !Quiet(b, Send(ps, ec, data))
  {
  }

  /** What the peer finds out when it walks the vector from the GSNFR of the packet. */
  ghost function Recomputed(a: Stream, b: Stream): bool
    requires b.burst.Some?
  {
    VectorParity(Dropped(a, b.gsnfr).sending, b.gsnfr + 1, DecodeAck(b.burst.value.vector, b.gsnr, b.gsnfr))
  }

  /** The acknowledgement of the packet. */
  ghost function MisfitAck(b: Stream): Ack
    requires b.burst.Some?
  {
    Ack(b.gsnr, b.gsnfr, b.burst.value.vector, b.burst.value.vp, b.gsnrParity, b.xoredToGsnfr)
  }

  lemma MisfitIsLookedAt(a: Stream, b: Stream, first: nat, bits: map<nat, bool>, reported: nat)
    requires SenderInv(a, first, bits) && ReceiverInv(b, first, bits) && KnowledgeOk(a, b) && Misfits(b)
    requires a.gsnfr <= reported <= a.gsnr + WINDOW
    ensures !Ignores(a, reported, MisfitAck(b)) && !HeaderWrong(a, MisfitAck(b))
  {
    assert b.gsnr in a.sending;
  }

  lemma MisfitDrops(a: Stream, b: Stream, first: nat, bits: map<nat, bool>)
    requires SenderInv(a, first, bits) && ReceiverInv(b, first, bits) && KnowledgeOk(a, b) && Misfits(b)
    ensures Dropped(a, b.gsnfr).lowest == b.gsnfr + 1 && Dropped(a, b.gsnfr).closed == a.closed
  {
  }

  lemma WrongExactlyWhen(kept: Stream, ack: Ack, states: seq<State>)
    requires kept.lowest <= ack.gsnfr + 1
    ensures ParityWrong(kept, ack, states) <==> Xor(ack.xp, VectorParity(kept.sending, ack.gsnfr + 1, states)) != ack.vp
  {
    hide VectorParity;
  }

  lemma MisfitIsJudged(a: Stream, b: Stream, first: nat, bits: map<nat, bool>, reported: nat)
    requires SenderInv(a, first, bits) && ReceiverInv(b, first, bits) && KnowledgeOk(a, b) && !a.closed && Misfits(b)
    requires a.gsnfr <= reported <= a.gsnr + WINDOW
    ensures HandleAck(a, reported, MisfitAck(b)).closed <==> Xor(b.xoredToGsnfr, Recomputed(a, b)) != b.burst.value.vp
  {
    hide Ignores, HeaderWrong, Dropped, SenderInv, ReceiverInv, KnowledgeOk, VectorParity, MarkedAll, DecodeAck, ParityWrong;
    var ack := MisfitAck(b);
    MisfitIsLookedAt(a, b, first, bits, reported);
    MisfitDrops(a, b, first, bits);
    WrongExactlyWhen(Dropped(a, ack.gsnfr), ack, DecodeAck(ack.vector, ack.gsnr, ack.gsnfr));
    assert HandleAck(a, reported, ack) == WithVector(Dropped(a, ack.gsnfr), ack);
  }

  lemma MisfitCloses(a: Stream, b: Stream, first: nat, bits: map<nat, bool>, ps: bool, ec: bool, data: seq<Byte>, late: bool)
    requires SenderInv(a, first, bits) && ReceiverInv(b, first, bits) && KnowledgeOk(a, b) && !a.closed && Misfits(b)
    requires a.gsnfr <= a.gsnr < b.next <= a.gsnr + WINDOW
    ensures HandlePacket(a, NewPacket(b, ps, ec, data), late).closed <==> Xor(b.xoredToGsnfr, Recomputed(a, b)) != b.burst.value.vp
  {
    var p := NewPacket(b, ps, ec, data);
    assert p.ack == MisfitAck(b);
    MisfitIsJudged(a, b, first, bits, p.number);
    AcceptKeepsSender(HandleAck(a, p.number, p.ack), p);
    hide HandleAck, Recomputed, Delivered, Accepted, SenderInv, ReceiverInv, KnowledgeOk;
  }

  lemma SameKept(a: Stream, c: Stream, first: nat, bits: map<nat, bool>, n: nat, gsnfr: nat)
    requires SenderInv(a, first, bits) && n in bits && SenderInv(c, first, Flipped(bits, n)) && n <= gsnfr && AlikeStreams(a, c)
    ensures
      var x, y := Dropped(a, gsnfr).sending, Dropped(c, gsnfr).sending;
      x.Keys == y.Keys && forall k :: k in x ==> x[k].parity == y[k].parity
  {
    hide RangeParity, AlikeReceivers;
  }

  lemma SameRecomputed(a: Stream, b: Stream, c: Stream, d: Stream, first: nat, bits: map<nat, bool>, n: nat)
    requires SenderInv(a, first, bits) && n in bits && SenderInv(c, first, Flipped(bits, n)) && n <= b.gsnfr
    requires AlikeStreams(a, c) && AlikeStreams(b, d) && b.burst.Some?
    ensures Recomputed(a, b) == Recomputed(c, d)
  {
    var x, y := Dropped(a, b.gsnfr).sending, Dropped(c, b.gsnfr).sending;
    SameKept(a, c, first, bits, n, b.gsnfr);
    hide Dropped, SenderInv, AlikeSenders;
    SameVectorParity(x, y, b.gsnfr + 1, DecodeAck(b.burst.value.vector, b.gsnr, b.gsnfr));
  }

  lemma SameBurstParity(b: Stream, d: Stream, first: nat, bits: map<nat, bool>, n: nat)
    requires b.burst.Some? && BurstOk(b, first, bits) && n == b.burst.value.gsnfr + 1 && n in bits
    requires AlikeBursts(b.burst, d.burst) && BurstOk(d, first, Flipped(bits, n))
    ensures b.burst.value.vp == d.burst.value.vp
  {
    RangeFlips(bits, first, n, n);
    ReportStays(bits, n, Decode(b.burst.value.vector), n);
  }

  lemma OtherParityToGsnfr(b: Stream, d: Stream, first: nat, bits: map<nat, bool>, n: nat)
    requires ReceiverInv(b, first, bits) && n in bits && first <= n <= b.gsnfr == d.gsnfr && ReceiverInv(d, first, Flipped(bits, n))
    ensures b.xoredToGsnfr != d.xoredToGsnfr
  {
    RangeFlips(bits, first, b.gsnfr + 1, n);
  }

  /** The first packet the burst reports missing. */
  ghost function FirstMissing(b: Stream): nat
    requires b.burst.Some?
  {
    b.burst.value.gsnfr + 1
  }

  lemma FirstMissingArrived(b: Stream, first: nat, bits: map<nat, bool>)
    requires ReceiverInv(b, first, bits) && BurstOk(b, first, bits) && Misfits(b)
    ensures first <= FirstMissing(b) <= b.gsnfr && FirstMissing(b) in bits
  {
    assert FirstMissing(b) in b.seen;
  }

  // ----- whole runs -----

  /** The bits chosen so far, one of them flipped. */
  function Instead(bits: map<nat, bool>, n: int): nat -> bool {
    k => if k in bits && k == n then !bits[k] else k in bits && bits[k]
  }

  lemma InsteadIsFlipped(bits: map<nat, bool>, others: map<nat, bool>, n: nat)
    requires n in bits && bits.Keys == others.Keys && Follows(others, Instead(bits, n))
    ensures others == Flipped(bits, n)
  {
  }

  lemma SameChosen(s: System, t: System, leftFirst: nat, rightFirst: nat)
    requires Inv(s, leftFirst, rightFirst) && Inv(t, leftFirst, rightFirst) && AlikeSystems(s, t)
    ensures s.rightBits.Keys == t.rightBits.Keys
  {
    assert s.right.next == t.right.next;
  }

  /** In two systems alike but for the bit of the first packet reported missing, one peer or the other closes. */
  lemma OneOfTwoCloses(s: System, t: System, leftFirst: nat, rightFirst: nat, ps: bool, ec: bool, data: seq<Byte>, late: bool)
    requires Inv(s, leftFirst, rightFirst) && Inv(t, leftFirst, rightFirst) && AlikeSystems(s, t)
    requires Misfits(s.left) && s.left.next <= s.right.gsnr + WINDOW
    requires FirstMissing(s.left) in s.rightBits && t.rightBits == Flipped(s.rightBits, FirstMissing(s.left))
    ensures HandlePacket(s.right, NewPacket(s.left, ps, ec, data), late).closed <==>
      !HandlePacket(t.right, NewPacket(t.left, ps, ec, data), late).closed
  {
    var n := FirstMissing(s.left);
    InvParts(s, leftFirst, rightFirst);
    InvParts(t, leftFirst, rightFirst);
    FirstMissingArrived(s.left, rightFirst, s.rightBits);
    SameRecomputed(s.right, s.left, t.right, t.left, rightFirst, s.rightBits, n);
    SameBurstParity(s.left, t.left, rightFirst, s.rightBits, n);
    OtherParityToGsnfr(s.left, t.left, rightFirst, s.rightBits, n);
    MisfitCloses(s.right, s.left, rightFirst, s.rightBits, ps, ec, data, late);
    MisfitCloses(t.right, t.left, rightFirst, t.rightBits, ps, ec, data, late);
  }

  /**
   * Every quiet run that comes to a packet which is not quiet takes, with the parity bits it chose
   * or with one of them flipped, a course on which this packet makes its honest peer close.
   */
  lemma UnquietBurstCloses(leftFirst: nat, rightFirst: nat, steps: seq<Step>, ps: bool, ec: bool, data: seq<Byte>, late: bool)
    returns (others: seq<Step>)
    requires leftFirst > 0 && rightFirst > 0 && QuietRun(Initial(leftFirst, rightFirst), steps)
    requires
      var s := RudpRuns.Run(Initial(leftFirst, rightFirst), steps);
      !Quiet(s.left, Send(ps, ec, data)) && s.left.next <= s.right.gsnr + WINDOW
    ensures QuietRun(Initial(leftFirst, rightFirst), others)
    ensures
      var s, t := RudpRuns.Run(Initial(leftFirst, rightFirst), steps), RudpRuns.Run(Initial(leftFirst, rightFirst), others);
      AlikeSystems(s, t) && HandlePacket(t.right, NewPacket(t.left, ps, ec, data), late).closed
  {
    var start := Initial(leftFirst, rightFirst);
    var s := RudpRuns.Run(start, steps);
    InitialInv(leftFirst, rightFirst);
    RunKeepsInv(start, leftFirst, rightFirst, steps);
    AlikeItself(start);
    AlikeItself(s);
    MisfitsExactlyWhen(s.left, ps, ec, data);
    others := steps;
    if !HandlePacket(s.right, NewPacket(s.left, ps, ec, data), late).closed {
      InvParts(s, leftFirst, rightFirst);
      FirstMissingArrived(s.left, rightFirst, s.rightBits);
      var n := FirstMissing(s.left);
      others := RunAlike(start, start, leftFirst, rightFirst, steps, Instead(s.leftBits, -1), Instead(s.rightBits, n));
      RunKeepsInv(start, leftFirst, rightFirst, others);
      var t := RudpRuns.Run(start, others);
      SameChosen(s, t, leftFirst, rightFirst);
      InsteadIsFlipped(s.rightBits, t.rightBits, n);
      OneOfTwoCloses(s, t, leftFirst, rightFirst, ps, ec, data, late);
    }
  }

  lemma QuietPacketIsTaken(t: System, leftFirst: nat, rightFirst: nat, ps: bool, ec: bool, data: seq<Byte>, late: bool)
    requires Inv(t, leftFirst, rightFirst) && Quiet(t.left, Send(ps, ec, data))
    ensures !HandlePacket(t.right, NewPacket(t.left, ps, ec, data), late).closed
  {
    InvParts(t, leftFirst, rightFirst);
    NewPacketTells(t.left, rightFirst, t.rightBits, ps, ec, data);
    hide Inv, HandlePacket, NewPacket, SenderInv, ReceiverInv, AckOk, BurstOk;
    PacketToSender(t.right, AfterSending(t.left, ps), rightFirst, t.rightBits, NewPacket(t.left, ps, ec, data), late);
  }

  /**
   * The next packet of a burst is safe, on every course the run may take by its parity bits, exactly
   * when GSNFR has not moved since the burst began or nothing beyond GSNFR has arrived, or the
   * packet is too far ahead to be looked at.
   */
  lemma NextPacketIsSafeExactlyWhen(leftFirst: nat, rightFirst: nat, steps: seq<Step>, ps: bool, ec: bool, data: seq<Byte>, late: bool)
    requires leftFirst > 0 && rightFirst > 0 && QuietRun(Initial(leftFirst, rightFirst), steps)
    ensures
      var start := Initial(leftFirst, rightFirst);
      var s := RudpRuns.Run(start, steps);
      (forall others :: QuietRun(start, others) && AlikeSystems(s, RudpRuns.Run(start, others)) ==>
         var t := RudpRuns.Run(start, others);
         !HandlePacket(t.right, NewPacket(t.left, ps, ec, data), late).closed)
      <==> Quiet(s.left, Send(ps, ec, data)) || s.left.next > s.right.gsnr + WINDOW
  {
    var start := Initial(leftFirst, rightFirst);
    var s := RudpRuns.Run(start, steps);
    hide Inv, AlikeTraffic, AlikeSent, AlikeGot, AlikeBursts, NewPacket, HandleAck, Delivered, Accepted, QuietRun, RudpRuns.Run;
    InitialInv(leftFirst, rightFirst);
    if Quiet(s.left, Send(ps, ec, data)) || s.left.next > s.right.gsnr + WINDOW {
      forall others | QuietRun(start, others) && AlikeSystems(s, RudpRuns.Run(start, others))
        ensures
          var t := RudpRuns.Run(start, others);
          !HandlePacket(t.right, NewPacket(t.left, ps, ec, data), late).closed
      {
        var t := RudpRuns.Run(start, others);
        RunKeepsInv(start, leftFirst, rightFirst, others);
        InvParts(t, leftFirst, rightFirst);
        if Quiet(s.left, Send(ps, ec, data)) {
          QuietAlike(s.left, t.left, ps, ps, ec, data);
          QuietPacketIsTaken(t, leftFirst, rightFirst, ps, ec, data, late);
        } else {
          TooFarIsIgnored(t.right, t.left, ps, ec, data, late);
        }
      }
    } else {
      var others := UnquietBurstCloses(leftFirst, rightFirst, steps, ps, ec, data, late);
      assert QuietRun(start, others);
    }
  }

  lemma TooFarIsIgnored(a: Stream, b: Stream, ps: bool, ec: bool, data: seq<Byte>, late: bool)
    requires b.next > a.gsnr + WINDOW
    ensures HandlePacket(a, NewPacket(b, ps, ec, data), late) == a
  {
  }

  // ----- an instance -----

  /** The packet with number n of those five: nothing had been received when it was made. */
  ghost function FromFive(bits: seq<bool>, n: nat): Packet
    requires |bits| == 5 && 1 <= n <= 5
  {
    Packet(n, bits[n - 1], false, Ack(0, 0, [], false, false, false), [])
  }

  /** A fresh stream that received the second and the fifth, then began a burst. */
  ghost function BurstBegun(bits: seq<bool>): Stream
    requires |bits| == 5
  {
    AfterSending(TwoAndFive(bits), false)
  }

  /** The same burst, after the first of the five arrived in its midst. */
  ghost function BurstDisturbed(bits: seq<bool>): Stream
    requires |bits| == 5
  {
    HandlePacket(BurstBegun(bits), FromFive(bits, 1), false)
  }

  /** Missing, received, missing, missing: the gap below 5 when only 2 arrived. */
  ghost const GAP_VECTOR: seq<Run> := [RunByte(NotReceived, 1), RunByte(Received, 1), RunByte(NotReceived, 2)]

  lemma GapIsEncoded(xored: bool, parity: bool, received: map<nat, Got>)
    requires 1 !in received && 3 !in received && 4 !in received && 2 in received && received[2] == Got(parity, false, [])
    ensures
      var e := EncodedAll(Start(0, xored), Gap(received, 1, 5), 5, MAX_VECTOR);
      Finalized(e.bytes, 5, 0) == GAP_VECTOR && e.xored == Xor(xored, parity)
  {
    var none, two := Item(NotReceived, false), Item(Received, parity);
    assert Gap(received, 4, 5) == [none];
    assert Gap(received, 3, 5) == [none, none];
    assert Gap(received, 2, 5) == [two, none, none];
    assert Gap(received, 1, 5) == [none, two, none, none];
    var e0 := Start(0, xored);
    var e1 := Added(e0, none, 5, MAX_VECTOR);
    var e2 := Added(e1, two, 5, MAX_VECTOR);
    var e3 := Added(e2, none, 5, MAX_VECTOR);
    var e4 := Added(e3, none, 5, MAX_VECTOR);
    assert e1.bytes == [RunByte(NotReceived, 1)];
    assert e2.bytes == [RunByte(NotReceived, 1), RunByte(Received, 1)];
    assert e3.bytes == [RunByte(NotReceived, 1), RunByte(Received, 1), RunByte(NotReceived, 1)];
    assert e4.bytes == GAP_VECTOR;
    assert EncodedAll(e4, [], 5, MAX_VECTOR) == e4;
    assert EncodedAll(e3, [none], 5, MAX_VECTOR) == e4;
    assert EncodedAll(e2, [none, none], 5, MAX_VECTOR) == e4;
    assert EncodedAll(e1, [two, none, none], 5, MAX_VECTOR) == e4;
  }

  lemma GapIsDecoded()
    ensures Decode(GAP_VECTOR) == [NotReceived, Received, NotReceived, NotReceived]
  {
    assert Decode(GAP_VECTOR[3..]) == [];
    assert Decode(GAP_VECTOR[2..]) == Repeat(NotReceived, 2) + Decode(GAP_VECTOR[2..][1..]);
    assert GAP_VECTOR[2..][1..] == GAP_VECTOR[3..];
    assert Decode(GAP_VECTOR[1..]) == Repeat(Received, 1) + Decode(GAP_VECTOR[1..][1..]);
    assert GAP_VECTOR[1..][1..] == GAP_VECTOR[2..];
  }

  /** The second and the fifth have arrived. */
  ghost function TwoAndFive(bits: seq<bool>): Stream
    requires |bits| == 5
  {
    HandlePacket(HandlePacket(NewStream(1, 1), FromFive(bits, 2), false), FromFive(bits, 5), false)
  }

  lemma TwoAndFiveArrived(bits: seq<bool>)
    requires |bits| == 5
    ensures TwoAndFive(bits) == NewStream(1, 1).(gsnr := 5, gsnrParity := bits[4], seen := {2, 5},
      received := map[2 := Got(bits[1], false, []), 5 := Got(bits[4], false, [])])
  {
    var b0 := NewStream(1, 1);
    var b1 := HandlePacket(b0, FromFive(bits, 2), false);
    assert b1 == Accepted(b0, FromFive(bits, 2));
    assert HandlePacket(b1, FromFive(bits, 5), false) == Accepted(b1, FromFive(bits, 5));
  }

  lemma BurstBegins(bits: seq<bool>)
    requires |bits| == 5
    ensures
      var b := BurstBegun(bits);
      && b.next == 2 && b.gsnr == 5 && b.gsnfr == 0 && b.gsnrParity == bits[4] && !b.xoredToGsnfr
      && b.received == map[2 := Got(bits[1], false, []), 5 := Got(bits[4], false, [])] && b.seen == {2, 5} && !b.closed
      && b.burst == Some(Burst(GAP_VECTOR, bits[1], 0))
  {
    TwoAndFiveArrived(bits);
    hide TwoAndFive;
    GapIsEncoded(false, bits[1], TwoAndFive(bits).received);
  }

  lemma NothingToAcknowledge(b: Stream, reported: nat)
    requires b.lowest == 1 && 0 !in b.sending && b.next >= 1 && b.sending.Keys == {1}
    ensures HandleAck(b, reported, Ack(0, 0, [], false, false, false)) == b
  {
    assert Dropped(b, 0).sending == b.sending;
  }

  lemma DeliveredStep(c: Stream, rest: map<nat, Got>)
    requires c.gsnfr + 1 in c.received && rest == c.received - {c.gsnfr + 1}
    ensures
      var got := c.received[c.gsnfr + 1];
      Delivered(c) == Delivered(c.(gsnfr := c.gsnfr + 1, received := rest, xoredToGsnfr := Xor(c.xoredToGsnfr, got.parity),
                                   delivered := c.delivered + got.data))
  {
    hide Delivered;
    DeliverOnce(c);
  }

  lemma DeliverOnce(c: Stream)
    requires c.gsnfr + 1 in c.received
    ensures Delivered(c) == Delivered(DeliverNext(c))
  {
    hide DeliverNext;
  }

  lemma DeliveredEnds(c: Stream)
    requires c.gsnfr + 1 !in c.received
    ensures Delivered(c) == c
  {
  }

  lemma TwoAreDelivered(c: Stream, one: Got, two: Got, five: Got)
    requires c.gsnfr == 0 && c.received == map[1 := one, 2 := two, 5 := five]
    ensures Delivered(c) == c.(gsnfr := 2, received := map[5 := five],
      xoredToGsnfr := Xor(Xor(c.xoredToGsnfr, one.parity), two.parity), delivered := c.delivered + one.data + two.data)
  {
    hide Delivered;
    var two_five, five_ := map[2 := two, 5 := five], map[5 := five];
    assert two_five == c.received - {1};
    assert five_ == two_five - {2};
    DeliveredStep(c, two_five);
    var d := c.(gsnfr := 1, received := two_five, xoredToGsnfr := Xor(c.xoredToGsnfr, one.parity), delivered := c.delivered + one.data);
    DeliveredStep(d, five_);
    DeliveredEnds(d.(gsnfr := 2, received := five_, xoredToGsnfr := Xor(d.xoredToGsnfr, two.parity), delivered := d.delivered + two.data));
  }

  lemma TakesNext(b: Stream, p: Packet)
    requires !b.closed && b.gsnfr < p.number <= b.gsnr && p.number !in b.received && HandleAck(b, p.number, p.ack) == b
    ensures HandlePacket(b, p, false) == Delivered(Accepted(b, p))
  {
    hide HandleAck, Delivered, Accepted;
  }

  lemma OneArrivedLate(bits: seq<bool>)
    requires |bits| == 5
    ensures
      var b := BurstDisturbed(bits);
      && b.next == 2 && b.gsnr == 5 && b.gsnfr == 2 && b.gsnrParity == bits[4]
      && b.xoredToGsnfr == Xor(bits[0], bits[1]) && b.seen == {1, 2, 5} && b.received == map[5 := Got(bits[4], false, [])]
      && b.burst == Some(Burst(GAP_VECTOR, bits[1], 0)) && b.lowest == 1 && b.sending.Keys == {1} && !b.closed
  {
    hide BurstBegun, HandleAck, HandlePacket, Delivered, Accepted;
    var b, p := BurstBegun(bits), FromFive(bits, 1);
    BurstBegins(bits);
    BurstSends(bits);
    NothingToAcknowledge(b, 1);
    TakesNext(b, p);
    AcceptedParts(b, p);
    var c := Accepted(b, p);
    var one, two, five := Got(bits[0], false, []), Got(bits[1], false, []), Got(bits[4], false, []);
    assert c.received == map[1 := one, 2 := two, 5 := five];
    TwoAreDelivered(c, one, two, five);
  }

  lemma BurstSends(bits: seq<bool>)
    requires |bits| == 5
    ensures BurstBegun(bits).lowest == 1 && BurstBegun(bits).sending.Keys == {1}
  {
    TwoAndFiveArrived(bits);
    hide TwoAndFive, CurrentBurst;
  }

  ghost const GAP_STATES: seq<State> := [NotReceived, Received, NotReceived, NotReceived]

  /** Read from 3 on, the vector speaks of packet 4 where it was made to speak of packet 2. */
  lemma ShiftedVector(sending: map<nat, Sent>)
    requires sending.Keys == {3, 4, 5}
    ensures VectorParity(sending, 3, GAP_STATES) == sending[4].parity
    ensures MarkedAll(sending, 3, GAP_STATES, 5)[4].received
    ensures !Unverifiable(3, 3, GAP_STATES)
  {
    var states := GAP_STATES;
    assert states[1..] == [Received, NotReceived, NotReceived];
    assert states[1..][1..] == [NotReceived, NotReceived];
    assert states[1..][1..][1..] == [NotReceived];
    assert VectorParity(sending, 6, [NotReceived]) == false;
    assert VectorParity(sending, 5, [NotReceived, NotReceived]) == false;
    assert VectorParity(sending, 4, states[1..]) == sending[4].parity;
  }

  lemma ShiftedAck(a: Stream, ack: Ack)
    requires a.next == 6 && a.lowest == 1 && a.gsnr == a.gsnfr == 0 && !a.closed && a.sending.Keys == {1, 2, 3, 4, 5}
    requires ack.gsnr == 5 && ack.gsnfr == 2 && ack.vector == GAP_VECTOR
    requires ack.xp == a.sending[2].xoredToNow && ack.pg == a.sending[5].parity
    ensures
      var t := HandleAck(a, 2, ack);
      && t.closed == (Xor(ack.xp, a.sending[4].parity) != ack.vp)
      && t.next == 6 && 4 in t.sending && t.sending[4].received
  {
    var kept := Dropped(a, 2);
    assert kept.sending.Keys == {3, 4, 5} && kept.lowest == 3;
    assert kept.sending[4].parity == a.sending[4].parity;
    GapIsDecoded();
    ShiftedVector(kept.sending);
    assert 1 in a.sending;
    assert HandleAck(a, 2, ack) == WithVector(kept, ack);
  }

  lemma ShiftedPacket(a: Stream, p: Packet)
    requires a.next == 6 && a.lowest == 1 && a.gsnr == a.gsnfr == 0 && !a.closed && a.sending.Keys == {1, 2, 3, 4, 5}
    requires p.number == 2 && p.ack.gsnr == 5 && p.ack.gsnfr == 2 && p.ack.vector == GAP_VECTOR
    requires p.ack.xp == a.sending[2].xoredToNow && p.ack.pg == a.sending[5].parity
    ensures HandlePacket(a, p, false).closed <==> Xor(p.ack.xp, a.sending[4].parity) != p.ack.vp
    ensures Acknowledges(HandlePacket(a, p, false), 1, 4)
  {
    ShiftedAck(a, p.ack);
    AcceptKeepsSender(HandleAck(a, 2, p.ack), p);
    hide HandleAck, Accepted, Delivered;
  }

  /** A run and one more step. */
  lemma {:induction false} OneMoreStep(start: System, steps: seq<Step>, step: Step)
    ensures RudpRuns.Run(start, steps + [step]) == After(RudpRuns.Run(start, steps), step)
    ensures QuietRun(start, steps) && Quiet(if step.atLeft then RudpRuns.Run(start, steps).left else RudpRuns.Run(start, steps).right, step.event)
      ==> QuietRun(start, steps + [step])
    decreases |steps|
  {
    if steps == [] {
      assert [step][1..] == [];
      assert steps + [step] == [step];
    } else {
      assert (steps + [step])[1..] == steps[1..] + [step];
      OneMoreStep(After(start, steps[0]), steps[1..], step);
    }
  }

  /** The right stream has sent the first n of five packets, and nothing else has happened. */
  ghost predicate FirstSent(s: System, bits: seq<bool>, n: nat)
    requires |bits| == 5 && n <= 5
  {
    && s.left == NewStream(1, 1) && SenderOfFive(s.right, bits, n)
    && FirstOnWire(s, bits, n)
  }

  ghost predicate FirstOnWire(s: System, bits: seq<bool>, n: nat)
    requires |bits| == 5 && n <= 5
  {
    forall k :: 1 <= k <= n ==> FromFive(bits, k) in s.toLeft
  }

  ghost predicate SenderOfFive(a: Stream, bits: seq<bool>, n: nat)
    requires |bits| == 5 && n <= 5
  {
    && a.next == n + 1 && a.lowest == 1 && a.gsnr == a.gsnfr == 0 && !a.closed && !a.gsnrParity && !a.xoredToGsnfr
    && (a.burst.Some? ==> a.burst.value.gsnfr == 0)
    && (forall k :: k in a.sending <==> 1 <= k <= n)
    && (forall k :: 1 <= k <= n ==> a.sending[k].parity == bits[k - 1])
    && (n == 0 ==> !a.xoredToNow) && (n == 1 ==> a.xoredToNow == bits[0])
    && (n >= 2 ==> a.sending[2].xoredToNow == Xor(bits[0], bits[1]))
  }

  lemma SentNext(a: Stream, bits: seq<bool>, n: nat)
    requires |bits| == 5 && n < 5 && SenderOfFive(a, bits, n)
    ensures SenderOfFive(AfterSending(a, bits[n]), bits, n + 1)
    ensures NewPacket(a, bits[n], false, []) == FromFive(bits, n + 1)
    ensures Quiet(a, Send(bits[n], false, []))
  {
    hide CurrentAck;
  }

  lemma NoneSent(bits: seq<bool>)
    requires |bits| == 5
    ensures QuietRun(Initial(1, 1), []) && FirstSent(RudpRuns.Run(Initial(1, 1), []), bits, 0)
  {
  }

  lemma RightSends(start: System, steps: seq<Step>, ps: bool) returns (more: seq<Step>)
    requires QuietRun(start, steps) && !RudpRuns.Run(start, steps).right.closed
    requires Quiet(RudpRuns.Run(start, steps).right, Send(ps, false, []))
    ensures QuietRun(start, more)
    ensures
      var s, t := RudpRuns.Run(start, steps), RudpRuns.Run(start, more);
      t.left == s.left && t.right == AfterSending(s.right, ps) && t.toLeft == s.toLeft + {NewPacket(s.right, ps, false, [])}
  {
    OneMoreStep(start, steps, Step(false, Send(ps, false, [])));
    more := steps + [Step(false, Send(ps, false, []))];
  }

  lemma {:induction false} FiveAreSent(bits: seq<bool>, n: nat) returns (steps: seq<Step>)
    requires |bits| == 5 && n <= 5
    ensures QuietRun(Initial(1, 1), steps) && FirstSent(RudpRuns.Run(Initial(1, 1), steps), bits, n)
  {
    hide SenderOfFive, AfterSending, NewPacket, Quiet, QuietRun, RudpRuns.Run;
    if n == 0 {
      steps := [];
      NoneSent(bits);
    } else {
      steps := FiveAreSent(bits, n - 1);
      var a := RudpRuns.Run(Initial(1, 1), steps).right;
      SentNext(a, bits, n - 1);
      SenderIsOpen(a, bits, n - 1);
      steps := RightSends(Initial(1, 1), steps, bits[n - 1]);
    }
  }

  lemma SenderIsOpen(a: Stream, bits: seq<bool>, n: nat)
    requires |bits| == 5 && n <= 5 && SenderOfFive(a, bits, n)
    ensures !a.closed
  {
  }

  lemma LeftReceives(start: System, steps: seq<Step>, p: Packet) returns (more: seq<Step>)
    requires QuietRun(start, steps) && p in RudpRuns.Run(start, steps).toLeft
    ensures QuietRun(start, more)
    ensures
      var s, t := RudpRuns.Run(start, steps), RudpRuns.Run(start, more);
      t.left == HandlePacket(s.left, p, false) && t.right == s.right && t.toLeft == s.toLeft
  {
    OneMoreStep(start, steps, Step(true, Receive(p, false)));
    more := steps + [Step(true, Receive(p, false))];
  }

  lemma LeftSends(start: System, steps: seq<Step>) returns (more: seq<Step>)
    requires QuietRun(start, steps) && RudpRuns.Run(start, steps).left.burst.None? && !RudpRuns.Run(start, steps).left.closed
    ensures QuietRun(start, more)
    ensures
      var s, t := RudpRuns.Run(start, steps), RudpRuns.Run(start, more);
      t.left == AfterSending(s.left, false) && t.right == s.right && t.toLeft == s.toLeft
  {
    OneMoreStep(start, steps, Step(true, Send(false, false, [])));
    more := steps + [Step(true, Send(false, false, []))];
  }

  lemma Disturbed(bits: seq<bool>) returns (steps: seq<Step>)
    requires |bits| == 5
    ensures QuietRun(Initial(1, 1), steps)
    ensures
      var s := RudpRuns.Run(Initial(1, 1), steps);
      s.left == BurstDisturbed(bits) && SenderOfFive(s.right, bits, 5) && FirstOnWire(s, bits, 5)
  {
    var start := Initial(1, 1);
    steps := FiveAreSent(bits, 5);
    hide QuietRun, RudpRuns.Run, SenderOfFive, HandlePacket, AfterSending;
    steps := LeftReceives(start, steps, FromFive(bits, 2));
    steps := LeftReceives(start, steps, FromFive(bits, 5));
    assert RudpRuns.Run(start, steps).left == TwoAndFive(bits);
    TwoAndFiveArrived(bits);
    steps := LeftSends(start, steps);
    steps := LeftReceives(start, steps, FromFive(bits, 1));
  }

  lemma DisturbedPacket(b: Stream, u: Burst)
    requires b.burst == Some(u) && b.gsnr != b.gsnfr
    ensures
      var p := NewPacket(b, false, false, []);
      p.ack == Ack(b.gsnr, b.gsnfr, u.vector, u.vp, b.gsnrParity, b.xoredToGsnfr) && p.number == b.next
  {
  }

  lemma DisturbedIsJudged(a: Stream, bits: seq<bool>)
    requires |bits| == 5 && SenderOfFive(a, bits, 5)
    ensures
      var b := BurstDisturbed(bits);
      var t := HandlePacket(a, NewPacket(b, false, false, []), false);
      && Misfits(b) && b.next == 2 && 4 !in b.seen
      && if bits[0] != bits[3] then t.closed else Acknowledges(t, 1, 4)
  {
    hide BurstDisturbed, HandlePacket, NewPacket, Acknowledges;
    OneArrivedLate(bits);
    var b := BurstDisturbed(bits);
    DisturbedPacket(b, b.burst.value);
    assert a.sending.Keys == {1, 2, 3, 4, 5};
    ShiftedPacket(a, NewPacket(b, false, false, []));
  }

  /**
   * Such a packet comes up in a run of five packets, the second and the fifth of which arrive
   * before the burst, the first in its midst. Depending on two parity bits the peer closes, or
   * takes packet 4, which never arrived, as acknowledged.
   */
  lemma InterruptedBurst(bits: seq<bool>) returns (steps: seq<Step>)
    requires |bits| == 5
    ensures QuietRun(Initial(1, 1), steps)
    ensures
      var s := RudpRuns.Run(Initial(1, 1), steps);
      var a := HandlePacket(s.right, NewPacket(s.left, false, false, []), false);
      && Misfits(s.left) && s.left.next <= s.right.gsnr + WINDOW && 4 !in s.left.seen
      && if bits[0] != bits[3] then a.closed else Acknowledges(a, 1, 4)
  {
    steps := Disturbed(bits);
    DisturbedIsJudged(RudpRuns.Run(Initial(1, 1), steps).right, bits);
    hide *;
  }
}

/**
 * The stream of openpeer/services/cpp/services_RUDPChannelStream.cpp as an object:
 * its methods walk their buffers in loops and end in the states that module
 * RudpStream computes.
 */
module RudpChannelStream {
  import opened RudpVectors
  import opened RudpStream

  /** begin() and lower_bound() of an ordered map: the least key from some number on. */
  method LowerBound<T>(m: map<nat, T>, from: nat) returns (k: Option<nat>)
    ensures k.None? ==> forall j :: j in m ==> j < from
    ensures k.Some? ==> k.value in m && from <= k.value && forall j :: j in m && from <= j ==> k.value <= j
  {
    k := None;
    var rest := m.Keys;
    while rest != {}
      invariant rest <= m.Keys
      invariant k.None? ==> forall j :: j in m && j !in rest ==> j < from
      invariant k.Some? ==> k.value in m && from <= k.value
      invariant k.Some? ==> forall j :: j in m && j !in rest && from <= j ==> k.value <= j
    {
      var j :| j in rest;
      rest := rest - {j};
      if from <= j && (k.None? || j < k.value) {
        k := Some(j);
      }
    }
  }

  // ----- walking a vector from the front -----

  lemma {:induction false} ParityOfOneMore(sending: map<nat, Sent>, start: nat, states: seq<State>, i: nat)
    requires i < |states|
    ensures VectorParity(sending, start, states[..i + 1]) ==
      Xor(VectorParity(sending, start, states[..i]), IsReceived(states[i]) && start + i in sending && sending[start + i].parity)
    decreases i
  {
    if i == 0 {
      assert states[..1][1..] == [] && states[..0] == [];
    } else {
      ParityOfOneMore(sending, start + 1, states[1..], i - 1);
      assert states[..i + 1][1..] == states[1..][..i] && states[..i][1..] == states[1..][..i - 1];
    }
  }

  /** States of packets that are no longer, or not yet, buffered do not count. */
  lemma {:induction false} ParityOfTheRest(sending: map<nat, Sent>, start: nat, states: seq<State>)
    requires forall k :: k in sending ==> k < start
    ensures VectorParity(sending, start, states) == false
    decreases |states|
  {
    if states != [] { ParityOfTheRest(sending, start + 1, states[1..]); }
  }

  lemma {:induction false} ParityWithoutRest(sending: map<nat, Sent>, start: nat, states: seq<State>, i: nat)
    requires i <= |states| && forall k :: k in sending ==> k < start + i
    ensures VectorParity(sending, start, states) == VectorParity(sending, start, states[..i])
    decreases i
  {
    if i == 0 {
      ParityOfTheRest(sending, start, states);
    } else {
      ParityWithoutRest(sending, start + 1, states[1..], i - 1);
      assert states[..i][1..] == states[1..][..i - 1];
    }
  }

  lemma MarkedOneMore(sending: map<nat, Sent>, start: nat, states: seq<State>, i: nat)
    requires i < |states|
    ensures
      var marked := Marked(sending, start, states[..i]);
      Marked(sending, start, states[..i + 1]) ==
        if IsReceived(states[i]) && start + i in sending then marked[start + i := marked[start + i].(received := true)] else marked
  {
  }

  lemma MarkedWithoutRest(sending: map<nat, Sent>, start: nat, states: seq<State>, i: nat)
    requires i <= |states| && forall k :: k in sending ==> k < start + i
    ensures Marked(sending, start, states) == Marked(sending, start, states[..i])
  {
  }

  lemma UnverifiableOneMore(lowest: nat, start: nat, states: seq<State>, i: nat)
    requires i < |states|
    ensures Unverifiable(lowest, start, states[..i + 1]) <==>
      Unverifiable(lowest, start, states[..i]) || (IsReceived(states[i]) && start + i < lowest)
  {
    if IsReceived(states[i]) && start + i < lowest {
      assert states[..i + 1][i] == states[i];
    }
    if Unverifiable(lowest, start, states[..i]) {
      var j :| 0 <= j < i && IsReceived(states[..i][j]) && start + j < lowest;
      assert states[..i + 1][j] == states[..i][j];
    }
  }

  lemma UnverifiableWithoutRest(lowest: nat, start: nat, states: seq<State>, i: nat)
    requires i <= |states| && lowest <= start + i
    ensures Unverifiable(lowest, start, states) <==> Unverifiable(lowest, start, states[..i])
  {
    if Unverifiable(lowest, start, states) {
      var j :| 0 <= j < |states| && IsReceived(states[j]) && start + j < lowest;
      assert states[..i][j] == states[j];
    }
  }

  /** The keys of mSendingPackets run without a hole from lowest up to mNextSequenceNumber. */
  ghost predicate Buffered(sending: map<nat, Sent>, lowest: nat, next: nat) {
    lowest <= next && forall k :: k in sending <==> lowest <= k < next
  }

  /** begin() of mSendingPackets; the end stands for mNextSequenceNumber. */
  method Begin(sending: map<nat, Sent>, ghost lowest: nat, next: nat) returns (iter: nat)
    requires Buffered(sending, lowest, next)
    ensures iter == lowest
  {
    var first := LowerBound(sending, 0);
    assert lowest < next <==> lowest in sending;
    return if first.Some? then first.value else next;
  }

  /** What the loop over the vector has found out. */
  datatype Walked = Walked(sending: map<nat, Sent>, xored: bool, couldNot: bool)

  /** The outcome of the loop in handleAck over a buffer that starts at lowest. */
  function Walk(sending: map<nat, Sent>, lowest: nat, start: nat, states: seq<State>, xp: bool): Walked {
    Walked(Marked(sending, start, states), Xor(xp, VectorParity(sending, start, states)),
           sending != map[] && Unverifiable(lowest, start, states))
  }

  /** One more packet k reported by the vector. */
  function Step(sending: map<nat, Sent>, lowest: nat, w: Walked, k: nat, here: bool): Walked {
    if k < lowest then w.(couldNot := w.couldNot || here)
    else if here && k in sending && k in w.sending then
      Walked(w.sending[k := w.sending[k].(received := true)], Xor(w.xored, sending[k].parity), w.couldNot)
    else w
  }

  lemma WalkOneMore(sending: map<nat, Sent>, lowest: nat, start: nat, states: seq<State>, xp: bool, i: nat)
    requires i < |states| && sending != map[] && forall k :: k in sending ==> lowest <= k
    ensures Walk(sending, lowest, start, states[..i + 1], xp) ==
      Step(sending, lowest, Walk(sending, lowest, start, states[..i], xp), start + i, IsReceived(states[i]))
  {
    ParityOfOneMore(sending, start, states, i);
    MarkedOneMore(sending, start, states, i);
    UnverifiableOneMore(lowest, start, states, i);
  }

  lemma WalkAppend(sending: map<nat, Sent>, lowest: nat, next: nat, start: nat, done: seq<State>, x: State, xp: bool)
    requires Buffered(sending, lowest, next) && lowest < next
    ensures Walk(sending, lowest, start, done, xp).sending.Keys == sending.Keys
    ensures Walk(sending, lowest, start, done + [x], xp) ==
      Step(sending, lowest, Walk(sending, lowest, start, done, xp), start + |done|, IsReceived(x))
  {
    var states := done + [x];
    assert lowest in sending;
    WalkOneMore(sending, lowest, start, states, xp, |done|);
    assert states[..|done| + 1] == states && states[..|done|] == done;
  }

  lemma MoveOne(done: seq<State>, rest: seq<State>)
    requires rest != []
    ensures (done + [rest[0]]) + rest[1..] == done + rest
  {
  }

  lemma WalkEnds(sending: map<nat, Sent>, lowest: nat, next: nat, start: nat, done: seq<State>, rest: seq<State>, xp: bool)
    requires Buffered(sending, lowest, next) && (lowest < next ==> next <= start + |done|)
    ensures Walk(sending, lowest, start, done + rest, xp) == Walk(sending, lowest, start, done, xp)
  {
    assert lowest == next ==> sending == map[];
    WalkWithoutRest(sending, lowest, start, done + rest, xp, |done|);
    assert (done + rest)[..|done|] == done;
  }

  /** The body of the loop once a state has been decoded; iter is at the buffered packet that comes next. */
  method Take(sending: map<nat, Sent>, ghost lowest: nat, ghost next: nat, before: Walked, k: nat, iter: nat, here: bool)
    returns (w: Walked)
    requires Buffered(sending, lowest, next) && before.sending.Keys == sending.Keys
    requires k <= iter && lowest <= iter < next && (k < iter ==> iter == lowest)
    ensures w == Step(sending, lowest, before, k, here)
  {
    w := before;
    if k < iter {
      if here {
        w := w.(couldNot := true);
      }
    } else if here {
      w := Walked(w.sending[k := w.sending[k].(received := true)], Xor(w.xored, sending[k].parity), w.couldNot);
    }
  }

  lemma WalkWithoutRest(sending: map<nat, Sent>, lowest: nat, start: nat, states: seq<State>, xp: bool, i: nat)
    requires i <= |states| && (forall k :: k in sending ==> k < start + i) && (sending != map[] ==> lowest <= start + i)
    ensures Walk(sending, lowest, start, states, xp) == Walk(sending, lowest, start, states[..i], xp)
  {
    ParityWithoutRest(sending, start, states, i);
    MarkedWithoutRest(sending, start, states, i);
    if sending != map[] { UnverifiableWithoutRest(lowest, start, states, i); }
  }

  lemma WalkStarts(sending: map<nat, Sent>, lowest: nat, start: nat, xp: bool)
    ensures Walk(sending, lowest, start, [], xp) == Walked(sending, xp, false)
  {
  }

  /** The body of the loop: decodes one state, if there is one, and accounts for it. */
  method Consume(decoder: VectorDecoder, sending: map<nat, Sent>, before: Walked, k: nat, iter: nat,
                 ghost lowest: nat, ghost next: nat, ghost done: seq<State>, ghost xp: bool)
    returns (more: bool, w: Walked, ghost after: seq<State>)
    requires decoder.Valid() && Buffered(sending, lowest, next) && |done| <= k
    requires k <= iter && lowest <= iter < next && (k < iter ==> iter == lowest)
    requires before == Walk(sending, lowest, k - |done|, done, xp)
    modifies decoder
    ensures decoder.Valid() && w == Walk(sending, lowest, k - |done|, after, xp)
    ensures after + decoder.Rest() == done + old(decoder.Rest())
    ensures if more then |after| == |done| + 1 else after == done && decoder.Rest() == []
  {
    hide Walk, Step, Buffered;
    ghost var rest := decoder.Rest();
    after := done;
    var state := decoder.GetNext();
    if state.NoMoreData? {
      return false, before, done;
    }
    WalkAppend(sending, lowest, next, k - |done|, done, state.state, xp);
    MoveOne(done, rest);
    w := Take(sending, lowest, next, before, k, iter, IsReceived(state.state));
    return true, w, done + [state.state];
  }

  /**
   * The loop of handleAck over the buffered packets and the vector. The buffer holds the numbers
   * from lowest up to next, and what GSNFR acknowledges has been erased from it.
   */
  method WalkVector(sending: map<nat, Sent>, ghost lowest: nat, next: nat, ack: Ack) returns (w: Walked)
    requires Buffered(sending, lowest, next) && (lowest < next ==> ack.gsnfr < lowest)
    ensures w == Walk(sending, lowest, ack.gsnfr + 1, DecodeAck(ack.vector, ack.gsnr, ack.gsnfr), ack.xp)
  {
    var vectorSequenceNumber := ack.gsnfr + 1;
    var decoder := new VectorDecoder(ack.vector, ack.gsnr, ack.gsnfr);
    ghost var start, done: seq<State>, states := ack.gsnfr + 1, [], decoder.Rest();
    w := Walked(sending, ack.xp, false);
    WalkStarts(sending, lowest, start, ack.xp);
    var begin := Begin(sending, lowest, next);
    hide Walk, DecodeAck, Buffered;
    var iter, more := begin, true;
    while iter < next && more
      invariant decoder.Valid() && fresh(decoder)
      invariant done + decoder.Rest() == states && vectorSequenceNumber == start + |done|
      invariant lowest <= iter <= next
      invariant lowest < next ==> vectorSequenceNumber <= iter && (vectorSequenceNumber < iter ==> iter == lowest)
      invariant w == Walk(sending, lowest, start, done, ack.xp)
      invariant !more ==> done == states
      decreases more, next - iter, iter - vectorSequenceNumber
    {
      more, w, done := Consume(decoder, sending, w, vectorSequenceNumber, iter, lowest, next, done, ack.xp);
      if more {
        if vectorSequenceNumber == iter {
          iter := iter + 1;
        }
        vectorSequenceNumber := vectorSequenceNumber + 1;
      }
    }
    if more {
      WalkEnds(sending, lowest, next, start, done, decoder.Rest(), ack.xp);
    }
  }

  // ----- erasing and delivering from the front -----

  function Beyond(sending: map<nat, Sent>, gsnfr: nat): map<nat, Sent> {
    map k | k in sending && k > gsnfr :: sending[k]
  }

  /** The loop of handleAck that erases what GSNFR acknowledges. */
  method EraseAcknowledged(sending: map<nat, Sent>, ghost lowest: nat, next: nat, gsnfr: nat)
    returns (left: map<nat, Sent>, ghost first: nat)
    requires Buffered(sending, lowest, next)
    ensures left == Beyond(sending, gsnfr) && Buffered(left, first, next)
    ensures first == if gsnfr < lowest then lowest else if gsnfr < next then gsnfr + 1 else next
  {
    left, first := sending, lowest;
    while left != map[]
      invariant Buffered(left, first, next) && lowest <= first
      invariant first == lowest || first <= gsnfr + 1
      invariant forall k :: k in left ==> k in sending && left[k] == sending[k]
      decreases |left|
    {
      var begin := LowerBound(left, 0);
      if begin.value > gsnfr {
        break;
      }
      assert first in left && begin.value == first;
      left := left - {begin.value};
      first := begin.value + 1;
    }
    assert first < next <==> first in left;
  }

  /** One round of the loop of deliverReadPackets. */
  lemma DeliveredOne(s: Stream)
    requires s.gsnfr + 1 in s.received
    ensures Delivered(s) == Delivered(DeliverNext(s))
  {
  }

  lemma DeliveredAll(s: Stream)
    requires s.gsnfr + 1 !in s.received
    ensures Delivered(s) == s
  {
  }

  /** mReceivedPackets starts beyond GSNFR and ends with GSNR. */
  ghost predicate Receiving(received: map<nat, Got>, gsnr: nat, gsnfr: nat) {
    gsnfr <= gsnr && (forall k :: k in received ==> gsnfr < k <= gsnr) && (gsnfr < gsnr ==> gsnr in received)
  }

  lemma ReceivingMoves(received: map<nat, Got>, gsnr: nat, gsnfr: nat)
    requires Receiving(received, gsnr, gsnfr) && gsnfr + 1 in received
    ensures Receiving(received - {gsnfr + 1}, gsnr, gsnfr + 1)
  {
  }

  lemma BufferedGrows(sending: map<nat, Sent>, lowest: nat, next: nat, sent: Sent)
    requires Buffered(sending, lowest, next)
    ensures Buffered(sending[next := sent], lowest, next + 1)
  {
  }

  /** What the loop over the vector has found out decides what handleAck does with it. */
  lemma WalkDecides(s: Stream, ack: Ack, states: seq<State>, w: Walked)
    requires w == Walk(s.sending, s.lowest, ack.gsnfr + 1, states, ack.xp)
    ensures ParityWrong(s, ack, states) <==> !(w.couldNot || w.xored == ack.vp)
    ensures MarkedAll(s.sending, ack.gsnfr + 1, states, ack.gsnr) ==
      if ack.gsnr in w.sending then w.sending[ack.gsnr := w.sending[ack.gsnr].(received := true)] else w.sending
    ensures MarkedAll(s.sending, ack.gsnfr + 1, states, ack.gsnr).Keys == s.sending.Keys
  {
  }

  // ----- encoding what was received -----

  /** The encoder refuses the next packet in the gap: what it has written is the whole encoding. */
  lemma RefusedIsAll(e: Encoding, received: map<nat, Got>, k: nat, gsnr: nat, max: nat)
    requires e.current + 1 == k
    requires k < gsnr ==> !Accepts(e, ItemFor(received, k), gsnr, max)
    ensures EncodedAll(e, Gap(received, k, gsnr), gsnr, max) == e
  {
  }

  lemma AcceptedIsNext(e: Encoding, received: map<nat, Got>, k: nat, gsnr: nat, max: nat)
    requires e.current + 1 == k && Accepts(e, ItemFor(received, k), gsnr, max)
    ensures k < gsnr
    ensures EncodedAll(e, Gap(received, k, gsnr), gsnr, max) ==
      EncodedAll(Added(e, ItemFor(received, k), gsnr, max), Gap(received, k + 1, gsnr), gsnr, max)
    ensures Added(e, ItemFor(received, k), gsnr, max).current == k
  {
    assert Gap(received, k, gsnr)[1..] == Gap(received, k + 1, gsnr);
  }

  lemma NothingLeft(e: Encoding, received: map<nat, Got>, k: nat, gsnr: nat, max: nat, goal: Encoding)
    requires gsnr < k && goal == EncodedAll(e, Gap(received, k, gsnr), gsnr, max)
    ensures e == goal && e.(current := goal.current) == goal
  {
  }

  /** Offers one packet to the encoder; afterwards either it was taken or all has been written. */
  method Offer(encoder: VectorEncoder, received: map<nat, Got>, k: nat, ghost goal: Encoding) returns (added: bool)
    requires encoder.Valid() && encoder.Contents().current + 1 == k
    requires goal == EncodedAll(encoder.Contents(), Gap(received, k, encoder.gsnr), encoder.gsnr, encoder.max)
    modifies encoder, encoder.vector
    ensures encoder.Valid() && encoder.filled <= encoder.vector.Length
    ensures if added then
        encoder.Contents().current == k && goal == EncodedAll(encoder.Contents(), Gap(received, k + 1, encoder.gsnr), encoder.gsnr, encoder.max)
      else encoder.Contents().(current := goal.current) == goal
  {
    var item := ItemFor(received, k);
    ghost var e := encoder.Contents();
    added := encoder.Add(item.state, item.parity);
    if added {
      AcceptedIsNext(e, received, k, encoder.gsnr, encoder.max);
    } else {
      RefusedIsAll(e, received, k, encoder.gsnr, encoder.max);
    }
  }

  /** Offers everything beyond GSNFR in order, until the encoder refuses or nothing is left. */
  method OfferAll(encoder: VectorEncoder, received: map<nat, Got>, ghost goal: Encoding)
    requires encoder.Valid()
    requires forall k :: k in received ==> encoder.Contents().current < k <= encoder.gsnr
    requires encoder.Contents().current < encoder.gsnr ==> encoder.gsnr in received
    requires goal == EncodedAll(encoder.Contents(), Gap(received, encoder.Contents().current + 1, encoder.gsnr), encoder.gsnr, encoder.max)
    modifies encoder, encoder.vector
    ensures encoder.Valid() && encoder.Contents().(current := goal.current) == goal
  {
    var sequenceNumber := encoder.current + 1;
    var added := true;
    var iter := LowerBound(received, 0);
    hide EncodedAll, Gap, VectorEncoder.Valid, Accepts, Added;
    while added && iter.Some?
      invariant encoder.Valid() && encoder.filled <= encoder.vector.Length
      invariant if !added then encoder.Contents().(current := goal.current) == goal
        else encoder.Contents().current + 1 == sequenceNumber &&
             goal == EncodedAll(encoder.Contents(), Gap(received, sequenceNumber, encoder.gsnr), encoder.gsnr, encoder.max)
      invariant if iter.Some? then iter.value in received && sequenceNumber <= iter.value else added ==> encoder.gsnr < sequenceNumber
      decreases added, encoder.gsnr + 1 - sequenceNumber
    {
      added := Offer(encoder, received, sequenceNumber, goal);
      if added {
        iter := LowerBound(received, sequenceNumber + 1);
        sequenceNumber := sequenceNumber + 1;
      }
    }
    if added { NothingLeft(encoder.Contents(), received, sequenceNumber, encoder.gsnr, encoder.max, goal); }
  }

  /** The buffered packets after a vector, and whether its parity is right. */
  method VectorOutcome(ghost s: Stream, sending: map<nat, Sent>, next: nat, ack: Ack)
    returns (after: map<nat, Sent>, legal: bool)
    requires Buffered(sending, s.lowest, next) && (s.lowest < next ==> ack.gsnfr < s.lowest) && s.sending == sending
    ensures WithVector(s, ack) == s.(sending := after, closed := s.closed || !legal)
    ensures after.Keys == sending.Keys
  {
    ghost var states := DecodeAck(ack.vector, ack.gsnr, ack.gsnfr);
    var w := WalkVector(sending, s.lowest, next, ack);
    WalkDecides(s, ack, states, w);
    hide Walk, MarkedAll, ParityWrong, DecodeAck, WithVector, Buffered;
    after := w.sending;
    if ack.gsnr in after {
      after := after[ack.gsnr := after[ack.gsnr].(received := true)];
    }
    legal := w.couldNot || w.xored == ack.vp;
    VectorIsHandled(s, ack, after, legal);
  }

  lemma VectorIsHandled(s: Stream, ack: Ack, after: map<nat, Sent>, legal: bool)
    requires
      var states := DecodeAck(ack.vector, ack.gsnr, ack.gsnfr);
      after == MarkedAll(s.sending, ack.gsnfr + 1, states, ack.gsnr) && legal == !ParityWrong(s, ack, states)
    ensures WithVector(s, ack) == s.(sending := after, closed := s.closed || !legal)
  {
  }

  class RUDPChannelStream {
    var nextSequenceNumber: nat
    var xoredParityToNow: bool
    var sendingPackets: map<nat, Sent>
    var firstPacketCreated: Option<Burst>
    var gsnr: nat
    var gsnfr: nat
    var gsnrParity: bool
    var xoredParityToGsnfr: bool
    var receivedPackets: map<nat, Got>
    var receiveStream: seq<Byte>
    var cancelled: bool
    ghost var lowest: nat
    ghost var seen: set<nat>

    ghost function State(): Stream
      reads this
    {
      Stream(nextSequenceNumber, xoredParityToNow, lowest, sendingPackets, firstPacketCreated, gsnr, gsnfr, gsnrParity,
             xoredParityToGsnfr, receivedPackets, seen, receiveStream, cancelled)
    }

    ghost predicate Valid()
      reads this
    {
      Buffered(sendingPackets, lowest, nextSequenceNumber) && Receiving(receivedPackets, gsnr, gsnfr)
    }

    constructor (next: nat, expecting: nat)
      requires expecting > 0
      ensures Valid() && State() == NewStream(next, expecting)
    {
      nextSequenceNumber := next;
      xoredParityToNow := false;
      sendingPackets := map[];
      firstPacketCreated := None;
      gsnr := expecting - 1;
      gsnfr := expecting - 1;
      gsnrParity := false;
      xoredParityToGsnfr := false;
      receivedPackets := map[];
      receiveStream := [];
      cancelled := false;
      lowest := next;
      seen := {};
    }

    /** getState, and the first packet of a burst: the vector of what was received and its parity. */
    method EncodeReceived(max: nat) returns (vector: seq<Run>, vectorParity: bool)
      requires Valid()
      ensures vector == CurrentAck(State(), max).vector && vectorParity == CurrentAck(State(), max).vp
    {
      var buffer := new Run[max];
      var encoder := new VectorEncoder(gsnr, gsnfr, xoredParityToGsnfr, buffer, max);
      ghost var goal := Encoded(State(), max);
      OfferAll(encoder, receivedPackets, goal);
      var length;
      vectorParity, length := encoder.Finalize();
      return buffer[..length], vectorParity;
    }

    method GetState(max: nat) returns (ack: Ack)
      requires Valid()
      ensures ack == CurrentAck(State(), max)
    {
      var vector, vp := EncodeReceived(max);
      return Ack(gsnr, gsnfr, vector, vp, gsnrParity, xoredParityToGsnfr);
    }

    /** The vector of a burst: made for its first packet, copied for the others. */
    method BurstVector()
      requires Valid()
      modifies this`firstPacketCreated
      ensures Valid() && State() == old(State()).(burst := Some(CurrentBurst(old(State()))))
    {
      if firstPacketCreated.None? {
        var vector, vp := EncodeReceived(MAX_VECTOR);
        hide CurrentAck;
        firstPacketCreated := Some(Burst(vector, vp, gsnfr));
      }
    }

    /** sendNow: one new packet of a burst, as it reaches the wire. */
    method CreatePacket(ps: bool, ec: bool, data: seq<Byte>) returns (p: Packet)
      requires Valid()
      modifies this
      ensures Valid()
      ensures p == NewPacket(old(State()), ps, ec, data) && State() == AfterSending(old(State()), ps)
    {
      BurstVector();
      hide CurrentBurst, OnWire, WireData, Buffered, Receiving;
      var b := firstPacketCreated.value;
      assert CurrentBurst(old(State())) == b;
      ghost var after := AfterSending(old(State()), ps);
      BufferedGrows(sendingPackets, lowest, nextSequenceNumber, Sent(ps, Xor(xoredParityToNow, ps), false));
      p := Packet(nextSequenceNumber, ps, ec, OnWire(Ack(gsnr, gsnfr, b.vector, b.vp, gsnrParity, xoredParityToGsnfr)),
                  WireData(gsnr == gsnfr, b.vector, data));
      xoredParityToNow := Xor(xoredParityToNow, ps);
      assert p == NewPacket(old(State()), ps, ec, data);
      hide NewPacket;
      sendingPackets := sendingPackets[nextSequenceNumber := Sent(ps, xoredParityToNow, false)];
      nextSequenceNumber := nextSequenceNumber + 1;
      assert State() == after;
    }

    /** The end of sendNow. */
    method EndBurst()
      requires Valid()
      modifies this`firstPacketCreated
      ensures Valid() && State() == old(State()).(burst := None)
    {
      firstPacketCreated := None;
    }

    /** The part of handleAck that reads the vector; false when the vector parity is wrong. */
    method HandleVector(ack: Ack) returns (legal: bool)
      requires Valid() && (lowest < nextSequenceNumber ==> ack.gsnfr < lowest)
      modifies this`sendingPackets
      ensures Valid()
      ensures State().(closed := cancelled || !legal) == WithVector(old(State()), ack)
    {
      sendingPackets, legal := VectorOutcome(State(), sendingPackets, nextSequenceNumber, ack);
    }

    /** handleAck; false stands for the exception IllegalACK. */
    method HandleAck_(nextNumber: nat, ack: Ack) returns (legal: bool)
      requires Valid() && !cancelled
      modifies this`sendingPackets, this`lowest
      ensures Valid()
      ensures State().(closed := !legal) == HandleAck(old(State()), nextNumber, ack)
    {
      hide Acknowledged, Buffered, Receiving;
      if sendingPackets == map[] {
        return true;
      }
      if ack.gsnfr > ack.gsnr {
        return false;
      }
      if nextNumber < gsnfr || nextNumber > gsnr + WINDOW || ack.gsnr > nextSequenceNumber {
        return true;
      }
      if ack.gsnfr in sendingPackets && ack.xp != sendingPackets[ack.gsnfr].xoredToNow {
        return false;
      }
      if ack.gsnr in sendingPackets && ack.pg != sendingPackets[ack.gsnr].parity {
        return false;
      }
      hide Ignores, HeaderWrong;
      legal := Acknowledge(ack);
    }

    /** The part of handleAck that takes the acknowledgement in; false stands for the exception. */
    method Acknowledge(ack: Ack) returns (legal: bool)
      requires Valid() && !cancelled
      modifies this`sendingPackets, this`lowest
      ensures Valid()
      ensures State().(closed := !legal) == Acknowledged(old(State()), ack)
    {
      ghost var before := State();
      hide Receiving;
      sendingPackets, lowest := EraseAcknowledged(sendingPackets, lowest, nextSequenceNumber, ack.gsnfr);
      assert State() == Dropped(before, ack.gsnfr);
      hide Dropped, WithVector, Buffered;
      if ack.gsnr == ack.gsnfr {
        return true;
      }
      legal := HandleVector(ack);
    }

    /** The packet after GSNFR leaves the buffer. */
    method DeliverFirst()
      requires Valid() && gsnfr + 1 in receivedPackets
      modifies this`gsnfr, this`xoredParityToGsnfr, this`receivedPackets, this`receiveStream
      ensures Valid() && State() == DeliverNext(old(State()))
    {
      ReceivingMoves(receivedPackets, gsnr, gsnfr);
      hide Buffered, Receiving;
      var first := receivedPackets[gsnfr + 1];
      receiveStream := receiveStream + first.data;
      xoredParityToGsnfr := Xor(xoredParityToGsnfr, first.parity);
      receivedPackets := receivedPackets - {gsnfr + 1};
      gsnfr := gsnfr + 1;
    }

    /** deliverReadPackets */
    method DeliverReadPackets()
      requires Valid()
      modifies this`gsnfr, this`xoredParityToGsnfr, this`receivedPackets, this`receiveStream
      ensures Valid()
      ensures State() == Delivered(old(State()))
    {
      hide Delivered, DeliverNext, Buffered;
      while receivedPackets != map[]
        invariant Valid()
        invariant Delivered(State()) == Delivered(old(State()))
        decreases |State().received|
      {
        var first := LowerBound(receivedPackets, 0);
        if first.value != gsnfr + 1 {
          break;
        }
        DeliveredOne(State());
        DeliverFirst();
      }
      DeliveredAll(State());
    }

    /** handlePacket; late says that the last delivery is too long ago for the window to grow. */
    method HandlePacket_(p: Packet, late: bool)
      requires Valid()
      modifies this
      ensures Valid()
      ensures State() == HandlePacket(old(State()), p, late)
    {
      if cancelled || p.number <= gsnfr || p.number > gsnr + WINDOW {
        return;
      }
      var legal := HandleAck_(p.number, p.ack);
      if !legal {
        cancelled := true;
        return;
      }
      if p.number in receivedPackets {
        return;
      }
      if p.number > gsnfr + WINDOW && p.number > gsnr && late {
        return;
      }
      Accept(p);
      DeliverReadPackets();
    }

    method Accept(p: Packet)
      requires Valid() && p.number > gsnfr
      modifies this
      ensures Valid() && State() == Accepted(old(State()), p)
    {
      receivedPackets := receivedPackets[p.number := Got(p.ps, p.ec, p.data)];
      seen := seen + {p.number};
      if p.number > gsnr {
        gsnr := p.number;
        gsnrParity := p.ps;
      }
    }

    method HandleExternalAck_(x: ExternalAck)
      requires Valid()
      modifies this
      ensures Valid()
      ensures State() == HandleExternalAck(old(State()), x)
    {
      if cancelled {
        return;
      }
      var legal := HandleAck_(x.nextNumber, x.ack);
      if !legal {
        cancelled := true;
      }
    }
  }
}

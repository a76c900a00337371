/**
 * One end of a reliable channel over UDP, after
 * openpeer/services/cpp/services_RUDPChannelStream.cpp: what it sends, what it
 * accepts, and how it treats the acknowledgements it is given.
 */
module RudpStream {
  import opened RudpVectors
  import RudpPackets

  datatype Option<T> = None | Some(value: T)

  /** How far beyond GSNR a packet may be and still be accepted. */
  const WINDOW: nat := 256

  /** The room for a vector in a data packet, in bytes. */
  const MAX_VECTOR: nat := 0x7F

  /** A packet in mSendingPackets; received means its data was freed because the remote party reported it. */
  datatype Sent = Sent(parity: bool, xoredToNow: bool, received: bool)

  /** A packet in mReceivedPackets: its PS and EC flags and its data. */
  datatype Got = Got(parity: bool, ec: bool, data: seq<Byte>)

  /** The acknowledgement every packet and every external ACK carries. */
  datatype Ack = Ack(gsnr: nat, gsnfr: nat, vector: seq<Run>, vp: bool, pg: bool, xp: bool)

  datatype Packet = Packet(number: nat, ps: bool, ec: bool, ack: Ack, data: seq<Byte>)

  datatype ExternalAck = ExternalAck(nextNumber: nat, ack: Ack)

  /** The vector and vector parity of the first packet of a burst, and the GSNFR they start from. */
  datatype Burst = Burst(vector: seq<Run>, vp: bool, gsnfr: nat)

  /**
   * The state of a stream. lowest is the first key of mSendingPackets (mNextSequenceNumber when
   * there is none). Two history variables: seen are the numbers of all packets accepted so far,
   * delivered is what was written to mReceiveStream.
   */
  datatype Stream = Stream(
    next: nat, xoredToNow: bool, lowest: nat, sending: map<nat, Sent>, burst: Option<Burst>,
    gsnr: nat, gsnfr: nat, gsnrParity: bool, xoredToGsnfr: bool, received: map<nat, Got>, seen: set<nat>,
    delivered: seq<Byte>, closed: bool)

  function NewStream(next: nat, expecting: nat): Stream
    requires expecting > 0
  {
    Stream(next, false, next, map[], None, expecting - 1, expecting - 1, false, false, map[], {}, [], false)
  }

  // ----- acknowledging what was received -----

  function ItemFor(received: map<nat, Got>, n: nat): Item {
    if n in received then Item(if received[n].ec then ReceivedEcn else Received, received[n].parity)
    else Item(NotReceived, false)
  }

  /** What is offered to the encoder: the packets from one number up to another. */
  function Gap(received: map<nat, Got>, lo: nat, hi: nat): (items: seq<Item>)
    ensures |items| == (if lo < hi then hi - lo else 0)
    ensures (forall i :: 0 <= i < |items| ==> items[i] == ItemFor(received, lo + i))
    decreases if lo < hi then hi - lo else 0
  {
    if lo >= hi then [] else [ItemFor(received, lo)] + Gap(received, lo + 1, hi)
  }

  function Encoded(s: Stream, max: nat): Encoding {
    EncodedAll(Start(s.gsnfr, s.xoredToGsnfr), Gap(s.received, s.gsnfr + 1, s.gsnr), s.gsnr, max)
  }

  /** getState: the acknowledgement for an external ACK. */
  function CurrentAck(s: Stream, max: nat): Ack {
    var e := Encoded(s, max);
    Ack(s.gsnr, s.gsnfr, Finalized(e.bytes, s.gsnr, s.gsnfr), e.xored, s.gsnrParity, s.xoredToGsnfr)
  }

  /** What arrives of an acknowledgement in a data packet: with the EQ flag there is neither vector nor its parity. */
  function OnWire(a: Ack): Ack {
    if a.gsnr == a.gsnfr then a.(vector := [], vp := false) else a
  }

  /** What arrives of the data: packetize leaves room for a vector under the EQ flag, parseIfRUDP does not skip it. */
  function WireData(eq: bool, vector: seq<Run>, data: seq<Byte>): (d: seq<Byte>)
    ensures |d| == |data|
  {
    if eq then (RudpPackets.Zeros(RudpPackets.DwordBoundary(|vector|)) + data)[..|data|] else data
  }

  function CurrentBurst(s: Stream): Burst {
    if s.burst.Some? then s.burst.value
    else var a := CurrentAck(s, MAX_VECTOR); Burst(a.vector, a.vp, s.gsnfr)
  }

  /** sendNow: the next new packet, as it arrives; every packet of a burst after the first copies the first one's vector. */
  function NewPacket(s: Stream, ps: bool, ec: bool, data: seq<Byte>): Packet {
    var b := CurrentBurst(s);
    Packet(s.next, ps, ec, OnWire(Ack(s.gsnr, s.gsnfr, b.vector, b.vp, s.gsnrParity, s.xoredToGsnfr)),
           WireData(s.gsnr == s.gsnfr, b.vector, data))
  }

  function AfterSending(s: Stream, ps: bool): Stream {
    var x := Xor(s.xoredToNow, ps);
    s.(next := s.next + 1, xoredToNow := x, sending := s.sending[s.next := Sent(ps, x, false)],
       burst := Some(CurrentBurst(s)))
  }

  // ----- handling an acknowledgement -----

  predicate IsReceived(s: State) {
    s == Received || s == ReceivedEcn
  }

  function Marked(sending: map<nat, Sent>, start: nat, states: seq<State>): map<nat, Sent> {
    map k | k in sending ::
      if start <= k < start + |states| && IsReceived(states[k - start]) then sending[k].(received := true) else sending[k]
  }

  /** The parity of the packets reported received that are still buffered. */
  function VectorParity(sending: map<nat, Sent>, start: nat, states: seq<State>): bool
    decreases |states|
  {
    if states == [] then false
    else Xor(IsReceived(states[0]) && start in sending && sending[start].parity,
             VectorParity(sending, start + 1, states[1..]))
  }

  /** Some packet reported received is no longer buffered, so the vector parity cannot be recomputed. */
  predicate Unverifiable(lowest: nat, start: nat, states: seq<State>) {
    exists i :: 0 <= i < |states| && IsReceived(states[i]) && start + i < lowest
  }

  function Dropped(s: Stream, gsnfr: nat): Stream {
    s.(sending := map k | k in s.sending && k > gsnfr :: s.sending[k],
       lowest := if gsnfr < s.lowest then s.lowest else if gsnfr < s.next then gsnfr + 1 else s.next)
  }

  /** The packets the vector reports received, and the one GSNR names, are received. */
  function MarkedAll(sending: map<nat, Sent>, start: nat, states: seq<State>, gsnr: nat): map<nat, Sent> {
    var marked := Marked(sending, start, states);
    if gsnr in marked then marked[gsnr := marked[gsnr].(received := true)] else marked
  }

  predicate ParityWrong(s: Stream, ack: Ack, states: seq<State>) {
    && !(s.sending != map[] && Unverifiable(s.lowest, ack.gsnfr + 1, states))
    && Xor(ack.xp, VectorParity(s.sending, ack.gsnfr + 1, states)) != ack.vp
  }

  function WithVector(s: Stream, ack: Ack): Stream {
    var states := DecodeAck(ack.vector, ack.gsnr, ack.gsnfr);
    s.(sending := MarkedAll(s.sending, ack.gsnfr + 1, states, ack.gsnr),
       closed := s.closed || ParityWrong(s, ack, states))
  }

  /** Nothing to acknowledge, or not an acknowledgement to use now. */
  predicate Ignores(s: Stream, reported: nat, ack: Ack) {
    || s.sending == map[]
    || (ack.gsnfr <= ack.gsnr && (reported < s.gsnfr || reported > s.gsnr + WINDOW || ack.gsnr > s.next))
  }

  /** The numbers contradict each other, or a parity bit is not the one that was chosen. */
  predicate HeaderWrong(s: Stream, ack: Ack) {
    || ack.gsnfr > ack.gsnr
    || (ack.gsnfr in s.sending && ack.xp != s.sending[ack.gsnfr].xoredToNow)
    || (ack.gsnr in s.sending && ack.pg != s.sending[ack.gsnr].parity)
  }

  function Acknowledged(s: Stream, ack: Ack): Stream {
    var kept := Dropped(s, ack.gsnfr);
    if ack.gsnr == ack.gsnfr then kept else WithVector(kept, ack)
  }

  /** handleAck: an illegal acknowledgement closes the stream. */
  function HandleAck(s: Stream, reported: nat, ack: Ack): Stream {
    if Ignores(s, reported, ack) then s
    else if HeaderWrong(s, ack) then s.(closed := true)
    else Acknowledged(s, ack)
  }

  // ----- handling a packet -----

  /** One round of deliverReadPackets. */
  function DeliverNext(s: Stream): (t: Stream)
    requires s.gsnfr + 1 in s.received
    ensures |t.received| < |s.received|
  {
    var p := s.received[s.gsnfr + 1];
    s.(gsnfr := s.gsnfr + 1, received := s.received - {s.gsnfr + 1}, xoredToGsnfr := Xor(s.xoredToGsnfr, p.parity),
       delivered := s.delivered + p.data)
  }

  /** deliverReadPackets: as long as the next number in the series is there, deliver it. */
  function Delivered(s: Stream): Stream
    decreases |s.received|
  {
    if s.gsnfr + 1 in s.received then Delivered(DeliverNext(s)) else s
  }

  function Accepted(s: Stream, p: Packet): Stream {
    var t := s.(received := s.received[p.number := Got(p.ps, p.ec, p.data)], seen := s.seen + {p.number});
    if p.number > s.gsnr then t.(gsnr := p.number, gsnrParity := p.ps) else t
  }

  /** handlePacket; late says that delivery stalled too long ago for the window to be expanded further. */
  function HandlePacket(s: Stream, p: Packet, late: bool): Stream {
    if s.closed || p.number <= s.gsnfr || p.number > s.gsnr + WINDOW then s
    else
      var t := HandleAck(s, p.number, p.ack);
      if t.closed || p.number in t.received then t
      else if p.number > t.gsnfr + WINDOW && p.number > t.gsnr && late then t
      else Delivered(Accepted(t, p))
  }

  function HandleExternalAck(s: Stream, x: ExternalAck): Stream {
    if s.closed then s else HandleAck(s, x.nextNumber, x.ack)
  }
}

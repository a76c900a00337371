/**
 * The data that goes through the streams: what arrives of it, and what is delivered over whole runs.
 */
module RudpDelivery {
  import opened RudpVectors
  import opened RudpStream
  import opened RudpSystem
  import opened RudpRuns
  import opened RudpChoices
  import opened RudpBursts
  import RudpPackets

  // ----- what arrives of the data of one packet -----

  predicate AllZeros(data: seq<Byte>) {
    forall i :: 0 <= i < |data| ==> data[i] == 0
  }

  lemma WireDataExactlyWhen(eq: bool, vector: seq<Run>, data: seq<Byte>)
    ensures WireData(eq, vector, data) == data <==> (eq && vector != [] ==> AllZeros(data))
  {
    var k := RudpPackets.DwordBoundary(|vector|);
    var shifted := (RudpPackets.Zeros(k) + data)[..|data|];
    if eq {
      if vector == [] {
        assert shifted == data;
      } else {
        if shifted == data {
          forall i | 0 <= i < |data| ensures data[i] == 0 { RudpPackets.ShiftedZeros(data, k, i); }
        }
        if AllZeros(data) { assert shifted == data; }
      }
    }
  }

  /** The next packet will carry no copied vector under the EQ flag, or no data that could be seen to move. */
  ghost predicate Intact(a: Stream, data: seq<Byte>) {
    a.gsnr == a.gsnfr && CurrentBurst(a).vector != [] ==> AllZeros(data)
  }

  /** The data of a packet arrives as it was sent exactly when it is intact in that sense. */
  lemma DataArrivesExactlyWhen(a: Stream, ps: bool, ec: bool, data: seq<Byte>)
    ensures NewPacket(a, ps, ec, data).data == data <==> Intact(a, data)
  {
    WireDataExactlyWhen(a.gsnr == a.gsnfr, CurrentBurst(a).vector, data);
  }

  /** Whatever data comes next, it arrives as it was sent, exactly when the packet has not both the EQ flag and a vector. */
  lemma AnyDataArrivesExactlyWhen(a: Stream, ps: bool, ec: bool)
    ensures (forall data :: NewPacket(a, ps, ec, data).data == data) <==> !(a.gsnr == a.gsnfr && CurrentBurst(a).vector != [])
  {
    forall data ensures NewPacket(a, ps, ec, data).data == data <==> Intact(a, data) {
      DataArrivesExactlyWhen(a, ps, ec, data);
    }
    var one: seq<Byte> := [1];
    assert one[0] == 1 && !AllZeros(one);
    assert NewPacket(a, ps, ec, one).data == one <==> Intact(a, one);
    hide NewPacket;
  }

  /** Only GSNFR catching up with GSNR in the midst of a burst can spoil a packet. */
  lemma SpoiledOnlyWhenCaughtUp(a: Stream, first: nat, bits: map<nat, bool>, data: seq<Byte>)
    requires ReceiverInv(a, first, bits) && BurstOk(a, first, bits) && !Intact(a, data)
    ensures a.burst.Some? && a.burst.value.gsnfr < a.gsnfr == a.gsnr
  {
    if a.burst.Some? {
      RunBound(a.burst.value.vector);
    }
  }

  // ----- the packets of the streams and their wire format -----

  function Packed(vector: seq<Run>): seq<Byte> {
    seq(|vector|, i requires 0 <= i < |vector| => Pack(vector[i]))
  }

  function Unpacked(bytes: seq<Byte>): (vector: seq<Run>)
    ensures |vector| == |bytes| && forall i :: 0 <= i < |bytes| ==> vector[i] == Unpack(bytes[i])
  {
    seq(|bytes|, i requires 0 <= i < |bytes| => Unpack(bytes[i]))
  }

  lemma PackedUnpacks(vector: seq<Run>)
    ensures Unpacked(Packed(vector)) == vector
  {
    forall i | 0 <= i < |vector| ensures Unpack(Pack(vector[i])) == vector[i] {
      PackingIsBijective(vector[i], 0);
    }
  }

  /** The RUDPPacket that sendNow fills in. */
  function WirePacket(a: Stream, channel: RudpPackets.Word, flags: Byte, data: seq<Byte>): RudpPackets.Packet {
    var u := CurrentBurst(a);
    RudpPackets.Packet(channel, a.next % 0x100_0000, flags, a.gsnr % 0x100_0000, a.gsnfr % 0x100_0000,
                       if u.vp then 0x80 else 0, Packed(u.vector), data)
  }

  /** NewPacket is what parseIfRUDP makes of the bytes that packetize writes for that packet. */
  lemma NewPacketIsParsed(a: Stream, ps: bool, ec: bool, data: seq<Byte>, channel: RudpPackets.Word, flags: Byte)
    requires |data| <= 0xFFFF && |CurrentBurst(a).vector| <= MAX_VECTOR
    requires RudpPackets.Eq(flags) <==> a.gsnr == a.gsnfr
    ensures !RudpPackets.BadState(WirePacket(a, channel, flags, data))
    ensures
      var parsed := RudpPackets.Parse(RudpPackets.Packetized(WirePacket(a, channel, flags, data)));
      var p := NewPacket(a, ps, ec, data);
      && parsed.Some? && parsed.value.data == p.data && Unpacked(parsed.value.vector) == p.ack.vector
      && (parsed.value.vectorFlags == 0x80 <==> p.ack.vp) && parsed.value.flags == flags && parsed.value.channel == channel
      && parsed.value.sequence == p.number % 0x100_0000
      && parsed.value.gsnr == p.ack.gsnr % 0x100_0000 && parsed.value.gsnfr == p.ack.gsnfr % 0x100_0000
  {
    var w := WirePacket(a, channel, flags, data);
    RudpPackets.ParseReads(w);
    PackedUnpacks(CurrentBurst(a).vector);
    hide CurrentBurst, RudpPackets.Parse, RudpPackets.Packetized;
    assert Unpacked([]) == [];
  }

  // ----- whole runs -----

  /** The data of the packets from one number up to another, as it was sent. */
  ghost function Joined(texts: map<nat, seq<Byte>>, lo: nat, hi: nat): seq<Byte>
    decreases hi
  {
    if hi <= lo then [] else Joined(texts, lo, hi - 1) + if hi - 1 in texts then texts[hi - 1] else []
  }

  lemma {:induction false} JoinedStable(texts: map<nat, seq<Byte>>, lo: nat, hi: nat, n: nat, text: seq<Byte>)
    requires hi <= n
    ensures Joined(texts[n := text], lo, hi) == Joined(texts, lo, hi)
    decreases hi
  {
    if hi > lo { JoinedStable(texts, lo, hi - 1, n, text); }
  }

  lemma {:induction false} JoinedGrows(texts: map<nat, seq<Byte>>, lo: nat, mid: nat, hi: nat)
    requires mid <= hi
    ensures Joined(texts, lo, mid) <= Joined(texts, lo, hi)
    decreases hi
  {
    if mid < hi { JoinedGrows(texts, lo, mid, hi - 1); }
  }

  /** The receiving end holds and has delivered what was sent to it. */
  ghost predicate TextInv(b: Stream, next: nat, first: nat, texts: map<nat, seq<Byte>>, sent: set<Packet>) {
    && (forall k :: k in texts <==> first <= k < next)
    && (forall p :: p in sent ==> p.number in texts && p.data == texts[p.number])
    && ReceivedTexts(b, first, texts)
  }

  ghost predicate ReceivedTexts(b: Stream, first: nat, texts: map<nat, seq<Byte>>) {
    && first <= b.gsnfr + 1
    && (forall k :: k in b.received ==> k in texts && b.received[k].data == texts[k])
    && b.delivered == Joined(texts, first, b.gsnfr + 1)
    && (first <= b.gsnfr ==> b.gsnfr in texts)
  }

  lemma {:induction false} DeliveredTexts(b: Stream, first: nat, texts: map<nat, seq<Byte>>)
    requires ReceivedTexts(b, first, texts)
    ensures ReceivedTexts(Delivered(b), first, texts)
    decreases |b.received|
  {
    if b.gsnfr + 1 in b.received {
      var c := DeliverNext(b);
      assert Joined(texts, first, b.gsnfr + 2) == Joined(texts, first, b.gsnfr + 1) + texts[b.gsnfr + 1];
      DeliveredTexts(c, first, texts);
    }
  }

  lemma AcceptedTexts(b: Stream, first: nat, texts: map<nat, seq<Byte>>, p: Packet)
    requires ReceivedTexts(b, first, texts) && p.number in texts && p.data == texts[p.number]
    ensures ReceivedTexts(Accepted(b, p), first, texts)
  {
    var c := Accepted(b, p);
    assert c.gsnfr == b.gsnfr && c.delivered == b.delivered && c.received == b.received[p.number := Got(p.ps, p.ec, p.data)];
    hide Accepted, Joined;
  }

  lemma SameTexts(b: Stream, c: Stream, first: nat, texts: map<nat, seq<Byte>>)
    requires SameReceiver(b, c) && ReceivedTexts(b, first, texts)
    ensures ReceivedTexts(c, first, texts)
  {
  }

  lemma PacketTexts(b: Stream, first: nat, texts: map<nat, seq<Byte>>, p: Packet, late: bool)
    requires ReceivedTexts(b, first, texts) && p.number in texts && p.data == texts[p.number]
    ensures ReceivedTexts(HandlePacket(b, p, late), first, texts)
  {
    var t := HandleAck(b, p.number, p.ack);
    AckKeepsReceiver(b, p.number, p.ack);
    SameTexts(b, t, first, texts);
    AcceptedTexts(t, first, texts, p);
    DeliveredTexts(Accepted(t, p), first, texts);
    hide HandleAck, Delivered, Accepted, ReceivedTexts;
  }

  lemma MoreTexts(b: Stream, next: nat, first: nat, texts: map<nat, seq<Byte>>, sent: set<Packet>, text: seq<Byte>, p: Packet)
    requires TextInv(b, next, first, texts, sent) && first <= next && p.number == next && p.data == text
    ensures TextInv(b, next + 1, first, texts[next := text], sent + {p})
  {
    JoinedStable(texts, first, b.gsnfr + 1, next, text);
  }

  /** The packets arrive with their own lengths, and with the data that was sent exactly when they are not spoiled. */
  ghost predicate AsSent(arrived: map<nat, seq<Byte>>, texts: map<nat, seq<Byte>>, spoiled: set<nat>) {
    && arrived.Keys == texts.Keys && spoiled <= texts.Keys
    && forall k :: k in texts ==> |arrived[k]| == |texts[k]| && (arrived[k] == texts[k] <==> k !in spoiled)
  }

  /** The data as it arrives from the left and from the right, and the packets whose data does not arrive as it was sent. */
  datatype Arriving = Arriving(left: map<nat, seq<Byte>>, right: map<nat, seq<Byte>>, leftSpoiled: set<nat>, rightSpoiled: set<nat>)

  /** One direction: what has arrived is held and delivered, and is what was sent but for the spoiled packets. */
  ghost predicate TextFlow(b: Stream, next: nat, first: nat, arrived: map<nat, seq<Byte>>, texts: map<nat, seq<Byte>>,
                           spoiled: set<nat>, sent: set<Packet>) {
    first <= next && TextInv(b, next, first, arrived, sent) && AsSent(arrived, texts, spoiled)
  }

  ghost predicate AllTexts(s: System, leftFirst: nat, rightFirst: nat, r: Arriving) {
    && TextFlow(s.right, s.left.next, leftFirst, r.left, s.leftTexts, r.leftSpoiled, s.toRight)
    && TextFlow(s.left, s.right.next, rightFirst, r.right, s.rightTexts, r.rightSpoiled, s.toLeft)
  }

  /** The number of the packet that an event sends, if its data will not arrive as it is sent. */
  ghost function SpoiledBy(a: Stream, e: Event): set<nat> {
    if e.Send? && !a.closed && !Intact(a, e.data) then {a.next} else {}
  }

  ghost function SpoiledByStep(s: System, step: Step, atLeft: bool): set<nat> {
    if step.atLeft == atLeft then SpoiledBy(if atLeft then s.left else s.right, step.event) else {}
  }

  /** The numbers of all such packets that one end sends in a run. */
  ghost function Spoiled(s: System, steps: seq<Step>, atLeft: bool): set<nat>
    decreases |steps|
  {
    if steps == [] then {}
    else SpoiledByStep(s, steps[0], atLeft) + Spoiled(After(s, steps[0]), steps[1..], atLeft)
  }

  lemma MoreAsSent(arrived: map<nat, seq<Byte>>, texts: map<nat, seq<Byte>>, spoiled: set<nat>, n: nat, came: seq<Byte>, text: seq<Byte>)
    requires AsSent(arrived, texts, spoiled) && n !in texts && |came| == |text|
    ensures AsSent(arrived[n := came], texts[n := text], spoiled + if came == text then {} else {n})
  {
  }

  /** A new packet, as it arrives, and its data, as it was sent. */
  lemma SendKeepsFlow(b: Stream, a: Stream, first: nat, arrived: map<nat, seq<Byte>>, texts: map<nat, seq<Byte>>,
                      spoiled: set<nat>, sent: set<Packet>, ps: bool, ec: bool, data: seq<Byte>)
    requires TextFlow(b, a.next, first, arrived, texts, spoiled, sent) && !a.closed
    ensures
      var p := NewPacket(a, ps, ec, data);
      TextFlow(b, a.next + 1, first, arrived[a.next := p.data], texts[a.next := data],
               spoiled + SpoiledBy(a, Send(ps, ec, data)), sent + {p})
  {
    var p := NewPacket(a, ps, ec, data);
    DataArrivesExactlyWhen(a, ps, ec, data);
    MoreTexts(b, a.next, first, arrived, sent, p.data, p);
    assert a.next !in arrived;
    MoreAsSent(arrived, texts, spoiled, a.next, p.data, data);
    hide NewPacket, Intact, TextInv, AsSent;
  }

  lemma SameFlow(b: Stream, c: Stream, next: nat, first: nat, arrived: map<nat, seq<Byte>>, texts: map<nat, seq<Byte>>,
                 spoiled: set<nat>, sent: set<Packet>)
    requires TextFlow(b, next, first, arrived, texts, spoiled, sent) && SameReceiver(b.(burst := c.burst), c)
    ensures TextFlow(c, next, first, arrived, texts, spoiled, sent)
  {
    SameTexts(b.(burst := c.burst), c, first, arrived);
  }

  lemma PacketKeepsFlow(b: Stream, next: nat, first: nat, arrived: map<nat, seq<Byte>>, texts: map<nat, seq<Byte>>,
                        spoiled: set<nat>, sent: set<Packet>, p: Packet, late: bool)
    requires TextFlow(b, next, first, arrived, texts, spoiled, sent) && p in sent
    ensures TextFlow(HandlePacket(b, p, late), next, first, arrived, texts, spoiled, sent)
  {
    PacketTexts(b, first, arrived, p, late);
    hide HandlePacket, ReceivedTexts, AsSent;
  }

  lemma LeftStepKeepsTexts(s: System, leftFirst: nat, rightFirst: nat, r: Arriving, e: Event) returns (t: Arriving)
    requires AllTexts(s, leftFirst, rightFirst, r)
    ensures AllTexts(LeftStep(s, e), leftFirst, rightFirst, t)
    ensures t.leftSpoiled == r.leftSpoiled + SpoiledBy(s.left, e) && t.rightSpoiled == r.rightSpoiled
  {
    hide TextFlow, NewPacket, HandlePacket, HandleAck, Intact, CurrentBurst;
    t := r;
    match e {
      case Send(ps, ec, data) =>
        if !s.left.closed {
          t := r.(left := r.left[s.left.next := NewPacket(s.left, ps, ec, data).data],
                  leftSpoiled := r.leftSpoiled + SpoiledBy(s.left, e));
          SendKeepsFlow(s.right, s.left, leftFirst, r.left, s.leftTexts, r.leftSpoiled, s.toRight, ps, ec, data);
          SameFlow(s.left, AfterSending(s.left, ps), s.right.next, rightFirst, r.right, s.rightTexts, r.rightSpoiled, s.toLeft);
        }
      case EndBurst =>
        SameFlow(s.left, s.left.(burst := None), s.right.next, rightFirst, r.right, s.rightTexts, r.rightSpoiled, s.toLeft);
      case GiveAck(room) =>
      case Receive(p, late) =>
        if p in s.toLeft {
          PacketKeepsFlow(s.left, s.right.next, rightFirst, r.right, s.rightTexts, r.rightSpoiled, s.toLeft, p, late);
          PacketKeepsRest(s.left, p, late);
        }
      case TakeAck(x) =>
        AckKeepsReceiver(s.left, x.nextNumber, x.ack);
        SameFlow(s.left, HandleExternalAck(s.left, x), s.right.next, rightFirst, r.right, s.rightTexts, r.rightSpoiled, s.toLeft);
    }
  }

  function Swapped(r: Arriving): Arriving {
    Arriving(r.right, r.left, r.rightSpoiled, r.leftSpoiled)
  }

  lemma StepKeepsTexts(s: System, leftFirst: nat, rightFirst: nat, r: Arriving, step: Step) returns (t: Arriving)
    requires AllTexts(s, leftFirst, rightFirst, r)
    ensures AllTexts(After(s, step), leftFirst, rightFirst, t)
    ensures t.leftSpoiled == r.leftSpoiled + SpoiledByStep(s, step, true)
    ensures t.rightSpoiled == r.rightSpoiled + SpoiledByStep(s, step, false)
  {
    hide TextFlow, LeftStep, SpoiledBy;
    if step.atLeft {
      t := LeftStepKeepsTexts(s, leftFirst, rightFirst, r, step.event);
    } else {
      t := LeftStepKeepsTexts(Mirror(s), rightFirst, leftFirst, Swapped(r), step.event);
      t := Swapped(t);
    }
  }

  /** Every run keeps the data of buffered, travelling and delivered packets as it arrives. */
  lemma {:induction false} RunKeepsTexts(s: System, leftFirst: nat, rightFirst: nat, r: Arriving, steps: seq<Step>) returns (t: Arriving)
    requires AllTexts(s, leftFirst, rightFirst, r)
    ensures AllTexts(RudpRuns.Run(s, steps), leftFirst, rightFirst, t)
    ensures t.leftSpoiled == r.leftSpoiled + Spoiled(s, steps, true) && t.rightSpoiled == r.rightSpoiled + Spoiled(s, steps, false)
    decreases |steps|
  {
    hide AllTexts, After, SpoiledByStep;
    t := r;
    if steps != [] {
      t := StepKeepsTexts(s, leftFirst, rightFirst, r, steps[0]);
      t := RunKeepsTexts(After(s, steps[0]), leftFirst, rightFirst, t, steps[1..]);
    }
  }

  /** Data of the same lengths is the same when joined exactly when each piece is. */
  lemma {:induction false} JoinedSameExactlyWhen(arrived: map<nat, seq<Byte>>, texts: map<nat, seq<Byte>>, spoiled: set<nat>, lo: nat, hi: nat)
    requires AsSent(arrived, texts, spoiled)
    ensures |Joined(arrived, lo, hi)| == |Joined(texts, lo, hi)|
    ensures Joined(arrived, lo, hi) == Joined(texts, lo, hi) <==> forall k :: k in spoiled ==> k < lo || k >= hi
    decreases hi
  {
    if hi > lo {
      JoinedSameExactlyWhen(arrived, texts, spoiled, lo, hi - 1);
      var last := hi - 1;
      if last in texts {
        SameParts(Joined(arrived, lo, last), arrived[last], Joined(texts, lo, last), texts[last]);
      }
      assert Joined(arrived, lo, hi) == Joined(texts, lo, hi) <==> Joined(arrived, lo, last) == Joined(texts, lo, last) && last !in spoiled;
    }
  }

  lemma SameParts(a: seq<Byte>, b: seq<Byte>, c: seq<Byte>, d: seq<Byte>)
    requires |a| == |c|
    ensures a + b == c + d <==> a == c && b == d
  {
    assert (a + b)[..|a|] == a && (a + b)[|a|..] == b && (c + d)[..|a|] == c && (c + d)[|a|..] == d;
  }

  lemma PrefixOfSameLength(a: seq<Byte>, b: seq<Byte>, whole: seq<Byte>)
    requires |a| == |b| && b <= whole
    ensures a <= whole <==> a == b
  {
    if a <= whole { assert a == whole[..|a|] && b == whole[..|a|]; }
  }

  /**
   * What an end has delivered is a prefix of what was sent to it exactly when every spoiled packet is
   * beyond its GSNFR; and then it is the data of exactly the packets up to its GSNFR, in order.
   */
  ghost predicate PrefixUnlessSpoiled(b: Stream, next: nat, first: nat, texts: map<nat, seq<Byte>>, spoiled: set<nat>) {
    && (b.delivered <= Joined(texts, first, next) <==> forall k :: k in spoiled ==> k > b.gsnfr)
    && (b.delivered <= Joined(texts, first, next) ==> b.delivered == Joined(texts, first, b.gsnfr + 1))
    && |b.delivered| == |Joined(texts, first, b.gsnfr + 1)|
  }

  lemma DeliveredPrefix(b: Stream, next: nat, first: nat, arrived: map<nat, seq<Byte>>, texts: map<nat, seq<Byte>>,
                        spoiled: set<nat>, sent: set<Packet>)
    requires TextFlow(b, next, first, arrived, texts, spoiled, sent)
    ensures PrefixUnlessSpoiled(b, next, first, texts, spoiled)
  {
    var n := b.gsnfr + 1;
    JoinedSameExactlyWhen(arrived, texts, spoiled, first, n);
    JoinedGrows(texts, first, n, next);
    hide Joined;
    PrefixOfSameLength(b.delivered, Joined(texts, first, n), Joined(texts, first, next));
  }

  lemma RunFromStart(leftFirst: nat, rightFirst: nat, steps: seq<Step>) returns (t: Arriving)
    requires leftFirst > 0 && rightFirst > 0
    ensures
      var start := Initial(leftFirst, rightFirst);
      var s := RudpRuns.Run(start, steps);
      && TextFlow(s.right, s.left.next, leftFirst, t.left, s.leftTexts, t.leftSpoiled, s.toRight)
      && TextFlow(s.left, s.right.next, rightFirst, t.right, s.rightTexts, t.rightSpoiled, s.toLeft)
      && t.leftSpoiled == Spoiled(start, steps, true) && t.rightSpoiled == Spoiled(start, steps, false)
  {
    hide RudpRuns.Run, Spoiled;
    var start, none := Initial(leftFirst, rightFirst), Arriving(map[], map[], {}, {});
    assert AllTexts(start, leftFirst, rightFirst, none);
    hide TextFlow, Initial;
    t := RunKeepsTexts(start, leftFirst, rightFirst, none, steps);
  }

  /**
   * In every run, under any loss, duplication, reordering and delay, quiet or not: what an end has
   * delivered is a prefix of what the other end sent exactly when it has delivered no packet that the
   * other end spoiled.
   */
  lemma DeliveredPrefixExactlyWhen(leftFirst: nat, rightFirst: nat, steps: seq<Step>)
    requires leftFirst > 0 && rightFirst > 0
    ensures
      var start := Initial(leftFirst, rightFirst);
      var s := RudpRuns.Run(start, steps);
      && PrefixUnlessSpoiled(s.right, s.left.next, leftFirst, s.leftTexts, Spoiled(start, steps, true))
      && PrefixUnlessSpoiled(s.left, s.right.next, rightFirst, s.rightTexts, Spoiled(start, steps, false))
  {
    var start := Initial(leftFirst, rightFirst);
    var s := RudpRuns.Run(start, steps);
    var t := RunFromStart(leftFirst, rightFirst, steps);
    hide *;
    DeliveredPrefix(s.right, s.left.next, leftFirst, t.left, s.leftTexts, t.leftSpoiled, s.toRight);
    DeliveredPrefix(s.left, s.right.next, rightFirst, t.right, s.rightTexts, t.rightSpoiled, s.toLeft);
  }

  ghost predicate IntactEvent(a: Stream, e: Event) {
    e.Send? && !a.closed ==> Intact(a, e.data)
  }

  ghost predicate IntactRun(s: System, steps: seq<Step>)
    decreases |steps|
  {
    steps == [] ||
    (IntactEvent(if steps[0].atLeft then s.left else s.right, steps[0].event) && IntactRun(After(s, steps[0]), steps[1..]))
  }

  lemma {:induction false} IntactRunSpoilsNothing(s: System, steps: seq<Step>, atLeft: bool)
    requires IntactRun(s, steps)
    ensures Spoiled(s, steps, atLeft) == {}
    decreases |steps|
  {
    if steps != [] { IntactRunSpoilsNothing(After(s, steps[0]), steps[1..], atLeft); }
  }

  /**
   * In every run whose packets are intact each end has delivered the data of exactly the packets
   * up to its GSNFR, in order, and so a prefix of what the other end sent.
   */
  lemma DeliveredIsWhatWasSent(leftFirst: nat, rightFirst: nat, steps: seq<Step>)
    requires leftFirst > 0 && rightFirst > 0 && IntactRun(Initial(leftFirst, rightFirst), steps)
    ensures
      var s := RudpRuns.Run(Initial(leftFirst, rightFirst), steps);
      && s.right.delivered == Joined(s.leftTexts, leftFirst, s.right.gsnfr + 1) <= Joined(s.leftTexts, leftFirst, s.left.next)
      && s.left.delivered == Joined(s.rightTexts, rightFirst, s.left.gsnfr + 1) <= Joined(s.rightTexts, rightFirst, s.right.next)
  {
    DeliveredPrefixExactlyWhen(leftFirst, rightFirst, steps);
    hide RudpRuns.Run, IntactRun, Spoiled, Joined, Initial;
    IntactRunSpoilsNothing(Initial(leftFirst, rightFirst), steps, true);
    IntactRunSpoilsNothing(Initial(leftFirst, rightFirst), steps, false);
  }

  // ----- an instance -----

  lemma ThirdArrives(b: Stream, p: Packet, five: Got)
    requires b.received == map[5 := five] && b.gsnfr == 2 && b.gsnr == 5 && p.number == 3
    ensures
      var t := Delivered(Accepted(b, p));
      && t.received == b.received && t.gsnfr == 3 && t.gsnr == 5 && t.burst == b.burst
      && t.lowest == b.lowest && t.sending == b.sending && t.next == b.next && t.closed == b.closed
  {
    AcceptedParts(b, p);
    hide Delivered, Accepted;
    var c := Accepted(b, p);
    assert b.received == c.received - {3};
    DeliveredStep(c, b.received);
    DeliveredEnds(c.(gsnfr := 3, received := b.received, xoredToGsnfr := Xor(c.xoredToGsnfr, p.ps), delivered := c.delivered + p.data));
  }

  lemma FourthArrives(b: Stream, p: Packet, five: Got)
    requires b.received == map[5 := five] && b.gsnfr == 3 && b.gsnr == 5 && p.number == 4
    ensures var t := Delivered(Accepted(b, p)); t.gsnfr == t.gsnr == 5 && t.burst == b.burst
  {
    AcceptedParts(b, p);
    hide Delivered, Accepted;
    var c := Accepted(b, p);
    assert b.received == c.received - {4} && map[] == b.received - {5};
    DeliveredStep(c, b.received);
    var d := c.(gsnfr := 4, received := b.received, xoredToGsnfr := Xor(c.xoredToGsnfr, p.ps), delivered := c.delivered + p.data);
    DeliveredStep(d, map[]);
    DeliveredEnds(d.(gsnfr := 5, received := map[], xoredToGsnfr := Xor(d.xoredToGsnfr, five.parity), delivered := d.delivered + five.data));
  }

  lemma AllFiveArrive(bits: seq<bool>)
    requires |bits| == 5
    ensures
      var b := HandlePacket(HandlePacket(BurstDisturbed(bits), FromFive(bits, 3), false), FromFive(bits, 4), false);
      b.gsnr == b.gsnfr == 5 && b.burst == Some(Burst(GAP_VECTOR, bits[1], 0))
  {
    hide BurstDisturbed, HandleAck, HandlePacket, Delivered, Accepted;
    var b, p, q, five := BurstDisturbed(bits), FromFive(bits, 3), FromFive(bits, 4), Got(bits[4], false, []);
    OneArrivedLate(bits);
    NothingToAcknowledge(b, 3);
    TakesNext(b, p);
    ThirdArrives(b, p, five);
    var c := Delivered(Accepted(b, p));
    NothingToAcknowledge(c, 4);
    TakesNext(c, q);
    FourthArrives(c, q, five);
  }

  /**
   * When in the run of RudpBursts.InterruptedBurst the third and the fourth packet arrive too, GSNFR
   * has caught up with GSNR. The next packet of the burst is quiet, but its data arrives four bytes late.
   */
  lemma SpoiledBurst(bits: seq<bool>, data: seq<Byte>) returns (steps: seq<Step>)
    requires |bits| == 5
    ensures QuietRun(Initial(1, 1), steps)
    ensures
      var b := RudpRuns.Run(Initial(1, 1), steps).left;
      && Quiet(b, Send(false, false, data)) && CurrentBurst(b).vector == GAP_VECTOR
      && NewPacket(b, false, false, data).data == (RudpPackets.Zeros(4) + data)[..|data|]
      && (Intact(b, data) <==> AllZeros(data))
  {
    var start := Initial(1, 1);
    steps := Disturbed(bits);
    hide QuietRun, RudpRuns.Run, SenderOfFive, HandlePacket, BurstDisturbed;
    steps := LeftReceives(start, steps, FromFive(bits, 3));
    steps := LeftReceives(start, steps, FromFive(bits, 4));
    AllFiveArrive(bits);
    assert RudpPackets.DwordBoundary(|GAP_VECTOR|) == 4;
  }
}

/**
 * The bookkeeping of bursts in openpeer/services/cpp/services_RUDPChannelStream.cpp: which
 * buffered packets wait to be resent, and which of them hold a baton.
 */
module RudpBatons {
  /** The fields of a BufferedPacket that the bookkeeping uses; data is mPacket. */
  datatype Buffered = Buffered(data: bool, flagged: bool, holds: bool, failed: bool)

  /**
   * mSendingPackets with the numbers from first up to next, mTotalPacketsToResend,
   * mAvailableBurstBatons and mPacketsPerBurst; bad is set where the code throws a bad state.
   */
  datatype Ledger = Ledger(packets: map<nat, Buffered>, first: nat, next: nat, toResend: nat, available: nat, perBurst: nat, bad: bool)

  datatype Event =
    | Created                       // sendNow adds a new packet
    | Acknowledged                  // handleAck erases the front packet
    | ReportedReceived(k: nat)      // the vector reports a packet, or GSNR names it
    | ReportedMissing(k: nat)       // the vector reports a packet missing
    | ForcedAck(upTo: nat)          // the external ACK that was forced arrives
    | Resent(k: nat)                // sendNow has sent a packet, new or again
    | BurstEnded(k: nat)            // the last packet sent takes a baton
    | TimerFired(baton: bool)       // a new baton, or one more packet in a burst
    | Lost                          // handlePacketLoss

  // ----- the methods of BufferedPacket -----

  function Put(s: Ledger, k: nat, p: Buffered): Ledger {
    s.(packets := s.packets[k := p])
  }

  function FlagForResending(s: Ledger, k: nat): Ledger
    requires k in s.packets
  {
    var p := s.packets[k];
    if !p.data || p.flagged then s else Put(s, k, p.(flagged := true)).(toResend := s.toResend + 1)
  }

  function DoNotResend(s: Ledger, k: nat): Ledger
    requires k in s.packets
  {
    var p := s.packets[k];
    if !p.flagged then s
    else if s.toResend == 0 then Put(s, k, p.(flagged := false)).(bad := true)
    else Put(s, k, p.(flagged := false)).(toResend := s.toResend - 1)
  }

  function ConsumeBaton(s: Ledger, k: nat): Ledger
    requires k in s.packets
  {
    var p := s.packets[k];
    if p.holds || s.available == 0 then s else Put(s, k, p.(holds := true)).(available := s.available - 1)
  }

  function ReleaseBaton(s: Ledger, k: nat): Ledger
    requires k in s.packets
  {
    var p := s.packets[k];
    if !p.holds then s else Put(s, k, p.(holds := false)).(available := s.available + 1)
  }

  function FlagAsReceived(s: Ledger, k: nat): Ledger
    requires k in s.packets
  {
    var t := ReleaseBaton(DoNotResend(s, k), k);
    Put(t, k, t.packets[k].(data := false))
  }

  // ----- what the stream does with them -----

  /** The loop over the packets up to the point of a forced ACK. */
  function ForcedFrom(s: Ledger, k: nat, upTo: nat): Ledger
    decreases s.next - k
  {
    if k >= s.next || k > upTo then s
    else if k !in s.packets then ForcedFrom(s, k + 1, upTo)
    else ForcedFrom(ReleaseBaton(FlagForResending(s, k), k), k + 1, upTo)
  }

  /** The loop that looks for a baton to destroy, leaving the first skip ones alone. */
  function Holder(packets: map<nat, Buffered>, k: nat, next: nat, skip: nat): (h: int)
    ensures h >= 0 ==> k <= h < next && h in packets && packets[h].holds
    decreases next - k
  {
    if k >= next then -1
    else if k !in packets || !packets[k].holds then Holder(packets, k + 1, next, skip)
    else if skip == 0 then k
    else Holder(packets, k + 1, next, skip - 1)
  }

  function HandlePacketLoss(s: Ledger): Ledger {
    if s.perBurst > 1 then s.(perBurst := s.perBurst / 2)
    else if s.available > 1 then s.(available := s.available - 1)
    else
      var h := Holder(s.packets, s.first, s.next, if s.available == 0 then 1 else 0);
      if h < 0 then s
      else
        var t := ReleaseBaton(s, h);
        t.(available := t.available - 1)
  }

  function After(s: Ledger, e: Event): Ledger {
    match e
    case Created => Put(s, s.next, Buffered(true, false, false, false)).(next := s.next + 1)
    case Acknowledged =>
      if s.first !in s.packets then s
      else
        var t := FlagAsReceived(s, s.first);
        t.(packets := t.packets - {s.first}, first := s.first + 1)
    case ReportedReceived(k) => if k in s.packets then FlagAsReceived(s, k) else s
    case ReportedMissing(k) =>
      if k !in s.packets || s.packets[k].failed then s
      else FlagForResending(Put(s, k, s.packets[k].(failed := true)), k)
    case ForcedAck(upTo) => ForcedFrom(s, s.first, upTo)
    case Resent(k) => if k in s.packets then DoNotResend(s, k) else s
    case BurstEnded(k) => if k in s.packets && s.packets[k].data then ConsumeBaton(s, k) else s
    case TimerFired(baton) => if baton then s.(available := s.available + 1) else s.(perBurst := s.perBurst + 1)
    case Lost => HandlePacketLoss(s)
  }

  function Run(s: Ledger, events: seq<Event>): Ledger
    decreases |events|
  {
    if events == [] then s else Run(After(s, events[0]), events[1..])
  }

  /** A new stream has one baton. */
  function Initial(next: nat): Ledger {
    Ledger(map[], next, next, 0, 1, 1, false)
  }

  // ----- conservation -----

  function Flagged(packets: map<nat, Buffered>): set<nat> {
    set k | k in packets && packets[k].flagged
  }

  function Holding(packets: map<nat, Buffered>): set<nat> {
    set k | k in packets && packets[k].holds
  }

  /** All batons: those free and those held. */
  function Batons(s: Ledger): nat {
    s.available + |Holding(s.packets)|
  }

  /** The counters count what they are meant to count, and no packet without data is resent or holds a baton. */
  ghost predicate Balanced(s: Ledger) {
    && !s.bad && s.first <= s.next && s.perBurst >= 1
    && (forall k :: k in s.packets <==> s.first <= k < s.next)
    && s.toResend == |Flagged(s.packets)|
    && Batons(s) >= 1
    && (forall k :: k in s.packets ==> (s.packets[k].flagged || s.packets[k].holds ==> s.packets[k].data))
  }

  lemma PutChanges(packets: map<nat, Buffered>, k: nat, p: Buffered)
    ensures Flagged(packets[k := p]) == if p.flagged then Flagged(packets) + {k} else Flagged(packets) - {k}
    ensures Holding(packets[k := p]) == if p.holds then Holding(packets) + {k} else Holding(packets) - {k}
  {
  }

  lemma FlagKeeps(s: Ledger, k: nat)
    requires Balanced(s) && k in s.packets
    ensures Balanced(FlagForResending(s, k)) && Batons(FlagForResending(s, k)) == Batons(s)
    ensures FlagForResending(s, k).packets.Keys == s.packets.Keys
  {
    PutChanges(s.packets, k, s.packets[k].(flagged := true));
  }

  lemma DoNotResendKeeps(s: Ledger, k: nat)
    requires Balanced(s) && k in s.packets
    ensures Balanced(DoNotResend(s, k)) && Batons(DoNotResend(s, k)) == Batons(s)
    ensures !DoNotResend(s, k).packets[k].flagged
  {
    PutChanges(s.packets, k, s.packets[k].(flagged := false));
    assert s.packets[k].flagged ==> k in Flagged(s.packets);
  }

  lemma ConsumeKeeps(s: Ledger, k: nat)
    requires Balanced(s) && k in s.packets && s.packets[k].data
    ensures Balanced(ConsumeBaton(s, k)) && Batons(ConsumeBaton(s, k)) == Batons(s)
  {
    PutChanges(s.packets, k, s.packets[k].(holds := true));
  }

  lemma ReleaseKeeps(s: Ledger, k: nat)
    requires Balanced(s) && k in s.packets
    ensures Balanced(ReleaseBaton(s, k)) && Batons(ReleaseBaton(s, k)) == Batons(s)
    ensures !ReleaseBaton(s, k).packets[k].holds && ReleaseBaton(s, k).packets[k].flagged == s.packets[k].flagged
    ensures s.packets[k].holds ==> ReleaseBaton(s, k).available == s.available + 1
  {
    PutChanges(s.packets, k, s.packets[k].(holds := false));
    assert s.packets[k].holds ==> k in Holding(s.packets);
  }

  /** Dropping the data of a packet that is neither resent nor holds a baton. */
  lemma DropKeeps(s: Ledger, k: nat)
    requires Balanced(s) && k in s.packets && !s.packets[k].flagged && !s.packets[k].holds
    ensures var t := Put(s, k, s.packets[k].(data := false)); Balanced(t) && Batons(t) == Batons(s)
  {
    PutChanges(s.packets, k, s.packets[k].(data := false));
    assert k !in Flagged(s.packets) && k !in Holding(s.packets);
  }

  lemma ReceivedKeeps(s: Ledger, k: nat)
    requires Balanced(s) && k in s.packets
    ensures Balanced(FlagAsReceived(s, k)) && Batons(FlagAsReceived(s, k)) == Batons(s)
    ensures !FlagAsReceived(s, k).packets[k].flagged && !FlagAsReceived(s, k).packets[k].holds
  {
    DoNotResendKeeps(s, k);
    assert k in DoNotResend(s, k).packets;
    ReleaseKeeps(DoNotResend(s, k), k);
    DropKeeps(ReleaseBaton(DoNotResend(s, k), k), k);
    hide Balanced, Batons, DoNotResend, ReleaseBaton;
  }

  lemma EraseKeeps(s: Ledger)
    requires Balanced(s) && s.first in s.packets && !s.packets[s.first].flagged && !s.packets[s.first].holds
    ensures var t := s.(packets := s.packets - {s.first}, first := s.first + 1); Balanced(t) && Batons(t) == Batons(s)
  {
    var t := s.(packets := s.packets - {s.first}, first := s.first + 1);
    assert Flagged(t.packets) == Flagged(s.packets) && Holding(t.packets) == Holding(s.packets);
  }

  lemma AddedCounts(packets: map<nat, Buffered>, k: nat, p: Buffered)
    requires k !in packets && !p.flagged && !p.holds
    ensures Flagged(packets[k := p]) == Flagged(packets) && Holding(packets[k := p]) == Holding(packets)
  {
    PutChanges(packets, k, p);
  }

  lemma CreatedKeeps(s: Ledger)
    requires Balanced(s)
    ensures Balanced(After(s, Created)) && Batons(After(s, Created)) == Batons(s)
  {
    AddedCounts(s.packets, s.next, Buffered(true, false, false, false));
    hide Flagged, Holding;
  }

  lemma FailedKeeps(s: Ledger, k: nat)
    requires Balanced(s) && k in s.packets
    ensures var t := Put(s, k, s.packets[k].(failed := true)); Balanced(t) && Batons(t) == Batons(s)
  {
    var t := Put(s, k, s.packets[k].(failed := true));
    assert Flagged(t.packets) == Flagged(s.packets) && Holding(t.packets) == Holding(s.packets);
  }

  lemma {:induction false} ForcedKeeps(s: Ledger, k: nat, upTo: nat)
    requires Balanced(s)
    ensures Balanced(ForcedFrom(s, k, upTo)) && Batons(ForcedFrom(s, k, upTo)) == Batons(s)
    decreases s.next - k
  {
    if k < s.next && k <= upTo {
      if k in s.packets {
        FlagKeeps(s, k);
        ReleaseKeeps(FlagForResending(s, k), k);
        ForcedKeeps(ReleaseBaton(FlagForResending(s, k), k), k + 1, upTo);
      } else {
        ForcedKeeps(s, k + 1, upTo);
      }
    }
  }

  function HoldersFrom(packets: map<nat, Buffered>, k: nat, next: nat): set<nat> {
    set j | j in packets && k <= j < next && packets[j].holds
  }

  lemma HoldersStep(packets: map<nat, Buffered>, k: nat, next: nat)
    requires k < next
    ensures HoldersFrom(packets, k, next) ==
      HoldersFrom(packets, k + 1, next) + if k in packets && packets[k].holds then {k} else {}
    ensures k !in HoldersFrom(packets, k + 1, next)
  {
  }

  /** Some holder is found beyond those skipped only if there are more holders than that. */
  lemma {:induction false} HoldersFound(packets: map<nat, Buffered>, k: nat, next: nat, skip: nat)
    requires Holder(packets, k, next, skip) >= 0
    ensures skip < |HoldersFrom(packets, k, next)|
    decreases next - k
  {
    HoldersStep(packets, k, next);
    hide HoldersFrom;
    if k !in packets || !packets[k].holds {
      HoldersFound(packets, k + 1, next, skip);
    } else if skip > 0 {
      HoldersFound(packets, k + 1, next, skip - 1);
    }
  }

  lemma LossKeeps(s: Ledger)
    requires Balanced(s)
    ensures Balanced(HandlePacketLoss(s)) && Batons(HandlePacketLoss(s)) <= Batons(s)
  {
    if s.perBurst <= 1 && s.available <= 1 {
      var skip := if s.available == 0 then 1 else 0;
      var h := Holder(s.packets, s.first, s.next, skip);
      if h >= 0 {
        HoldersFound(s.packets, s.first, s.next, skip);
        assert Holding(s.packets) == HoldersFrom(s.packets, s.first, s.next);
        ReleaseKeeps(s, h);
      }
    }
  }

  /** No holder is found beyond those skipped only if there are no more than that. */
  lemma {:induction false} HoldersMissing(packets: map<nat, Buffered>, k: nat, next: nat, skip: nat)
    requires Holder(packets, k, next, skip) < 0
    ensures |HoldersFrom(packets, k, next)| <= skip
    decreases next - k
  {
    if k >= next {
      assert HoldersFrom(packets, k, next) == {};
    } else {
      HoldersStep(packets, k, next);
      if k !in packets || !packets[k].holds {
        HoldersMissing(packets, k + 1, next, skip);
      } else if skip > 0 {
        HoldersMissing(packets, k + 1, next, skip - 1);
      }
    }
  }

  /**
   * A loss halves the packets in a burst; once a burst has only one, it takes a baton away, free or
   * held, as long as there is more than one, and nothing else.
   */
  lemma LossDoes(s: Ledger)
    requires Balanced(s)
    ensures
      var t := HandlePacketLoss(s);
      && (s.perBurst > 1 ==> t == s.(perBurst := s.perBurst / 2))
      && (s.perBurst == 1 ==> Batons(t) == (if Batons(s) > 1 then Batons(s) - 1 else Batons(s)))
      && t.packets.Keys == s.packets.Keys && t.toResend == s.toResend
      && forall k :: k in s.packets ==> t.packets[k].(holds := s.packets[k].holds) == s.packets[k] && (t.packets[k].holds ==> s.packets[k].holds)
  {
    if s.perBurst <= 1 && s.available <= 1 {
      var skip := if s.available == 0 then 1 else 0;
      var h := Holder(s.packets, s.first, s.next, skip);
      assert Holding(s.packets) == HoldersFrom(s.packets, s.first, s.next);
      if h >= 0 {
        HoldersFound(s.packets, s.first, s.next, skip);
        ReleaseKeeps(s, h);
      } else {
        HoldersMissing(s.packets, s.first, s.next, skip);
      }
    }
    hide Balanced, Flagged, Holder, HoldersFrom;
  }

  // ----- what the other events do to the packets -----

  /** The packets from one number up to another are flagged if they still have data, and hold no baton; no other changes. */
  ghost predicate Forced(s: Ledger, t: Ledger, lo: nat, upTo: nat) {
    && t.packets.Keys == s.packets.Keys && t.next == s.next
    && forall k :: k in s.packets ==>
         t.packets[k] == if lo <= k <= upTo && k < s.next
           then s.packets[k].(flagged := s.packets[k].flagged || s.packets[k].data, holds := false) else s.packets[k]
  }

  lemma {:induction false} ForcedDoes(s: Ledger, k: nat, upTo: nat)
    ensures Forced(s, ForcedFrom(s, k, upTo), k, upTo)
    decreases s.next - k
  {
    if k < s.next && k <= upTo {
      var t := if k in s.packets then ReleaseBaton(FlagForResending(s, k), k) else s;
      ForcedDoes(t, k + 1, upTo);
    }
  }

  /** What each event does to each packet that is buffered before and after. */
  ghost function Became(s: Ledger, e: Event, k: nat): Buffered
    requires k in s.packets
  {
    var p := s.packets[k];
    match e
    case ReportedReceived(j) => if j == k then Buffered(false, false, false, p.failed) else p
    case ReportedMissing(j) => if j == k && !p.failed then p.(failed := true, flagged := p.flagged || p.data) else p
    case ForcedAck(upTo) => if k <= upTo then p.(flagged := p.flagged || p.data, holds := false) else p
    case Resent(j) => if j == k then p.(flagged := false) else p
    case BurstEnded(j) => if j == k then p.(holds := p.holds || (p.data && s.available > 0)) else p
    case _ => p
  }

  /** The numbers of the buffered packets after an event. */
  ghost function Stays(s: Ledger, e: Event): set<nat> {
    match e
    case Created => s.packets.Keys + {s.next}
    case Acknowledged => s.packets.Keys - {s.first}
    case _ => s.packets.Keys
  }

  lemma EventDoes(s: Ledger, e: Event, k: nat)
    requires Balanced(s) && !e.Lost?
    ensures
      var t := After(s, e);
      && t.packets.Keys == Stays(s, e)
      && (k in s.packets && k in t.packets ==> t.packets[k] == Became(s, e, k))
      && (e.Created? ==> t.packets[s.next] == Buffered(true, false, false, false))
      && t.perBurst == (if e == TimerFired(false) then s.perBurst + 1 else s.perBurst)
  {
    match e {
      case ForcedAck(upTo) =>
        ForcedDoes(s, s.first, upTo);
        ForcedKeepsSize(s, s.first, upTo);
      case _ =>
    }
    hide Flagged, Holding;
  }

  lemma {:induction false} ForcedKeepsSize(s: Ledger, k: nat, upTo: nat)
    ensures ForcedFrom(s, k, upTo).perBurst == s.perBurst
    decreases s.next - k
  {
    if k < s.next && k <= upTo {
      ForcedKeepsSize(if k in s.packets then ReleaseBaton(FlagForResending(s, k), k) else s, k + 1, upTo);
    }
  }

  /** Every event keeps the books, and only the timer and a loss change how many batons there are. */
  lemma EventKeepsBalance(s: Ledger, e: Event)
    requires Balanced(s)
    ensures Balanced(After(s, e))
    ensures !e.Lost? ==> Batons(After(s, e)) == Batons(s) + if e == TimerFired(true) then 1 else 0
  {
    match e
    case Created => CreatedKeeps(s);
    case Acknowledged =>
      if s.first in s.packets {
        ReceivedKeeps(s, s.first);
        EraseKeeps(FlagAsReceived(s, s.first));
      }
    case ReportedReceived(k) => if k in s.packets { ReceivedKeeps(s, k); }
    case ReportedMissing(k) =>
      if k in s.packets && !s.packets[k].failed {
        FailedKeeps(s, k);
        FlagKeeps(Put(s, k, s.packets[k].(failed := true)), k);
      }
    case ForcedAck(upTo) => ForcedKeeps(s, s.first, upTo);
    case Resent(k) => if k in s.packets { DoNotResendKeeps(s, k); }
    case BurstEnded(k) => if k in s.packets && s.packets[k].data { ConsumeKeeps(s, k); }
    case TimerFired(baton) =>
    case Lost => LossKeeps(s);
  }

  lemma {:induction false} RunKeepsBalance(s: Ledger, events: seq<Event>)
    requires Balanced(s)
    ensures Balanced(Run(s, events))
    decreases |events|
  {
    if events != [] {
      EventKeepsBalance(s, events[0]);
      RunKeepsBalance(After(s, events[0]), events[1..]);
    }
  }

  /**
   * In every run of a new stream the resend counter counts exactly the packets flagged for
   * resending, all of which still have their data, no counter is ever taken below zero, and batons
   * are neither lost nor duplicated: those free and those held are never fewer than one.
   */
  lemma BooksBalance(next: nat, events: seq<Event>)
    ensures Balanced(Run(Initial(next), events))
  {
    assert Flagged(map[]) == {} && Holding(map[]) == {};
    RunKeepsBalance(Initial(next), events);
  }

  // ----- the same bookkeeping, in place -----

  class Bursts {
    var packets: map<nat, Buffered>
    var first: nat
    var next: nat
    var totalPacketsToResend: nat
    var availableBurstBatons: nat
    var packetsPerBurst: nat
    var badState: bool

    ghost function State(): Ledger
      reads this
    {
      Ledger(packets, first, next, totalPacketsToResend, availableBurstBatons, packetsPerBurst, badState)
    }

    constructor (next: nat)
      ensures State() == Initial(next)
    {
      packets := map[];
      first := next;
      this.next := next;
      totalPacketsToResend := 0;
      availableBurstBatons := 1;
      packetsPerBurst := 1;
      badState := false;
    }

    method FlagForResending_(k: nat)
      requires k in packets
      modifies this`packets, this`totalPacketsToResend
      ensures State() == FlagForResending(old(State()), k)
    {
      if packets[k].data && !packets[k].flagged {
        packets := packets[k := packets[k].(flagged := true)];
        totalPacketsToResend := totalPacketsToResend + 1;
      }
    }

    method DoNotResend_(k: nat)
      requires k in packets
      modifies this`packets, this`totalPacketsToResend, this`badState
      ensures State() == DoNotResend(old(State()), k)
    {
      if !packets[k].flagged {
        return;
      }
      packets := packets[k := packets[k].(flagged := false)];
      if totalPacketsToResend == 0 {
        badState := true;
        return;
      }
      totalPacketsToResend := totalPacketsToResend - 1;
    }

    method ConsumeBaton_(k: nat)
      requires k in packets
      modifies this`packets, this`availableBurstBatons
      ensures State() == ConsumeBaton(old(State()), k)
    {
      if !packets[k].holds && availableBurstBatons != 0 {
        packets := packets[k := packets[k].(holds := true)];
        availableBurstBatons := availableBurstBatons - 1;
      }
    }

    /** The end of sendNow: the last packet sent over the wire holds the baton, unless it has been released. */
    method EndBurst(lastPacketSent: nat)
      modifies this`packets, this`availableBurstBatons
      ensures State() == After(old(State()), BurstEnded(lastPacketSent))
    {
      if lastPacketSent in packets && packets[lastPacketSent].data {
        ConsumeBaton_(lastPacketSent);
      }
    }

    method ReleaseBaton_(k: nat)
      requires k in packets
      modifies this`packets, this`availableBurstBatons
      ensures State() == ReleaseBaton(old(State()), k)
    {
      if packets[k].holds {
        packets := packets[k := packets[k].(holds := false)];
        availableBurstBatons := availableBurstBatons + 1;
      }
    }

    method FlagAsReceived_(k: nat)
      requires k in packets
      modifies this`packets, this`totalPacketsToResend, this`availableBurstBatons, this`badState
      ensures State() == FlagAsReceived(old(State()), k)
    {
      DoNotResend_(k);
      ReleaseBaton_(k);
      packets := packets[k := packets[k].(data := false)];
    }

    /** The loop of handleExternalAck over the packets sent before the ACK was forced. */
    method HandleForcedAck(upTo: nat)
      modifies this`packets, this`totalPacketsToResend, this`availableBurstBatons
      ensures State() == After(old(State()), ForcedAck(upTo))
    {
      var k := first;
      while k < next && k <= upTo
        invariant next == old(next)
        invariant ForcedFrom(State(), k, upTo) == ForcedFrom(old(State()), first, upTo)
      {
        if k in packets {
          FlagForResending_(k);
          ReleaseBaton_(k);
        }
        k := k + 1;
      }
    }

    method HandlePacketLoss_()
      modifies this`packets, this`availableBurstBatons, this`packetsPerBurst
      ensures State() == HandlePacketLoss(old(State()))
    {
      if packetsPerBurst > 1 {
        packetsPerBurst := packetsPerBurst / 2;
        return;
      }
      if availableBurstBatons > 1 {
        availableBurstBatons := availableBurstBatons - 1;
        return;
      }
      var whichBatonToDestroy: nat := if availableBurstBatons == 0 then 1 else 0;
      ghost var holder := Holder(packets, first, next, whichBatonToDestroy);
      var k := first;
      while k < next
        invariant State() == old(State())
        invariant Holder(packets, k, next, whichBatonToDestroy) == holder
      {
        if k in packets && packets[k].holds {
          if whichBatonToDestroy == 0 {
            ReleaseBaton_(k);
            availableBurstBatons := availableBurstBatons - 1;
            return;
          }
          whichBatonToDestroy := whichBatonToDestroy - 1;
        }
        k := k + 1;
      }
    }
  }
}

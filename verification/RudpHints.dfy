/**
 * Runs in which, as on the wire, only the low 24 bits of the numbers in a packet arrive: the stream
 * restores the packet's own number from its GSNR and the acknowledged ones from its next number.
 */
module RudpHints {
  import opened RudpNumbers
  import opened RudpVectors
  import opened RudpStream
  import opened RudpSystem
  import opened RudpRuns

  /** The fields of the hints have 64 bits. */
  function FromWire(n: nat, hint: nat): nat {
    NumberWithHint(Low24(n), hint % WORD)
  }

  /** What a stream takes a packet for. */
  function Restored(s: Stream, p: Packet): Packet {
    p.(number := FromWire(p.number, s.gsnr),
       ack := p.ack.(gsnr := FromWire(p.ack.gsnr, s.next), gsnfr := FromWire(p.ack.gsnfr, s.next)))
  }

  ghost predicate InReach(n: nat, hint: nat) {
    n < WORD && hint < WORD && Restorable(n, hint)
  }

  /**
   * The numbers of the packet can be restored; or it has been delivered already, and is late by less
   * than a block without the window.
   */
  ghost predicate Timely(s: Stream, p: Packet) {
    || (InReach(p.number, s.gsnr) && InReach(p.ack.gsnr, s.next) && InReach(p.ack.gsnfr, s.next))
    || (p.number <= s.gsnfr <= s.gsnr < WORD - BLOCK && s.gsnr - p.number < BLOCK - WINDOW)
  }

  lemma SmallHint(n: nat, hint: nat)
    requires hint < WORD
    ensures FromWire(n, hint) == NumberWithHint(Low24(n), hint)
  {
    hide NumberWithHint, Low24;
    assert hint % WORD == hint;
  }

  lemma InReachIsRestored(n: nat, hint: nat)
    requires n < WORD && hint < WORD
    ensures FromWire(n, hint) == n <==> InReach(n, hint)
  {
    hide FromWire, NumberWithHint, Restorable, Low24;
    SmallHint(n, hint);
    RestoredExactlyWhen(n, hint);
  }

  /** A packet is taken for what it is exactly when all its numbers are in reach. */
  lemma RestoredPacketExactlyWhen(s: Stream, p: Packet)
    requires s.gsnr < WORD && s.next < WORD && p.number < WORD && p.ack.gsnr < WORD && p.ack.gsnfr < WORD
    ensures Restored(s, p) == p <==> InReach(p.number, s.gsnr) && InReach(p.ack.gsnr, s.next) && InReach(p.ack.gsnfr, s.next)
  {
    InReachIsRestored(p.number, s.gsnr);
    InReachIsRestored(p.ack.gsnr, s.next);
    InReachIsRestored(p.ack.gsnfr, s.next);
    hide FromWire, InReach;
  }

  /** A timely packet is handled as if its full numbers had arrived. */
  lemma TimelyIsHandledAlike(s: Stream, p: Packet, late: bool)
    requires Timely(s, p)
    ensures HandlePacket(s, Restored(s, p), late) == HandlePacket(s, p, late)
  {
    hide FromWire, InReach, HandlePacket;
    if InReach(p.number, s.gsnr) && InReach(p.ack.gsnr, s.next) && InReach(p.ack.gsnfr, s.next) {
      assert s.gsnr < WORD && s.next < WORD && p.number < WORD && p.ack.gsnr < WORD && p.ack.gsnfr < WORD by { WordsInReach(s, p); }
      RestoredPacketExactlyWhen(s, p);
    } else {
      LateStaysOut(s, p.number);
      OutOfWindowIsIgnored(s, p, late);
      OutOfWindowIsIgnored(s, Restored(s, p), late);
    }
  }

  lemma WordsInReach(s: Stream, p: Packet)
    requires InReach(p.number, s.gsnr) && InReach(p.ack.gsnr, s.next) && InReach(p.ack.gsnfr, s.next)
    ensures s.gsnr < WORD && s.next < WORD && p.number < WORD && p.ack.gsnr < WORD && p.ack.gsnfr < WORD
  {
  }

  lemma LateStaysOut(s: Stream, n: nat)
    requires n <= s.gsnfr <= s.gsnr < WORD - BLOCK && s.gsnr - n < BLOCK - WINDOW
    ensures FromWire(n, s.gsnr) <= s.gsnfr || FromWire(n, s.gsnr) > s.gsnr + WINDOW
  {
    hide FromWire, NumberWithHint, Low24;
    SmallHint(n, s.gsnr);
    LateComesOutAhead(n, s.gsnr);
  }

  lemma OutOfWindowIsIgnored(s: Stream, p: Packet, late: bool)
    requires p.number <= s.gsnfr || p.number > s.gsnr + WINDOW
    ensures HandlePacket(s, p, late) == s
  {
  }

  // ----- whole runs -----

  ghost function LeftWireStep(s: System, e: Event): System {
    if e.Receive? then
      if e.packet in s.toLeft then s.(left := HandlePacket(s.left, Restored(s.left, e.packet), e.late)) else s
    else LeftStep(s, e)
  }

  ghost function AfterWire(s: System, step: Step): System {
    if step.atLeft then LeftWireStep(s, step.event) else Mirror(LeftWireStep(Mirror(s), step.event))
  }

  ghost function WireRun(s: System, steps: seq<Step>): System
    decreases |steps|
  {
    if steps == [] then s else WireRun(AfterWire(s, steps[0]), steps[1..])
  }

  ghost predicate TimelyStep(s: System, step: Step) {
    step.event.Receive? ==> Timely(if step.atLeft then s.left else s.right, step.event.packet)
  }

  ghost predicate TimelyRun(s: System, steps: seq<Step>)
    decreases |steps|
  {
    steps == [] || (TimelyStep(s, steps[0]) && TimelyRun(AfterWire(s, steps[0]), steps[1..]))
  }

  lemma TimelyStepAlike(s: System, step: Step)
    requires TimelyStep(s, step)
    ensures AfterWire(s, step) == After(s, step)
  {
    hide HandlePacket, Restored, Timely;
    if step.event.Receive? {
      TimelyIsHandledAlike(if step.atLeft then s.left else s.right, step.event.packet, step.event.late);
    }
  }

  /** As long as packets arrive in time, 24 bits of every number are enough. */
  lemma {:induction false} TimelyRunsAlike(s: System, steps: seq<Step>)
    requires TimelyRun(s, steps)
    ensures WireRun(s, steps) == RudpRuns.Run(s, steps)
    decreases |steps|
  {
    hide AfterWire, TimelyStep;
    if steps != [] {
      TimelyStepAlike(s, steps[0]);
      TimelyRunsAlike(AfterWire(s, steps[0]), steps[1..]);
    }
  }

  /** The safety of quiet runs (RudpRuns.QuietRunsAreSafe) with the numbers as they are on the wire. */
  lemma TimelyQuietRunsAreSafe(leftFirst: nat, rightFirst: nat, steps: seq<Step>)
    requires leftFirst > 0 && rightFirst > 0
    requires QuietRun(Initial(leftFirst, rightFirst), steps) && TimelyRun(Initial(leftFirst, rightFirst), steps)
    ensures
      var s := WireRun(Initial(leftFirst, rightFirst), steps);
      && !s.left.closed && !s.right.closed
      && Truthful(s.left, s.right, leftFirst) && Truthful(s.right, s.left, rightFirst)
      && ReportsArrivals(s.left, rightFirst) && ReportsArrivals(s.right, leftFirst)
  {
    TimelyRunsAlike(Initial(leftFirst, rightFirst), steps);
    QuietRunsAreSafe(leftFirst, rightFirst, steps);
    hide *;
  }
}

/**
 * The run-length encoded acknowledgement vector of
 * openpeer/services/cpp/services_RUDPPacket.cpp: encoder, decoder, and what
 * a decoder reads back from what an encoder wrote.
 */
module RudpVectors {

  /** The two high bits of a vector byte. */
  datatype State = Received | ReceivedEcn | Reserved | NotReceived

  /** A vector byte: a state in the high two bits, a run length in the low six. */
  type Run = r: RunByte | r.length < 64 witness RunByte(Received, 0)
  datatype RunByte = RunByte(state: State, length: nat)

  type Byte = x: nat | x < 256

  /** The wire form: b & 0xC0 is the state, b & 0x3F the run length. */
  function Pack(r: Run): Byte {
    r.length + match r.state { case Received => 0x00 case ReceivedEcn => 0x40 case Reserved => 0x80 case NotReceived => 0xC0 }
  }

  function Unpack(b: Byte): Run {
    RunByte(match b / 64 { case 0 => Received case 1 => ReceivedEcn case 2 => Reserved case _ => NotReceived }, b % 64)
  }

  /** Every byte is the wire form of exactly one run. */
  lemma PackingIsBijective(r: Run, b: Byte)
    ensures Unpack(Pack(r)) == r
    ensures Pack(Unpack(b)) == b
    ensures Pack(r) % 64 == r.length
    ensures (Pack(r) / 64 == 0 <==> r.state == Received) && (Pack(r) / 64 == 1 <==> r.state == ReceivedEcn)
    ensures Pack(r) / 64 == 3 <==> r.state == NotReceived
  {
  }

  function Xor(a: bool, b: bool): bool { a != b }

  // ----- what a vector means -----

  function Repeat(s: State, n: nat): (r: seq<State>)
    ensures |r| == n && forall i :: 0 <= i < n ==> r[i] == s
  {
    seq(n, _ => s)
  }

  /** The states a decoder reads until it has no more data; an empty run ends the vector. */
  function Decode(bytes: seq<Run>): seq<State> {
    if bytes == [] || bytes[0].length == 0 then []
    else Repeat(bytes[0].state, bytes[0].length) + Decode(bytes[1..])
  }

  /** (gsnr - gsnfr - 1) & 0x3F, on 64-bit words or on the 24 bits a packet carries of each number. */
  function MissingRun(gsnr: nat, gsnfr: nat): (n: nat)
    ensures n < 64
  {
    (gsnr - gsnfr - 1) % 64
  }

  /** A packet without a vector whose two numbers differ stands for nothing received between them. */
  function EffectiveVector(bytes: seq<Run>, gsnr: nat, gsnfr: nat): seq<Run> {
    if gsnr != gsnfr && bytes == [] then [RunByte(NotReceived, MissingRun(gsnr, gsnfr))] else bytes
  }

  function DecodeAck(bytes: seq<Run>, gsnr: nat, gsnfr: nat): seq<State> {
    Decode(EffectiveVector(bytes, gsnr, gsnfr))
  }

  /** Truncating both numbers to 24 bits does not change the implied run. */
  lemma MissingRunSurvivesTruncation(gsnr: nat, gsnfr: nat)
    ensures MissingRun(gsnr % 0x100_0000, gsnfr % 0x100_0000) == MissingRun(gsnr, gsnfr)
  {
    var a, b := gsnr / 0x100_0000, gsnfr / 0x100_0000;
    assert gsnr == 0x100_0000 * a + gsnr % 0x100_0000;
    assert gsnfr == 0x100_0000 * b + gsnfr % 0x100_0000;
    var d := gsnr % 0x100_0000 - gsnfr % 0x100_0000 - 1;
    assert gsnr - gsnfr - 1 == d + 64 * (0x4_0000 * (a - b));
    Modulo64(d, 0x4_0000 * (a - b));
  }

  lemma Modulo64(d: int, k: int)
    ensures (d + 64 * k) % 64 == d % 64
  {
  }

  // ----- the encoder -----

  /** One packet to report: its state, and its parity if it was received. */
  datatype Item = Item(state: State, parity: bool)

  /** The bytes written so far, the parity folded in so far, and the number of the packet last offered. */
  datatype Encoding = Encoding(bytes: seq<Run>, xored: bool, current: nat)

  function Start(gsnfr: nat, xoredToGsnfr: bool): Encoding {
    Encoding([], xoredToGsnfr, gsnfr)
  }

  /** Whether a packet with state s needs a byte of its own after these bytes. */
  predicate NeedsByte(bytes: seq<Run>, s: State) {
    bytes == [] || bytes[|bytes| - 1].state != s || bytes[|bytes| - 1].length == 63
  }

  predicate Accepts(e: Encoding, item: Item, gsnr: nat, max: nat) {
    e.current + 1 < gsnr && (NeedsByte(e.bytes, item.state) ==> |e.bytes| < max)
  }

  function Written(bytes: seq<Run>, s: State): seq<Run> {
    if NeedsByte(bytes, s) then bytes + [RunByte(s, 1)]
    else
      var last := bytes[|bytes| - 1];
      bytes[|bytes| - 1 := RunByte(last.state, last.length + 1)]
  }

  function Added(e: Encoding, item: Item, gsnr: nat, max: nat): Encoding {
    if Accepts(e, item, gsnr, max) then
      Encoding(Written(e.bytes, item.state), Xor(e.xored, item.state != NotReceived && item.parity), e.current + 1)
    else e.(current := e.current + 1)
  }

  ghost predicate WellFormed(bytes: seq<Run>) {
    forall i :: 0 <= i < |bytes| ==> bytes[i].length > 0
  }

  lemma WrittenWellFormed(bytes: seq<Run>, s: State)
    requires WellFormed(bytes)
    ensures WellFormed(Written(bytes, s))
    ensures Written(bytes, s)[|Written(bytes, s)| - 1].state == s
  {
  }

  class VectorEncoder {
    var lastState: State
    var xoredParityToNow: bool
    const vector: array<Run>
    var position: nat
    var filled: nat
    const max: nat
    const gsnr: nat
    const gsnfr: nat
    var current: nat

    ghost predicate Valid()
      reads this, vector
    {
      && max <= vector.Length
      && filled <= max
      && position == (if filled == 0 then 0 else filled - 1)
      && (filled > 0 ==> lastState == vector[position].state)
      && WellFormed(vector[..filled])
    }

    ghost function Contents(): Encoding
      reads this, vector
      requires filled <= vector.Length
    {
      Encoding(vector[..filled], xoredParityToNow, current)
    }

    constructor (gsnr: nat, gsnfr: nat, xoredParityToGsnfr: bool, vector: array<Run>, max: nat)
      requires max <= vector.Length
      ensures Valid() && Contents() == Start(gsnfr, xoredParityToGsnfr)
      ensures this.vector == vector && this.max == max && this.gsnr == gsnr && this.gsnfr == gsnfr
    {
      lastState := Received;
      xoredParityToNow := xoredParityToGsnfr;
      this.vector := vector;
      position := 0;
      filled := 0;
      this.max := max;
      this.gsnr := gsnr;
      this.gsnfr := gsnfr;
      current := gsnfr;
    }

    method FoldParity(state: State, parity: bool)
      modifies this`xoredParityToNow
      ensures xoredParityToNow == Xor(old(xoredParityToNow), state != NotReceived && parity)
    {
      if state != NotReceived {
        xoredParityToNow := Xor(xoredParityToNow, parity);
      }
    }

    /** vectorEncoderAdd: false when the GSNR is reached or the vector is full. */
    method Add(state: State, parityIfReceived: bool) returns (added: bool)
      requires Valid()
      modifies this, vector
      ensures Valid()
      ensures Contents() == Added(old(Contents()), Item(state, parityIfReceived), gsnr, max)
      ensures added == Accepts(old(Contents()), Item(state, parityIfReceived), gsnr, max)
    {
      ghost var before := vector[..filled];
      WrittenWellFormed(before, state);
      current := current + 1;
      if current >= gsnr {
        return false;
      }
      if filled == 0 {
        if max == 0 {
          return false;
        }
        vector[0] := RunByte(state, 1);
        FoldParity(state, parityIfReceived);
        filled := 1;
        lastState := state;
        assert vector[..filled] == Written(before, state);
        return true;
      }
      assert before[filled - 1] == vector[position];
      if lastState != state || vector[position].length == 63 {
        if filled >= max {
          return false;
        }
        position := position + 1;
        vector[position] := RunByte(state, 1);
        FoldParity(state, parityIfReceived);
        filled := filled + 1;
        lastState := state;
        assert vector[..filled] == Written(before, state);
        return true;
      }
      vector[position] := RunByte(vector[position].state, vector[position].length + 1);
      FoldParity(state, parityIfReceived);
      assert vector[..filled] == Written(before, state);
      return true;
    }

    /** vectorEncoderFinalize: how many bytes of the vector go into the packet, and the vector parity. */
    method Finalize() returns (vectorParity: bool, length: nat)
      requires Valid()
      ensures length <= filled && vector[..length] == Finalized(vector[..filled], gsnr, gsnfr)
      ensures vectorParity == xoredParityToNow
    {
      vectorParity := xoredParityToNow;
      length := 0;
      if filled == 0 || gsnfr == gsnr || (filled == 1 && lastState == NotReceived) {
        return;
      }
      length := filled;
    }
  }

  /** A vector that says only that packets are missing is left out. */
  function Finalized(bytes: seq<Run>, gsnr: nat, gsnfr: nat): seq<Run> {
    if gsnfr == gsnr || (|bytes| == 1 && bytes[0].state == NotReceived) then [] else bytes
  }

  // ----- the decoder -----

  /** The states of a vector but for the first ones of its first run. */
  ghost function RestFrom(vector: seq<Run>, consumed: nat): seq<State>
    requires consumed == 0 || (vector != [] && consumed < vector[0].length)
  {
    if vector == [] || vector[0].length == 0 then []
    else Repeat(vector[0].state, vector[0].length - consumed) + Decode(vector[1..])
  }

  lemma RestFromStep(vector: seq<Run>, consumed: nat)
    requires vector != [] && consumed < vector[0].length
    ensures
      var rest := RestFrom(vector, consumed);
      && rest != [] && rest[0] == vector[0].state
      && rest[1..] == if consumed + 1 < vector[0].length then RestFrom(vector, consumed + 1) else RestFrom(vector[1..], 0)
  {
    RepeatStep(vector[0].state, vector[0].length - consumed);
    hide Repeat, Decode;
    assert vector[0].length - consumed == 1 ==> RestFrom(vector[1..], 0) == Decode(vector[1..]) by { DecodeIsRest(vector[1..]); }
  }

  lemma RepeatStep(s: State, n: nat)
    requires n > 0
    ensures Repeat(s, n) == [s] + Repeat(s, n - 1)
  {
  }

  lemma DecodeIsRest(vector: seq<Run>)
    ensures RestFrom(vector, 0) == Decode(vector)
  {
  }

  class VectorDecoder {
    var vector: seq<Run>
    var consumedRle: nat

    ghost predicate Valid()
      reads this
    {
      consumedRle == 0 || (vector != [] && consumedRle < vector[0].length)
    }

    /** The states still to be read. */
    ghost function Rest(): seq<State>
      reads this
      requires Valid()
    {
      RestFrom(vector, consumedRle)
    }

    constructor (vector: seq<Run>, gsnr: nat, gsnfr: nat)
      ensures Valid() && Rest() == DecodeAck(vector, gsnr, gsnfr)
    {
      this.vector := EffectiveVector(vector, gsnr, gsnfr);
      consumedRle := 0;
    }

    /** vectorDecoderGetNextPacketState. */
    method GetNext() returns (state: Next)
      requires Valid()
      modifies this
      ensures Valid()
      ensures old(Rest()) == [] ==> state == NoMoreData && Rest() == []
      ensures old(Rest()) != [] ==> state == Next(old(Rest())[0]) && Rest() == old(Rest())[1..]
    {
      if vector == [] || vector[0].length == 0 {
        return NoMoreData;
      }
      RestFromStep(vector, consumedRle);
      hide RestFrom;
      state := Next(vector[0].state);
      consumedRle := consumedRle + 1;
      if consumedRle >= vector[0].length {
        vector := vector[1..];
        consumedRle := 0;
      }
    }
  }

  datatype Next = Next(state: State) | NoMoreData

  // ----- round trips -----

  lemma {:induction false} DecodeAppend(a: seq<Run>, b: seq<Run>)
    requires WellFormed(a)
    ensures Decode(a + b) == Decode(a) + Decode(b)
  {
    if a == [] {
      assert a + b == b;
    } else {
      DecodeAppend(a[1..], b);
      assert (a + b)[1..] == a[1..] + b;
      assert a[0].length > 0;
    }
  }

  lemma DecodeOne(b: Run)
    requires b.length > 0
    ensures Decode([b]) == Repeat(b.state, b.length)
  {
    assert Decode([]) == [];
    assert [b][1..] == [];
  }

  /** Adding a packet adds its state to what is read back, and nothing else. */
  lemma WrittenDecodes(bytes: seq<Run>, s: State)
    requires WellFormed(bytes)
    ensures WellFormed(Written(bytes, s))
    ensures Decode(Written(bytes, s)) == Decode(bytes) + [s]
  {
    var n := |bytes|;
    if NeedsByte(bytes, s) {
      DecodeAppend(bytes, [RunByte(s, 1)]);
      DecodeOne(RunByte(s, 1));
    } else {
      var front, last := bytes[..n - 1], bytes[n - 1];
      var grown: Run := RunByte(last.state, last.length + 1);
      assert bytes == front + [last] && Written(bytes, s) == front + [grown];
      DecodeAppend(front, [last]);
      DecodeAppend(front, [grown]);
      DecodeOne(last);
      DecodeOne(grown);
      assert Repeat(s, last.length + 1) == Repeat(s, last.length) + [s];
    }
  }

  /** How many of the items are taken before the encoder first refuses. */
  function Taken(e: Encoding, items: seq<Item>, gsnr: nat, max: nat): (n: nat)
    ensures n <= |items|
    decreases |items|
  {
    if items == [] || !Accepts(e, items[0], gsnr, max) then 0
    else 1 + Taken(Added(e, items[0], gsnr, max), items[1..], gsnr, max)
  }

  /** The encoding once every item was taken or one was refused. */
  function EncodedAll(e: Encoding, items: seq<Item>, gsnr: nat, max: nat): Encoding
    decreases |items|
  {
    if items == [] || !Accepts(e, items[0], gsnr, max) then e
    else EncodedAll(Added(e, items[0], gsnr, max), items[1..], gsnr, max)
  }

  function States(items: seq<Item>): (s: seq<State>)
    ensures |s| == |items| && forall i :: 0 <= i < |s| ==> s[i] == items[i].state
  {
    seq(|items|, i requires 0 <= i < |items| => items[i].state)
  }

  function ItemsParity(items: seq<Item>): bool {
    if items == [] then false
    else Xor(items[0].state != NotReceived && items[0].parity, ItemsParity(items[1..]))
  }

  /** What is read back is exactly the prefix that was taken, and the parity is that of its received packets. */
  lemma {:induction false} EncodedAllDecodes(e: Encoding, items: seq<Item>, gsnr: nat, max: nat)
    requires WellFormed(e.bytes)
    ensures
      var n, r := Taken(e, items, gsnr, max), EncodedAll(e, items, gsnr, max);
      && WellFormed(r.bytes)
      && Decode(r.bytes) == Decode(e.bytes) + States(items[..n])
      && r.xored == Xor(e.xored, ItemsParity(items[..n]))
      && r.current == e.current + n
    decreases |items|
  {
    var n := Taken(e, items, gsnr, max);
    hide Repeat, Decode, WellFormed;
    if n == 0 {
      assert items[..0] == [];
    } else {
      var f := Added(e, items[0], gsnr, max);
      WrittenDecodes(e.bytes, items[0].state);
      EncodedAllDecodes(f, items[1..], gsnr, max);
      PrefixHead(items, n);
      var rest := States(items[1..][..n - 1]);
      assert Decode(e.bytes) + [items[0].state] + rest == Decode(e.bytes) + ([items[0].state] + rest);
    }
  }

  lemma PrefixHead(items: seq<Item>, n: nat)
    requires 0 < n <= |items|
    ensures States(items[..n]) == [items[0].state] + States(items[1..][..n - 1])
    ensures ItemsParity(items[..n]) ==
      Xor(items[0].state != NotReceived && items[0].parity, ItemsParity(items[1..][..n - 1]))
  {
    assert items[..n][1..] == items[1..][..n - 1];
  }

  /** Zero bytes after a vector, as padding leaves them, are never read as packets. */
  lemma {:induction false} PaddingIsSilent(bytes: seq<Run>, padding: seq<Run>)
    requires WellFormed(bytes)
    requires forall i :: 0 <= i < |padding| ==> padding[i].length == 0
    ensures Decode(bytes + padding) == Decode(bytes)
  {
    DecodeAppend(bytes, padding);
  }

  lemma {:induction false} RunBound(bytes: seq<Run>)
    requires WellFormed(bytes)
    ensures |bytes| <= |Decode(bytes)| <= 63 * |bytes|
  {
    if bytes != [] { RunBound(bytes[1..]); }
  }

  /** Every packet between GSNFR and GSNR that fits the vector is read back, even when the vector was left out. */
  lemma VectorRoundTrip(items: seq<Item>, gsnr: nat, gsnfr: nat, xp: bool, max: nat)
    requires gsnfr < gsnr && |items| == gsnr - gsnfr - 1
    requires Taken(Start(gsnfr, xp), items, gsnr, max) == |items| > 0
    ensures
      var e := EncodedAll(Start(gsnfr, xp), items, gsnr, max);
      DecodeAck(Finalized(e.bytes, gsnr, gsnfr), gsnr, gsnfr) == States(items)
      && e.xored == Xor(xp, ItemsParity(items))
  {
    hide *;
    var start := Start(gsnfr, xp);
    assert WellFormed(start.bytes) && Decode(start.bytes) == [] by { NothingEncoded(gsnfr, xp); }
    EncodedAllDecodes(start, items, gsnr, max);
    assert items[..|items|] == items;
    var e := EncodedAll(start, items, gsnr, max);
    assert Decode(e.bytes) == States(items);
    FinalizedReads(e.bytes, gsnr, gsnfr, |items|);
    assert e.xored == Xor(xp, ItemsParity(items)) by { StartsWith(gsnfr, xp); }
  }

  lemma NothingEncoded(gsnfr: nat, xp: bool)
    ensures WellFormed(Start(gsnfr, xp).bytes) && Decode(Start(gsnfr, xp).bytes) == []
  {
  }

  lemma StartsWith(gsnfr: nat, xp: bool)
    ensures Start(gsnfr, xp).xored == xp
  {
  }

  /** Leaving out a vector of one run of missing packets changes nothing that is read. */
  lemma FinalizedReads(bytes: seq<Run>, gsnr: nat, gsnfr: nat, n: nat)
    requires WellFormed(bytes) && gsnfr < gsnr && n == gsnr - gsnfr - 1 && n > 0 && |Decode(bytes)| == n
    ensures DecodeAck(Finalized(bytes, gsnr, gsnfr), gsnr, gsnfr) == Decode(bytes)
  {
    RunBound(bytes);
    if |bytes| == 1 && bytes[0].state == NotReceived {
      DecodeOne(bytes[0]);
      assert bytes == [bytes[0]];
      DecodeOne(RunByte(NotReceived, MissingRun(gsnr, gsnfr)));
    }
  }
}

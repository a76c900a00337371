/**
 * The wire format of openpeer/services/cpp/services_RUDPPacket.cpp: what parseIfRUDP reads back
 * from what packetize wrote.
 */
module RudpPackets {
  import RudpVectors

  type Byte = RudpVectors.Byte
  type Word = n: nat | n < 0x1_0000
  /** The low 24 bits of a sequence number. */
  type Low24 = n: nat | n < 0x100_0000

  /** OPENPEER_SERVICES_MINIMUM_PACKET_LENGTH_IN_BYTES */
  const MINIMUM: nat := 12

  datatype Option<T> = None | Some(value: T)

  /** The fields of RUDPPacket; mVectorLengthInBytes and mDataLengthInBytes are the lengths. */
  datatype Packet = Packet(channel: Word, sequence: Low24, flags: Byte, gsnr: Low24, gsnfr: Low24,
                           vectorFlags: Byte, vector: seq<Byte>, data: seq<Byte>)

  /** Flag_EQ_GSNREqualsGSNFR, bit 2 */
  predicate Eq(flags: Byte) {
    flags / 4 % 2 == 1
  }

  /** Flag_VP_VectorParity, bit 7: the only vector flag there is room for. */
  function ParityBit(vectorFlags: Byte): Byte {
    if vectorFlags >= 0x80 then 0x80 else 0
  }

  function DwordBoundary(length: nat): (n: nat)
    ensures length <= n < length + 4 && n % 4 == 0
  {
    if length % 4 == 0 then length else length + (4 - length % 4)
  }

  // ----- writing -----

  function Zeros(n: nat): (z: seq<Byte>)
    ensures |z| == n && forall i :: 0 <= i < n ==> z[i] == 0
  {
    seq(n, _ => 0)
  }

  function Word16(n: Word): seq<Byte> {
    [n / 0x100, n % 0x100]
  }

  function Word24(n: Low24): seq<Byte> {
    [n / 0x1_0000, n / 0x100 % 0x100, n % 0x100]
  }

  /** Where packetize throws a bad state. */
  predicate BadState(p: Packet) {
    || |p.data| > 0xFFFF
    || (Eq(p.flags) && p.gsnr != p.gsnfr)
    || (!Eq(p.flags) && |p.vector| > 0x7F)
  }

  function Header(p: Packet): (h: seq<Byte>)
    requires |p.data| <= 0xFFFF
    ensures |h| == MINIMUM
  {
    Word16(p.channel) + Word16(|p.data|) + [p.flags] + Word24(p.sequence) + [0] + Word24(p.gsnr)
  }

  /** The part that is there without the EQ flag: the vector's length and parity, GSNFR. */
  function Extension(p: Packet): (x: seq<Byte>)
    requires !BadState(p)
    ensures |x| == if Eq(p.flags) then 0 else 4
  {
    if Eq(p.flags) then [] else [|p.vector| + ParityBit(p.vectorFlags)] + Word24(p.gsnfr)
  }

  /** The room for the vector, which stays zero under the EQ flag. */
  function VectorRoom(p: Packet): (v: seq<Byte>)
    ensures |v| == DwordBoundary(|p.vector|)
  {
    if Eq(p.flags) then Zeros(DwordBoundary(|p.vector|))
    else p.vector + Zeros(DwordBoundary(|p.vector|) - |p.vector|)
  }

  function Packetized(p: Packet): seq<Byte>
    requires !BadState(p)
  {
    Header(p) + Extension(p) + VectorRoom(p) + p.data
  }

  // ----- reading -----

  function Read16(b: seq<Byte>, at: nat): Word
    requires at + 2 <= |b|
  {
    0x100 * (b[at] as nat) + b[at + 1] as nat
  }

  function Read24(b: seq<Byte>, at: nat): Low24
    requires at + 3 <= |b|
  {
    0x1_0000 * (b[at] as nat) + 0x100 * (b[at + 1] as nat) + b[at + 2] as nat
  }

  /** parseIfRUDP; None when the buffer is too short to be a packet. */
  function Parse(b: seq<Byte>): Option<Packet> {
    if |b| < MINIMUM then None
    else
      var eq := Eq(b[4]);
      if !eq && |b| < MINIMUM + 4 then None
      else
        var extension := if eq then 0 else 4;
        var vectorSize := if eq then 0 else b[12] % 0x80;
        var dataLength := Read16(b, 2);
        var dataAt := MINIMUM + extension + DwordBoundary(vectorSize);
        if |b| < dataAt + dataLength then None
        else Some(Packet(Read16(b, 0), Read24(b, 5), b[4], Read24(b, 9), if eq then Read24(b, 9) else Read24(b, 13),
                         if eq then 0 else ParityBit(b[12]), if eq then [] else b[16..16 + vectorSize],
                         b[dataAt..dataAt + dataLength]))
  }

  // ----- the round trip -----

  lemma HeaderReads(p: Packet, rest: seq<Byte>)
    requires |p.data| <= 0xFFFF
    ensures
      var b := Header(p) + rest;
      && Read16(b, 0) == p.channel && Read16(b, 2) == |p.data| && b[4] == p.flags
      && Read24(b, 5) == p.sequence && Read24(b, 9) == p.gsnr
  {
    var b := Header(p) + rest;
    assert b[0] == p.channel / 0x100 && b[1] == p.channel % 0x100;
    assert b[2] == |p.data| / 0x100 && b[3] == |p.data| % 0x100;
    assert b[5] == p.sequence / 0x1_0000 && b[6] == p.sequence / 0x100 % 0x100 && b[7] == p.sequence % 0x100;
    assert b[9] == p.gsnr / 0x1_0000 && b[10] == p.gsnr / 0x100 % 0x100 && b[11] == p.gsnr % 0x100;
    Three(p.sequence);
    Three(p.gsnr);
  }

  lemma Three(n: Low24)
    ensures 0x1_0000 * (n / 0x1_0000) + 0x100 * (n / 0x100 % 0x100) + n % 0x100 == n
  {
    assert n == 0x100 * (n / 0x100) + n % 0x100;
    assert n / 0x100 == 0x100 * (n / 0x1_0000) + n / 0x100 % 0x100;
  }

  lemma ExtensionReads(p: Packet, rest: seq<Byte>)
    requires !BadState(p) && !Eq(p.flags)
    ensures
      var b := Header(p) + (Extension(p) + rest);
      b[12] % 0x80 == |p.vector| && ParityBit(b[12]) == ParityBit(p.vectorFlags) && Read24(b, 13) == p.gsnfr
  {
    var b := Header(p) + (Extension(p) + rest);
    assert b[12] == |p.vector| + ParityBit(p.vectorFlags);
    assert b[13] == p.gsnfr / 0x1_0000 && b[14] == p.gsnfr / 0x100 % 0x100 && b[15] == p.gsnfr % 0x100;
    Three(p.gsnfr);
  }

  /** What arrives of a packet: under the EQ flag neither vector nor parity, and the data from where the vector would be. */
  function Arrived(p: Packet): Packet
    requires !BadState(p)
  {
    if Eq(p.flags) then p.(vectorFlags := 0, vector := [], data := (VectorRoom(p) + p.data)[..|p.data|])
    else p.(vectorFlags := ParityBit(p.vectorFlags))
  }

  lemma Slice(front: seq<Byte>, tail: seq<Byte>, at: nat, n: nat)
    requires at + n <= |tail|
    ensures (front + tail)[|front| + at..|front| + at + n] == tail[at..at + n]
  {
  }

  /** What parseIfRUDP makes of its buffer, once the fields and the two slices in it are known. */
  lemma PartsParse(b: seq<Byte>, q: Packet)
    requires |b| >= MINIMUM && Eq(q.flags) == Eq(b[4]) && (!Eq(b[4]) ==> |b| >= MINIMUM + 4)
    requires Read16(b, 0) == q.channel && Read16(b, 2) == |q.data| && b[4] == q.flags
    requires Read24(b, 5) == q.sequence && Read24(b, 9) == q.gsnr
    requires if Eq(b[4]) then q.gsnfr == q.gsnr && q.vectorFlags == 0 && q.vector == []
      else Read24(b, 13) == q.gsnfr && q.vectorFlags == ParityBit(b[12]) && b[12] % 0x80 == |q.vector|
    requires
      var dataAt := MINIMUM + (if Eq(b[4]) then 0 else 4) + DwordBoundary(|q.vector|);
      && dataAt + |q.data| <= |b| && b[dataAt..dataAt + |q.data|] == q.data
      && (!Eq(b[4]) ==> b[16..16 + |q.vector|] == q.vector)
    ensures Parse(b) == Some(q)
  {
  }

  lemma Grouped(h: seq<Byte>, x: seq<Byte>, r: seq<Byte>, d: seq<Byte>)
    ensures h + x + r + d == h + (x + (r + d))
    ensures h + x + r + d == (h + x) + (r + d)
  {
  }

  lemma RoomSlices(v: seq<Byte>, z: seq<Byte>, d: seq<Byte>)
    ensures ((v + z) + d)[0..|v|] == v
    ensures ((v + z) + d)[|v + z|..|v + z| + |d|] == d
  {
  }

  lemma ShortReads(p: Packet)
    requires !BadState(p) && Eq(p.flags)
    ensures Parse(Packetized(p)) == Some(Arrived(p))
  {
    var tail, b := VectorRoom(p) + p.data, Packetized(p);
    Grouped(Header(p), Extension(p), VectorRoom(p), p.data);
    HeaderReads(p, Extension(p) + tail);
    Slice(Header(p) + Extension(p), tail, 0, |p.data|);
    assert Arrived(p).data == tail[0..|p.data|];
    hide Parse, Header, Extension, VectorRoom, Packetized, Read16, Read24;
    PartsParse(b, Arrived(p));
  }

  lemma LongReads(p: Packet)
    requires !BadState(p) && !Eq(p.flags)
    ensures Parse(Packetized(p)) == Some(Arrived(p))
  {
    var tail, b := VectorRoom(p) + p.data, Packetized(p);
    Grouped(Header(p), Extension(p), VectorRoom(p), p.data);
    HeaderReads(p, Extension(p) + tail);
    ExtensionReads(p, tail);
    RoomSlices(p.vector, Zeros(DwordBoundary(|p.vector|) - |p.vector|), p.data);
    Slice(Header(p) + Extension(p), tail, 0, |p.vector|);
    Slice(Header(p) + Extension(p), tail, |VectorRoom(p)|, |p.data|);
    hide Parse, Header, Extension, VectorRoom, Packetized, Read16, Read24, Zeros;
    PartsParse(b, Arrived(p));
  }

  lemma ParseReads(p: Packet)
    requires !BadState(p)
    ensures Parse(Packetized(p)) == Some(Arrived(p))
  {
    if Eq(p.flags) { ShortReads(p); } else { LongReads(p); }
  }

  /**
   * The layout on the wire, in network byte order: channel, length of the data, flags, sequence number, a
   * reserved byte, GSNR; without the EQ flag the length of the vector with its parity bit, GSNFR and the
   * vector, padded; and the data at the end.
   */
  lemma WireLayout(p: Packet)
    requires !BadState(p)
    ensures
      var eq := p.flags / 4 % 2 == 1;
      var b, extension, n := Packetized(p), if eq then 0 else 4, |p.vector|;
      && |b| == 12 + extension + DwordBoundary(n) + |p.data|
      && 0x100 * (b[0] as int) + b[1] as int == p.channel && 0x100 * (b[2] as int) + b[3] as int == |p.data|
      && b[4] == p.flags && b[8] == 0
      && 0x1_0000 * (b[5] as int) + 0x100 * (b[6] as int) + b[7] as int == p.sequence
      && 0x1_0000 * (b[9] as int) + 0x100 * (b[10] as int) + b[11] as int == p.gsnr
      && (!eq ==>
            && b[12] % 0x80 == n && (b[12] >= 0x80 <==> p.vectorFlags >= 0x80)
            && 0x1_0000 * (b[13] as int) + 0x100 * (b[14] as int) + b[15] as int == p.gsnfr
            && b[16..16 + n] == p.vector)
      && b[12 + extension + DwordBoundary(n)..] == p.data
  {
    var tail, b := VectorRoom(p) + p.data, Packetized(p);
    Grouped(Header(p), Extension(p), VectorRoom(p), p.data);
    HeaderReads(p, Extension(p) + tail);
    assert b[8] == 0;
    if !Eq(p.flags) {
      ExtensionReads(p, tail);
      LongByte(p, b);
      RoomSlices(p.vector, Zeros(DwordBoundary(|p.vector|) - |p.vector|), p.data);
      Slice(Header(p) + Extension(p), tail, 0, |p.vector|);
    }
    var front := Header(p) + Extension(p) + VectorRoom(p);
    assert b == front + p.data && b[|front|..] == p.data;
    hide Header, Extension, VectorRoom, Packetized, Zeros;
  }

  lemma LongByte(p: Packet, b: seq<Byte>)
    requires !BadState(p) && !Eq(p.flags) && |b| > 12 && ParityBit(b[12]) == ParityBit(p.vectorFlags)
    ensures b[12] >= 0x80 <==> p.vectorFlags >= 0x80
  {
  }

  lemma {:induction false} ShiftedZeros(data: seq<Byte>, k: nat, i: nat)
    requires k > 0 && i < |data| && (Zeros(k) + data)[..|data|] == data
    ensures data[i] == 0
    decreases i
  {
    assert data[i] == (Zeros(k) + data)[i];
    if i >= k { ShiftedZeros(data, k, i - k); }
  }

  /**
   * A packet that packetize accepts is parsed again, with its numbers and flags as they were. Its
   * data is as it was exactly when the packet does not carry both the EQ flag and a vector, or
   * the data is nothing but zeros.
   */
  lemma PacketReadsBackExactlyWhen(p: Packet)
    requires !BadState(p)
    ensures Parse(Packetized(p)).Some?
    ensures
      var q := Parse(Packetized(p)).value;
      && q.channel == p.channel && q.sequence == p.sequence && q.flags == p.flags && q.gsnr == p.gsnr && q.gsnfr == p.gsnfr
      && (!Eq(p.flags) ==> q.vector == p.vector && q.vectorFlags == ParityBit(p.vectorFlags))
      && (Eq(p.flags) ==> q.vector == [] && q.vectorFlags == 0)
      && (q.data == p.data <==> (Eq(p.flags) && p.vector != [] ==> forall i :: 0 <= i < |p.data| ==> p.data[i] == 0))
  {
    ParseReads(p);
    if Eq(p.flags) {
      var k := DwordBoundary(|p.vector|);
      var shifted := (VectorRoom(p) + p.data)[..|p.data|];
      if p.vector == [] {
        assert shifted == p.data;
      } else {
        if shifted == p.data {
          forall i | 0 <= i < |p.data| ensures p.data[i] == 0 { ShiftedZeros(p.data, k, i); }
        }
        if forall i :: 0 <= i < |p.data| ==> p.data[i] == 0 {
          assert shifted == p.data;
        }
      }
    }
  }

  lemma SliceOfPrefix(b: seq<Byte>, more: seq<Byte>, from: nat, n: nat)
    requires from + n <= |b|
    ensures (b + more)[from..from + n] == b[from..from + n]
  {
  }

  /** Nothing shorter than what a packet claims is taken for one, and what follows a packet does not matter. */
  lemma TrailingBytesAreIgnored(b: seq<Byte>, more: seq<Byte>)
    requires Parse(b).Some?
    ensures Parse(b + more) == Parse(b)
  {
    var q := Parse(b).value;
    var dataAt := MINIMUM + (if Eq(b[4]) then 0 else 4) + DwordBoundary(|q.vector|);
    SliceOfPrefix(b, more, dataAt, |q.data|);
    if !Eq(b[4]) { SliceOfPrefix(b, more, 16, |q.vector|); }
    PartsParse(b + more, q);
  }

  /** The buffer begins like the bytes of the packet, but for the reserved byte and the padding. */
  ghost predicate BeginsLike(b: seq<Byte>, p: Packet)
    requires !BadState(p)
  {
    var w, n := Packetized(p), |p.vector|;
    && |w| <= |b|
    && forall i :: 0 <= i < |w| && i != 8 && (Eq(p.flags) || i < 16 + n || i >= 16 + DwordBoundary(n)) ==> b[i] == w[i]
  }

  lemma HeaderWritesBack(b: seq<Byte>, p: Packet)
    requires |b| >= 12 && |p.data| <= 0xFFFF && Read16(b, 0) == p.channel && Read16(b, 2) == |p.data| && b[4] == p.flags
    requires Read24(b, 5) == p.sequence && Read24(b, 9) == p.gsnr
    ensures forall i :: 0 <= i < 12 && i != 8 ==> b[i] == Header(p)[i]
  {
    var h := Header(p);
    TwoBytes(b, 0);
    TwoBytes(b, 2);
    ThreeBytes(b, 5);
    ThreeBytes(b, 9);
    assert h[0..2] == Word16(p.channel) && h[2..4] == Word16(|p.data|) && h[5..8] == Word24(p.sequence) && h[9..12] == Word24(p.gsnr);
    assert h[0] == h[0..2][0] && h[1] == h[0..2][1] && h[2] == h[2..4][0] && h[3] == h[2..4][1];
    assert h[5] == h[5..8][0] && h[6] == h[5..8][1] && h[7] == h[5..8][2];
    assert h[9] == h[9..12][0] && h[10] == h[9..12][1] && h[11] == h[9..12][2];
    hide Read16, Read24, Word16, Word24;
  }

  lemma TwoBytes(b: seq<Byte>, at: nat)
    requires at + 2 <= |b|
    ensures Word16(Read16(b, at)) == [b[at], b[at + 1]]
  {
  }

  lemma ThreeBytes(b: seq<Byte>, at: nat)
    requires at + 3 <= |b|
    ensures Word24(Read24(b, at)) == [b[at], b[at + 1], b[at + 2]]
  {
    Three(Read24(b, at));
  }

  /** The fields and slices of a buffer are those of the packet. */
  ghost predicate Holds(b: seq<Byte>, p: Packet) {
    var n := |p.vector|;
    var at := MINIMUM + (if Eq(p.flags) then 0 else 4) + DwordBoundary(n);
    && at + |p.data| <= |b| && |p.data| <= 0xFFFF
    && Read16(b, 0) == p.channel && Read16(b, 2) == |p.data| && b[4] == p.flags
    && Read24(b, 5) == p.sequence && Read24(b, 9) == p.gsnr
    && b[at..at + |p.data|] == p.data
    && (!Eq(p.flags) ==>
          b[12] % 0x80 == n && (b[12] >= 0x80 <==> p.vectorFlags >= 0x80) && Read24(b, 13) == p.gsnfr && b[16..16 + n] == p.vector)
  }

  lemma ParsedHolds(b: seq<Byte>)
    requires Parse(b).Some?
    ensures Holds(b, Parse(b).value) && !BadState(Parse(b).value)
    ensures Eq(Parse(b).value.flags) ==> Parse(b).value.vector == []
  {
    hide Read16, Read24;
  }

  lemma ExtensionWritesBack(b: seq<Byte>, w: seq<Byte>, n: nat, gsnfr: Low24)
    requires |b| >= 16 && |w| >= 16 && b[12] % 0x80 == w[12] % 0x80 && (b[12] >= 0x80 <==> w[12] >= 0x80)
    requires Read24(b, 13) == gsnfr && Read24(w, 13) == gsnfr
    ensures b[12] == w[12] && b[13] == w[13] && b[14] == w[14] && b[15] == w[15]
  {
    ThreeBytes(b, 13);
    ThreeBytes(w, 13);
    hide Read24, Word24;
    assert [b[13], b[14], b[15]] == [w[13], w[14], w[15]];
    assert [b[13], b[14], b[15]][1] == b[14] && [b[13], b[14], b[15]][2] == b[15];
  }

  lemma SlicesWriteBack(b: seq<Byte>, w: seq<Byte>, from: nat, n: nat, i: nat)
    requires from <= i < from + n <= |b| && from + n <= |w| && b[from..from + n] == w[from..from + n]
    ensures b[i] == w[i]
  {
    assert b[i] == b[from..from + n][i - from] && w[i] == w[from..from + n][i - from];
  }

  lemma HeaderIsFirst(p: Packet)
    requires !BadState(p)
    ensures |Packetized(p)| >= 12 && Packetized(p)[..12] == Header(p)
  {
    Grouped(Header(p), Extension(p), VectorRoom(p), p.data);
    hide Header, Extension, VectorRoom;
  }

  /** What was parsed is a packet that packetize writes as the buffer begins. */
  lemma ParsedWritesBack(b: seq<Byte>)
    requires Parse(b).Some?
    ensures !BadState(Parse(b).value) && BeginsLike(b, Parse(b).value)
  {
    hide Packetized, Parse, Header, Read16, Read24, DwordBoundary, BadState;
    var p := Parse(b).value;
    ParsedHolds(b);
    var w, n := Packetized(p), |p.vector|;
    var at := 12 + (if Eq(p.flags) then 0 else 4) + DwordBoundary(n);
    HeaderWritesBack(b, p);
    HeaderIsFirst(p);
    WireLayout(p);
    WireHolds(p);
    assert Eq(p.flags) ==> n == 0 && DwordBoundary(n) == 0;
    forall i | 0 <= i < |w| && i != 8 && (Eq(p.flags) || i < 16 + n || i >= 16 + DwordBoundary(n)) ensures b[i] == w[i] {
      if i < 12 {
        assert w[i] == w[..12][i];
      } else if i >= at {
        SlicesWriteBack(b, w, at, |p.data|, i);
      } else if i >= 16 {
        SlicesWriteBack(b, w, 16, n, i);
      } else {
        ExtensionWritesBack(b, w, n, p.gsnfr);
      }
    }
  }

  /** Exactly the buffers that begin like the bytes of some packet are taken for packets. */
  lemma ParsesExactlyWhen(b: seq<Byte>)
    ensures Parse(b).Some? <==> exists p :: !BadState(p) && BeginsLike(b, p) && (Eq(p.flags) ==> p.vector == [])
  {
    if Parse(b).Some? {
      ParsedWritesBack(b);
      ParsedHolds(b);
    }
    if p :| !BadState(p) && BeginsLike(b, p) && (Eq(p.flags) ==> p.vector == []) {
      BeginningParses(b, p);
    }
    hide BeginsLike, Parse;
  }

  lemma BeginningParses(b: seq<Byte>, p: Packet)
    requires !BadState(p) && BeginsLike(b, p) && (Eq(p.flags) ==> p.vector == [])
    ensures Parse(b).Some?
  {
    var w := Packetized(p);
    WireLayout(p);
    assert b[2] == w[2] && b[3] == w[3] && b[4] == w[4];
    if !Eq(p.flags) { assert b[12] == w[12]; }
    hide Packetized, BadState, DwordBoundary;
  }

  lemma WireHolds(p: Packet)
    requires !BadState(p)
    ensures Holds(Packetized(p), p)
  {
    hide Packetized, DwordBoundary, BadState;
    WireLayout(p);
    assert |p.data| <= 0xFFFF by { SmallData(p); }
  }

  lemma SmallData(p: Packet)
    requires !BadState(p)
    ensures |p.data| <= 0xFFFF
  {
  }

  // ----- packetize, writing into a zeroed buffer -----

  /** The first n bytes are written, the rest is still zero. */
  ghost predicate WrittenUpTo(buffer: array<Byte>, done: seq<Byte>)
    reads buffer
  {
    |done| <= buffer.Length && buffer[..|done|] == done && forall i :: |done| <= i < buffer.Length ==> buffer[i] == 0
  }

  /** memcpy */
  method Write(buffer: array<Byte>, at: nat, bytes: seq<Byte>, ghost done: seq<Byte>)
    requires WrittenUpTo(buffer, done) && at == |done| && at + |bytes| <= buffer.Length
    modifies buffer
    ensures WrittenUpTo(buffer, done + bytes)
  {
    var i := 0;
    while i < |bytes|
      invariant 0 <= i <= |bytes|
      invariant WrittenUpTo(buffer, done + bytes[..i])
    {
      buffer[at + i] := bytes[i];
      assert done + bytes[..i + 1] == (done + bytes[..i]) + [bytes[i]];
      i := i + 1;
    }
    assert bytes[..i] == bytes;
  }

  /** packetize; None where it throws a bad state. */
  method Packetize(p: Packet) returns (buffer: Option<array<Byte>>)
    ensures buffer.None? <==> BadState(p)
    ensures buffer.Some? ==> fresh(buffer.value) && buffer.value[..] == Packetized(p)
  {
    hide Header, Extension, DwordBoundary, Zeros;
    if |p.data| > 0xFFFF {
      return None;
    }
    var eqFlag := Eq(p.flags);
    if eqFlag && p.gsnr != p.gsnfr {
      return None;
    }
    if !eqFlag && |p.vector| > 0x7F {
      return None;
    }
    var room := DwordBoundary(|p.vector|);
    var extension := if eqFlag then 0 else 4;
    var packet := new Byte[MINIMUM + extension + room + |p.data|](_ => 0);
    Write(packet, 0, Header(p), []);
    assert [] + Header(p) == Header(p);
    Write(packet, MINIMUM, Extension(p), Header(p));
    ghost var done := Header(p) + Extension(p);
    if eqFlag {
      Write(packet, MINIMUM, Zeros(room), done);
    } else {
      Write(packet, MINIMUM + 4, p.vector + Zeros(room - |p.vector|), done);
    }
    Write(packet, MINIMUM + extension + room, p.data, done + VectorRoom(p));
    assert packet[..] == packet[..packet.Length];
    return Some(packet);
  }
}

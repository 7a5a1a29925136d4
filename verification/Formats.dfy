/**
 Telecommand transfer frames (section 4.1 of CCSDS 232.0-B) and telecommand Space Packets (section 4.1
 of CCSDS 133.0-B), built field by field, and the proof that the splitter and the packet search find
 exactly what is so built.
 */
module Formats {
  import opened Bytes
  import opened TcFrames
  import opened SpacePackets
  import opened Streams

  // ---------------------------------------------------------------- transfer frames

  /** `flags` are the first six bits: version, bypass, control command and two spare bits. */
  datatype TcFrame = TcFrame(flags: nat, spacecraft: nat, channel: nat, sequence: byte, data: seq<byte>) {
    predicate Valid() { flags < 64 && spacecraft < 1024 && channel < 64 && |data| <= 1019 }
  }

  /** Ten bits of spacecraft and of length, most significant first; the length is that of the frame less one. */
  function EncodeFrame(f: TcFrame): (s: seq<byte>)
    requires f.Valid()
    ensures |s| == |f.data| + 5
  {
    [f.flags * 4 + f.spacecraft / 256, f.spacecraft % 256,
     f.channel * 4 + (|f.data| + 4) / 256, (|f.data| + 4) % 256, f.sequence] + f.data
  }

  /** The length field is ten bits wide, and counts from one. */
  lemma LengthField(s: seq<byte>, k: nat, n: nat, channel: nat)
    requires k + 5 <= |s| && 1 <= n <= 1024 && channel < 64
    requires s[k + 2] == channel * 4 + (n - 1) / 256 && s[k + 3] == (n - 1) % 256
    ensures AnnouncedLength(s, k) == n
  {
    assert s[k + 2] % 4 == (n - 1) / 256;
  }

  lemma EncodedIsPlausible(s: seq<byte>, k: nat, f: TcFrame)
    requires f.Valid() && k <= |s| && EncodeFrame(f) <= s[k..]
    ensures Plausible(s, k) && AnnouncedLength(s, k) == |EncodeFrame(f)|
  {
    var e := EncodeFrame(f);
    assert s[k + 2] == s[k..][2] == e[2] && s[k + 3] == s[k..][3] == e[3];
    LengthField(s, k, |f.data| + 5, f.channel);
  }

  /** Every string that is as long as it announces is an encoded frame. */
  lemma WholeIsEncoded(s: seq<byte>) returns (f: TcFrame)
    requires WellFormedFrame(s)
    ensures f.Valid() && EncodeFrame(f) == s
  {
    var first: int, third: int := s[0], s[2];
    f := TcFrame(first / 4, first % 4 * 256 + s[1], third / 4, s[4], s[5..]);
    assert s == [s[0], s[1], s[2], s[3], s[4]] + s[5..];
  }

  lemma PlausibleIsEncoded(s: seq<byte>, k: nat) returns (f: TcFrame)
    requires Plausible(s, k)
    ensures f.Valid() && EncodeFrame(f) == s[k..k + AnnouncedLength(s, k)]
  {
    var w := s[k..k + AnnouncedLength(s, k)];
    assert w[2] == s[k + 2] && w[3] == s[k + 3];
    f := WholeIsEncoded(w);
  }

  /** An offset is plausible exactly when an encoded frame starts there. */
  lemma PlausibleExactly(s: seq<byte>, k: nat)
    requires k <= |s|
    ensures Plausible(s, k) <==> exists f: TcFrame :: f.Valid() && EncodeFrame(f) <= s[k..]
  {
    if Plausible(s, k) {
      var f := PlausibleIsEncoded(s, k);
      assert EncodeFrame(f) <= s[k..];
    }
    if f: TcFrame :| f.Valid() && EncodeFrame(f) <= s[k..] {
      EncodedIsPlausible(s, k, f);
    }
  }

  predicate AllValid(fs: seq<TcFrame>) { forall i :: 0 <= i < |fs| ==> fs[i].Valid() }

  function EncodeFrames(fs: seq<TcFrame>): (ss: seq<seq<byte>>)
    requires AllValid(fs)
    ensures |ss| == |fs|
  {
    if fs == [] then [] else [EncodeFrame(fs[0])] + EncodeFrames(fs[1..])
  }

  lemma EncodedFrame(f: TcFrame)
    requires f.Valid()
    ensures WellFormedFrame(EncodeFrame(f))
  {
    var e := EncodeFrame(f);
    assert e[0..] == e;
    EncodedIsPlausible(e, 0, f);
  }

  lemma {:induction false} EncodedFrames(fs: seq<TcFrame>)
    requires AllValid(fs)
    ensures AllFrames(EncodeFrames(fs))
  {
    if fs != [] {
      EncodedFrame(fs[0]);
      EncodedFrames(fs[1..]);
      assert ([EncodeFrame(fs[0])] + EncodeFrames(fs[1..]))[1..] == EncodeFrames(fs[1..]);
    }
  }

  /** The splitter cuts any prefix of a stream of encoded frames into exactly its whole frames. */
  lemma EncodedStreamSplits(s: seq<byte>, fs: seq<TcFrame>)
    requires AllValid(fs) && s <= Flatten(EncodeFrames(fs))
    ensures Split(s).pieces == AsPieces(Complete(EncodeFrames(fs), |s|))
    ensures Split(s).tail <= Flatten(Remaining(EncodeFrames(fs), |s|))
  {
    EncodedFrames(fs);
    SplitStream(s, EncodeFrames(fs));
  }

  // ---------------------------------------------------------------- command packets

  datatype CommandPacket = CommandPacket(secondary: bool, apid: nat, grouping: nat, count: nat, data: seq<byte>) {
    predicate Valid() { apid < 2048 && grouping < 4 && count < 16384 && 1 <= |data| <= 65536 }
  }

  /** Version 0, type 1; the length field is that of the data less one, most significant octet first. */
  function EncodePacket(c: CommandPacket): (s: seq<byte>)
    requires c.Valid()
    ensures |s| == |c.data| + 6
  {
    [16 + (if c.secondary then 8 else 0) + c.apid / 256, c.apid % 256,
     c.grouping * 64 + c.count / 256, c.count % 256,
     (|c.data| - 1) / 256, (|c.data| - 1) % 256] + c.data
  }

  lemma EncodedIsCommand(p: seq<byte>, i: nat, c: CommandPacket)
    requires c.Valid() && i <= |p| && EncodePacket(c) <= p[i..]
    ensures CommandPacketAt(p, i) && PacketSize(p, i) == |EncodePacket(c)|
  {
    var e := EncodePacket(c);
    assert p[i] == p[i..][0] == e[0];
    assert p[i + 4] == p[i..][4] == e[4] && p[i + 5] == p[i..][5] == e[5];
    assert Be16((|c.data| - 1) / 256, (|c.data| - 1) % 256) == |c.data| - 1;
  }

  lemma WholeIsCommand(p: seq<byte>) returns (c: CommandPacket)
    requires WellFormedCommand(p)
    ensures c.Valid() && EncodePacket(c) == p
  {
    var first: int, third: int := p[0], p[2];
    c := CommandPacket(first / 8 % 2 == 1, first % 8 * 256 + p[1], third / 64, third % 64 * 256 + p[3], p[6..]);
    FirstOctet(p[0]);
    assert p == [p[0], p[1], p[2], p[3], p[4], p[5]] + p[6..];
  }

  lemma CommandIsEncoded(p: seq<byte>, i: nat) returns (c: CommandPacket)
    requires CommandPacketAt(p, i)
    ensures c.Valid() && EncodePacket(c) == p[i..i + PacketSize(p, i)]
  {
    var w := p[i..i + PacketSize(p, i)];
    assert w[0] == p[i] && w[4] == p[i + 4] && w[5] == p[i + 5];
    c := WholeIsCommand(w);
  }

  lemma FirstOctet(b: byte)
    requires 16 <= b < 32
    ensures b == 16 + (if b / 8 % 2 == 1 then 8 else 0) + b % 8
  {
  }

  /** A command packet starts at an offset exactly when an encoded packet does. */
  lemma CommandPacketExactly(p: seq<byte>, i: nat)
    requires i <= |p|
    ensures CommandPacketAt(p, i) <==> exists c: CommandPacket :: c.Valid() && EncodePacket(c) <= p[i..]
  {
    if CommandPacketAt(p, i) {
      var c := CommandIsEncoded(p, i);
      assert EncodePacket(c) <= p[i..];
    }
    if c: CommandPacket :| c.Valid() && EncodePacket(c) <= p[i..] {
      EncodedIsCommand(p, i, c);
    }
  }

  /** The three version bits are 0 and the type bit 1 wherever a packet is found. */
  lemma OtherBitsNeverStart(p: seq<byte>, i: nat)
    requires i < |p| && (p[i] / 32 != 0 || p[i] / 16 % 2 != 1)
    ensures forall k :: 0 <= k < |ScanFrom(p, 0)| ==> ScanFrom(p, 0)[k].start != i
  {
    ScanIsGreedy(p, 0);
    forall k | 0 <= k < |ScanFrom(p, 0)|
      ensures ScanFrom(p, 0)[k].start != i
    {
      SliceIsCommand(p, 0, ScanFrom(p, 0), k);
    }
  }

  lemma {:induction false} SliceIsCommand(p: seq<byte>, i: nat, slices: seq<Slice>, k: nat)
    requires GreedyLeftmost(p, i, slices) && k < |slices|
    ensures CommandPacketAt(p, slices[k].start)
    decreases k
  {
    if k > 0 {
      SliceIsCommand(p, slices[0].start + slices[0].size, slices[1..], k - 1);
    }
  }

  predicate AllPackets(cs: seq<CommandPacket>) { forall i :: 0 <= i < |cs| ==> cs[i].Valid() }

  function EncodePackets(cs: seq<CommandPacket>): (ss: seq<seq<byte>>)
    requires AllPackets(cs)
    ensures |ss| == |cs|
  {
    if cs == [] then [] else [EncodePacket(cs[0])] + EncodePackets(cs[1..])
  }

  lemma EncodedPacket(c: CommandPacket)
    requires c.Valid()
    ensures WellFormedCommand(EncodePacket(c))
  {
    var e := EncodePacket(c);
    assert e[0..] == e;
    EncodedIsCommand(e, 0, c);
  }

  lemma {:induction false} EncodedPackets(cs: seq<CommandPacket>)
    requires AllPackets(cs)
    ensures AllCommands(EncodePackets(cs))
  {
    if cs != [] {
      EncodedPacket(cs[0]);
      EncodedPackets(cs[1..]);
      assert ([EncodePacket(cs[0])] + EncodePackets(cs[1..]))[1..] == EncodePackets(cs[1..]);
    }
  }

  /** The search finds exactly the encoded packets that a PDU was made of. */
  lemma EncodedPacketsFound(cs: seq<CommandPacket>)
    requires AllPackets(cs)
    ensures CommandPackets(Flatten(EncodePackets(cs))) == EncodePackets(cs)
  {
    EncodedPackets(cs);
    PacketRoundTrip(EncodePackets(cs));
  }
}

/**
 The search for telecommand Space Packets in a processed PDU. Sizes follow section 4.1.3.5 of
 CCSDS 133.0-B-2: total octets are the length field plus seven.
 */
module SpacePackets {
  import opened Bytes

  const PRIMARY_HEADER := 6

  datatype Slice = Slice(start: nat, size: nat)

  function PacketSize(p: seq<byte>, i: nat): nat
    requires i + PRIMARY_HEADER <= |p|
  {
    Be16(p[i + 4], p[i + 5]) + 7
  }

  /** Version 0, type 1 (telecommand), and the whole announced packet inside `p`. */
  predicate CommandPacketAt(p: seq<byte>, i: nat) {
    && i + PRIMARY_HEADER <= |p|
    && 0x10 <= p[i] < 0x20
    && i + PacketSize(p, i) <= |p|
  }

  // ---------------------------------------------------------------- what a scan must find

  ghost predicate NoneIn(p: seq<byte>, from: nat, to: nat) {
    forall j :: from <= j < to ==> !CommandPacketAt(p, j)
  }

  /**
   Greedy leftmost from `i` on: each slice is a whole command packet, none starts between the end
   of one slice and the start of the next, and none starts after the last.
   */
  ghost predicate GreedyLeftmost(p: seq<byte>, i: nat, slices: seq<Slice>)
    decreases |slices|
  {
    if slices == [] then NoneIn(p, i, |p|)
    else
      var s := slices[0];
      && i <= s.start
      && NoneIn(p, i, s.start)
      && CommandPacketAt(p, s.start)
      && s.size == PacketSize(p, s.start)
      && GreedyLeftmost(p, s.start + s.size, slices[1..])
  }

  /** Slices are command packets inside `p`, in increasing order and disjoint. */
  lemma {:induction false} GreedyDisjoint(p: seq<byte>, i: nat, slices: seq<Slice>, a: nat, b: nat)
    requires GreedyLeftmost(p, i, slices) && a < b < |slices|
    ensures i <= slices[a].start
    ensures CommandPacketAt(p, slices[a].start) && slices[a].size == PacketSize(p, slices[a].start)
    ensures slices[a].start + slices[a].size <= slices[b].start
    ensures slices[b].start + slices[b].size <= |p|
    decreases b
  {
    var s := slices[0];
    if a > 0 {
      GreedyDisjoint(p, s.start + s.size, slices[1..], a - 1, b - 1);
    } else if b > 1 {
      GreedyDisjoint(p, s.start + s.size, slices[1..], 0, b - 1);
    }
  }

  /** The description leaves no choice. */
  lemma {:induction false} GreedyUnique(p: seq<byte>, i: nat, a: seq<Slice>, b: seq<Slice>)
    requires GreedyLeftmost(p, i, a) && GreedyLeftmost(p, i, b)
    ensures a == b
    decreases |a|
  {
    if a != [] && b != [] {
      assert a[0].start == b[0].start;
      GreedyUnique(p, a[0].start + a[0].size, a[1..], b[1..]);
      assert a == [a[0]] + a[1..] && b == [b[0]] + b[1..];
    }
  }

  // ---------------------------------------------------------------- the scan

  function ScanFrom(p: seq<byte>, i: nat): seq<Slice>
    decreases |p| - i
  {
    if i + PRIMARY_HEADER > |p| then []
    else if CommandPacketAt(p, i) then
      [Slice(i, PacketSize(p, i))] + ScanFrom(p, i + PacketSize(p, i))
    else ScanFrom(p, i + 1)
  }

  function PacketAt(p: seq<byte>, s: Slice): seq<byte> {
    if s.start + s.size <= |p| then p[s.start..s.start + s.size] else []
  }

  function Contents(p: seq<byte>, slices: seq<Slice>): seq<seq<byte>> {
    seq(|slices|, i requires 0 <= i < |slices| => PacketAt(p, slices[i]))
  }

  function CommandPackets(p: seq<byte>): seq<seq<byte>> { Contents(p, ScanFrom(p, 0)) }

  lemma SkipOne(p: seq<byte>, i: nat, slices: seq<Slice>)
    requires !CommandPacketAt(p, i) && GreedyLeftmost(p, i + 1, slices)
    ensures GreedyLeftmost(p, i, slices)
  {
  }

  lemma {:induction false} ScanIsGreedy(p: seq<byte>, i: nat)
    ensures GreedyLeftmost(p, i, ScanFrom(p, i))
    decreases |p| - i
  {
    if i + PRIMARY_HEADER <= |p| {
      if CommandPacketAt(p, i) {
        var s, rest := Slice(i, PacketSize(p, i)), ScanFrom(p, i + PacketSize(p, i));
        ScanIsGreedy(p, i + s.size);
        assert ([s] + rest)[1..] == rest;
      } else {
        ScanIsGreedy(p, i + 1);
        SkipOne(p, i, ScanFrom(p, i));
      }
    }
  }

  /** A list of slices is greedy leftmost exactly when it is what the scan yields. */
  lemma ScanCharacterised(p: seq<byte>, slices: seq<Slice>)
    ensures GreedyLeftmost(p, 0, slices) <==> slices == ScanFrom(p, 0)
  {
    ScanIsGreedy(p, 0);
    if GreedyLeftmost(p, 0, slices) {
      GreedyUnique(p, 0, slices, ScanFrom(p, 0));
    }
  }

  // ---------------------------------------------------------------- 16-bit sizes

  /**
   The code adds seven in 16 bits. The sums that wrap are exactly those below seven, so its test
   rejects them and no others; a PDU is at most 65535 octets, so no such packet could fit anyway.
   */
  lemma WrappedSize(packetLength: uint16)
    ensures Wrap16(packetLength + 7) < 7 <==> packetLength + 7 >= 0x1_0000
    ensures Wrap16(packetLength + 7) >= 7 ==> Wrap16(packetLength + 7) == packetLength + 7
  {
  }

  /** The loop of RADIO_ServiceUplink over one processed PDU; each slice is one message sent. */
  method ScanPdu(pdu: seq<byte>) returns (slices: seq<Slice>)
    requires |pdu| < 0x1_0000
    ensures GreedyLeftmost(pdu, 0, slices)
    ensures slices == ScanFrom(pdu, 0)
  {
    slices := [];
    var scanOffset := 0;
    while scanOffset <= |pdu| && |pdu| - scanOffset >= 6
      invariant scanOffset <= |pdu|
      invariant slices + ScanFrom(pdu, scanOffset) == ScanFrom(pdu, 0)
      decreases |pdu| - scanOffset
    {
      var packetId := Be16(pdu[scanOffset], pdu[scanOffset + 1]);
      var packetLength: int := Be16(pdu[scanOffset + 4], pdu[scanOffset + 5]);
      var version := packetId / 0x2000 % 8;
      var kind := packetId / 0x1000 % 2;
      var totalPacketSize := Wrap16(packetLength + 7);
      IdentifierFields(pdu[scanOffset], pdu[scanOffset + 1]);
      WrappedSize(packetLength);
      if version == 0 && kind == 1 && totalPacketSize >= 7 && scanOffset + totalPacketSize <= |pdu| {
        assert slices + ([Slice(scanOffset, totalPacketSize)] + ScanFrom(pdu, scanOffset + totalPacketSize))
            == slices + [Slice(scanOffset, totalPacketSize)] + ScanFrom(pdu, scanOffset + totalPacketSize);
        slices := slices + [Slice(scanOffset, totalPacketSize)];
        scanOffset := scanOffset + totalPacketSize - 1;
      }
      scanOffset := scanOffset + 1;
    }
    ScanCharacterised(pdu, slices);
  }

  lemma IdentifierFields(hi: byte, lo: byte)
    ensures Be16(hi, lo) / 0x2000 % 8 == 0 && Be16(hi, lo) / 0x1000 % 2 == 1 <==> 0x10 <= hi < 0x20
  {
    var n: int := Be16(hi, lo);
    var eighth, sixteenth := hi / 0x20, hi / 0x10;
    assert n == 0x2000 * eighth + (hi % 0x20 * 0x100 + lo) && n / 0x2000 == eighth;
    assert n == 0x1000 * sixteenth + (hi % 0x10 * 0x100 + lo) && n / 0x1000 == sixteenth;
  }

  // ---------------------------------------------------------------- round trip

  /** One complete command packet and nothing else. */
  predicate WellFormedCommand(q: seq<byte>) {
    CommandPacketAt(q, 0) && PacketSize(q, 0) == |q|
  }

  predicate AllCommands(packets: seq<seq<byte>>) {
    packets == [] || (WellFormedCommand(packets[0]) && AllCommands(packets[1..]))
  }

  lemma PacketInPlace(p: seq<byte>, i: nat, q: seq<byte>)
    requires WellFormedCommand(q) && i <= |p| && q <= p[i..]
    ensures CommandPacketAt(p, i) && PacketSize(p, i) == |q| && p[i..i + |q|] == q
  {
    assert forall k :: 0 <= k < |q| ==> p[i + k] == p[i..][k] == q[k];
  }

  /** After `seen`, the scan finds the command packet `q` and goes on behind it. */
  lemma ScanStep(seen: seq<byte>, q: seq<byte>, rest: seq<byte>)
    requires WellFormedCommand(q)
    ensures ScanFrom(seen + q + rest, |seen|) == [Slice(|seen|, |q|)] + ScanFrom(seen + q + rest, |seen + q|)
    ensures (seen + q + rest)[|seen|..|seen| + |q|] == q
  {
    var p := seen + q + rest;
    assert p[|seen|..] == q + rest;
    PacketInPlace(p, |seen|, q);
  }

  lemma FirstContents(p: seq<byte>, s: Slice, rest: seq<Slice>)
    ensures Contents(p, [s] + rest) == [PacketAt(p, s)] + Contents(p, rest)
  {
  }

  /** From the start of a stretch of command packets on, the scan finds each of them. */
  lemma {:induction false} ScanFindsAll(seen: seq<byte>, packets: seq<seq<byte>>)
    requires AllCommands(packets)
    ensures var p := seen + Flatten(packets); Contents(p, ScanFrom(p, |seen|)) == packets
    decreases |packets|
  {
    if packets == [] {
      assert seen + [] == seen;
    } else {
      FindOneMore(seen, packets[0], Flatten(packets[1..]));
      ScanFindsAll(seen + packets[0], packets[1..]);
      assert packets == [packets[0]] + packets[1..];
    }
  }

  lemma FindOneMore(seen: seq<byte>, q: seq<byte>, rest: seq<byte>)
    requires WellFormedCommand(q)
    ensures var p := seen + (q + rest);
            && p == seen + q + rest
            && Contents(p, ScanFrom(p, |seen|)) == [q] + Contents(p, ScanFrom(p, |seen + q|))
  {
    var p := seen + (q + rest);
    Appended(seen, q, rest);
    ScanStep(seen, q, rest);
    FirstContents(p, Slice(|seen|, |q|), ScanFrom(p, |seen + q|));
  }

  /** A PDU made of command packets yields exactly those packets, in order, each once. */
  lemma PacketRoundTrip(packets: seq<seq<byte>>)
    requires AllCommands(packets)
    ensures CommandPackets(Flatten(packets)) == packets
  {
    ScanFindsAll([], packets);
    assert [] + Flatten(packets) == Flatten(packets);
  }
}

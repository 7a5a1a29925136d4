/** From telecommands on the ground to messages on the software bus, with both formats spelled out. */
module Telecommands {
  import opened Bytes
  import opened Streams
  import opened Formats
  import opened Uplink
  import opened Schedules
  import opened Invariants
  import opened EndToEnd
  import opened Pipeline
  import opened Losses

  /** A frame, and the command packets that the security library finds in it. */
  datatype Telecommand = Telecommand(frame: TcFrame, packets: seq<CommandPacket>) {
    predicate Valid() { frame.Valid() && AllPackets(packets) }
  }

  predicate AllTelecommands(ts: seq<Telecommand>) { forall i :: 0 <= i < |ts| ==> ts[i].Valid() }

  function FramesOf(ts: seq<Telecommand>): (fs: seq<seq<byte>>)
    requires AllTelecommands(ts)
    ensures |fs| == |ts|
  {
    if ts == [] then [] else [EncodeFrame(ts[0].frame)] + FramesOf(ts[1..])
  }

  function PacketsOf(ts: seq<Telecommand>): (ps: seq<seq<seq<byte>>>)
    requires AllTelecommands(ts)
    ensures |ps| == |ts|
  {
    if ts == [] then [] else [EncodePackets(ts[0].packets)] + PacketsOf(ts[1..])
  }

  /** Frame by frame, the security library accepts and yields the packets one after the other. */
  predicate Opens(crypto: Crypto, before: seq<seq<byte>>, ts: seq<Telecommand>)
    requires AllTelecommands(ts)
    decreases |ts|
  {
    ts == []
    || (var f := EncodeFrame(ts[0].frame);
        && crypto(before, f).status == 0
        && crypto(before, f).pdu == Flatten(EncodePackets(ts[0].packets))
        && Opens(crypto, before + [f], ts[1..]))
  }

  lemma {:induction false} FramesAreWhole(ts: seq<Telecommand>)
    requires AllTelecommands(ts)
    ensures AllFrames(FramesOf(ts))
  {
    if ts != [] {
      EncodedFrame(ts[0].frame);
      FramesAreWhole(ts[1..]);
      assert ([EncodeFrame(ts[0].frame)] + FramesOf(ts[1..]))[1..] == FramesOf(ts[1..]);
    }
  }

  lemma {:induction false} OpensCarries(crypto: Crypto, before: seq<seq<byte>>, ts: seq<Telecommand>)
    requires AllTelecommands(ts) && Opens(crypto, before, ts)
    ensures Carries(crypto, before, FramesOf(ts), PacketsOf(ts))
    decreases |ts|
  {
    if ts != [] {
      var f := EncodeFrame(ts[0].frame);
      EncodedPackets(ts[0].packets);
      OpensCarries(crypto, before + [f], ts[1..]);
      assert ([f] + FramesOf(ts[1..]))[1..] == FramesOf(ts[1..]);
      assert ([EncodePackets(ts[0].packets)] + PacketsOf(ts[1..]))[1..] == PacketsOf(ts[1..]);
    }
  }

  /**
   The bus carries the command packets of the telecommands handed over, in order, each once; and once
   enough attempts have been made, these are at least those that had been ingested wholly. The radio
   stays on, every datagram fits when it is committed, and no flush finds bytes in the ring.
   */
  lemma GroundToBus(n: Node, crypto: Crypto, moves: seq<Move>, more: seq<Move>, ts: seq<Telecommand>)
    requires FreshNode(n) && AllTelecommands(ts) && Opens(crypto, [], ts)
    requires Polled(n, crypto, moves, more) && KeepsAll(n, crypto, moves + more)
    requires TallyOf(RunNode(n, crypto, moves + more).1).ingested <= Flatten(FramesOf(ts))
    ensures var app := RunNode(n, crypto, moves + more).0.app;
            var handed := |Handed(app)|;
            && |Complete(FramesOf(ts), |TallyOf(RunNode(n, crypto, moves).1).ingested|)| <= handed <= |ts|
            && app.log.sent == Flatten(PacketsOf(ts)[..handed])
  {
    LosslessExactly(n, crypto, moves + more);
    FramesAreWhole(ts);
    OpensCarries(crypto, [], ts);
    CommandDelivery(n, crypto, moves, more, FramesOf(ts), PacketsOf(ts));
  }

  /** Once all telecommands are ingested and polled for, the bus has carried all their packets. */
  lemma AllGroundToBus(n: Node, crypto: Crypto, moves: seq<Move>, more: seq<Move>, ts: seq<Telecommand>)
    requires FreshNode(n) && AllTelecommands(ts) && Opens(crypto, [], ts)
    requires Polled(n, crypto, moves, more) && KeepsAll(n, crypto, moves + more)
    requires TallyOf(RunNode(n, crypto, moves + more).1).ingested <= Flatten(FramesOf(ts))
    requires TallyOf(RunNode(n, crypto, moves).1).ingested == Flatten(FramesOf(ts))
    ensures RunNode(n, crypto, moves + more).0.app.log.sent == Flatten(PacketsOf(ts))
  {
    LosslessExactly(n, crypto, moves + more);
    FramesAreWhole(ts);
    OpensCarries(crypto, [], ts);
    WholeCommandDelivery(n, crypto, moves, more, FramesOf(ts), PacketsOf(ts));
  }
}

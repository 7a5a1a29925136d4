/**
 The downlink over whole runs: packets are enqueued, polls pack them into frames and hand these to the
 radio, and the radio forwards them to the ground. Every packet enqueued has exactly one fate.
 */
module DownlinkRuns {
  import opened Bytes
  import opened Protocol
  import opened Device
  import Radio
  import opened Simulator
  import opened EndToEnd
  import opened Packing
  import opened Downlink
  import opened DownlinkResults

  type RadioState = r: Radio.State | r.Valid() witness Radio.Initial(1, 0, 0, 0)

  /** One transmission: the synchronised frame, whether the radio hears the write, and the ground socket's result. */
  datatype Link = Link(cadu: seq<byte>, heard: bool, radio: RadioState, socket: int) {
    predicate Works() {
      heard && 0 < |cadu| <= 2043 && radio.power != 0 && radio.Transmitting() && socket > 0
    }
  }

  datatype Fate =
    | Reached(packets: seq<Packet>, bytes: seq<byte>) // the ground socket took the frame
    | Untransmitted(packets: seq<Packet>)             // the frame went no further than the radio
    | Abandoned(packets: seq<Packet>)                 // lost with a poll that could not synchronise its frame
    | Cleared(packets: seq<Packet>)                   // read and thrown away outside the downlink modes

  // ---------------------------------------------------------------- one frame over the link

  /** The frame sent by the flight side, as the radio handles the command. */
  function ThroughRadio(frame: seq<Packet>, link: Link): Fate {
    if link.heard && |link.cadu| <= LARGEST_PAYLOAD then
      match Radio.Handle(link.radio, EncodeCommand(SEND_CMD, link.cadu), link.socket).1
      case ToGround(bytes, sent) => if sent > 0 then Reached(frame, bytes) else Untransmitted(frame)
      case _ => Untransmitted(frame)
    else Untransmitted(frame)
  }

  /** The same, told without the wire. */
  function Transmit(frame: seq<Packet>, link: Link): Fate {
    if link.Works() then Reached(frame, link.cadu) else Untransmitted(frame)
  }

  /** A frame reaches the ground, unchanged, exactly when it has a size the device sends and the link works. */
  lemma ReachesExactly(frame: seq<Packet>, link: Link)
    ensures ThroughRadio(frame, link) == Transmit(frame, link)
  {
    if |link.cadu| <= LARGEST_PAYLOAD {
      SendRoundTrip(link.radio, link.cadu, link.socket);
    }
  }

  /**
   RADIO_SendData against the simulator. What the flight side counts as success is the SPI driver's
   result alone: it says nothing of the frame's fate.
   */
  method SendOverLink(sim: RadioSim, data: array<byte>, dataLength: uint16, written: int, heard: bool,
                      socket: int, ghost frame: seq<Packet>)
    returns (status: Status, ghost fate: Fate)
    requires sim.Valid() && dataLength <= data.Length
    modifies sim`hk, sim`config, sim`bytesSent, sim.ring`tail
    ensures sim.Valid()
    ensures status == Success <==> dataLength <= LARGEST_PAYLOAD && written == 5 + dataLength
    ensures fate == old(Transmit(frame, Link(data[..dataLength], heard, sim.Now(), socket)))
  {
    var wire;
    ReachesExactly(frame, Link(data[..dataLength], heard, sim.Now(), socket));
    status, wire := SendData(data, dataLength, written);
    fate := Untransmitted(frame);
    if heard && wire != [] {
      SendFits(data[..dataLength]);
      var response := sim.HandleSpiCommand(wire, socket);
      if response.ToGround? && response.sent > 0 {
        fate := Reached(frame, response.bytes);
      }
    }
  }

  lemma SendFits(payload: seq<byte>)
    requires |payload| < 0x1_0000
    ensures Radio.FitsReplyBuffer(EncodeCommand(SEND_CMD, payload))
  {
    CommandRoundTrip(SEND_CMD, payload, []);
    assert EncodeCommand(SEND_CMD, payload) + [] == EncodeCommand(SEND_CMD, payload);
  }

  // ---------------------------------------------------------------- runs

  datatype Line = Line(pipe: seq<Packet>, fates: seq<Fate>)

  /** `links` tells for each frame of a poll how its transmission goes. */
  datatype Event =
    | Enqueue(packet: Packet)
    | Poll(limit: nat, unsynced: set<nat>, links: nat -> Link)
    | Clear

  function Transmissions(frames: seq<seq<Packet>>, links: nat -> Link): (fates: seq<Fate>)
    ensures |fates| == |frames|
  {
    seq(|frames|, i requires 0 <= i < |frames| => Transmit(frames[i], links(i)))
  }

  lemma Transmitted(frames: seq<seq<Packet>>, links: nat -> Link, i: nat)
    requires i < |frames|
    ensures Transmissions(frames, links)[i] == Transmit(frames[i], links(i))
    ensures Transmissions(frames, links)[i].packets == frames[i]
  {
  }

  function FatesOf(outcome: Outcome, links: nat -> Link): seq<Fate> {
    Transmissions(outcome.sent, links) + if outcome.lost == [] then [] else [Abandoned(outcome.lost)]
  }

  /** Everything but a poll whose loops do not end. */
  predicate Returns(capacity: nat, line: Line, e: Event) {
    e.Poll? ==> Ends(capacity, e.limit, line.pipe, e.unsynced, 0)
  }

  function Apply(capacity: nat, line: Line, e: Event): Line
    requires capacity > 0 && Returns(capacity, line, e)
  {
    match e
    case Enqueue(packet) => line.(pipe := line.pipe + [packet])
    case Poll(limit, unsynced, links) =>
      if limit == 0 then line
      else
        var o := Service(capacity, limit, line.pipe, unsynced, 0);
        Line(o.pipe, line.fates + FatesOf(o, links))
    case Clear => Line([], line.fates + [Cleared(line.pipe)])
  }

  predicate AllReturn(capacity: nat, line: Line, events: seq<Event>)
    requires capacity > 0
    decreases |events|
  {
    || events == []
    || (&& Returns(capacity, line, events[0])
        && AllReturn(capacity, Apply(capacity, line, events[0]), events[1..]))
  }

  function RunLine(capacity: nat, line: Line, events: seq<Event>): Line
    requires capacity > 0 && AllReturn(capacity, line, events)
    decreases |events|
  {
    if events == [] then line else RunLine(capacity, Apply(capacity, line, events[0]), events[1..])
  }

  function Added(e: Event): seq<Packet> { if e.Enqueue? then [e.packet] else [] }

  function Enqueued(events: seq<Event>): seq<Packet> {
    if events == [] then [] else Added(events[0]) + Enqueued(events[1..])
  }

  function PacketsOf(fates: seq<Fate>): seq<Packet> {
    if fates == [] then [] else fates[0].packets + PacketsOf(fates[1..])
  }

  lemma {:induction false} PacketsConcat(a: seq<Fate>, b: seq<Fate>)
    ensures PacketsOf(a + b) == PacketsOf(a) + PacketsOf(b)
  {
    if a == [] {
      assert a + b == b;
    } else {
      assert (a + b)[1..] == a[1..] + b;
      PacketsConcat(a[1..], b);
    }
  }

  // ---------------------------------------------------------------- conservation

  lemma {:induction false} FatesOfFrames(frames: seq<seq<Packet>>, fates: seq<Fate>)
    requires |fates| == |frames| && forall i :: 0 <= i < |frames| ==> fates[i].packets == frames[i]
    ensures PacketsOf(fates) == Flatten(frames)
  {
    if frames != [] {
      FatesOfFrames(frames[1..], fates[1..]);
    }
  }

  lemma OneFate(fate: Fate)
    ensures PacketsOf([fate]) == fate.packets
  {
    assert [fate][1..] == [];
  }

  lemma FatesCarry(outcome: Outcome, links: nat -> Link)
    ensures PacketsOf(FatesOf(outcome, links)) == Flatten(outcome.sent) + outcome.lost
  {
    var sent := Transmissions(outcome.sent, links);
    forall i | 0 <= i < |sent|
      ensures sent[i].packets == outcome.sent[i]
    {
      Transmitted(outcome.sent, links, i);
    }
    FatesOfFrames(outcome.sent, sent);
    if outcome.lost != [] {
      OneFate(Abandoned(outcome.lost));
      PacketsConcat(sent, [Abandoned(outcome.lost)]);
    } else {
      assert sent + [] == sent;
    }
  }

  /** Packets that have met their fate, then those still waiting. */
  function AllPackets(line: Line): seq<Packet> { PacketsOf(line.fates) + line.pipe }

  lemma FatesAdded(line: Line, fates: seq<Fate>, pipe: seq<Packet>)
    requires PacketsOf(fates) + pipe == line.pipe
    ensures AllPackets(Line(pipe, line.fates + fates)) == AllPackets(line)
  {
    PacketsConcat(line.fates, fates);
    var past := PacketsOf(line.fates);
    assert past + PacketsOf(fates) + pipe == past + (PacketsOf(fates) + pipe);
  }

  lemma ApplyConserves(capacity: nat, line: Line, e: Event)
    requires capacity > 0 && Returns(capacity, line, e)
    ensures AllPackets(Apply(capacity, line, e)) == AllPackets(line) + Added(e)
  {
    match e
    case Enqueue(packet) =>
      assert AllPackets(line) + [packet] == PacketsOf(line.fates) + (line.pipe + [packet]);
    case Poll(limit, unsynced, links) =>
      if limit > 0 {
        var o := Service(capacity, limit, line.pipe, unsynced, 0);
        PollConserves(capacity, limit, line.pipe, unsynced, 0);
        FatesCarry(o, links);
        FatesAdded(line, FatesOf(o, links), o.pipe);
      }
    case Clear =>
      OneFate(Cleared(line.pipe));
      assert line.pipe + [] == line.pipe;
      FatesAdded(line, [Cleared(line.pipe)], []);
  }

  /**
   Over any sequence of enqueues, polls and clears, with any failures: the packets of all fates and
   then those still waiting are all the packets that were there and were enqueued, each once, in order.
   */
  lemma {:induction false} DownlinkConserves(capacity: nat, line: Line, events: seq<Event>)
    requires capacity > 0 && AllReturn(capacity, line, events)
    ensures AllPackets(RunLine(capacity, line, events)) == AllPackets(line) + Enqueued(events)
    decreases |events|
  {
    if events != [] {
      ApplyConserves(capacity, line, events[0]);
      DownlinkConserves(capacity, Apply(capacity, line, events[0]), events[1..]);
      Appended(AllPackets(line), Added(events[0]), Enqueued(events[1..]));
    }
  }

  // ---------------------------------------------------------------- what reaches the ground

  /** The frame numbered `j` of a poll reaches the ground, unchanged, or is lost, as its own link decides. */
  lemma FateOfFrame(capacity: nat, line: Line, e: Event, j: nat)
    requires capacity > 0 && Returns(capacity, line, e) && e.Poll? && e.limit > 0
    requires j < |Service(capacity, e.limit, line.pipe, e.unsynced, 0).sent|
    ensures var frame := Service(capacity, e.limit, line.pipe, e.unsynced, 0).sent[j];
            var after := Apply(capacity, line, e).fates;
            && |line.fates| + j < |after|
            && after[|line.fates| + j] == ThroughRadio(frame, e.links(j))
  {
    ReachesExactly(Service(capacity, e.limit, line.pipe, e.unsynced, 0).sent[j], e.links(j));
  }

  function GroundPackets(fates: seq<Fate>): seq<Packet> {
    if fates == [] then []
    else (if fates[0].Reached? then fates[0].packets else []) + GroundPackets(fates[1..])
  }

  /** What the ground socket took, in order. */
  function GroundBytes(fates: seq<Fate>): seq<byte> {
    if fates == [] then []
    else (if fates[0].Reached? then fates[0].bytes else []) + GroundBytes(fates[1..])
  }

  /** No fate other than reaching the ground took any packets. */
  predicate NoneLost(fates: seq<Fate>) {
    forall i :: 0 <= i < |fates| ==> fates[i].Reached? || fates[i].packets == []
  }

  lemma {:induction false} GroundBound(fates: seq<Fate>)
    ensures |GroundPackets(fates)| <= |PacketsOf(fates)|
    ensures |GroundPackets(fates)| == |PacketsOf(fates)| <==> NoneLost(fates)
    ensures NoneLost(fates) ==> GroundPackets(fates) == PacketsOf(fates)
  {
    if fates != [] {
      GroundBound(fates[1..]);
      assert NoneLost(fates) <==> (fates[0].Reached? || fates[0].packets == []) && NoneLost(fates[1..]) by {
        assert fates == [fates[0]] + fates[1..];
      }
    }
  }

  /** The ground has every packet that left the pipe, in order, when no fate took a packet elsewhere. */
  lemma GroundWithoutLoss(capacity: nat, events: seq<Event>)
    requires capacity > 0 && AllReturn(capacity, Line([], []), events)
    ensures var after := RunLine(capacity, Line([], []), events);
            GroundPackets(after.fates) + after.pipe == Enqueued(events) <==> NoneLost(after.fates)
  {
    var start := Line([], []);
    var after := RunLine(capacity, start, events);
    DownlinkConserves(capacity, start, events);
    assert AllPackets(start) + Enqueued(events) == Enqueued(events);
    GroundBound(after.fates);
  }

  // ---------------------------------------------------------------- which events lose no packet

  /** The frames that a poll sends if nothing fails. */
  function FullPoll(capacity: nat, limit: nat, queue: seq<Packet>): seq<seq<Packet>>
    requires limit > 0 && capacity > 0 && Fit(capacity, queue, limit)
  {
    Service(capacity, limit, queue, {}, 0).sent
  }

  /**
   What must hold before an event for it to lose no packet: the pipe is empty when it is cleared; a
   poll finds an empty pipe, or packets that fit, and for each of its frames synchronisation and link.
   */
  predicate Keeps(capacity: nat, line: Line, e: Event)
    requires capacity > 0
  {
    match e
    case Enqueue(_) => true
    case Clear => line.pipe == []
    case Poll(limit, unsynced, links) =>
      || limit == 0
      || line.pipe == []
      || (&& Fit(capacity, line.pipe, limit)
          && forall i :: 0 <= i < |FullPoll(capacity, limit, line.pipe)| ==> i !in unsynced && links(i).Works())
  }

  predicate AllKeep(capacity: nat, line: Line, events: seq<Event>)
    requires capacity > 0 && AllReturn(capacity, line, events)
    decreases |events|
  {
    || events == []
    || (&& Keeps(capacity, line, events[0])
        && AllKeep(capacity, Apply(capacity, line, events[0]), events[1..]))
  }

  lemma NoneLostConcat(a: seq<Fate>, b: seq<Fate>)
    ensures NoneLost(a + b) <==> NoneLost(a) && NoneLost(b)
  {
    forall i | 0 <= i < |a|
      ensures (a + b)[i] == a[i]
    {
    }
    forall i | 0 <= i < |b|
      ensures (a + b)[|a| + i] == b[i]
    {
    }
  }

  lemma NoneLostOne(fate: Fate)
    ensures NoneLost([fate]) <==> fate.Reached? || fate.packets == []
  {
    assert [fate][0] == fate;
  }

  /** Frames that carry packets are not lost exactly when all their links work. */
  lemma TransmissionsKeep(frames: seq<seq<Packet>>, links: nat -> Link)
    requires forall i :: 0 <= i < |frames| ==> frames[i] != []
    ensures NoneLost(Transmissions(frames, links)) <==> forall i :: 0 <= i < |frames| ==> links(i).Works()
  {
    var fates := Transmissions(frames, links);
    forall i | 0 <= i < |frames|
      ensures links(i).Works() <==> fates[i].Reached? || fates[i].packets == []
    {
      Transmitted(frames, links, i);
    }
  }

  lemma FatesKeep(o: Outcome, links: nat -> Link)
    ensures NoneLost(FatesOf(o, links)) <==> o.lost == [] && NoneLost(Transmissions(o.sent, links))
  {
    var sent := Transmissions(o.sent, links);
    if o.lost == [] {
      assert sent + [] == sent;
    } else {
      NoneLostConcat(sent, [Abandoned(o.lost)]);
      NoneLostOne(Abandoned(o.lost));
    }
  }

  /** A poll that cannot place its packets loses some, if it ends at all. */
  lemma {:induction false} UnfitLoses(capacity: nat, room: nat, queue: seq<Packet>, unsynced: set<nat>, turn: nat)
    requires room > 0 && capacity > 0 && Ends(capacity, room, queue, unsynced, turn)
    requires !Fit(capacity, queue, room)
    ensures Service(capacity, room, queue, unsynced, turn).lost != []
    decreases Horizon(capacity, room, queue, unsynced, turn), |queue|
  {
    var f := Filling(room, capacity, queue);
    UnfitGoesOn(capacity, room, queue);
    if turn !in unsynced {
      GoesOn(capacity, room, queue, unsynced, turn);
      UnfitLoses(capacity, room - |f.frame|, f.rest, unsynced, turn + 1);
    }
  }

  /** A poll of packets that fit leaves no frame empty. */
  lemma FramesCarry(capacity: nat, limit: nat, queue: seq<Packet>)
    requires limit > 0 && capacity > 0 && Fit(capacity, queue, limit) && queue != []
    ensures forall i :: 0 <= i < |FullPoll(capacity, limit, queue)| ==> FullPoll(capacity, limit, queue)[i] != []
  {
    var frames := FullPoll(capacity, limit, queue);
    PollIsGreedy(capacity, limit, queue, {}, 0);
    forall i | 0 <= i < |frames|
      ensures frames[i] != []
    {
      if i > 0 {
        ConsecutiveFull(capacity, frames, i - 1);
      }
    }
  }

  /** A poll of packets that fit loses none of them at synchronisation exactly when no turn fails. */
  lemma FitLosesExactly(capacity: nat, limit: nat, queue: seq<Packet>, unsynced: set<nat>)
    requires limit > 0 && capacity > 0 && Fit(capacity, queue, limit) && queue != []
    ensures var full := Service(capacity, limit, queue, {}, 0);
            var o := Service(capacity, limit, queue, unsynced, 0);
            if forall i :: 0 <= i < |full.sent| ==> i !in unsynced then o == full && o.lost == [] else o.lost != []
  {
    var full := Service(capacity, limit, queue, {}, 0);
    LossExactly(capacity, limit, queue, unsynced, 0);
    PollPlacesAll(capacity, limit, queue, 0);
    FramesCarry(capacity, limit, queue);
    assert FullPoll(capacity, limit, queue) == full.sent;
    var j := FirstFailure(unsynced, 0, |full.sent|);
    if j < |full.sent| {
      assert j in unsynced && full.sent[j] != [];
    }
  }

  lemma PollKeepsExactly(capacity: nat, limit: nat, queue: seq<Packet>, unsynced: set<nat>, links: nat -> Link)
    requires limit > 0 && capacity > 0 && Fit(capacity, queue, limit) && queue != []
    ensures NoneLost(FatesOf(Service(capacity, limit, queue, unsynced, 0), links))
            <==> forall i :: 0 <= i < |FullPoll(capacity, limit, queue)| ==> i !in unsynced && links(i).Works()
  {
    FitLosesExactly(capacity, limit, queue, unsynced);
    FatesKeep(Service(capacity, limit, queue, unsynced, 0), links);
    FramesCarry(capacity, limit, queue);
    TransmissionsKeep(FullPoll(capacity, limit, queue), links);
  }

  lemma EmptyPollKeeps(capacity: nat, limit: nat, unsynced: set<nat>, links: nat -> Link)
    requires limit > 0 && capacity > 0
    ensures NoneLost(FatesOf(Service(capacity, limit, [], unsynced, 0), links))
  {
    var frame: seq<Packet> := [];
    assert Filling(limit, capacity, []) == Fill([], []);
    var o := Service(capacity, limit, [], unsynced, 0);
    FatesKeep(o, links);
    forall i | 0 <= i < |o.sent|
      ensures Transmissions(o.sent, links)[i].packets == []
    {
      Transmitted(o.sent, links, i);
    }
  }

  /** One event loses no packet exactly when it keeps them. */
  lemma KeepsExactly(capacity: nat, line: Line, e: Event)
    requires capacity > 0 && Returns(capacity, line, e)
    ensures NoneLost(Apply(capacity, line, e).fates) <==> NoneLost(line.fates) && Keeps(capacity, line, e)
  {
    match e
    case Enqueue(_) =>
    case Clear =>
      NoneLostConcat(line.fates, [Cleared(line.pipe)]);
      NoneLostOne(Cleared(line.pipe));
    case Poll(limit, unsynced, links) =>
      if limit > 0 {
        var o := Service(capacity, limit, line.pipe, unsynced, 0);
        NoneLostConcat(line.fates, FatesOf(o, links));
        if line.pipe == [] {
          EmptyPollKeeps(capacity, limit, unsynced, links);
        } else if Fit(capacity, line.pipe, limit) {
          PollKeepsExactly(capacity, limit, line.pipe, unsynced, links);
        } else {
          UnfitLoses(capacity, limit, line.pipe, unsynced, 0);
          FatesKeep(o, links);
        }
      }
  }

  lemma {:induction false} AllKeepExactly(capacity: nat, line: Line, events: seq<Event>)
    requires capacity > 0 && AllReturn(capacity, line, events)
    ensures NoneLost(RunLine(capacity, line, events).fates) <==> NoneLost(line.fates) && AllKeep(capacity, line, events)
    decreases |events|
  {
    if events != [] {
      KeepsExactly(capacity, line, events[0]);
      AllKeepExactly(capacity, Apply(capacity, line, events[0]), events[1..]);
    }
  }

  /**
   Over any run, exactly: the packets in frames on the ground and then those still waiting are all
   packets enqueued, in order, if and only if every event found what it needs to lose none.
   */
  lemma GroundExactly(capacity: nat, events: seq<Event>)
    requires capacity > 0 && AllReturn(capacity, Line([], []), events)
    ensures var after := RunLine(capacity, Line([], []), events);
            GroundPackets(after.fates) + after.pipe == Enqueued(events)
            <==> AllKeep(capacity, Line([], []), events)
  {
    GroundWithoutLoss(capacity, events);
    AllKeepExactly(capacity, Line([], []), events);
  }

  // ---------------------------------------------------------------- delivery

  /** The most packets that the polls may place. */
  function Budget(events: seq<Event>): nat {
    if events == [] then 0 else (if events[0].Poll? then events[0].limit else 0) + Budget(events[1..])
  }

  /** A poll that keeps its packets takes as many as it may. */
  lemma KeptPollTakes(capacity: nat, line: Line, e: Event)
    requires capacity > 0 && Returns(capacity, line, e) && e.Poll? && Keeps(capacity, line, e)
    ensures |Apply(capacity, line, e).pipe| == |line.pipe| - Min(e.limit, |line.pipe|)
  {
    if e.limit > 0 {
      if line.pipe == [] {
        assert Filling(e.limit, capacity, []) == Fill([], []);
      } else {
        PollPlacesAll(capacity, e.limit, line.pipe, 0);
        FitLosesExactly(capacity, e.limit, line.pipe, e.unsynced);
      }
    }
  }

  /** A clear empties the pipe: what was waiting is lost, and nothing else changes. */
  lemma ClearLosesAll(capacity: nat, line: Line)
    requires capacity > 0
    ensures var after := Apply(capacity, line, Clear);
            && after.pipe == []
            && PacketsOf(after.fates) == PacketsOf(line.fates) + line.pipe
            && GroundPackets(after.fates) == GroundPackets(line.fates)
  {
    OneFate(Cleared(line.pipe));
    PacketsConcat(line.fates, [Cleared(line.pipe)]);
    GroundConcat(line.fates, Cleared(line.pipe));
  }

  lemma {:induction false} GroundConcat(fates: seq<Fate>, fate: Fate)
    requires !fate.Reached?
    ensures GroundPackets(fates + [fate]) == GroundPackets(fates)
  {
    if fates == [] {
      assert [fate][1..] == [] && [] + [fate] == [fate];
    } else {
      assert (fates + [fate])[0] == fates[0] && (fates + [fate])[1..] == fates[1..] + [fate];
      GroundConcat(fates[1..], fate);
    }
  }

  lemma KeptEventTakes(capacity: nat, line: Line, e: Event)
    requires capacity > 0 && Returns(capacity, line, e) && Keeps(capacity, line, e)
    ensures var after := Apply(capacity, line, e);
            |after.pipe| == |line.pipe| + |Added(e)| - if e.Poll? then Min(e.limit, |line.pipe|) else 0
  {
    if e.Poll? {
      KeptPollTakes(capacity, line, e);
    }
  }

  /** While no packet is lost, as many leave the pipe as were waiting at first, or as the polls may place. */
  lemma {:induction false} RunTakes(capacity: nat, line: Line, events: seq<Event>)
    requires capacity > 0 && AllReturn(capacity, line, events) && AllKeep(capacity, line, events)
    ensures |RunLine(capacity, line, events).pipe| + Min(Budget(events), |line.pipe|)
            <= |line.pipe| + |Enqueued(events)|
    decreases |events|
  {
    if events != [] {
      KeptEventTakes(capacity, line, events[0]);
      RunTakes(capacity, Apply(capacity, line, events[0]), events[1..]);
    }
  }

  lemma {:induction false} RunLineConcat(capacity: nat, line: Line, a: seq<Event>, b: seq<Event>)
    requires capacity > 0 && AllReturn(capacity, line, a + b)
    ensures AllReturn(capacity, line, a) && AllReturn(capacity, RunLine(capacity, line, a), b)
    ensures RunLine(capacity, line, a + b) == RunLine(capacity, RunLine(capacity, line, a), b)
    ensures AllKeep(capacity, line, a + b) ==> AllKeep(capacity, RunLine(capacity, line, a), b)
    decreases |a|
  {
    if a == [] {
      assert a + b == b;
    } else {
      assert (a + b)[0] == a[0] && (a + b)[1..] == a[1..] + b;
      RunLineConcat(capacity, Apply(capacity, line, a[0]), a[1..], b);
    }
  }

  lemma {:induction false} EnqueuedConcat(a: seq<Event>, b: seq<Event>)
    ensures Enqueued(a + b) == Enqueued(a) + Enqueued(b)
  {
    if a == [] {
      assert a + b == b;
    } else {
      assert (a + b)[0] == a[0] && (a + b)[1..] == a[1..] + b;
      EnqueuedConcat(a[1..], b);
      Appended(Added(a[0]), Enqueued(a[1..]), Enqueued(b));
    }
  }

  lemma LongEnough<T>(ground: seq<T>, pipe: seq<T>, a: seq<T>, b: seq<T>)
    requires ground + pipe == a + b && |ground| >= |a|
    ensures a <= ground
  {
    assert a == (a + b)[..|a|] == (ground + pipe)[..|a|] == ground[..|a|];
  }

  /**
   Delivery: in a run that loses no packet, every packet enqueued so far is on the ground, in order,
   after any further events whose polls may place as many packets as are waiting now.
   */
  lemma DownlinkDelivery(capacity: nat, events: seq<Event>, more: seq<Event>)
    requires capacity > 0
    requires AllReturn(capacity, Line([], []), events + more) && AllKeep(capacity, Line([], []), events + more)
    ensures AllReturn(capacity, Line([], []), events)
    ensures |RunLine(capacity, Line([], []), events).pipe| <= Budget(more) ==>
              var after := RunLine(capacity, Line([], []), events + more);
              && Enqueued(events) <= GroundPackets(after.fates)
              && (Enqueued(more) == [] ==> after.pipe == [])
  {
    var start := Line([], []);
    RunLineConcat(capacity, start, events, more);
    var middle := RunLine(capacity, start, events);
    var after := RunLine(capacity, middle, more);
    if |middle.pipe| <= Budget(more) {
      RunTakes(capacity, middle, more);
      EnqueuedConcat(events, more);
      GroundExactly(capacity, events + more);
      LongEnough(GroundPackets(after.fates), after.pipe, Enqueued(events), Enqueued(more));
    }
  }

  /** Packets smaller than a frame, no clearing, and polls that neither fail to synchronise nor to transmit. */
  ghost predicate Smooth(capacity: nat, e: Event) {
    match e
    case Enqueue(packet) => packet.Size() < capacity
    case Poll(_, unsynced, links) => unsynced == {} && forall i: nat :: links(i).Works()
    case Clear => false
  }

  ghost predicate AllSmooth(capacity: nat, events: seq<Event>) {
    forall i :: 0 <= i < |events| ==> Smooth(capacity, events[i])
  }

  predicate SmallPackets(capacity: nat, queue: seq<Packet>) {
    forall i :: 0 <= i < |queue| ==> queue[i].Size() < capacity
  }

  lemma SmoothStep(capacity: nat, line: Line, e: Event)
    requires capacity > 0 && SmallPackets(capacity, line.pipe) && Smooth(capacity, e)
    ensures Returns(capacity, line, e) && Keeps(capacity, line, e)
    ensures SmallPackets(capacity, Apply(capacity, line, e).pipe)
  {
    if e.Poll? && e.limit > 0 {
      PollConserves(capacity, e.limit, line.pipe, {}, 0);
      var o := Service(capacity, e.limit, line.pipe, {}, 0);
      assert forall i :: 0 <= i < |o.pipe| ==> o.pipe[i] == line.pipe[|Flatten(o.sent) + o.lost| + i];
    }
  }

  /** Such events can be told apart without the line: all their polls end, and they lose no packet. */
  lemma {:induction false} SmoothRun(capacity: nat, line: Line, events: seq<Event>)
    requires capacity > 0 && SmallPackets(capacity, line.pipe) && AllSmooth(capacity, events)
    ensures AllReturn(capacity, line, events) && AllKeep(capacity, line, events)
    decreases |events|
  {
    if events != [] {
      SmoothStep(capacity, line, events[0]);
      SmoothRun(capacity, Apply(capacity, line, events[0]), events[1..]);
    }
  }
}

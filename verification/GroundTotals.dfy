/**
 The downlink against the radio's own run: the frames of the polls are SEND commands in a schedule of
 the radio, and its total of bytes sent is what the ground has received.
 */
module GroundTotals {
  import opened Bytes
  import opened Protocol
  import opened Device
  import Radio
  import opened Schedules
  import opened Invariants
  import opened EndToEnd
  import opened Packing
  import opened Downlink
  import Runs = DownlinkRuns

  // ---------------------------------------------------------------- one frame

  /** A transmission: what the radio does before it, the synchronised frame, and the ground socket's result. */
  datatype Send = Send(before: seq<Step>, cadu: seq<byte>, heard: bool, socket: int) {
    /** A datagram is taken whole or not at all. */
    predicate Whole() { socket <= 0 || socket == |cadu| }
  }

  predicate IsSend(step: Step) {
    step.Spi? && ParseCommand(step.data).Command? && ParseCommand(step.data).code == SEND_CMD
  }

  /** The flight side sends only from its polls. */
  function Other(step: Step): Step { if IsSend(step) then Periodic else step }

  function Others(steps: seq<Step>): seq<Step> {
    if steps == [] then [] else Others(Front(steps)) + [Other(Last(steps))]
  }

  function Front<T>(s: seq<T>): seq<T>
    requires s != []
  {
    s[..|s| - 1]
  }

  function Last<T>(s: seq<T>): T
    requires s != []
  {
    s[|s| - 1]
  }

  function SendStep(send: Send): Step
    requires |send.cadu| <= LARGEST_PAYLOAD
  {
    Spi(EncodeCommand(SEND_CMD, send.cadu), send.socket)
  }

  function StepsOf(send: Send): seq<Step> {
    Others(send.before)
    + if send.heard && |send.cadu| <= LARGEST_PAYLOAD then [SendStep(send)] else []
  }

  /** The link of a transmission after some steps: the radio hears it when its tick thread is idle. */
  function LinkOf(s: System, steps: seq<Step>, send: Send): Runs.Link
    requires s.radio.Valid()
  {
    var now := Run(s, steps + Others(send.before)).0;
    Runs.Link(send.cadu, send.heard && now.tick.Idle?, now.radio, send.socket)
  }

  /** The bytes of a run that the ground socket took. */
  function Forwarded(s: System, steps: seq<Step>): nat
    requires s.radio.Valid()
  {
    TallyOf(Run(s, steps).1).forwarded
  }

  function Size(e: Event): nat { if e.Downlinked? then e.size else 0 }

  lemma RunSnoc(s: System, steps: seq<Step>, step: Step)
    requires s.radio.Valid()
    ensures var (before, events) := Run(s, steps);
            Run(s, steps + [step]).1 == events + [Next(before, step).1]
  {
    assert (steps + [step])[..|steps|] == steps;
  }

  lemma OneMoreEvent(events: seq<Event>, e: Event)
    ensures TallyOf(events + [e]).forwarded == TallyOf(events).forwarded + Size(e)
  {
    TallySnoc(events, e);
  }

  lemma ForwardedSnoc(s: System, steps: seq<Step>, step: Step)
    requires s.radio.Valid()
    ensures Forwarded(s, steps + [step]) == Forwarded(s, steps) + Size(Next(Run(s, steps).0, step).1)
  {
    RunSnoc(s, steps, step);
    OneMoreEvent(Run(s, steps).1, Next(Run(s, steps).0, step).1);
  }

  lemma OtherForwardsNothing(s: System, step: Step)
    requires s.radio.Valid()
    ensures Size(Next(s, Other(step)).1) == 0
  {
  }

  lemma {:induction false} OthersForwardNothing(s: System, steps: seq<Step>, more: seq<Step>)
    requires s.radio.Valid()
    ensures Forwarded(s, steps + Others(more)) == Forwarded(s, steps)
    decreases |more|
  {
    if more == [] {
      assert steps + [] == steps;
    } else {
      var sofar := steps + Others(Front(more));
      OthersForwardNothing(s, steps, Front(more));
      ForwardedSnoc(s, sofar, Other(Last(more)));
      OtherForwardsNothing(Run(s, sofar).0, Last(more));
      Appended(steps, Others(Front(more)), [Other(Last(more))]);
    }
  }

  lemma SizeOfSpi(s: System, data: seq<byte>, sent: int, response: Radio.Response)
    requires s.radio.Valid() && Radio.FitsReplyBuffer(data) && response == Radio.Handle(s.radio, data, sent).1
    ensures Size(Next(s, Spi(data, sent)).1)
         == if s.tick.Idle? && response.ToGround? && response.sent > 0 then response.sent else 0
  {
  }

  /** What the event of a send is worth, from what the radio makes of it. */
  lemma SizeOfSend(s: System, cadu: seq<byte>, socket: int)
    requires s.radio.Valid() && |cadu| <= LARGEST_PAYLOAD
    ensures Size(Next(s, Spi(EncodeCommand(SEND_CMD, cadu), socket)).1)
         == if Runs.Link(cadu, s.tick.Idle?, s.radio, socket).Works() then socket else 0
  {
    var data := EncodeCommand(SEND_CMD, cadu);
    SendRoundTrip(s.radio, cadu, socket);
    Runs.SendFits(cadu);
    SizeOfSpi(s, data, socket, Radio.Handle(s.radio, data, socket).1);
  }

  lemma SendEvent(s: System, frame: seq<Packet>, cadu: seq<byte>, socket: int)
    requires s.radio.Valid() && |cadu| <= LARGEST_PAYLOAD && (socket <= 0 || socket == |cadu|)
    ensures Size(Next(s, Spi(EncodeCommand(SEND_CMD, cadu), socket)).1)
         == |Runs.GroundBytes([Runs.Transmit(frame, Runs.Link(cadu, s.tick.Idle?, s.radio, socket))])|
  {
    SizeOfSend(s, cadu, socket);
    OneGround(Runs.Transmit(frame, Runs.Link(cadu, s.tick.Idle?, s.radio, socket)));
  }

  lemma OneGround(fate: Runs.Fate)
    ensures Runs.GroundBytes([fate]) == if fate.Reached? then fate.bytes else []
  {
    assert [fate][1..] == [];
  }

  /** One transmission adds to the radio's total what it brings to the ground. */
  lemma SendForwards(s: System, steps: seq<Step>, frame: seq<Packet>, send: Send)
    requires s.radio.Valid() && send.Whole()
    ensures Forwarded(s, steps + StepsOf(send))
         == Forwarded(s, steps) + |Runs.GroundBytes([Runs.Transmit(frame, LinkOf(s, steps, send))])|
  {
    var sofar := steps + Others(send.before);
    OthersForwardNothing(s, steps, send.before);
    OneGround(Runs.Transmit(frame, LinkOf(s, steps, send)));
    if send.heard && |send.cadu| <= LARGEST_PAYLOAD {
      ForwardedSnoc(s, sofar, SendStep(send));
      SendEvent(Run(s, sofar).0, frame, send.cadu, send.socket);
      Appended(steps, Others(send.before), [SendStep(send)]);
    } else {
      assert StepsOf(send) == Others(send.before);
    }
  }

  // ---------------------------------------------------------------- the frames of a poll

  /** The radio's steps up to the end of the first `n` transmissions. */
  function StepsUpTo(steps: seq<Step>, sends: nat -> Send, n: nat): seq<Step> {
    if n == 0 then steps else StepsUpTo(steps, sends, n - 1) + StepsOf(sends(n - 1))
  }

  function LinksOf(s: System, steps: seq<Step>, sends: nat -> Send): nat -> Runs.Link
    requires s.radio.Valid()
  {
    (i: nat) => LinkOf(s, StepsUpTo(steps, sends, i), sends(i))
  }

  lemma {:induction false} GroundBytesConcat(a: seq<Runs.Fate>, b: seq<Runs.Fate>)
    ensures Runs.GroundBytes(a + b) == Runs.GroundBytes(a) + Runs.GroundBytes(b)
  {
    if a == [] {
      assert a + b == b;
    } else {
      assert (a + b)[0] == a[0] && (a + b)[1..] == a[1..] + b;
      GroundBytesConcat(a[1..], b);
      Appended(if a[0].Reached? then a[0].bytes else [], Runs.GroundBytes(a[1..]), Runs.GroundBytes(b));
    }
  }

  lemma SendNumber(s: System, steps: seq<Step>, sends: nat -> Send, frame: seq<Packet>, i: nat)
    requires s.radio.Valid() && sends(i).Whole()
    ensures Forwarded(s, StepsUpTo(steps, sends, i + 1))
         == Forwarded(s, StepsUpTo(steps, sends, i))
            + |Runs.GroundBytes([Runs.Transmit(frame, LinksOf(s, steps, sends)(i))])|
  {
    SendForwards(s, StepsUpTo(steps, sends, i), frame, sends(i));
  }

  /** Totals that grow from one to the next by what a frame brings to the ground. */
  lemma {:induction false} TotalsAdd(totals: seq<nat>, fates: seq<Runs.Fate>)
    requires |totals| == |fates| + 1
    requires forall j {:trigger fates[j]} ::
               0 <= j < |fates| ==> totals[j + 1] == totals[j] + |Runs.GroundBytes([fates[j]])|
    ensures totals[|fates|] == totals[0] + |Runs.GroundBytes(fates)|
    decreases |fates|
  {
    if fates != [] {
      var front, n := fates[..|fates| - 1], |fates| - 1;
      forall j | 0 <= j < n
        ensures totals[..n + 1][j + 1] == totals[..n + 1][j] + |Runs.GroundBytes([front[j]])|
      {
        assert front[j] == fates[j];
      }
      TotalsAdd(totals[..n + 1], front);
      assert fates == front + [fates[n]];
      GroundBytesConcat(front, [fates[n]]);
    }
  }

  function TotalsOf(s: System, steps: seq<Step>, sends: nat -> Send, n: nat): (totals: seq<nat>)
    requires s.radio.Valid()
    ensures |totals| == n + 1
    ensures forall j :: 0 <= j <= n ==> totals[j] == Forwarded(s, StepsUpTo(steps, sends, j))
  {
    seq(n + 1, j requires j >= 0 => Forwarded(s, StepsUpTo(steps, sends, j)))
  }

  /** The transmissions of a poll add to the radio's total what its frames bring to the ground. */
  lemma SendsForward(s: System, steps: seq<Step>, sends: nat -> Send, frames: seq<seq<Packet>>)
    requires s.radio.Valid() && forall j: nat :: sends(j).Whole()
    ensures Forwarded(s, StepsUpTo(steps, sends, |frames|))
         == Forwarded(s, steps) + |Runs.GroundBytes(Runs.Transmissions(frames, LinksOf(s, steps, sends)))|
  {
    var links, totals := LinksOf(s, steps, sends), TotalsOf(s, steps, sends, |frames|);
    var fates := Runs.Transmissions(frames, links);
    forall j | 0 <= j < |fates|
      ensures totals[j + 1] == totals[j] + |Runs.GroundBytes([fates[j]])|
    {
      SendNumber(s, steps, sends, frames[j], j);
    }
    TotalsAdd(totals, fates);
  }

  /** What a poll brings to the ground: its frames, and nothing of what it lost. */
  lemma PollGround(fates: seq<Runs.Fate>, o: Outcome, links: nat -> Runs.Link)
    ensures |Runs.GroundBytes(fates + Runs.FatesOf(o, links))|
         == |Runs.GroundBytes(fates)| + |Runs.GroundBytes(Runs.Transmissions(o.sent, links))|
  {
    var sent := Runs.Transmissions(o.sent, links);
    GroundBytesConcat(fates, Runs.FatesOf(o, links));
    if o.lost == [] {
      assert sent + [] == sent;
    } else {
      OneGround(Runs.Abandoned(o.lost));
      GroundBytesConcat(sent, [Runs.Abandoned(o.lost)]);
    }
  }

  // ---------------------------------------------------------------- runs

  /** The radio's steps since its start, and the downlink line. */
  datatype Ship = Ship(steps: seq<Step>, line: Runs.Line)

  datatype Move =
    | Meanwhile(steps: seq<Step>)
    | Enqueue(packet: Packet)
    | Clear
    | Poll(limit: nat, unsynced: set<nat>, sends: nat -> Send)

  /** What a move is for the line: a poll's links are those of the radio's run. */
  function TaskOf(s: System, ship: Ship, move: Move): Runs.Event
    requires s.radio.Valid()
  {
    match move
    case Meanwhile(_) => Runs.Poll(0, {}, LinksOf(s, ship.steps, _ => Send([], [], false, 0)))
    case Enqueue(packet) => Runs.Enqueue(packet)
    case Clear => Runs.Clear
    case Poll(limit, unsynced, sends) => Runs.Poll(limit, unsynced, LinksOf(s, ship.steps, sends))
  }

  function FrameCount(capacity: nat, limit: nat, queue: seq<Packet>, unsynced: set<nat>): nat
    requires capacity > 0 && Ends(capacity, limit, queue, unsynced, 0)
  {
    if limit == 0 then 0 else |Service(capacity, limit, queue, unsynced, 0).sent|
  }

  function Advance(s: System, capacity: nat, ship: Ship, move: Move): Ship
    requires s.radio.Valid() && capacity > 0 && Runs.Returns(capacity, ship.line, TaskOf(s, ship, move))
  {
    Ship(match move
         case Meanwhile(steps) => ship.steps + Others(steps)
         case Poll(limit, unsynced, sends) =>
           StepsUpTo(ship.steps, sends, FrameCount(capacity, limit, ship.line.pipe, unsynced))
         case _ => ship.steps,
         Runs.Apply(capacity, ship.line, TaskOf(s, ship, move)))
  }

  predicate AllReturn(s: System, capacity: nat, ship: Ship, moves: seq<Move>)
    requires s.radio.Valid() && capacity > 0
    decreases |moves|
  {
    || moves == []
    || (&& Runs.Returns(capacity, ship.line, TaskOf(s, ship, moves[0]))
        && AllReturn(s, capacity, Advance(s, capacity, ship, moves[0]), moves[1..]))
  }

  function RunShip(s: System, capacity: nat, ship: Ship, moves: seq<Move>): Ship
    requires s.radio.Valid() && capacity > 0 && AllReturn(s, capacity, ship, moves)
    decreases |moves|
  {
    if moves == [] then ship else RunShip(s, capacity, Advance(s, capacity, ship, moves[0]), moves[1..])
  }

  ghost predicate Whole(move: Move) { move.Poll? ==> forall i: nat :: move.sends(i).Whole() }

  /** The bytes on the ground are those the radio has counted in its run so far. */
  predicate Matches(s: System, ship: Ship)
    requires s.radio.Valid()
  {
    Forwarded(s, ship.steps) == |Runs.GroundBytes(ship.line.fates)|
  }

  lemma PollMatches(s: System, capacity: nat, ship: Ship, move: Move)
    requires s.radio.Valid() && capacity > 0 && Runs.Returns(capacity, ship.line, TaskOf(s, ship, move))
    requires move.Poll? && move.limit > 0 && Whole(move) && Matches(s, ship)
    ensures Matches(s, Advance(s, capacity, ship, move))
  {
    var o := Service(capacity, move.limit, ship.line.pipe, move.unsynced, 0);
    var links := LinksOf(s, ship.steps, move.sends);
    SendsForward(s, ship.steps, move.sends, o.sent);
    PollGround(ship.line.fates, o, links);
  }

  lemma MoveMatches(s: System, capacity: nat, ship: Ship, move: Move)
    requires s.radio.Valid() && capacity > 0 && Runs.Returns(capacity, ship.line, TaskOf(s, ship, move))
    requires Whole(move) && Matches(s, ship)
    ensures Matches(s, Advance(s, capacity, ship, move))
  {
    match move
    case Meanwhile(steps) => OthersForwardNothing(s, ship.steps, steps);
    case Enqueue(_) =>
    case Clear =>
      OneGround(Runs.Cleared(ship.line.pipe));
      GroundBytesConcat(ship.line.fates, [Runs.Cleared(ship.line.pipe)]);
    case Poll(limit, _, _) =>
      if limit > 0 {
        PollMatches(s, capacity, ship, move);
      }
  }

  lemma {:induction false} RunMatches(s: System, capacity: nat, ship: Ship, moves: seq<Move>)
    requires s.radio.Valid() && capacity > 0 && AllReturn(s, capacity, ship, moves)
    requires Matches(s, ship) && forall i :: 0 <= i < |moves| ==> Whole(moves[i])
    ensures Matches(s, RunShip(s, capacity, ship, moves))
    decreases |moves|
  {
    if moves != [] {
      MoveMatches(s, capacity, ship, moves[0]);
      RunMatches(s, capacity, Advance(s, capacity, ship, moves[0]), moves[1..]);
    }
  }

  function TasksOf(s: System, capacity: nat, ship: Ship, moves: seq<Move>): seq<Runs.Event>
    requires s.radio.Valid() && capacity > 0 && AllReturn(s, capacity, ship, moves)
    decreases |moves|
  {
    if moves == [] then []
    else [TaskOf(s, ship, moves[0])] + TasksOf(s, capacity, Advance(s, capacity, ship, moves[0]), moves[1..])
  }

  /** The line's part of such a run is a run of the line alone, so all that holds of those holds here. */
  lemma {:induction false} LineOfRun(s: System, capacity: nat, ship: Ship, moves: seq<Move>)
    requires s.radio.Valid() && capacity > 0 && AllReturn(s, capacity, ship, moves)
    ensures var tasks := TasksOf(s, capacity, ship, moves);
            && Runs.AllReturn(capacity, ship.line, tasks)
            && Runs.RunLine(capacity, ship.line, tasks) == RunShip(s, capacity, ship, moves).line
    decreases |moves|
  {
    if moves != [] {
      var next := Advance(s, capacity, ship, moves[0]);
      LineOfRun(s, capacity, next, moves[1..]);
      var first, rest := TaskOf(s, ship, moves[0]), TasksOf(s, capacity, next, moves[1..]);
      assert ([first] + rest)[0] == first && ([first] + rest)[1..] == rest;
    }
  }

  // ---------------------------------------------------------------- main results

  const START := Ship([], Runs.Line([], []))

  /**
   Over any run of polls on a radio that takes all its other steps in between, with any failures: the
   radio's total of bytes sent is, mod 2^32, the number of bytes in the frames that reached the ground.
   */
  lemma GroundTotal(s: System, capacity: nat, moves: seq<Move>)
    requires FreshStart(s) && capacity > 0 && AllReturn(s, capacity, START, moves)
    requires forall i :: 0 <= i < |moves| ==> Whole(moves[i])
    ensures var ship := RunShip(s, capacity, START, moves);
            && Forwarded(s, ship.steps) == |Runs.GroundBytes(ship.line.fates)|
            && Run(s, ship.steps).0.radio.bytesSent == Wrap32(|Runs.GroundBytes(ship.line.fates)|)
  {
    RunMatches(s, capacity, START, moves);
    FreshInvariant(s);
    RunKeeps(s, RunShip(s, capacity, START, moves).steps);
  }

  /**
   A housekeeping request after such a run is answered with that number: the reply encodes a
   housekeeping, which the flight side reads back whole, with it as the bytes sent.
   */
  lemma GroundReported(s: System, capacity: nat, moves: seq<Move>) returns (hk: Housekeeping)
    requires FreshStart(s) && capacity > 0 && AllReturn(s, capacity, START, moves)
    requires forall i :: 0 <= i < |moves| ==> Whole(moves[i])
    ensures Radio.HkReply(Radio.Snapshot(Run(s, RunShip(s, capacity, START, moves).steps).0.radio)) == EncodeHk(hk)
    ensures hk.sent == Wrap32(|Runs.GroundBytes(RunShip(s, capacity, START, moves).line.fates)|)
  {
    GroundTotal(s, capacity, moves);
    hk := Radio.Snapshot(Run(s, RunShip(s, capacity, START, moves).steps).0.radio).hk;
  }
}

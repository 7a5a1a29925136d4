/**
 The simulated radio as two threads. A step is one locked section, or one unlocked stretch of a
 thread up to its next lock; a schedule is any list of steps, and a step whose thread is elsewhere
 does nothing. Every event a schedule produces is logged and tallied from what is observable.
 */
module Schedules {
  import opened Bytes
  import opened Protocol
  import opened Radio

  const DATAGRAM_LIMIT := 8192

  datatype GroundThread = Waiting | Admitted(datagram: seq<byte>)

  datatype TickThread =
    | Idle
    | HkPending  // snapshot taken, reply not yet built
    | PowerCut   // power level written, buffers not yet flushed
    | Flushed    // buffers flushed, configuration not yet cleared

  datatype System = System(radio: State, ground: GroundThread, tick: TickThread)

  datatype Step =
    | Datagram(data: seq<byte>)        // arrival, with the unlocked test of power and mode
    | Commit                           // ground thread's locked section
    | Periodic                         // locked interrupt update of a tick
    | Spi(data: seq<byte>, sent: int)  // an SPI command
    | FinishHk                         // the unlocked rest of a housekeeping request
    | Power(level: byte)               // a write to the power pin
    | LockedFlush
    | UnlockedClear
    | DriveIrq(level: byte)            // an external write to the interrupt pin

  datatype Event =
    | Quiet
    | Ingested(data: seq<byte>, stored: nat)
    | Served(requested: uint16, reply: seq<byte>)
    | SnapshotTaken
    | HkSent(reply: seq<byte>)
    | Downlinked(size: nat)
    | FlushedAway(data: seq<byte>)

  function Start(r: State): System { System(r, Waiting, Idle) }

  function EventOf(data: seq<byte>, response: Response): Event {
    match response
    case HkDue => SnapshotTaken
    case Reply(bytes) =>
      (match ParseCommand(data)
       case Command(_, p) => if |p| == 2 then Served(Be16(p[0], p[1]), bytes) else Quiet
       case _ => Quiet)
    case ToGround(_, sent) => if sent > 0 then Downlinked(sent) else Quiet
    case _ => Quiet
  }

  function Next(s: System, step: Step): (System, Event)
    requires s.radio.Valid()
  {
    var r := s.radio;
    match step
    case Datagram(data) =>
      if s.ground.Waiting? && 0 < |data| <= DATAGRAM_LIMIT && r.Listening()
      then (s.(ground := Admitted(data)), Quiet) else (s, Quiet)
    case Commit =>
      if s.ground.Admitted? then
        (s.(radio := Ingest(r, s.ground.datagram), ground := Waiting),
         Ingested(s.ground.datagram, Stored(r, s.ground.datagram)))
      else (s, Quiet)
    case Periodic =>
      if s.tick.Idle? then (s.(radio := Refresh(r)), Quiet) else (s, Quiet)
    case Spi(data, sent) =>
      if s.tick.Idle? && FitsReplyBuffer(data) then
        var (r', response) := Handle(r, data, sent);
        (s.(radio := r', tick := if response.HkDue? then HkPending else Idle), EventOf(data, response))
      else (s, Quiet)
    case FinishHk =>
      if s.tick.HkPending? then (s.(radio := CountCommand(r), tick := Idle), HkSent(HkReply(r)))
      else (s, Quiet)
    case Power(level) =>
      if s.tick.Idle? && level != r.power then
        (s.(radio := r.(power := level), tick := if level == 0 then PowerCut else Idle), Quiet)
      else (s, Quiet)
    case LockedFlush =>
      if s.tick.PowerCut? then (s.(radio := Flush(r), tick := Flushed), FlushedAway(r.queue))
      else (s, Quiet)
    case UnlockedClear =>
      if s.tick.Flushed? then (s.(radio := ClearConfig(r), tick := Idle), Quiet) else (s, Quiet)
    case DriveIrq(level) =>
      if s.tick.Idle? then (s.(radio := r.(irqPin := level)), Quiet) else (s, Quiet)
  }

  // ---------------------------------------------------------------- tallies

  /** Totals over a list of events; bytes served are those the flight side reads in the reply. */
  datatype Tally = Tally(
    ingested: seq<byte>,
    stored: seq<byte>,
    removed: seq<byte>,
    served: seq<byte>,
    flushed: nat,
    dropped: nat,
    forwarded: nat,
    snapIngested: nat,
    snapForwarded: nat,
    snapQueued: int)
  {
    function Add(e: Event): Tally {
      match e
      case Ingested(data, n) =>
        if n <= |data| then
          this.(ingested := ingested + data, stored := stored + data[..n], dropped := dropped + |data| - n)
        else this
      case Served(requested, reply) =>
        (match DecodeReply(reply, requested)
         case Data(bytes) => this.(removed := removed + bytes, served := served + bytes)
         case Failure => this)
      case FlushedAway(data) => this.(removed := removed + data, flushed := flushed + |data|)
      case SnapshotTaken =>
        this.(snapIngested := |ingested|, snapForwarded := forwarded, snapQueued := |stored| - |removed|)
      case Downlinked(size) => this.(forwarded := forwarded + size)
      case HkSent(_) => this
      case Quiet => this
    }
  }

  const ZERO := Tally([], [], [], [], 0, 0, 0, 0, 0, 0)

  function TallyOf(events: seq<Event>): Tally {
    if events == [] then ZERO
    else TallyOf(events[..|events| - 1]).Add(events[|events| - 1])
  }

  lemma TallySnoc(events: seq<Event>, e: Event)
    ensures TallyOf(events + [e]) == TallyOf(events).Add(e)
  {
    assert (events + [e])[..|events|] == events;
  }

  // ---------------------------------------------------------------- runs

  lemma NextValid(s: System, step: Step)
    requires s.radio.Valid()
    ensures Next(s, step).0.radio.Valid()
    ensures Next(s, step).0.radio.capacity == s.radio.capacity
    ensures Next(s, step).0.radio.threshold == s.radio.threshold
  {
  }

  function Run(s: System, steps: seq<Step>): (result: (System, seq<Event>))
    requires s.radio.Valid()
    ensures result.0.radio.Valid() && |result.1| == |steps|
    decreases |steps|
  {
    if steps == [] then (s, [])
    else
      var (before, events) := Run(s, steps[..|steps| - 1]);
      NextValid(before, steps[|steps| - 1]);
      var (after, e) := Next(before, steps[|steps| - 1]);
      (after, events + [e])
  }
}

/** What holds in every state between critical sections, over every schedule of the two threads. */
module Invariants {
  import opened Bytes
  import opened Protocol
  import opened Radio
  import opened Schedules

  /** With a positive threshold, a filled buffer is never left unsignalled. */
  predicate Signalled(s: System) {
    s.radio.threshold > 0 && |s.radio.queue| >= s.radio.threshold ==> s.radio.asserted
  }

  /** Bytes stored left the buffer in order or are still in it; bytes ingested were stored or dropped. */
  predicate Conserved(s: System, t: Tally) {
    && t.stored == t.removed + s.radio.queue
    && |t.ingested| == |t.stored| + t.dropped
    && (t.dropped == 0 ==> t.stored == t.ingested)
    && |t.removed| == |t.served| + t.flushed
    && (t.flushed == 0 ==> t.removed == t.served)
  }

  predicate TotalsKept(s: System, t: Tally) {
    s.radio.bytesReceived == Wrap32(|t.ingested|) && s.radio.bytesSent == Wrap32(t.forwarded)
  }

  /** Between snapshot and reply, the housekeeping holds the totals of the snapshot. */
  predicate SnapshotHeld(s: System, t: Tally) {
    s.tick.HkPending? ==>
      && s.radio.hk.received == Wrap32(t.snapIngested)
      && s.radio.hk.sent == Wrap32(t.snapForwarded)
      && s.radio.hk.inRxBuffer == t.snapQueued <= |s.radio.queue|
  }

  predicate Invariant(s: System, t: Tally) {
    s.radio.Valid() && Signalled(s) && Conserved(s, t) && TotalsKept(s, t) && SnapshotHeld(s, t)
  }

  lemma Wrap32Add(a: nat, b: nat)
    ensures Wrap32(Wrap32(a) + b) == Wrap32(a + b)
  {
  }

  /** What an SPI command can do to the ring and the totals, told by its event. */
  lemma SpiEffects(r: State, data: seq<byte>, sent: int)
    requires r.Valid()
    ensures var (r', response) := Handle(r, data, sent);
            && r'.asserted == r.asserted && r'.threshold == r.threshold && r'.capacity == r.capacity
            && r'.bytesReceived == r.bytesReceived
            && match EventOf(data, response)
               case Served(requested, reply) =>
                 && response.Reply?
                 && DecodeReply(reply, requested) == Data(r.queue[..Min(requested, |r.queue|)])
                 && r.queue == r.queue[..Min(requested, |r.queue|)] + r'.queue
                 && r'.bytesSent == r.bytesSent
               case SnapshotTaken => response.HkDue? && r' == Snapshot(r)
               case Downlinked(n) => !response.HkDue? && r'.queue == r.queue && r'.bytesSent == Wrap32(r.bytesSent + n)
               case Quiet => !response.HkDue? && r'.queue == r.queue && r'.bytesSent == r.bytesSent
               case _ => false
  {
    var parsed := ParseCommand(data);
    if r.power != 0 && parsed.Command? && parsed.code == RECEIVE_CMD && |parsed.payload| == 2 {
      ReceiveRoundTrip(r, Be16(parsed.payload[0], parsed.payload[1]));
    }
  }

  lemma SpiKeeps(s: System, data: seq<byte>, sent: int, t: Tally)
    requires Invariant(s, t)
    ensures var (s', e) := Next(s, Spi(data, sent)); Invariant(s', t.Add(e))
  {
    NextValid(s, Spi(data, sent));
    if s.tick.Idle? && FitsReplyBuffer(data) {
      SpiEffects(s.radio, data, sent);
      var (s', e) := Next(s, Spi(data, sent));
      if e.Served? {
        var n := Min(e.requested, |s.radio.queue|);
        assert t.removed + s.radio.queue[..n] + s'.radio.queue == t.removed + s.radio.queue;
      } else if e.Downlinked? {
        Wrap32Add(t.forwarded, e.size);
      }
    }
  }

  lemma CommitKeeps(s: System, t: Tally)
    requires Invariant(s, t) && s.ground.Admitted?
    ensures var (s', e) := Next(s, Commit); Invariant(s', t.Add(e))
  {
    var data := s.ground.datagram;
    var n := Stored(s.radio, data);
    Wrap32Add(|t.ingested|, |data|);
    assert t.removed + s.radio.queue + data[..n] == t.removed + (s.radio.queue + data[..n]);
  }

  lemma NextKeeps(s: System, step: Step, t: Tally)
    requires Invariant(s, t)
    ensures var (s', e) := Next(s, step); Invariant(s', t.Add(e))
  {
    match step
    case Spi(data, sent) => SpiKeeps(s, data, sent, t);
    case Commit => if s.ground.Admitted? { CommitKeeps(s, t); }
    case LockedFlush =>
      if s.tick.PowerCut? {
        assert t.removed + s.radio.queue + [] == t.removed + s.radio.queue;
      }
    case _ =>
  }

  lemma {:induction false} RunKeeps(s: System, steps: seq<Step>)
    requires Invariant(s, ZERO)
    ensures Invariant(Run(s, steps).0, TallyOf(Run(s, steps).1))
    decreases |steps|
  {
    if steps != [] {
      var front, last := steps[..|steps| - 1], steps[|steps| - 1];
      RunKeeps(s, front);
      var (before, events) := Run(s, front);
      NextKeeps(before, last, TallyOf(events));
      TallySnoc(events, Next(before, last).1);
    }
  }

  predicate FreshStart(s: System) {
    && 0 < s.radio.capacity < 0x1_0000_0000
    && s == Start(Initial(s.radio.capacity, s.radio.threshold, s.radio.power, s.radio.irqPin))
  }

  lemma FreshInvariant(s: System)
    requires FreshStart(s)
    ensures Invariant(s, ZERO)
  {
  }

  // ---------------------------------------------------------------- main results

  /**
   Every run conserves bytes, whatever the interleaving, late commits after a power-off included:
   ingested = served + queued + dropped + flushed, and the buffer is a queue: what was stored is
   what was removed, then what is still there.
   */
  lemma ByteConservation(s: System, steps: seq<Step>)
    requires FreshStart(s)
    ensures var (s', events) := Run(s, steps);
            var t := TallyOf(events);
            && |t.ingested| == |t.served| + |s'.radio.queue| + t.dropped + t.flushed
            && t.stored == t.removed + s'.radio.queue
            && |s'.radio.queue| < s'.radio.capacity
  {
    FreshInvariant(s);
    RunKeeps(s, steps);
  }

  /** No missed half-full signal, in any state of any run. */
  lemma NoMissedSignal(s: System, steps: seq<Step>)
    requires FreshStart(s) && s.radio.threshold > 0
    ensures var r := Run(s, steps).0.radio;
            |r.queue| >= s.radio.threshold ==> r.asserted
  {
    FreshInvariant(s);
    RunKeeps(s, steps);
    ParametersFixed(s, steps);
  }

  lemma {:induction false} ParametersFixed(s: System, steps: seq<Step>)
    requires s.radio.Valid()
    ensures Run(s, steps).0.radio.threshold == s.radio.threshold
    ensures Run(s, steps).0.radio.capacity == s.radio.capacity
    decreases |steps|
  {
    if steps != [] {
      ParametersFixed(s, steps[..|steps| - 1]);
      NextValid(Run(s, steps[..|steps| - 1]).0, steps[|steps| - 1]);
    }
  }

  /** Events of a run's beginning are the run's first events. */
  lemma {:induction false} RunPrefix(s: System, steps: seq<Step>, k: nat)
    requires s.radio.Valid() && k < |steps|
    ensures var (before, events) := Run(s, steps[..k]);
            Run(s, steps).1[..k] == events && Run(s, steps).1[k] == Next(before, steps[k]).1
    decreases |steps|
  {
    var front := steps[..|steps| - 1];
    if k < |front| {
      RunPrefix(s, front, k);
      assert front[..k] == steps[..k];
    } else {
      assert steps[..k] == front;
    }
  }

  lemma HkReplySays(s: System, step: Step)
    requires s.radio.Valid() && Next(s, step).1.HkSent?
    ensures s.tick.HkPending?
    ensures DecodeHk(Next(s, step).1.reply) == Hk(s.radio.hk.(inRxBuffer := |s.radio.queue|))
  {
    if step.Spi? && s.tick.Idle? && FitsReplyBuffer(step.data) {
      SpiEffects(s.radio, step.data, step.sent);
    }
    HkRoundTrip(s.radio.hk.(inRxBuffer := |s.radio.queue|));
  }

  lemma ServedSays(s: System, step: Step)
    requires s.radio.Valid() && Next(s, step).1.Served?
    ensures var e, q := Next(s, step).1, s.radio.queue;
            DecodeReply(e.reply, e.requested) == Data(q[..Min(e.requested, |q|)])
  {
    if step.Spi? && s.tick.Idle? && FitsReplyBuffer(step.data) {
      SpiEffects(s.radio, step.data, step.sent);
    }
  }

  /**
   Every housekeeping reply of every run parses, and carries the exact totals, mod 2^32, of ground
   bytes ingested (overflow drops included) and of bytes sent to ground when its snapshot was taken,
   whatever RECEIVE and SEND did to the counters before. The buffer count, read again outside the
   lock, is the count when the reply is built and never below the snapshot's.
   */
  lemma ReportedTotals(s: System, steps: seq<Step>, k: nat)
    requires FreshStart(s) && k < |steps|
    requires Run(s, steps).1[k].HkSent?
    ensures var t := TallyOf(Run(s, steps).1[..k]);
            var result := DecodeHk(Run(s, steps).1[k].reply);
            && result.Hk?
            && result.hk.received == Wrap32(t.snapIngested)
            && result.hk.sent == Wrap32(t.snapForwarded)
            && result.hk.inRxBuffer == |Run(s, steps[..k]).0.radio.queue| >= t.snapQueued
  {
    FreshInvariant(s);
    RunPrefix(s, steps, k);
    RunKeeps(s, steps[..k]);
    HkReplySays(Run(s, steps[..k]).0, steps[k]);
  }

  /** Every receive reply of every run gives the flight side exactly the head of the queue. */
  lemma ServedExactly(s: System, steps: seq<Step>, k: nat)
    requires FreshStart(s) && k < |steps|
    requires Run(s, steps).1[k].Served?
    ensures var e := Run(s, steps).1[k];
            var t := TallyOf(Run(s, steps).1[..k]);
            var q := Run(s, steps[..k]).0.radio.queue;
            && DecodeReply(e.reply, e.requested) == Data(q[..Min(e.requested, |q|)])
            && t.stored == t.removed + q
  {
    FreshInvariant(s);
    RunPrefix(s, steps, k);
    RunKeeps(s, steps[..k]);
    ServedSays(Run(s, steps[..k]).0, steps[k]);
  }

  // ---------------------------------------------------------------- power-off

  /** The ring of a radio that was flushed while the ground thread was at `g`. */
  predicate OffSince(s: System, g: GroundThread, committed: bool) {
    && s.radio.Valid() && s.radio.power == 0 && !s.tick.PowerCut?
    && s.ground == (if committed then Waiting else g)
    && s.radio.queue == (if committed && g.Admitted? then g.datagram[..Min(|g.datagram|, s.radio.capacity - 1)] else [])
  }

  /**
   A datagram admitted before the power was cut may land after the flush. While the power stays off
   the ring holds that datagram exactly when its commit has happened, and nothing otherwise.
   */
  lemma {:induction false} LateCommitExactly(s: System, steps: seq<Step>)
    requires s.radio.Valid() && s.tick.Flushed? && s.radio.power == 0 && s.radio.queue == []
    requires forall step :: step in steps && step.Power? ==> step.level == 0
    ensures OffSince(Run(s, steps).0, s.ground, s.ground.Admitted? && Commit in steps)
    decreases |steps|
  {
    if steps != [] {
      var front, last := steps[..|steps| - 1], steps[|steps| - 1];
      assert steps == front + [last];
      assert forall step :: step in front ==> step in steps;
      assert last in steps;
      LateCommitExactly(s, front);
      ParametersFixed(s, front);
      var before := Run(s, front).0;
      OffNext(before, last, s.ground, s.ground.Admitted? && Commit in front);
      assert Commit in steps <==> Commit in front || last == Commit;
    }
  }

  lemma OffNext(s: System, step: Step, g: GroundThread, committed: bool)
    requires s.radio.Valid() && OffSince(s, g, committed)
    requires committed ==> g.Admitted?
    requires step.Power? ==> step.level == 0
    ensures OffSince(Next(s, step).0, g, committed || (g.Admitted? && step.Commit?))
  {
    if step.Commit? && s.ground.Admitted? {
      assert [] + g.datagram[..Stored(s.radio, g.datagram)] == g.datagram[..Min(|g.datagram|, s.radio.capacity - 1)];
    }
  }
}

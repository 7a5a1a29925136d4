/**
 What decides whether the radio listens, transmits and answers: its power, its configuration and where
 its threads are, over every schedule. Modes and settings are spelled out as numbers here.
 */
module Modes {
  import opened Bytes
  import opened Protocol
  import opened Radio
  import opened Schedules
  import opened Invariants
  import opened Commands

  // ---------------------------------------------------------------- arrivals

  /** A datagram that the ground thread takes up: powered, receiving or duplex, and not busy with another. */
  predicate Heard(s: System, step: Step) {
    && step.Datagram? && 1 <= |step.data| <= 8192
    && s.ground.Waiting? && s.radio.power != 0 && (s.radio.config.mode == 2 || s.radio.config.mode == 3)
  }

  function Pending(g: GroundThread): seq<byte> { if g.Admitted? then g.datagram else [] }

  /** The bytes of all datagrams taken up in a run, in order. */
  function Arrived(s: System, steps: seq<Step>): seq<byte>
    requires s.radio.Valid()
    decreases |steps|
  {
    if steps == [] then []
    else
      var front, last := steps[..|steps| - 1], steps[|steps| - 1];
      Arrived(s, front) + if Heard(Run(s, front).0, last) then last.data else []
  }

  lemma SpiIngestsNothing(r: State, data: seq<byte>, sent: int)
    requires r.Valid()
    ensures !EventOf(data, Handle(r, data, sent).1).Ingested?
  {
  }

  lemma NextArrives(s: System, step: Step, t: Tally)
    requires s.radio.Valid()
    ensures var (s', e) := Next(s, step);
            t.Add(e).ingested + Pending(s'.ground)
            == t.ingested + Pending(s.ground) + if Heard(s, step) then step.data else []
  {
    if step.Spi? {
      SpiIngestsNothing(s.radio, step.data, step.sent);
    }
  }

  /** What was ingested in a run is what arrived, in order, but for the datagram still on its way to the ring. */
  lemma {:induction false} ArrivedIsIngested(s: System, steps: seq<Step>)
    requires FreshStart(s)
    ensures Arrived(s, steps) == TallyOf(Run(s, steps).1).ingested + Pending(Run(s, steps).0.ground)
    decreases |steps|
  {
    if steps != [] {
      var front, last := steps[..|steps| - 1], steps[|steps| - 1];
      ArrivedIsIngested(s, front);
      var (before, events) := Run(s, front);
      NextArrives(before, last, TallyOf(events));
      TallySnoc(events, Next(before, last).1);
    }
  }

  // ---------------------------------------------------------------- power

  /** The level of the last write to the power pin that took effect, or the level at the start. */
  function PowerNow(s: System, steps: seq<Step>): byte
    requires s.radio.Valid()
    decreases |steps|
  {
    if steps == [] then s.radio.power
    else
      var front, last := steps[..|steps| - 1], steps[|steps| - 1];
      if last.Power? && Run(s, front).0.tick.Idle? then last.level else PowerNow(s, front)
  }

  lemma HandleKeepsPower(r: State, data: seq<byte>, sent: int)
    requires r.Valid()
    ensures Handle(r, data, sent).0.power == r.power
  {
  }

  lemma NextPower(s: System, step: Step)
    requires s.radio.Valid()
    ensures Next(s, step).0.radio.power == if step.Power? && s.tick.Idle? then step.level else s.radio.power
  {
    if step.Spi? {
      HandleKeepsPower(s.radio, step.data, step.sent);
    }
  }

  lemma {:induction false} PowerOverRuns(s: System, steps: seq<Step>)
    requires s.radio.Valid()
    ensures Run(s, steps).0.radio.power == PowerNow(s, steps)
    decreases |steps|
  {
    if steps != [] {
      var front, last := steps[..|steps| - 1], steps[|steps| - 1];
      PowerOverRuns(s, front);
      NextPower(Run(s, front).0, last);
    }
  }

  // ---------------------------------------------------------------- configuration

  function Settings(p: seq<byte>): Config
    requires |p| == 5
  {
    Config(p[0], p[1], p[2], p[3], p[4])
  }

  /** Set by the last configuration command or clear: duplex at first, all zero after a power-off. */
  function ConfigNow(s: System, steps: seq<Step>): Config
    requires s.radio.Valid()
    decreases |steps|
  {
    if steps == [] then Config(3, 0, 0, 0, 0)
    else
      var front, last := steps[..|steps| - 1], steps[|steps| - 1];
      var before := Run(s, front).0;
      if Clears(before, last) then Config(0, 0, 0, 0, 0)
      else if Configures(before, last) then Settings(ParseCommand(last.data).payload)
      else ConfigNow(s, front)
  }

  lemma HandleConfigures(r: State, data: seq<byte>, sent: int)
    requires r.Valid()
    ensures var c, r' := ParseCommand(data), Handle(r, data, sent).0;
            if r.power != 0 && c.Command? && c.code == SET_CFG_CMD && |c.payload| == CFG_PAYLOAD_SIZE
            then r'.config == Settings(c.payload)
            else r'.config == r.config
  {
  }

  lemma NextConfig(s: System, step: Step)
    requires s.radio.Valid()
    ensures Next(s, step).0.radio.config
         == if Clears(s, step) then Config(0, 0, 0, 0, 0)
            else if Configures(s, step) then Settings(ParseCommand(step.data).payload)
            else s.radio.config
  {
    if step.Spi? {
      HandleConfigures(s.radio, step.data, step.sent);
      var c := ParseCommand(step.data);
      assert c.Command? && c.code == SET_CFG_CMD ==> FitsReplyBuffer(step.data);
    }
  }

  /** In every state of every run, the configuration is the one last set. */
  lemma {:induction false} ConfigOverRuns(s: System, steps: seq<Step>)
    requires FreshStart(s)
    ensures Run(s, steps).0.radio.config == ConfigNow(s, steps)
    ensures Run(s, steps).0.radio.hk.mode == ConfigNow(s, steps).mode
    decreases |steps|
  {
    ModeOverRuns(s, steps);
    if steps != [] {
      var front, last := steps[..|steps| - 1], steps[|steps| - 1];
      ConfigOverRuns(s, front);
      NextConfig(Run(s, front).0, last);
    }
  }

  lemma LastStep(s: System, steps: seq<Step>, more: seq<Step>)
    requires s.radio.Valid() && more != []
    ensures var all, front := steps + more, more[..|more| - 1];
            && all[..|all| - 1] == steps + front && all[|all| - 1] == more[|more| - 1]
  {
  }

  lemma SameConfigures(s: System, a: seq<Step>, b: seq<Step>, k: nat)
    requires s.radio.Valid() && a <= b && k < |a|
    ensures ConfiguresAt(s, a, k) == ConfiguresAt(s, b, k)
  {
    assert a[..k] == b[..k];
  }

  lemma StillClearedStep(s: System, all: seq<Step>)
    requires s.radio.Valid() && all != [] && !ConfiguresAt(s, all, |all| - 1)
    requires ConfigNow(s, all[..|all| - 1]) == Config(0, 0, 0, 0, 0)
    ensures ConfigNow(s, all) == Config(0, 0, 0, 0, 0)
  {
  }

  lemma {:induction false} StillCleared(s: System, steps: seq<Step>, more: seq<Step>)
    requires s.radio.Valid() && steps != [] && ClearsAt(s, steps, |steps| - 1)
    requires forall k: nat :: |steps| <= k < |steps + more| ==> !ConfiguresAt(s, steps + more, k)
    ensures ConfigNow(s, steps + more) == Config(0, 0, 0, 0, 0)
    decreases |more|
  {
    if more == [] {
      assert steps + more == steps;
    } else {
      var all, front := steps + more, more[..|more| - 1];
      LastStep(s, steps, more);
      forall k: nat | |steps| <= k < |steps + front|
        ensures !ConfiguresAt(s, steps + front, k)
      {
        assert !ConfiguresAt(s, all, k);
        SameConfigures(s, steps + front, all, k);
      }
      StillCleared(s, steps, front);
      assert !ConfiguresAt(s, all, |all| - 1);
      StillClearedStep(s, all);
    }
  }

  /**
   After a power-off has cleared the configuration, and until a configuration command of the right
   length is executed, the radio sleeps: configured and reported mode are 0, a datagram changes
   nothing, and nothing is sent to ground.
   */
  lemma SleepsUntilConfigured(s: System, steps: seq<Step>, more: seq<Step>, data: seq<byte>, sent: int)
    requires FreshStart(s) && steps != [] && ClearsAt(s, steps, |steps| - 1)
    requires forall k: nat :: |steps| <= k < |steps + more| ==> !ConfiguresAt(s, steps + more, k)
    ensures var now := Run(s, steps + more).0;
            && now.radio.config.mode == 0 && now.radio.hk.mode == 0
            && Next(now, Datagram(data)) == (now, Quiet)
            && !Handle(now.radio, data, sent).1.ToGround?
  {
    StillCleared(s, steps, more);
    ConfigOverRuns(s, steps + more);
    AsleepSendsNothing(Run(s, steps + more).0.radio, data, sent);
  }

  lemma AsleepSendsNothing(r: State, data: seq<byte>, sent: int)
    requires r.Valid() && r.config.mode == 0
    ensures !Handle(r, data, sent).1.ToGround?
  {
  }

  // ---------------------------------------------------------------- what a mode allows

  /** After the configuration command, a datagram is taken up in modes 2 and 3, and a frame sent in modes 1 and 3. */
  lemma ModeDecides(s: System, setting: seq<byte>, p: seq<byte>, data: seq<byte>, frame: seq<byte>, sent: int)
    requires s.radio.Valid() && s.radio.power != 0 && s.tick.Idle? && s.ground.Waiting?
    requires ParseCommand(setting) == Command(2, p) && |p| == 5
    requires 0 < |frame| < 0x1_0000
    ensures var now := Next(s, Spi(setting, 0)).0;
            && now.radio.Valid()
            && Next(now, Datagram(data)).0.ground
               == (if 1 <= |data| <= 8192 && (p[0] == 2 || p[0] == 3) then Admitted(data) else Waiting)
            && (Handle(now.radio, EncodeCommand(4, frame), sent).1 == ToGround(frame, sent) <==> p[0] == 1 || p[0] == 3)
  {
    Configured(s, setting, p);
    var now := Next(s, Spi(setting, 0)).0;
    SentFrame(now.radio, EncodeCommand(4, frame), frame, sent);
    CommandRoundTrip(4, frame, []);
    assert EncodeCommand(4, frame) + [] == EncodeCommand(4, frame);
  }

  lemma Configured(s: System, setting: seq<byte>, p: seq<byte>)
    requires s.radio.Valid() && s.radio.power != 0 && s.tick.Idle?
    requires ParseCommand(setting) == Command(2, p) && |p| == 5
    ensures var now := Next(s, Spi(setting, 0)).0;
            && now.radio.Valid() && now.radio.power == s.radio.power && now.ground == s.ground
            && now.radio.config.mode == p[0]
  {
  }

  lemma SentFrame(r: State, data: seq<byte>, frame: seq<byte>, sent: int)
    requires r.Valid() && r.power != 0 && frame != []
    ensures ParseCommand(data) == Command(4, frame) ==>
              (Handle(r, data, sent).1 == ToGround(frame, sent) <==> r.config.mode == 1 || r.config.mode == 3)
  {
  }

  // ---------------------------------------------------------------- a power-off

  /** Switched off and left alone, the radio ends up flushed, silent, asleep and ready for the next tick. */
  lemma PowerOffResets(s: System)
    requires s.radio.Valid() && s.tick.Idle? && s.radio.power != 0
    ensures var cut := Next(s, Power(0)).0;
            cut.radio.Valid() &&
            var flushed := Next(cut, LockedFlush).0;
            flushed.radio.Valid() &&
            var off := Next(flushed, UnlockedClear).0;
            && off.tick.Idle? && off.ground == s.ground
            && off.radio.power == 0 && off.radio.queue == [] && !off.radio.asserted && off.radio.irqPin == 0
            && off.radio.config == Config(0, 0, 0, 0, 0) && off.radio.hk == s.radio.hk.(mode := 0)
            && off.radio.bytesReceived == s.radio.bytesReceived && off.radio.bytesSent == s.radio.bytesSent
  {
  }

  // ---------------------------------------------------------------- counting

  /** A step that executes a command: the radio is on, its tick thread idle, and the bytes parse. */
  predicate Executes(s: System, step: Step) {
    && step.Spi? && s.tick.Idle? && s.radio.power != 0
    && FitsReplyBuffer(step.data) && ParseCommand(step.data).Command?
  }

  function Executed(s: System, steps: seq<Step>): nat
    requires s.radio.Valid()
    decreases |steps|
  {
    if steps == [] then 0
    else
      var front, last := steps[..|steps| - 1], steps[|steps| - 1];
      Executed(s, front) + if Executes(Run(s, front).0, last) then 1 else 0
  }

  /** The counter, with a housekeeping request whose reply is still to come. */
  function Counter(s: System): uint16 { Wrap16(s.radio.hk.counter + if s.tick.HkPending? then 1 else 0) }

  lemma CountedOnce(counter: uint16)
    ensures Wrap16(counter) == counter && Wrap16(Wrap16(counter + 1)) == Wrap16(counter + 1)
  {
  }

  lemma SpiCounts(s: System, data: seq<byte>, sent: int)
    requires s.radio.Valid()
    ensures var s' := Next(s, Spi(data, sent)).0;
            if Executes(s, Spi(data, sent)) then Counter(s') == Wrap16(s.radio.hk.counter + 1)
            else Counter(s') == Counter(s)
  {
    CounterMoves(s.radio, data, sent);
    CountedOnce(s.radio.hk.counter);
  }

  lemma NextCounts(s: System, step: Step)
    requires s.radio.Valid()
    ensures Counter(Next(s, step).0) == Wrap16(Counter(s) + if Executes(s, step) then 1 else 0)
  {
    CountedOnce(s.radio.hk.counter);
    CountedOnce(Counter(s));
    if step.Spi? {
      SpiCounts(s, step.data, step.sent);
    }
  }

  lemma CountOneMore(counter: uint16, n: nat, one: nat)
    requires counter == n % 65536
    ensures Wrap16(counter + one) == (n + one) % 65536
  {
  }

  lemma CountsOneStep(s: System, step: Step, n: nat)
    requires s.radio.Valid() && Counter(s) == n % 65536
    ensures Counter(Next(s, step).0) == (n + if Executes(s, step) then 1 else 0) % 65536
  {
    NextCounts(s, step);
    CountOneMore(Counter(s), n, if Executes(s, step) then 1 else 0);
  }

  /** The command counter of every run: each command executed is counted once, a housekeeping request with its reply. */
  lemma {:induction false} CountsOverRuns(s: System, steps: seq<Step>)
    requires FreshStart(s)
    ensures Counter(Run(s, steps).0) == Executed(s, steps) % 65536
    decreases |steps|
  {
    if steps != [] {
      var front, last := steps[..|steps| - 1], steps[|steps| - 1];
      CountsOverRuns(s, front);
      CountsOneStep(Run(s, front).0, last, Executed(s, front));
    }
  }

  // ---------------------------------------------------------------- the totals in the housekeeping

  datatype Totals = Totals(received: nat, sent: nat)

  /** What an executed command makes of the totals; `t` has the true ones. */
  function TotalsAfter(was: Totals, r: State, code: byte, p: seq<byte>, sent: int, t: Tally): Totals {
    if code == 1 then Totals(|t.ingested|, t.forwarded)
    else if code == 3 && |p| == 2 then was.(sent := was.sent + Min(256 * (p[0] as int) + p[1], |r.queue|))
    else if code == 4 && p != [] then
      Totals(was.received + |p|,
             was.sent + if (r.config.mode == 1 || r.config.mode == 3) && sent > 0 then sent else 0)
    else was
  }

  /** Between housekeeping requests, bytes served and sent, and frames from the host, are added to the totals. */
  function TotalsNow(s: System, steps: seq<Step>): Totals
    requires s.radio.Valid()
    decreases |steps|
  {
    if steps == [] then Totals(0, 0)
    else
      var front, last := steps[..|steps| - 1], steps[|steps| - 1];
      var (before, events) := Run(s, front);
      var was := TotalsNow(s, front);
      if Executes(before, last) then
        var c := ParseCommand(last.data);
        TotalsAfter(was, before.radio, c.code, c.payload, last.sent, TallyOf(events))
      else was
  }

  predicate Holds(r: State, totals: Totals) {
    r.hk.received == totals.received % 0x1_0000_0000 && r.hk.sent == totals.sent % 0x1_0000_0000
  }

  lemma AddTo(field: uint32, total: nat, n: nat)
    requires field == total % 0x1_0000_0000
    ensures Wrap32(field + n) == (total + n) % 0x1_0000_0000
  {
  }

  lemma ExecuteTotals(r: State, code: byte, p: seq<byte>, sent: int, t: Tally, was: Totals)
    requires r.Valid() && Holds(r, was)
    requires r.bytesReceived == Wrap32(|t.ingested|) && r.bytesSent == Wrap32(t.forwarded)
    ensures Holds(Execute(r, code, p, sent).0, TotalsAfter(was, r, code, p, sent, t))
  {
    if code == 3 && |p| == 2 {
      AddTo(r.hk.sent, was.sent, Min(Be16(p[0], p[1]), |r.queue|));
    } else if code == 4 && p != [] {
      AddTo(r.hk.received, was.received, |p|);
      if sent > 0 {
        AddTo(r.hk.sent, was.sent, sent);
      }
    }
  }

  lemma NextTotals(s: System, step: Step, t: Tally, was: Totals)
    requires s.radio.Valid() && TotalsKept(s, t) && Holds(s.radio, was)
    ensures Holds(Next(s, step).0.radio,
                  if Executes(s, step) then
                    var c := ParseCommand(step.data);
                    TotalsAfter(was, s.radio, c.code, c.payload, step.sent, t)
                  else was)
  {
    if Executes(s, step) {
      var c := ParseCommand(step.data);
      ExecuteTotals(s.radio, c.code, c.payload, step.sent, t, was);
      HandleParsed(s.radio, step.data, c.code, c.payload, step.sent);
    } else if step.Spi? {
      CounterMoves(s.radio, step.data, step.sent);
    }
  }

  /** In every state of every run, the totals in the housekeeping; a request's reply has the true ones. */
  lemma {:induction false} TotalsOverRuns(s: System, steps: seq<Step>)
    requires FreshStart(s)
    ensures Holds(Run(s, steps).0.radio, TotalsNow(s, steps))
    decreases |steps|
  {
    if steps != [] {
      var front, last := steps[..|steps| - 1], steps[|steps| - 1];
      TotalsOverRuns(s, front);
      FreshInvariant(s);
      RunKeeps(s, front);
      NextTotals(Run(s, front).0, last, TallyOf(Run(s, front).1), TotalsNow(s, front));
    }
  }
}

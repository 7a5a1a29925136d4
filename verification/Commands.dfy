/** What the SPI command handler accepts, and what configuration and housekeeping tell each other. */
module Commands {
  import opened Bytes
  import opened Protocol
  import opened Radio
  import opened Schedules
  import opened Invariants

  /**
   A powered radio accepts a byte string exactly when some prefix of it is a command as the flight
   side builds it; otherwise nothing changes. An accepted command is counted once, at the end; only
   a housekeeping request leaves the counting to the step that sends its reply.
   */
  lemma AcceptsExactly(r: State, data: seq<byte>, sent: int)
    requires r.Valid()
    ensures var (r', response) := Handle(r, data, sent);
            && (!response.Ignored? <==>
                  r.power != 0
                  && exists code, payload :: |payload| < 0x1_0000 && EncodeCommand(code, payload) <= data)
            && (response.Ignored? ==> r' == r)
            && (response.HkDue? ==> r'.hk.counter == r.hk.counter)
            && (!response.Ignored? && !response.HkDue? ==> r'.hk.counter == Wrap16(r.hk.counter + 1))
  {
    AcceptedExactlyEncodings(data);
    CounterMoves(r, data, sent);
  }

  lemma CounterMoves(r: State, data: seq<byte>, sent: int)
    requires r.Valid()
    ensures var (r', response) := Handle(r, data, sent);
            && (response.Ignored? <==> r.power == 0 || !ParseCommand(data).Command?)
            && (response.Ignored? ==> r' == r)
            && (response.HkDue? ==> r'.hk.counter == r.hk.counter)
            && (!response.Ignored? && !response.HkDue? ==> r'.hk.counter == Wrap16(r.hk.counter + 1))
  {
  }

  /** What the numbered commands make of a powered radio, from its state to the counted one and the response. */
  predicate Decided(r: State, code: byte, p: seq<byte>, sent: int, r': State, response: Response)
    requires r.Valid()
  {
    match code
    case 1 => response == HkDue
    case 2 => response == Accepted && (|p| != 5 ==> r' == CountCommand(r))
    case 3 =>
      if |p| != 2 then response == Accepted && r' == CountCommand(r)
      else
        var requested := 256 * (p[0] as int) + p[1];
        var n := Min(requested, |r.queue|);
        && response.Reply? && |response.bytes| == requested + 4
        && response.bytes[3..3 + n] == r.queue[..n] && r'.queue == r.queue[n..]
    case 4 =>
      response == if p != [] && (r.config.mode == 1 || r.config.mode == 3) then ToGround(p, sent) else Accepted
    case _ => response == Accepted && r' == CountCommand(r)
  }

  lemma ReplyServes(payload: seq<byte>, requested: uint16)
    requires |payload| <= requested
    ensures EncodeReply(payload, requested)[3..3 + |payload|] == payload
  {
    ReplyOctets(payload, requested);
  }

  lemma ExecuteDecided(r: State, code: byte, p: seq<byte>, sent: int)
    requires r.Valid()
    ensures var (r', response) := Execute(r, code, p, sent);
            Decided(r, code, p, sent, if response.HkDue? then r' else CountCommand(r'), response)
  {
    if code == 3 && |p| == 2 {
      ReplyServes(r.queue[..Min(Be16(p[0], p[1]), |r.queue|)], Be16(p[0], p[1]));
    }
  }

  lemma HandleParsed(r: State, data: seq<byte>, code: byte, p: seq<byte>, sent: int)
    requires r.Valid() && r.power != 0 && ParseCommand(data) == Command(code, p)
    ensures var (r', response) := Execute(r, code, p, sent);
            Handle(r, data, sent) == (if response.HkDue? then r' else CountCommand(r'), response)
  {
  }

  lemma CodesDecide(r: State, code: byte, p: seq<byte>, data: seq<byte>, sent: int)
    requires r.Valid() && r.power != 0 && |p| < 0x1_0000 && EncodeCommand(code, p) <= data
    ensures Decided(r, code, p, sent, Handle(r, data, sent).0, Handle(r, data, sent).1)
  {
    PrefixParses(code, p, data);
    HandleParsed(r, data, code, p, sent);
    ExecuteDecided(r, code, p, sent);
  }

  // ---------------------------------------------------------------- configuration read back

  lemma HandleConfig(r: State, data: seq<byte>, p: seq<byte>)
    requires r.Valid() && r.power != 0
    requires ParseCommand(data) == Command(SET_CFG_CMD, p)
    ensures Handle(r, data, 0)
         == (CountCommand(if |p| == CFG_PAYLOAD_SIZE then Configure(r, p) else r), Accepted)
  {
  }

  lemma HandleHkRequest(r: State, data: seq<byte>, p: seq<byte>)
    requires r.Valid() && r.power != 0
    requires ParseCommand(data) == Command(REQ_HK_CMD, p)
    ensures Handle(r, data, 0) == (Snapshot(r), HkDue)
  {
  }

  function ReadBack(r: State, p: seq<byte>): Housekeeping
    requires r.Valid() && |p| == CFG_PAYLOAD_SIZE
  {
    Housekeeping(Wrap16(r.hk.counter + 1), p[0], r.hk.groundLock, p[1], p[2], p[3], p[4],
                 |r.queue|, r.bytesReceived, r.bytesSent)
  }

  lemma SnapshotReadsBack(r: State, p: seq<byte>)
    requires r.Valid() && |p| == CFG_PAYLOAD_SIZE
    ensures HkReply(Snapshot(CountCommand(Configure(r, p)))) == EncodeHk(ReadBack(r, p))
  {
  }

  /**
   Setting a configuration and then asking for housekeeping reads the five settings back, each in its
   own field, with the counter advanced by the first command and the current totals.
   */
  lemma ConfigReadBack(r: State, p: seq<byte>, setting: seq<byte>, ask: seq<byte>)
    requires r.Valid() && r.power != 0 && |p| == CFG_PAYLOAD_SIZE
    requires ParseCommand(setting) == Command(SET_CFG_CMD, p) && ParseCommand(ask) == Command(REQ_HK_CMD, [])
    ensures var configured := Handle(r, setting, 0).0;
            configured.Valid() &&
            var asked := Handle(configured, ask, 0).0;
            asked.Valid() && DecodeHk(HkReply(asked)) == Hk(ReadBack(r, p))
  {
    HandleConfig(r, setting, p);
    HandleHkRequest(CountCommand(Configure(r, p)), ask, []);
    SnapshotReadsBack(r, p);
    HkRoundTrip(ReadBack(r, p));
  }

  // ---------------------------------------------------------------- mirrors

  predicate ModeMirrored(r: State) { r.hk.mode == r.config.mode }

  predicate SettingsMirrored(r: State) {
    && r.hk.rxSpeed == r.config.rxSpeed && r.hk.rxWavelength == r.config.rxWavelength
    && r.hk.txSpeed == r.config.txSpeed && r.hk.txWavelength == r.config.txWavelength
  }

  /** A step that executes a configuration command of the right length. */
  predicate Configures(s: System, step: Step) {
    && step.Spi? && s.tick.Idle? && s.radio.power != 0
    && var c := ParseCommand(step.data);
       c.Command? && c.code == SET_CFG_CMD && |c.payload| == CFG_PAYLOAD_SIZE
  }

  /** A step that clears the configuration at the end of a power-off. */
  predicate Clears(s: System, step: Step) { step.UnlockedClear? && s.tick.Flushed? }

  predicate MirrorsZero(r: State) {
    r.hk.rxSpeed == 0 && r.hk.rxWavelength == 0 && r.hk.txSpeed == 0 && r.hk.txWavelength == 0
  }

  predicate SameSettings(r: State, r': State) {
    && r'.config.rxSpeed == r.config.rxSpeed && r'.config.rxWavelength == r.config.rxWavelength
    && r'.config.txSpeed == r.config.txSpeed && r'.config.txWavelength == r.config.txWavelength
    && r'.hk.rxSpeed == r.hk.rxSpeed && r'.hk.rxWavelength == r.hk.rxWavelength
    && r'.hk.txSpeed == r.hk.txSpeed && r'.hk.txWavelength == r.hk.txWavelength
  }

  lemma HandleSettings(r: State, data: seq<byte>, sent: int)
    requires r.Valid()
    ensures var c := ParseCommand(data);
            if r.power != 0 && c.Command? && c.code == SET_CFG_CMD && |c.payload| == CFG_PAYLOAD_SIZE
            then SettingsMirrored(Handle(r, data, sent).0)
            else SameSettings(r, Handle(r, data, sent).0)
  {
  }

  /** The three things a step can do to the four settings and their mirrors. */
  lemma NextSettings(s: System, step: Step)
    requires s.radio.Valid()
    ensures var r' := Next(s, step).0.radio;
            if Clears(s, step) then SettingsMirrored(r') <==> MirrorsZero(s.radio)
            else if Configures(s, step) then SettingsMirrored(r')
            else SameSettings(s.radio, r')
  {
    if step.Spi? {
      HandleSettings(s.radio, step.data, step.sent);
      var c := ParseCommand(step.data);
      assert c.Command? && c.code == SET_CFG_CMD ==> FitsReplyBuffer(step.data);
    }
  }

  predicate ClearsAt(s: System, steps: seq<Step>, k: nat)
    requires s.radio.Valid() && k < |steps|
  {
    Clears(Run(s, steps[..k]).0, steps[k])
  }

  predicate ConfiguresAt(s: System, steps: seq<Step>, k: nat)
    requires s.radio.Valid() && k < |steps|
  {
    Configures(Run(s, steps[..k]).0, steps[k])
  }

  /** The last step of a run that cleared the configuration, or -1. */
  function LastClear(s: System, steps: seq<Step>): (c: int)
    requires s.radio.Valid()
    ensures -1 <= c < |steps|
    decreases |steps|
  {
    if steps == [] then -1
    else if ClearsAt(s, steps, |steps| - 1) then |steps| - 1
    else LastClear(s, steps[..|steps| - 1])
  }

  lemma {:induction false} LastClearClears(s: System, steps: seq<Step>)
    requires s.radio.Valid() && LastClear(s, steps) >= 0
    ensures ClearsAt(s, steps, LastClear(s, steps))
    decreases |steps|
  {
    var c := LastClear(s, steps);
    if c < |steps| - 1 {
      var front := steps[..|steps| - 1];
      LastClearClears(s, front);
      assert front[..c] == steps[..c] && front[c] == steps[c];
    }
  }

  lemma {:induction false} NoneAfterLastClear(s: System, steps: seq<Step>, k: nat)
    requires s.radio.Valid() && LastClear(s, steps) < k < |steps|
    ensures !ClearsAt(s, steps, k)
    decreases |steps|
  {
    if k < |steps| - 1 {
      var front := steps[..|steps| - 1];
      NoneAfterLastClear(s, front, k);
      assert front[..k] == steps[..k] && front[k] == steps[k];
    }
  }

  predicate ConfiguredAfter(s: System, steps: seq<Step>, c: int)
    requires s.radio.Valid()
  {
    exists j: nat :: c < j < |steps| && ConfiguresAt(s, steps, j)
  }

  lemma ConfiguredAfterSnoc(s: System, steps: seq<Step>, c: int)
    requires s.radio.Valid() && steps != [] && c < |steps| - 1
    ensures ConfiguredAfter(s, steps, c) <==>
            ConfiguredAfter(s, steps[..|steps| - 1], c) || ConfiguresAt(s, steps, |steps| - 1)
  {
    var front := steps[..|steps| - 1];
    assert forall j :: 0 <= j < |front| ==> front[..j] == steps[..j] && front[j] == steps[j];
    assert forall j: nat :: j < |front| ==> ConfiguresAt(s, front, j) == ConfiguresAt(s, steps, j);
  }

  /** What decides whether the settings are mirrored: the last clear, the mirrors then, and commands since. */
  predicate SettingsRestored(s: System, steps: seq<Step>)
    requires s.radio.Valid()
  {
    var c := LastClear(s, steps);
    c < 0 || MirrorsZero(Run(s, steps[..c]).0.radio) || ConfiguredAfter(s, steps, c)
  }

  lemma RestoredSnoc(s: System, steps: seq<Step>)
    requires s.radio.Valid() && steps != []
    ensures var front, last := steps[..|steps| - 1], steps[|steps| - 1];
            var before := Run(s, front).0;
            SettingsRestored(s, steps) <==>
              if Clears(before, last) then MirrorsZero(before.radio)
              else Configures(before, last) || SettingsRestored(s, front)
  {
    var front := steps[..|steps| - 1];
    var c := LastClear(s, steps);
    if !ClearsAt(s, steps, |steps| - 1) {
      ConfiguredAfterSnoc(s, steps, c);
      if c >= 0 {
        assert front[..c] == steps[..c];
      }
    }
  }

  /**
   Over every run, exactly: the four settings are mirrored in the housekeeping if and only if no
   power-off has cleared the configuration, or since the last clear a configuration command of the
   right length was executed, or the four mirrors were zero at that clear.
   */
  lemma {:induction false} MirrorsOverRunsExactly(s: System, steps: seq<Step>)
    requires FreshStart(s)
    ensures SettingsMirrored(Run(s, steps).0.radio) <==> SettingsRestored(s, steps)
    decreases |steps|
  {
    if steps != [] {
      var front, last := steps[..|steps| - 1], steps[|steps| - 1];
      MirrorsOverRunsExactly(s, front);
      NextSettings(Run(s, front).0, last);
      RestoredSnoc(s, steps);
    }
  }

  lemma HandleMode(r: State, data: seq<byte>, sent: int)
    requires r.Valid() && ModeMirrored(r)
    ensures ModeMirrored(Handle(r, data, sent).0)
  {
  }

  lemma NextMode(s: System, step: Step)
    requires s.radio.Valid() && ModeMirrored(s.radio)
    ensures ModeMirrored(Next(s, step).0.radio)
  {
    if step.Spi? {
      HandleMode(s.radio, step.data, step.sent);
    }
  }

  /** In every state of every run the reported mode is the configured mode, power-offs included. */
  lemma {:induction false} ModeOverRuns(s: System, steps: seq<Step>)
    requires FreshStart(s)
    ensures ModeMirrored(Run(s, steps).0.radio)
    decreases |steps|
  {
    if steps != [] {
      var front, last := steps[..|steps| - 1], steps[|steps| - 1];
      ModeOverRuns(s, front);
      NextMode(Run(s, front).0, last);
    }
  }
}

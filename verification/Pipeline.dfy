/** Whole-run theorems about the uplink, from ground datagrams to packets on the software bus. */
module Pipeline {
  import opened Bytes
  import opened TcFrames
  import opened SpacePackets
  import opened Uplink
  import opened Streams
  import Radio
  import opened Schedules
  import opened Invariants
  import opened EndToEnd

  predicate Sound(n: Node) { n.radio.radio.Valid() && Ready(n.app) }

  lemma AdvanceSound(n: Node, crypto: Crypto, move: Move)
    requires Sound(n)
    ensures Sound(Advance(n, crypto, move).0)
  {
    NextValid(n.radio, RadioStep(n, move));
    if move.Attempt? && n.radio.tick.Idle? {
      AttemptEffect(n, crypto);
      AbsorbReady(n.app, crypto, Delivered(n.radio.radio, Request(n.app)));
    }
  }

  function RunNode(n: Node, crypto: Crypto, moves: seq<Move>): (result: (Node, seq<Event>))
    requires Sound(n)
    ensures Sound(result.0)
    decreases |moves|
  {
    if moves == [] then (n, [])
    else
      var (before, events) := RunNode(n, crypto, moves[..|moves| - 1]);
      AdvanceSound(before, crypto, moves[|moves| - 1]);
      var (after, e) := Advance(before, crypto, moves[|moves| - 1]);
      (after, events + [e])
  }

  predicate FreshNode(n: Node) {
    FreshStart(n.radio) && n.app == Uplink.State([], Log([], [], 0))
  }

  // ---------------------------------------------------------------- invariants, for any bytes

  function Handed(u: Uplink.State): seq<seq<byte>> { Frames(u.log.trace) }

  predicate NodeInvariant(n: Node, crypto: Crypto, t: Tally) {
    && Sound(n)
    && Invariant(n.radio, t)
    && Accounted(n.app) == t.served
    && n.app.log.sent == BusMessages(crypto, [], Handed(n.app))
  }

  lemma AbsorbSends(u: Uplink.State, crypto: Crypto, data: seq<byte>)
    requires u.log.sent == BusMessages(crypto, [], Handed(u))
    ensures var u' := Absorb(u, crypto, data); u'.log.sent == BusMessages(crypto, [], Handed(u'))
  {
    var pieces := Split(u.buffered + data).pieces;
    ProcessAllExtends(u.log, crypto, pieces);
    FramesConcat(u.log.trace, pieces);
    BusMessagesConcat(crypto, [], Handed(u), Frames(pieces));
    assert [] + Handed(u) == Handed(u);
  }

  lemma RadioStepServesNobody(n: Node, step: Step)
    requires n.radio.radio.Valid()
    ensures !Next(n.radio, RadioStep(n, RadioMove(step))).1.Served?
  {
  }

  lemma AdvanceKeeps(n: Node, crypto: Crypto, move: Move, t: Tally)
    requires NodeInvariant(n, crypto, t)
    ensures var (n', e) := Advance(n, crypto, move); NodeInvariant(n', crypto, t.Add(e))
  {
    AdvanceSound(n, crypto, move);
    NextKeeps(n.radio, RadioStep(n, move), t);
    if move.RadioMove? {
      RadioStepServesNobody(n, move.step);
    } else if n.radio.tick.Idle? {
      var r, m := n.radio.radio, Request(n.app);
      AttemptEffect(n, crypto);
      ReplyExchanged(r, m);
      Radio.ReceiveRoundTrip(r, m);
      AbsorbConserves(n.app, crypto, Delivered(r, m));
      AbsorbSends(n.app, crypto, Delivered(r, m));
    }
  }

  lemma {:induction false} RunNodeKeeps(n: Node, crypto: Crypto, moves: seq<Move>)
    requires NodeInvariant(n, crypto, ZERO)
    ensures NodeInvariant(RunNode(n, crypto, moves).0, crypto, TallyOf(RunNode(n, crypto, moves).1))
    decreases |moves|
  {
    if moves != [] {
      var front, last := moves[..|moves| - 1], moves[|moves| - 1];
      RunNodeKeeps(n, crypto, front);
      var (before, events) := RunNode(n, crypto, front);
      AdvanceKeeps(before, crypto, last, TallyOf(events));
      TallySnoc(events, Advance(before, crypto, last).1);
    }
  }

  lemma FreshNodeInvariant(n: Node, crypto: Crypto)
    requires FreshNode(n)
    ensures NodeInvariant(n, crypto, ZERO)
  {
    FreshInvariant(n.radio);
  }

  lemma InvariantSoFar(n: Node, crypto: Crypto, moves: seq<Move>)
    requires FreshNode(n)
    ensures var (after, events) := RunNode(n, crypto, moves); NodeInvariant(after, crypto, TallyOf(events))
  {
    FreshNodeInvariant(n, crypto);
    RunNodeKeeps(n, crypto, moves);
  }

  // ---------------------------------------------------------------- well-formed streams

  /** The state of a receiver that has followed the stream of frames `fs` so far. */
  predicate OnStream(u: Uplink.State, fs: seq<seq<byte>>) {
    var done := Handed(u);
    && done <= fs
    && u.log.trace == AsPieces(done)
    && u.buffered <= Flatten(fs[|done|..])
  }

  lemma {:induction false} AsPiecesConcat(a: seq<seq<byte>>, b: seq<seq<byte>>)
    ensures AsPieces(a + b) == AsPieces(a) + AsPieces(b)
  {
    if a == [] {
      assert a + b == b;
    } else {
      assert (a + b)[1..] == a[1..] + b;
      AsPiecesConcat(a[1..], b);
    }
  }

  lemma {:induction false} AllFramesSuffix(fs: seq<seq<byte>>, k: nat)
    requires AllFrames(fs) && k <= |fs|
    ensures AllFrames(fs[k..])
  {
    if k > 0 {
      AllFramesSuffix(fs[1..], k - 1);
      assert fs[1..][k - 1..] == fs[k..];
    } else {
      assert fs[0..] == fs;
    }
  }

  /** On a stream, the bytes accounted for are the frames handed over and what is buffered. */
  lemma OnStreamAccounts(u: Uplink.State, fs: seq<seq<byte>>)
    requires OnStream(u, fs)
    ensures Accounted(u) == Flatten(Handed(u)) + u.buffered
    ensures Flatten(fs) == Flatten(Handed(u)) + Flatten(fs[|Handed(u)|..])
  {
    var done := Handed(u);
    FramesOfPieces(done);
    FlattenConcat(done, fs[|done|..]);
    assert fs == done + fs[|done|..];
  }

  lemma PrefixCancels<T>(a: seq<T>, b: seq<T>, c: seq<T>)
    requires a + b <= a + c
    ensures b <= c
  {
    assert b == (a + b)[|a|..];
    assert b == (a + c)[|a|..|a| + |b|] == c[..|b|];
  }

  lemma StillToCome(u: Uplink.State, data: seq<byte>, fs: seq<seq<byte>>)
    requires OnStream(u, fs) && Accounted(u) + data <= Flatten(fs)
    ensures u.buffered + data <= Flatten(fs[|Handed(u)|..])
  {
    var done := Handed(u);
    OnStreamAccounts(u, fs);
    assert Accounted(u) + data == Flatten(done) + (u.buffered + data);
    PrefixCancels(Flatten(done), u.buffered + data, Flatten(fs[|done|..]));
  }

  lemma OnStreamGrown(u: Uplink.State, done: seq<seq<byte>>, more: seq<seq<byte>>, left: seq<seq<byte>>)
    requires u.log.trace == AsPieces(done) + AsPieces(more)
    requires u.buffered <= Flatten(left)
    ensures OnStream(u, done + more + left)
  {
    AsPiecesConcat(done, more);
    FramesOfPieces(done + more);
    var fs := done + more + left;
    assert fs[..|done + more|] == done + more && fs[|done + more|..] == left;
  }

  lemma AbsorbFrames(u: Uplink.State, crypto: Crypto, data: seq<byte>, rest: seq<seq<byte>>)
    returns (more: seq<seq<byte>>, left: seq<seq<byte>>)
    requires AllFrames(rest) && u.buffered + data <= Flatten(rest)
    ensures rest == more + left
    ensures Absorb(u, crypto, data).log.trace == u.log.trace + AsPieces(more)
    ensures Absorb(u, crypto, data).buffered <= Flatten(left)
  {
    var s := u.buffered + data;
    SplitStream(s, rest);
    more, left := Complete(rest, |s|), Remaining(rest, |s|);
    CompleteThenRemaining(rest, |s|);
    ProcessAllExtends(u.log, crypto, AsPieces(more));
  }

  lemma StreamAbsorb(u: Uplink.State, crypto: Crypto, data: seq<byte>, fs: seq<seq<byte>>)
    requires AllFrames(fs) && OnStream(u, fs)
    requires Accounted(u) + data <= Flatten(fs)
    ensures OnStream(Absorb(u, crypto, data), fs)
  {
    var done := Handed(u);
    StillToCome(u, data, fs);
    AllFramesSuffix(fs, |done|);
    var after := Absorb(u, crypto, data);
    assert OnStream(after, fs) by {
      var more, left := AbsorbFrames(u, crypto, data, fs[|done|..]);
      assert fs == done + (more + left) == done + more + left;
      OnStreamGrown(after, done, more, left);
    }
  }

  /** Nothing was dropped on overflow or flushed. */
  predicate Lossless(t: Tally) { t.dropped == 0 && t.flushed == 0 }

  lemma TallyMonotone(t: Tally, e: Event)
    ensures Lossless(t.Add(e)) ==> Lossless(t)
    ensures t.ingested <= t.Add(e).ingested
  {
  }

  lemma AdvanceOnStream(n: Node, crypto: Crypto, move: Move, t: Tally, fs: seq<seq<byte>>)
    requires NodeInvariant(n, crypto, t) && AllFrames(fs) && OnStream(n.app, fs)
    requires var t' := t.Add(Advance(n, crypto, move).1); Lossless(t') && t'.ingested <= Flatten(fs)
    ensures OnStream(Advance(n, crypto, move).0.app, fs)
  {
    AdvanceKeeps(n, crypto, move, t);
    var (n', e) := Advance(n, crypto, move);
    if move.Attempt? && n.radio.tick.Idle? {
      var r := n.radio.radio;
      AttemptEffect(n, crypto);
      if r.power != 0 {
        var t', data := t.Add(e), Delivered(r, Request(n.app));
        AbsorbConserves(n.app, crypto, data);
        assert Accounted(n.app) + data == t'.served == t'.removed <= t'.stored == t'.ingested;
        StreamAbsorb(n.app, crypto, data, fs);
      }
    }
  }

  lemma {:induction false} RunOnStream(n: Node, crypto: Crypto, moves: seq<Move>, fs: seq<seq<byte>>)
    requires FreshNode(n) && AllFrames(fs)
    requires var t := TallyOf(RunNode(n, crypto, moves).1); Lossless(t) && t.ingested <= Flatten(fs)
    ensures OnStream(RunNode(n, crypto, moves).0.app, fs)
    decreases |moves|
  {
    if moves == [] {
      assert fs[0..] == fs;
    } else {
      var front, last := moves[..|moves| - 1], moves[|moves| - 1];
      var (before, events) := RunNode(n, crypto, front);
      TallySnoc(events, Advance(before, crypto, last).1);
      TallyMonotone(TallyOf(events), Advance(before, crypto, last).1);
      RunOnStream(n, crypto, front, fs);
      InvariantSoFar(n, crypto, front);
      AdvanceOnStream(before, crypto, last, TallyOf(events), fs);
    }
  }

  // ---------------------------------------------------------------- main results

  /**
   For any bytes and any run at all, power-offs and overflows included: what the splitter has dealt
   with and the flight buffer together are exactly the bytes served, in order; what was ingested was
   served, is queued, was dropped or was flushed; the flight buffer is never full; and the bus carries
   exactly the packets of the frames handed over. Without loss, served and queued bytes are everything
   ingested, in order.
   */
  lemma UplinkConserves(n: Node, crypto: Crypto, moves: seq<Move>)
    requires FreshNode(n)
    ensures var (n', events) := RunNode(n, crypto, moves);
            var t := TallyOf(events);
            var queue := n'.radio.radio.queue;
            && PieceBytes(n'.app.log.trace) + n'.app.buffered == t.served
            && |t.ingested| == |t.served| + |queue| + t.dropped + t.flushed
            && (Lossless(t) ==> t.served + queue == t.ingested)
            && |n'.app.buffered| < 1024
            && n'.app.log.sent == BusMessages(crypto, [], Handed(n'.app))
  {
    InvariantSoFar(n, crypto, moves);
  }

  /**
   For a stream of well-formed frames, cut into datagrams and interleaved with the polls in any way:
   the frames handed to the security library are a prefix of the stream's frames, nothing is skipped
   or discarded, and frames handed over ++ flight buffer ++ ring is everything ingested.
   */
  lemma UplinkRefinesStream(n: Node, crypto: Crypto, moves: seq<Move>, fs: seq<seq<byte>>)
    requires FreshNode(n) && AllFrames(fs)
    requires var t := TallyOf(RunNode(n, crypto, moves).1); Lossless(t) && t.ingested <= Flatten(fs)
    ensures var (n', events) := RunNode(n, crypto, moves);
            var handed := Handed(n'.app);
            && handed <= fs
            && n'.app.log.trace == AsPieces(handed)
            && Flatten(handed) + n'.app.buffered + n'.radio.radio.queue == TallyOf(events).ingested
            && n'.app.log.sent == BusMessages(crypto, [], handed)
  {
    RunOnStream(n, crypto, moves, fs);
    UplinkConserves(n, crypto, moves);
    OnStreamAccounts(RunNode(n, crypto, moves).0.app, fs);
  }

  lemma NothingLeftOver(buffered: seq<byte>, rest: seq<seq<byte>>)
    requires Pending(buffered) && AllFrames(rest) && buffered == Flatten(rest)
    ensures rest == [] && buffered == []
  {
    if rest != [] {
      FrontFrame(buffered, rest[0], Flatten(rest[1..]));
    }
  }

  lemma AllHanded(u: Uplink.State, fs: seq<seq<byte>>)
    requires OnStream(u, fs) && Ready(u) && AllFrames(fs) && Accounted(u) == Flatten(fs)
    ensures Handed(u) == fs && u.buffered == []
  {
    var done := Handed(u);
    var rest := fs[|done|..];
    OnStreamAccounts(u, fs);
    PrefixCancels(Flatten(done), Flatten(rest), u.buffered);
    AllFramesSuffix(fs, |done|);
    NothingLeftOver(u.buffered, rest);
    assert fs == done + rest;
  }

  /** Once the whole stream is ingested and the ring is empty, every frame has been handed over. */
  lemma EmptyRingMeansDelivered(n: Node, crypto: Crypto, moves: seq<Move>, fs: seq<seq<byte>>)
    requires FreshNode(n) && AllFrames(fs)
    requires var t := TallyOf(RunNode(n, crypto, moves).1); Lossless(t) && t.ingested == Flatten(fs)
    requires RunNode(n, crypto, moves).0.radio.radio.queue == []
    ensures var app := RunNode(n, crypto, moves).0.app;
            Handed(app) == fs && app.buffered == [] && app.log.sent == BusMessages(crypto, [], fs)
  {
    RunOnStream(n, crypto, moves, fs);
    InvariantSoFar(n, crypto, moves);
    var (after, events) := RunNode(n, crypto, moves);
    assert TallyOf(events).served + [] == TallyOf(events).served;
    AllHanded(after.app, fs);
  }

  // ---------------------------------------------------------------- progress

  lemma TailWithin(s: seq<byte>)
    ensures |Split(s).tail| <= |s|
  {
    SplitConserves(s);
  }

  /** Cutting more than four bytes that do not have to wait uses up more than four of them. */
  lemma FrontUsed(s: seq<byte>)
    requires |s| >= HEADER_SIZE && !Pending(s)
    ensures |Split(s).tail| + HEADER_SIZE <= |s|
    ensures !Implausible(s) ==> |Split(s).tail| + AnnouncedLength(s, 0) <= |s|
  {
    if Implausible(s) {
      var k := NextPlausible(s, 1);
      if k < |s| {
        TailWithin(s[k..][AnnouncedLength(s[k..], 0)..]);
      }
    } else {
      TailWithin(s[AnnouncedLength(s, 0)..]);
    }
  }

  /** When the buffer gets full, the bytes waiting before are used up: less remains than was received. */
  lemma FullBufferAdvances(u: Uplink.State, crypto: Crypto, data: seq<byte>)
    requires Ready(u) && |u.buffered| + |data| == 1024
    ensures |Absorb(u, crypto, data).buffered| < |data|
  {
    var s := u.buffered + data;
    assert |u.buffered| >= HEADER_SIZE ==> AnnouncedLength(s, 0) == AnnouncedLength(u.buffered, 0);
    FrontUsed(s);
  }

  /** With the radio on and idle, an attempt fills the flight buffer or takes all there is in the ring. */
  lemma AttemptMoves(n: Node, crypto: Crypto, t: Tally)
    requires NodeInvariant(n, crypto, t) && n.radio.tick.Idle? && n.radio.radio.power != 0
    ensures var (n', e) := Advance(n, crypto, Attempt);
            var room := BUFFER_SIZE - |n.app.buffered|;
            var queued := |n.radio.radio.queue|;
            && |t.Add(e).served| == |t.served| + Min(room, queued)
            && (room <= queued ==> |n'.app.buffered| < room)
  {
    AttemptEffect(n, crypto);
    var data := Delivered(n.radio.radio, Request(n.app));
    AdvanceKeeps(n, crypto, Attempt, t);
    AbsorbConserves(n.app, crypto, data);
    if |n.app.buffered| + |data| == BUFFER_SIZE {
      FullBufferAdvances(n.app, crypto, data);
    }
  }

  /** The radio is on and not in the middle of a power-off. */
  predicate On(s: System) { s.radio.power != 0 && (s.tick.Idle? || s.tick.HkPending?) }

  /** Anything may happen but a switching off. */
  predicate Powered(moves: seq<Move>) {
    forall i :: 0 <= i < |moves| ==> moves[i] != RadioMove(Power(0))
  }

  lemma SpiKeepsPower(r: Radio.State, data: seq<byte>, sent: int)
    requires r.Valid()
    ensures Radio.Handle(r, data, sent).0.power == r.power
  {
  }

  lemma StepStaysOn(s: System, step: Step)
    requires s.radio.Valid() && On(s) && step != Power(0)
    ensures On(Next(s, step).0) && !Next(s, step).1.FlushedAway?
  {
    if step.Spi? {
      SpiKeepsPower(s.radio, step.data, step.sent);
    }
  }

  /** Bytes only come in at one end and, without a flush, are served from the other. */
  lemma TallyGrows(t: Tally, e: Event)
    ensures |t.stored| <= |t.Add(e).stored| && |t.served| <= |t.Add(e).served|
    ensures !e.FlushedAway? ==> t.Add(e).flushed == t.flushed
  {
  }

  /** The bytes that `k` attempts serve, or more. */
  function Pace(k: nat): nat { k / 2 * (BUFFER_SIZE + 1) }

  /**
   What has been served after `k` attempts: all that was wanted, or the pace is kept. After an odd
   number of them the buffer has been filled once more, and fewer bytes wait in it than came last.
   */
  predicate OnPace(served: nat, start: nat, goal: nat, buffered: nat, k: nat) {
    || served >= goal
    || served >= start + (if k % 2 == 0 then Pace(k) else Pace(k - 1) + 1 + buffered)
  }

  lemma OneMoreAttempt(served: nat, start: nat, goal: nat, buffered: nat, queued: nat, k: nat, buffered': nat)
    requires OnPace(served, start, goal, buffered, k) && buffered < BUFFER_SIZE && served + queued >= goal
    requires var room := BUFFER_SIZE - buffered; room <= queued ==> buffered' < room
    ensures OnPace(served + Min(BUFFER_SIZE - buffered, queued), start, goal, buffered', k + 1)
  {
  }

  predicate IsIdleAttempt(n: Node, move: Move) { move.Attempt? && n.radio.tick.Idle? }

  /** A stage of a run: the node, the totals so far, and the attempts since some time that found the radio idle. */
  datatype Stage = Stage(node: Node, tally: Tally, idle: nat)

  function Onward(s: Stage, crypto: Crypto, move: Move): (s': Stage)
    requires Sound(s.node)
    ensures Sound(s'.node)
  {
    AdvanceSound(s.node, crypto, move);
    var (after, e) := Advance(s.node, crypto, move);
    Stage(after, s.tally.Add(e), s.idle + if IsIdleAttempt(s.node, move) then 1 else 0)
  }

  function Continued(s: Stage, crypto: Crypto, moves: seq<Move>): (s': Stage)
    requires Sound(s.node)
    ensures Sound(s'.node)
    decreases |moves|
  {
    if moves == [] then s else Continued(Onward(s, crypto, moves[0]), crypto, moves[1..])
  }

  function StageAfter(n: Node, crypto: Crypto, moves: seq<Move>): (s: Stage)
    requires Sound(n)
    ensures Sound(s.node)
  {
    Stage(RunNode(n, crypto, moves).0, TallyOf(RunNode(n, crypto, moves).1), 0)
  }

  /** The receive attempts among `more`, made after `moves`, that find the radio's tick thread idle. */
  function IdleAttempts(n: Node, crypto: Crypto, moves: seq<Move>, more: seq<Move>): nat
    requires Sound(n)
  {
    Continued(StageAfter(n, crypto, moves), crypto, more).idle
  }

  lemma QueueLeft(n: Node, crypto: Crypto, t: Tally, goal: nat)
    requires NodeInvariant(n, crypto, t) && |t.stored| - t.flushed >= goal
    ensures |t.served| + |n.radio.radio.queue| >= goal
  {
  }

  lemma RunNodeSnoc(n: Node, crypto: Crypto, moves: seq<Move>, last: Move)
    requires Sound(n)
    ensures var (before, events) := RunNode(n, crypto, moves);
            var (after, e) := Advance(before, crypto, last);
            RunNode(n, crypto, moves + [last]) == (after, events + [e])
  {
    assert (moves + [last])[..|moves|] == moves;
  }

  predicate StageOf(s: Stage, n: Node, crypto: Crypto, moves: seq<Move>)
    requires Sound(n)
  {
    s.node == RunNode(n, crypto, moves).0 && s.tally == TallyOf(RunNode(n, crypto, moves).1)
  }

  lemma OnwardAgrees(s: Stage, n: Node, crypto: Crypto, moves: seq<Move>, last: Move)
    requires Sound(n) && StageOf(s, n, crypto, moves)
    ensures StageOf(Onward(s, crypto, last), n, crypto, moves + [last])
  {
    RunNodeSnoc(n, crypto, moves, last);
    var (before, events) := RunNode(n, crypto, moves);
    TallySnoc(events, Advance(before, crypto, last).1);
  }

  /** Continuing a run is running the moves together. */
  lemma {:induction false} ContinuedAgrees(s: Stage, n: Node, crypto: Crypto, moves: seq<Move>, more: seq<Move>)
    requires Sound(n) && StageOf(s, n, crypto, moves)
    ensures StageOf(Continued(s, crypto, more), n, crypto, moves + more)
    decreases |more|
  {
    if more == [] {
      assert moves + more == moves;
    } else {
      OnwardAgrees(s, n, crypto, moves, more[0]);
      ContinuedAgrees(Onward(s, crypto, more[0]), n, crypto, moves + [more[0]], more[1..]);
      AppendedFirst(moves, more);
    }
  }

  predicate Invariable(s: Stage, crypto: Crypto) { NodeInvariant(s.node, crypto, s.tally) }

  /** How far the bytes of a ring, `start` served before and `goal` with them, have come. */
  predicate KeepsPace(s: Stage, start: nat, goal: nat) {
    && On(s.node.radio)
    && |s.tally.stored| - s.tally.flushed >= goal
    && OnPace(|s.tally.served|, start, goal, |s.node.app.buffered|, s.idle)
  }

  lemma OnwardInvariable(s: Stage, crypto: Crypto, move: Move)
    requires Invariable(s, crypto)
    ensures Invariable(Onward(s, crypto, move), crypto)
  {
    AdvanceKeeps(s.node, crypto, move, s.tally);
  }

  /** A stage after which the radio is still on and nothing was flushed. */
  predicate Follows(s: Stage, s': Stage) {
    On(s'.node.radio) && s'.tally.flushed == s.tally.flushed && |s.tally.stored| <= |s'.tally.stored|
  }

  /** The buffer was filled, or the ring emptied. */
  predicate TookAll(s: Stage, s': Stage) {
    var room, queued := BUFFER_SIZE - |s.node.app.buffered|, |s.node.radio.radio.queue|;
    && |s.node.app.buffered| < BUFFER_SIZE && s'.idle == s.idle + 1
    && |s'.tally.served| == |s.tally.served| + Min(room, queued)
    && (room <= queued ==> |s'.node.app.buffered| < room)
  }

  lemma OnwardFollows(s: Stage, crypto: Crypto, move: Move)
    requires Invariable(s, crypto) && On(s.node.radio) && move != RadioMove(Power(0))
    ensures Follows(s, Onward(s, crypto, move))
  {
    StepStaysOn(s.node.radio, RadioStep(s.node, move));
    TallyGrows(s.tally, Advance(s.node, crypto, move).1);
  }

  lemma AttemptTookAll(s: Stage, crypto: Crypto)
    requires Invariable(s, crypto) && On(s.node.radio) && s.node.radio.tick.Idle?
    ensures TookAll(s, Onward(s, crypto, Attempt))
  {
    AttemptMoves(s.node, crypto, s.tally);
  }

  lemma OtherServesOn(s: Stage, crypto: Crypto, move: Move)
    requires Invariable(s, crypto) && !IsIdleAttempt(s.node, move)
    ensures var s' := Onward(s, crypto, move);
            s'.node.app == s.node.app && s'.idle == s.idle && |s.tally.served| <= |s'.tally.served|
  {
    TallyGrows(s.tally, Advance(s.node, crypto, move).1);
  }

  lemma PaceKeptByAttempt(s: Stage, s': Stage, crypto: Crypto, start: nat, goal: nat)
    requires Invariable(s, crypto) && KeepsPace(s, start, goal) && Follows(s, s') && TookAll(s, s')
    ensures KeepsPace(s', start, goal)
  {
    QueueLeft(s.node, crypto, s.tally, goal);
    OneMoreAttempt(|s.tally.served|, start, goal, |s.node.app.buffered|, |s.node.radio.radio.queue|, s.idle,
                   |s'.node.app.buffered|);
  }

  lemma OnwardKeepsPace(s: Stage, crypto: Crypto, move: Move, start: nat, goal: nat)
    requires Invariable(s, crypto) && KeepsPace(s, start, goal) && move != RadioMove(Power(0))
    ensures KeepsPace(Onward(s, crypto, move), start, goal)
  {
    OnwardFollows(s, crypto, move);
    if IsIdleAttempt(s.node, move) {
      AttemptTookAll(s, crypto);
      PaceKeptByAttempt(s, Onward(s, crypto, move), crypto, start, goal);
    } else {
      OtherServesOn(s, crypto, move);
    }
  }

  lemma {:induction false} ContinuedKeepsPace(s: Stage, crypto: Crypto, moves: seq<Move>, start: nat, goal: nat)
    requires Invariable(s, crypto) && KeepsPace(s, start, goal) && Powered(moves)
    ensures KeepsPace(Continued(s, crypto, moves), start, goal)
    decreases |moves|
  {
    if moves != [] {
      OnwardInvariable(s, crypto, moves[0]);
      OnwardKeepsPace(s, crypto, moves[0], start, goal);
      ContinuedKeepsPace(Onward(s, crypto, moves[0]), crypto, moves[1..], start, goal);
    }
  }

  lemma PaceStarts(s: Stage, crypto: Crypto)
    requires NodeInvariant(s.node, crypto, s.tally) && On(s.node.radio) && s.idle == 0
    ensures KeepsPace(s, |s.tally.served|, |s.tally.served| + |s.node.radio.radio.queue|)
  {
  }

  lemma PaceKept(served: nat, start: nat, queued: nat, buffered: nat, k: nat)
    requires OnPace(served, start, start + queued, buffered, k)
    ensures served - start >= Min(queued, Pace(k))
  {
  }

  /**
   With the radio on, whatever else happens in between (datagrams, updates, housekeeping, commands),
   every two attempts that find the radio idle serve more than a whole buffer, until all bytes that
   were in the ring at the start are served.
   */
  lemma AttemptsDrain(n: Node, crypto: Crypto, moves: seq<Move>, more: seq<Move>)
    requires FreshNode(n) && Powered(more) && On(RunNode(n, crypto, moves).0.radio)
    ensures var (before, events) := RunNode(n, crypto, moves);
            var (after, events') := RunNode(n, crypto, moves + more);
            var start := |TallyOf(events).served|;
            && On(after.radio)
            && |TallyOf(events').served| - start
               >= Min(|before.radio.radio.queue|, Pace(IdleAttempts(n, crypto, moves, more)))
  {
    InvariantSoFar(n, crypto, moves);
    var s := StageAfter(n, crypto, moves);
    ContinuedServes(s, crypto, more);
    ContinuedAgrees(s, n, crypto, moves, more);
  }

  lemma ContinuedServes(s: Stage, crypto: Crypto, more: seq<Move>)
    requires NodeInvariant(s.node, crypto, s.tally) && On(s.node.radio) && s.idle == 0 && Powered(more)
    ensures var s' := Continued(s, crypto, more);
            && On(s'.node.radio)
            && |s'.tally.served| - |s.tally.served| >= Min(|s.node.radio.radio.queue|, Pace(s'.idle))
  {
    var start, queued := |s.tally.served|, |s.node.radio.radio.queue|;
    PaceStarts(s, crypto);
    ContinuedKeepsPace(s, crypto, more, start, start + queued);
    var s' := Continued(s, crypto, more);
    PaceKept(|s'.tally.served|, start, queued, |s'.node.app.buffered|, s'.idle);
  }

  /** Two attempts for every 1025 bytes, or part of them, in the ring. */
  function AttemptsFor(queued: nat): nat { 2 * ((queued + BUFFER_SIZE) / (BUFFER_SIZE + 1)) }

  lemma EnoughAttempts(queued: nat, k: nat)
    requires k >= AttemptsFor(queued)
    ensures Pace(k) >= queued
  {
  }

  /** A receiver that has followed `n` bytes of the stream has handed over all frames that lie within them. */
  lemma {:induction false} HandedComplete(done: seq<seq<byte>>, rest: seq<seq<byte>>, buffered: seq<byte>, n: nat)
    requires AllFrames(rest) && buffered <= Flatten(rest) && Pending(buffered)
    requires n <= |Flatten(done)| + |buffered|
    ensures Complete(done + rest, n) <= done
    decreases |done|
  {
    if done == [] {
      assert [] + rest == rest;
      if rest != [] {
        FrontFrame(buffered, rest[0], Flatten(rest[1..]));
      }
    } else {
      assert (done + rest)[0] == done[0] && (done + rest)[1..] == done[1..] + rest;
      if n >= |done[0]| {
        HandedComplete(done[1..], rest, buffered, n - |done[0]|);
        assert done == [done[0]] + done[1..];
      }
    }
  }

  lemma FollowedComplete(u: Uplink.State, fs: seq<seq<byte>>, n: nat)
    requires OnStream(u, fs) && Ready(u) && AllFrames(fs) && n <= |Accounted(u)|
    ensures Complete(fs, n) <= Handed(u)
  {
    var done := Handed(u);
    OnStreamAccounts(u, fs);
    AllFramesSuffix(fs, |done|);
    HandedComplete(done, fs[|done|..], u.buffered, n);
    assert done + fs[|done|..] == fs;
  }

  /** The ring of `moves` has been served after `more`: it stayed on and made attempts enough. */
  predicate Polled(n: Node, crypto: Crypto, moves: seq<Move>, more: seq<Move>)
    requires Sound(n)
  {
    var s := RunNode(n, crypto, moves).0.radio;
    && On(s) && Powered(more)
    && IdleAttempts(n, crypto, moves, more) >= AttemptsFor(|s.radio.queue|)
  }

  lemma {:induction false} ContinuedLossless(s: Stage, crypto: Crypto, moves: seq<Move>)
    requires Sound(s.node) && Lossless(Continued(s, crypto, moves).tally)
    ensures Lossless(s.tally)
    decreases |moves|
  {
    if moves != [] {
      ContinuedLossless(Onward(s, crypto, moves[0]), crypto, moves[1..]);
      TallyMonotone(s.tally, Advance(s.node, crypto, moves[0]).1);
    }
  }

  lemma ContinuedServesAll(s: Stage, crypto: Crypto, more: seq<Move>)
    requires Invariable(s, crypto) && On(s.node.radio) && s.idle == 0 && Powered(more)
    requires var s' := Continued(s, crypto, more);
             Lossless(s'.tally) && s'.idle >= AttemptsFor(|s.node.radio.radio.queue|)
    ensures |Continued(s, crypto, more).tally.served| >= |s.tally.ingested|
  {
    ContinuedServes(s, crypto, more);
    EnoughAttempts(|s.node.radio.radio.queue|, Continued(s, crypto, more).idle);
    ContinuedLossless(s, crypto, more);
  }

  lemma ServedAll(n: Node, crypto: Crypto, moves: seq<Move>, more: seq<Move>)
    requires FreshNode(n) && Polled(n, crypto, moves, more)
    requires Lossless(TallyOf(RunNode(n, crypto, moves + more).1))
    ensures |TallyOf(RunNode(n, crypto, moves + more).1).served| >= |TallyOf(RunNode(n, crypto, moves).1).ingested|
  {
    InvariantSoFar(n, crypto, moves);
    ContinuedAgrees(StageAfter(n, crypto, moves), n, crypto, moves, more);
    ContinuedServesAll(StageAfter(n, crypto, moves), crypto, more);
  }

  /**
   Delivery, for a stream of frames ingested without loss and under any interleaving that keeps the
   radio on: every frame that had been ingested wholly after `moves` has been handed over once two
   idle attempts for every 1025 bytes of the ring have been made, new datagrams or not.
   */
  lemma Delivery(n: Node, crypto: Crypto, moves: seq<Move>, more: seq<Move>, fs: seq<seq<byte>>)
    requires FreshNode(n) && AllFrames(fs) && Polled(n, crypto, moves, more)
    requires var t := TallyOf(RunNode(n, crypto, moves + more).1); Lossless(t) && t.ingested <= Flatten(fs)
    ensures var (after, events) := RunNode(n, crypto, moves + more);
            && Complete(fs, |TallyOf(RunNode(n, crypto, moves).1).ingested|) <= Handed(after.app) <= fs
            && after.app.log.sent == BusMessages(crypto, [], Handed(after.app))
  {
    ServedAll(n, crypto, moves, more);
    RunOnStream(n, crypto, moves + more, fs);
    InvariantSoFar(n, crypto, moves + more);
    var app := RunNode(n, crypto, moves + more).0.app;
    FollowedComplete(app, fs, |TallyOf(RunNode(n, crypto, moves).1).ingested|);
  }

  lemma {:induction false} AllComplete(fs: seq<seq<byte>>)
    ensures Complete(fs, |Flatten(fs)|) == fs
  {
    if fs != [] {
      AllComplete(fs[1..]);
    }
  }

  lemma NothingLeft(n: Node, crypto: Crypto, t: Tally, fs: seq<seq<byte>>)
    requires NodeInvariant(n, crypto, t) && OnStream(n.app, fs) && Handed(n.app) == fs
    requires Lossless(t) && t.ingested <= Flatten(fs)
    ensures n.radio.radio.queue == [] && n.app.buffered == []
  {
    OnStreamAccounts(n.app, fs);
    assert fs[|fs|..] == [];
    assert |t.ingested| == |t.served| + |n.radio.radio.queue|;
  }

  /** When the whole stream has been ingested, all of it is delivered and nothing is left behind. */
  lemma WholeDelivery(n: Node, crypto: Crypto, moves: seq<Move>, more: seq<Move>, fs: seq<seq<byte>>)
    requires FreshNode(n) && AllFrames(fs) && Polled(n, crypto, moves, more)
    requires var t := TallyOf(RunNode(n, crypto, moves + more).1); Lossless(t) && t.ingested <= Flatten(fs)
    requires TallyOf(RunNode(n, crypto, moves).1).ingested == Flatten(fs)
    ensures var after := RunNode(n, crypto, moves + more).0;
            && after.radio.radio.queue == [] && after.app.buffered == []
            && Handed(after.app) == fs
            && after.app.log.sent == BusMessages(crypto, [], fs)
  {
    Delivery(n, crypto, moves, more, fs);
    AllComplete(fs);
    RunOnStream(n, crypto, moves + more, fs);
    InvariantSoFar(n, crypto, moves + more);
    NothingLeft(RunNode(n, crypto, moves + more).0, crypto, TallyOf(RunNode(n, crypto, moves + more).1), fs);
  }

  // ---------------------------------------------------------------- commands

  /** Frame by frame, the security library succeeds and yields the concatenation of these packets. */
  predicate Carries(crypto: Crypto, before: seq<seq<byte>>, fs: seq<seq<byte>>, commands: seq<seq<seq<byte>>>)
    decreases |fs|
  {
    && |fs| == |commands|
    && (fs != [] ==>
          && crypto(before, fs[0]).status == CRYPTO_LIB_SUCCESS
          && crypto(before, fs[0]).pdu == Flatten(commands[0])
          && AllCommands(commands[0])
          && Carries(crypto, before + [fs[0]], fs[1..], commands[1..]))
  }

  /** If the frames carry well-formed command packets, the bus carries exactly those, in order. */
  lemma {:induction false} CommandsReachTheBus(crypto: Crypto, before: seq<seq<byte>>, fs: seq<seq<byte>>,
                                               commands: seq<seq<seq<byte>>>)
    requires Carries(crypto, before, fs, commands)
    ensures BusMessages(crypto, before, fs) == Flatten(commands)
    decreases |fs|
  {
    if fs != [] {
      PacketRoundTrip(commands[0]);
      CommandsReachTheBus(crypto, before + [fs[0]], fs[1..], commands[1..]);
    }
  }

  lemma {:induction false} CarriesPrefix(crypto: Crypto, before: seq<seq<byte>>, fs: seq<seq<byte>>,
                                         commands: seq<seq<seq<byte>>>, k: nat)
    requires Carries(crypto, before, fs, commands) && k <= |fs|
    ensures Carries(crypto, before, fs[..k], commands[..k])
    decreases |fs|
  {
    if k > 0 {
      CarriesPrefix(crypto, before + [fs[0]], fs[1..], commands[1..], k - 1);
      assert fs[..k][1..] == fs[1..][..k - 1] && commands[..k][1..] == commands[1..][..k - 1];
    }
  }

  /**
   From the ground to the software bus: the bus carries the command packets of the frames handed
   over, in order, each once, and these frames include every one that was ingested wholly.
   */
  lemma CommandDelivery(n: Node, crypto: Crypto, moves: seq<Move>, more: seq<Move>, fs: seq<seq<byte>>,
                        commands: seq<seq<seq<byte>>>)
    requires FreshNode(n) && AllFrames(fs) && Carries(crypto, [], fs, commands)
    requires Polled(n, crypto, moves, more)
    requires var t := TallyOf(RunNode(n, crypto, moves + more).1); Lossless(t) && t.ingested <= Flatten(fs)
    ensures var app := RunNode(n, crypto, moves + more).0.app;
            var handed := |Handed(app)|;
            && |Complete(fs, |TallyOf(RunNode(n, crypto, moves).1).ingested|)| <= handed <= |commands|
            && app.log.sent == Flatten(commands[..handed])
  {
    Delivery(n, crypto, moves, more, fs);
    var handed := Handed(RunNode(n, crypto, moves + more).0.app);
    CarriesPrefix(crypto, [], fs, commands, |handed|);
    assert fs[..|handed|] == handed;
    CommandsReachTheBus(crypto, [], handed, commands[..|handed|]);
  }

  /** So once the whole stream is ingested and polled for, the bus has carried all of its command packets. */
  lemma WholeCommandDelivery(n: Node, crypto: Crypto, moves: seq<Move>, more: seq<Move>, fs: seq<seq<byte>>,
                             commands: seq<seq<seq<byte>>>)
    requires FreshNode(n) && AllFrames(fs) && Carries(crypto, [], fs, commands)
    requires Polled(n, crypto, moves, more)
    requires var t := TallyOf(RunNode(n, crypto, moves + more).1); Lossless(t) && t.ingested <= Flatten(fs)
    requires TallyOf(RunNode(n, crypto, moves).1).ingested == Flatten(fs)
    ensures RunNode(n, crypto, moves + more).0.app.log.sent == Flatten(commands)
  {
    WholeDelivery(n, crypto, moves, more, fs);
    CommandsReachTheBus(crypto, [], fs, commands);
  }
}

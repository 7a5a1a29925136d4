/** Where bytes are lost on their way up: only in a commit that fills the ring, and in a flush. */
module Losses {
  import opened Bytes
  import opened Radio
  import opened Schedules
  import opened Invariants
  import opened EndToEnd
  import opened Pipeline
  import Uplink

  /** A datagram that fits is stored whole; of any other just so much that the ring is full. */
  lemma IngestExactly(r: State, data: seq<byte>)
    requires r.Valid()
    ensures var queue := Ingest(r, data).queue;
            if |r.queue| + |data| < r.capacity then queue == r.queue + data
            else r.queue <= queue <= r.queue + data && |queue| == r.capacity - 1
    ensures Ingest(r, data).bytesReceived == (r.bytesReceived + |data|) % 0x1_0000_0000
  {
    assert data[..|data|] == data;
  }

  /** A step that commits a datagram too large for the room in the ring. */
  predicate Overflows(s: System, step: Step) {
    step.Commit? && s.ground.Admitted? && |s.radio.queue| + |s.ground.datagram| >= s.radio.capacity
  }

  /** A step of a power-off that flushes a ring with bytes in it. */
  predicate FlushesBytes(s: System, step: Step) {
    step.LockedFlush? && s.tick.PowerCut? && s.radio.queue != []
  }

  lemma SpiLosesNothing(r: State, data: seq<byte>, sent: int)
    requires r.Valid()
    ensures var e := EventOf(data, Handle(r, data, sent).1); !e.Ingested? && !e.FlushedAway?
  {
  }

  /** What a step adds to the losses, and that an overflow leaves the ring full. */
  lemma NextLoses(s: System, step: Step, t: Tally)
    requires s.radio.Valid()
    ensures var (s', e) := Next(s, step);
            && t.dropped <= t.Add(e).dropped && t.flushed <= t.Add(e).flushed
            && (Overflows(s, step) ==> |s'.radio.queue| == s.radio.capacity - 1)
            && (t.Add(e).dropped == t.dropped <==> !Overflows(s, step))
            && (t.Add(e).flushed == t.flushed <==> !FlushesBytes(s, step))
  {
    if step.Spi? {
      SpiLosesNothing(s.radio, step.data, step.sent);
    } else if step.Commit? && s.ground.Admitted? {
      IngestExactly(s.radio, s.ground.datagram);
    }
  }

  /** No move of the run overflows the ring or flushes bytes. */
  predicate KeepsAll(n: Node, crypto: Uplink.Crypto, moves: seq<Move>)
    requires Sound(n)
    decreases |moves|
  {
    moves == []
    || (var front, last := moves[..|moves| - 1], moves[|moves| - 1];
        var before := RunNode(n, crypto, front).0;
        && KeepsAll(n, crypto, front)
        && !Overflows(before.radio, RadioStep(before, last)) && !FlushesBytes(before.radio, RadioStep(before, last)))
  }

  lemma MoveLoses(n: Node, crypto: Uplink.Crypto, move: Move, t: Tally)
    requires Sound(n)
    ensures Lossless(t.Add(Advance(n, crypto, move).1)) <==>
            && Lossless(t)
            && !Overflows(n.radio, RadioStep(n, move)) && !FlushesBytes(n.radio, RadioStep(n, move))
  {
    NextLoses(n.radio, RadioStep(n, move), t);
  }

  /** A run loses no byte exactly when every datagram fits when it is committed and every flush finds the ring empty. */
  lemma {:induction false} LosslessExactly(n: Node, crypto: Uplink.Crypto, moves: seq<Move>)
    requires Sound(n)
    ensures Lossless(TallyOf(RunNode(n, crypto, moves).1)) <==> KeepsAll(n, crypto, moves)
    decreases |moves|
  {
    if moves != [] {
      var front, last := moves[..|moves| - 1], moves[|moves| - 1];
      LosslessExactly(n, crypto, front);
      var (before, events) := RunNode(n, crypto, front);
      MoveLoses(before, crypto, last, TallyOf(events));
      TallySnoc(events, Advance(before, crypto, last).1);
    }
  }
}

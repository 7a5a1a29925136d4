/**
 The interrupt pin against the flag that tracks the buffer. The code drives the pin to 1 on both edges
 of the flag, to 0 at the end of a power-off, and whatever an external write says in between.
 */
module Interrupt {
  import opened Bytes
  import opened Protocol
  import opened Radio
  import opened Schedules
  import opened Invariants

  predicate Agrees(r: State) { r.irqPin == 1 <==> r.asserted }

  // ---------------------------------------------------------------- what writes the pin

  /** An update that changes the flag. */
  predicate IsEdge(s: System, step: Step)
    requires s.radio.Valid()
  {
    (step.Commit? || step.Periodic?) && Next(s, step).0.radio.asserted != s.radio.asserted
  }

  predicate IsClear(s: System, step: Step) { step.UnlockedClear? && s.tick.Flushed? }

  predicate IsDrive(s: System, step: Step) { step.DriveIrq? && s.tick.Idle? }

  predicate WritesPin(s: System, step: Step)
    requires s.radio.Valid()
  {
    IsEdge(s, step) || IsClear(s, step) || IsDrive(s, step)
  }

  predicate IsFlush(s: System, step: Step) { step.LockedFlush? && s.tick.PowerCut? }

  lemma NextPin(s: System, step: Step)
    requires s.radio.Valid()
    ensures IsEdge(s, step) ==> Next(s, step).0.radio.irqPin == 1
    ensures IsClear(s, step) ==> Next(s, step).0.radio.irqPin == 0
    ensures IsDrive(s, step) ==> Next(s, step).0.radio.irqPin == step.level
    ensures !WritesPin(s, step) ==> Next(s, step).0.radio.irqPin == s.radio.irqPin
    ensures !IsEdge(s, step) ==> (Next(s, step).0.radio.asserted <==> s.radio.asserted && !IsFlush(s, step))
  {
    if step.Spi? {
      SpiKeepsPin(s.radio, step.data, step.sent);
    }
  }

  lemma SpiKeepsPin(r: State, data: seq<byte>, sent: int)
    requires r.Valid()
    ensures Handle(r, data, sent).0.irqPin == r.irqPin && Handle(r, data, sent).0.asserted == r.asserted
  {
  }

  // ---------------------------------------------------------------- over runs

  predicate WritesAt(s: System, steps: seq<Step>, k: nat)
    requires s.radio.Valid() && k < |steps|
  {
    WritesPin(Run(s, steps[..k]).0, steps[k])
  }

  predicate FlushesAt(s: System, steps: seq<Step>, k: nat)
    requires s.radio.Valid() && k < |steps|
  {
    IsFlush(Run(s, steps[..k]).0, steps[k])
  }

  predicate FlushedAfter(s: System, steps: seq<Step>, w: int)
    requires s.radio.Valid()
  {
    exists j: nat :: w < j < |steps| && FlushesAt(s, steps, j)
  }

  /** The last step of a run that wrote the pin, or -1. */
  function LastWrite(s: System, steps: seq<Step>): (w: int)
    requires s.radio.Valid()
    ensures -1 <= w < |steps|
    ensures w >= 0 ==> WritesAt(s, steps, w)
    decreases |steps|
  {
    if steps == [] then -1
    else if WritesAt(s, steps, |steps| - 1) then |steps| - 1
    else
      var front := steps[..|steps| - 1];
      var w := LastWrite(s, front);
      assert w >= 0 ==> front[..w] == steps[..w];
      w
  }

  lemma {:induction false} NoneAfterLastWrite(s: System, steps: seq<Step>, k: nat)
    requires s.radio.Valid() && LastWrite(s, steps) < k < |steps|
    ensures !WritesAt(s, steps, k)
    decreases |steps|
  {
    if k < |steps| - 1 {
      var front := steps[..|steps| - 1];
      NoneAfterLastWrite(s, front, k);
      assert front[..k] == steps[..k] && front[k] == steps[k];
    }
  }

  lemma FlushedAfterSnoc(s: System, steps: seq<Step>, w: int)
    requires s.radio.Valid() && steps != [] && w < |steps| - 1
    ensures FlushedAfter(s, steps, w) <==>
            FlushedAfter(s, steps[..|steps| - 1], w) || FlushesAt(s, steps, |steps| - 1)
  {
    var front := steps[..|steps| - 1];
    assert forall j :: 0 <= j < |front| ==> front[..j] == steps[..j] && front[j] == steps[j];
    assert forall j: nat :: j < |front| ==> FlushesAt(s, front, j) == FlushesAt(s, steps, j);
  }

  /** The radio right after step `w` of a run, or at its start. */
  function RadioAfter(s: System, steps: seq<Step>, w: int): State
    requires s.radio.Valid() && -1 <= w < |steps|
  {
    Run(s, steps[..w + 1]).0.radio
  }

  /** The claim of `SinceLastWrite` about the end of a run. */
  predicate KeptSince(r: State, written: State, flushed: bool) {
    r.irqPin == written.irqPin && (r.asserted <==> written.asserted && !flushed)
  }

  lemma OneMoreStep(s: System, step: Step, written: State, flushed: bool)
    requires s.radio.Valid() && KeptSince(s.radio, written, flushed) && !WritesPin(s, step)
    ensures KeptSince(Next(s, step).0.radio, written, flushed || IsFlush(s, step))
  {
    NextPin(s, step);
  }

  lemma WriteBefore(s: System, steps: seq<Step>)
    requires s.radio.Valid() && steps != [] && LastWrite(s, steps) < |steps| - 1
    ensures LastWrite(s, steps[..|steps| - 1]) == LastWrite(s, steps)
  {
  }

  lemma SamePart(s: System, steps: seq<Step>, w: int)
    requires s.radio.Valid() && -1 <= w < |steps| - 1
    ensures RadioAfter(s, steps[..|steps| - 1], w) == RadioAfter(s, steps, w)
  {
    assert steps[..|steps| - 1][..w + 1] == steps[..w + 1];
  }

  /** The pin keeps what its last write gave it; the flag since then can only have been flushed. */
  lemma {:induction false} SinceLastWrite(s: System, steps: seq<Step>)
    requires s.radio.Valid()
    ensures var w := LastWrite(s, steps);
            KeptSince(Run(s, steps).0.radio, RadioAfter(s, steps, w), FlushedAfter(s, steps, w))
    decreases |steps|
  {
    var w := LastWrite(s, steps);
    if w == |steps| - 1 {
      assert steps[..w + 1] == steps;
    } else {
      var front, last := steps[..|steps| - 1], steps[|steps| - 1];
      SinceLastWrite(s, front);
      WriteBefore(s, steps);
      SamePart(s, steps, w);
      FlushedAfterSnoc(s, steps, w);
      OneMoreStep(Run(s, front).0, last, RadioAfter(s, steps, w), FlushedAfter(s, front, w));
    }
  }

  /** An interrupt update that takes place. */
  predicate IsUpdate(s: System, step: Step) {
    (step.Commit? && s.ground.Admitted?) || (step.Periodic? && s.tick.Idle?)
  }

  lemma UpdateTracks(s: System, step: Step)
    requires s.radio.Valid() && IsUpdate(s, step)
    ensures var r' := Next(s, step).0.radio; r'.asserted <==> |r'.queue| >= r'.threshold
  {
  }

  /** Whether pin and flag agree, from the last write of the pin, the flag it left, and flushes since. */
  predicate AgreesSince(s: System, steps: seq<Step>)
    requires s.radio.Valid()
  {
    var w := LastWrite(s, steps);
    var raised, flushed := RadioAfter(s, steps, w).asserted, FlushedAfter(s, steps, w);
    if w < 0 then s.radio.irqPin != 1
    else match steps[w]
      case UnlockedClear => !raised || flushed
      case DriveIrq(level) => level == 1 <==> raised && !flushed
      case _ => raised && !flushed
  }

  /** What a writing step leaves on the pin. */
  predicate Wrote(step: Step, pin: byte) {
    match step
    case UnlockedClear => pin == 0
    case DriveIrq(level) => pin == level
    case _ => pin == 1
  }

  lemma StepWrote(s: System, step: Step)
    requires s.radio.Valid() && WritesPin(s, step)
    ensures Wrote(step, Next(s, step).0.radio.irqPin)
  {
    NextPin(s, step);
  }

  lemma WrittenPin(s: System, steps: seq<Step>, w: nat)
    requires s.radio.Valid() && w < |steps| && WritesAt(s, steps, w)
    ensures Wrote(steps[w], RadioAfter(s, steps, w).irqPin)
  {
    StepWrote(Run(s, steps[..w]).0, steps[w]);
    assert steps[..w + 1][..w] == steps[..w];
  }

  /**
   When pin and flag agree, over every run: if the pin was never written, when it started other than
   high; after an edge, when that edge was rising and no power-off has flushed since; after a clear,
   when the flag was down then or has been flushed since; after an external write, when it wrote what
   the flag is.
   */
  lemma PinAgreesExactly(s: System, steps: seq<Step>)
    requires FreshStart(s)
    ensures Agrees(Run(s, steps).0.radio) <==> AgreesSince(s, steps)
  {
    SinceLastWrite(s, steps);
    if LastWrite(s, steps) >= 0 {
      WrittenPin(s, steps, LastWrite(s, steps));
    } else {
      assert steps[..0] == [];
    }
  }

  /** Right after an update, that is also when the pin tells whether the buffer is filled. */
  lemma PinFollowsExactly(s: System, steps: seq<Step>)
    requires FreshStart(s) && steps != []
    requires IsUpdate(Run(s, steps[..|steps| - 1]).0, steps[|steps| - 1])
    ensures var r := Run(s, steps).0.radio;
            (r.irqPin == 1 <==> |r.queue| >= r.threshold) <==> AgreesSince(s, steps)
  {
    UpdateTracks(Run(s, steps[..|steps| - 1]).0, steps[|steps| - 1]);
    PinAgreesExactly(s, steps);
  }

  // ---------------------------------------------------------------- two runs that show it

  lemma TwoBytesArrive(s: System)
    requires s == Start(Initial(4, 2, 1, 0))
    ensures var s' := Next(Next(s, Datagram([7, 9])).0, Commit).0;
            && s'.radio.Valid() && s'.radio.queue == [7, 9] && s'.radio.asserted && s'.radio.threshold == 2
            && s'.radio.power == 1 && s'.tick.Idle?
  {
    assert [] + [7, 9][..2] == [7, 9];
  }

  lemma TwoBytesReadOut(s: System, data: seq<byte>)
    requires s.radio.Valid() && s.radio.queue == [7, 9] && s.radio.power == 1 && s.tick.Idle?
    requires ParseCommand(data) == Command(RECEIVE_CMD, [0, 2])
    ensures var s' := Next(s, Spi(data, 0)).0;
            && s'.radio.Valid() && s'.radio.queue == [] && s'.radio.asserted == s.radio.asserted
            && s'.radio.threshold == s.radio.threshold && s'.tick.Idle?
  {
    assert Be16(0, 2) == 2;
  }

  lemma FlagFalls(s: System)
    requires s.radio.Valid() && s.radio.queue == [] && s.radio.asserted && s.radio.threshold == 2 && s.tick.Idle?
    ensures var r := Next(s, Periodic).0.radio; r.queue == [] && !r.asserted && r.irqPin == 1
  {
  }

  /**
   The interrupt pin does not follow the buffer: after two bytes arrive, are read out and the flag
   is updated, the ring is empty and the flag clear, yet the pin is still high.
   */
  lemma PinStaysHigh(data: seq<byte>) returns (s2: System, s3: System, s4: System)
    requires ParseCommand(data) == Command(RECEIVE_CMD, [0, 2])
    ensures s2 == Next(Next(Start(Initial(4, 2, 1, 0)), Datagram([7, 9])).0, Commit).0
    ensures s2.radio.Valid() && s3 == Next(s2, Spi(data, 0)).0
    ensures s3.radio.Valid() && s4 == Next(s3, Periodic).0
    ensures s4.radio.queue == [] && !s4.radio.asserted && s4.radio.irqPin == 1
  {
    s2 := Next(Next(Start(Initial(4, 2, 1, 0)), Datagram([7, 9])).0, Commit).0;
    TwoBytesArrive(Start(Initial(4, 2, 1, 0)));
    s3 := Next(s2, Spi(data, 0)).0;
    TwoBytesReadOut(s2, data);
    s4 := Next(s3, Periodic).0;
    FlagFalls(s3);
  }

  // A late commit raises the flag and drives the pin high; the end of the power-off then drives it low.
  lemma LateDatagram(s: System)
    requires s == Start(Initial(4, 2, 1, 0))
    ensures var cut := Next(Next(s, Datagram([7, 9])).0, Power(0)).0;
            && cut.radio.Valid() && cut.radio == s.radio.(power := 0)
            && cut.ground == Admitted([7, 9]) && cut.tick == PowerCut
  {
  }

  lemma LateCommit(s: System)
    requires s.radio == Initial(4, 2, 1, 0).(power := 0) && s.ground == Admitted([7, 9]) && s.tick == PowerCut
    ensures var landed := Next(Next(s, LockedFlush).0, Commit).0;
            && landed.radio.Valid() && landed.radio.queue == [7, 9] && landed.radio.asserted
            && landed.radio.threshold == 2 && landed.radio.power == 0
            && landed.tick == Flushed && landed.ground == Waiting
  {
    assert [] + [7, 9][..2] == [7, 9];
  }

  /**
   The harmful direction: after a datagram lands late in a power-off, the ring is filled and the flag
   is set but the pin is low; updates leave it low, also once the radio is on again.
   */
  lemma PinStaysLow() returns (s2: System, s4: System, s5: System, s6: System)
    ensures s2 == Next(Next(Start(Initial(4, 2, 1, 0)), Datagram([7, 9])).0, Power(0)).0
    ensures s2.radio.Valid() && s4 == Next(Next(s2, LockedFlush).0, Commit).0
    ensures s4.radio.Valid() && s5 == Next(s4, UnlockedClear).0
    ensures s5.radio.Valid() && |s5.radio.queue| == s5.radio.threshold && s5.radio.asserted && s5.radio.irqPin == 0
    ensures Next(s5, Periodic).0 == s5
    ensures s6 == Next(s5, Power(1)).0 && s6.radio.Valid() && s6.radio.irqPin == 0 && Next(s6, Periodic).0 == s6
  {
    LateDatagram(Start(Initial(4, 2, 1, 0)));
    s2 := Next(Next(Start(Initial(4, 2, 1, 0)), Datagram([7, 9])).0, Power(0)).0;
    LateCommit(s2);
    s4 := Next(Next(s2, LockedFlush).0, Commit).0;
    s5 := Next(s4, UnlockedClear).0;
    s6 := Next(s5, Power(1)).0;
  }
}

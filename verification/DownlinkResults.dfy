/** What a downlink poll achieves: conservation, optimal packing, bounds, losses and termination. */
module DownlinkResults {
  import opened Bytes
  import opened Packing
  import opened Downlink

  // ---------------------------------------------------------------- any poll

  /** In order, the packets in frames sent, those lost and those still queued are these. */
  predicate Accounts(o: Outcome, queue: seq<Packet>) { Flatten(o.sent) + o.lost + o.pipe == queue }

  lemma EndAccounts(room: nat, queue: seq<Packet>, f: Fill)
    requires f.frame + f.rest == queue
    ensures Accounts(Outcome([f.frame], [], f.rest), queue) && Accounts(Abandon(room, f), queue)
  {
    FlattenOne(f.frame);
    assert f.frame + [] == f.frame && [] + f.frame == f.frame;
    if !LastTurn(room, f) {
      MoveOne(f.frame, f.rest);
      assert [] + (f.frame + [f.rest[0]]) == f.frame + [f.rest[0]];
    }
  }

  lemma AfterAccounts(queue: seq<Packet>, f: Fill, later: Outcome)
    requires f.frame + f.rest == queue && Accounts(later, f.rest)
    ensures Accounts(After([f.frame], later), queue)
  {
    assert ([f.frame] + later.sent)[1..] == later.sent;
    Regrouped(f.frame, Flatten(later.sent), later.lost, later.pipe);
  }

  lemma Regrouped<T>(a: seq<T>, b: seq<T>, c: seq<T>, d: seq<T>)
    ensures a + b + c + d == a + (b + c + d)
  {
  }

  /** Every poll that ends accounts for its whole queue. */
  lemma {:induction false} PollConserves(capacity: nat, room: nat, queue: seq<Packet>, unsynced: set<nat>, turn: nat)
    requires room > 0 && capacity > 0 && Ends(capacity, room, queue, unsynced, turn)
    ensures Accounts(Service(capacity, room, queue, unsynced, turn), queue)
    decreases Horizon(capacity, room, queue, unsynced, turn), |queue|
  {
    var f := Filling(room, capacity, queue);
    FillingIsFilled(room, capacity, queue);
    if turn in unsynced || LastTurn(room, f) {
      EndAccounts(room, queue, f);
    } else {
      GoesOn(capacity, room, queue, unsynced, turn);
      PollConserves(capacity, room - |f.frame|, f.rest, unsynced, turn + 1);
      AfterAccounts(queue, f, Service(capacity, room - |f.frame|, f.rest, unsynced, turn + 1));
    }
  }

  /** A turn of packets that fit either ends the poll or places some, and the others fit too. */
  lemma PlacedSome(capacity: nat, room: nat, queue: seq<Packet>)
    requires room > 0 && capacity > 0 && Fit(capacity, queue, room)
    ensures var f := Filling(room, capacity, queue);
            && Filled(capacity, room, queue, f)
            && (queue != [] ==> f.frame != [] && f.frame[0] == queue[0])
            && (!LastTurn(room, f) ==>
                  && 0 < |f.frame| < room && f.rest != [] && |f.frame| + |f.rest| == |queue|
                  && Fit(capacity, f.rest, room - |f.frame|))
  {
    var f := Filling(room, capacity, queue);
    FillingIsFilled(room, capacity, queue);
    if !LastTurn(room, f) {
      FitBehind(capacity, room, queue, f);
    }
  }

  lemma FrameBefore(capacity: nat, frame: seq<Packet>, rest: seq<Packet>, frames: seq<seq<Packet>>)
    requires Load(frame) < capacity && rest != [] && Load(frame) + rest[0].Size() >= capacity
    requires Holds(capacity, frames) && NoneFitsEarlier(capacity, frames)
    requires frames != [] ==> frames[0] != [] && frames[0][0] == rest[0]
    ensures Holds(capacity, [frame] + frames) && NoneFitsEarlier(capacity, [frame] + frames)
  {
    assert ([frame] + frames)[1..] == frames;
  }

  /** Frames sent keep space free, none but a lone idle frame is empty, and each packing step was forced. */
  lemma {:induction false} PollIsGreedy(capacity: nat, room: nat, queue: seq<Packet>, unsynced: set<nat>, turn: nat)
    requires room > 0 && capacity > 0 && Fit(capacity, queue, room)
    ensures var frames := Service(capacity, room, queue, unsynced, turn).sent;
            && Holds(capacity, frames)
            && NoneFitsEarlier(capacity, frames)
            && (frames != [] && queue != [] ==> frames[0] != [] && frames[0][0] == queue[0])
    decreases |queue|
  {
    var f := Filling(room, capacity, queue);
    PlacedSome(capacity, room, queue);
    if turn !in unsynced && !LastTurn(room, f) {
      PollIsGreedy(capacity, room - |f.frame|, f.rest, unsynced, turn + 1);
      FrameBefore(capacity, f.frame, f.rest, Service(capacity, room - |f.frame|, f.rest, unsynced, turn + 1).sent);
    }
  }

  // ---------------------------------------------------------------- a poll without failures

  /** Nothing is lost, and as many packets are placed as there are, or as the limit allows. */
  lemma {:induction false} PollPlacesAll(capacity: nat, room: nat, queue: seq<Packet>, turn: nat)
    requires room > 0 && capacity > 0 && Fit(capacity, queue, room)
    ensures var o := Service(capacity, room, queue, {}, turn);
            o.lost == [] && o.sent != [] && |o.pipe| == |queue| - Min(room, |queue|)
    decreases |queue|
  {
    var f := Filling(room, capacity, queue);
    PlacedSome(capacity, room, queue);
    if !LastTurn(room, f) {
      PollPlacesAll(capacity, room - |f.frame|, f.rest, turn + 1);
    } else {
      assert |f.frame| + |f.rest| == |queue|;
    }
  }

  lemma AccountsForAll(o: Outcome, queue: seq<Packet>, n: nat)
    requires Accounts(o, queue) && o.lost == [] && n <= |queue| && |o.pipe| == |queue| - n
    ensures Flatten(o.sent) == queue[..n] && o.pipe == queue[n..]
  {
    assert Flatten(o.sent) + [] == Flatten(o.sent);
    assert queue == queue[..n] + queue[n..];
    SplitAt(Flatten(o.sent), o.pipe, queue[..n], queue[n..]);
  }

  lemma PollSendsFirst(capacity: nat, limit: nat, queue: seq<Packet>)
    requires limit > 0 && capacity > 0 && Fit(capacity, queue, limit)
    ensures var n := Min(limit, |queue|);
            var o := Service(capacity, limit, queue, {}, 0);
            && o.lost == [] && o.sent != []
            && Flatten(o.sent) == queue[..n] && o.pipe == queue[n..]
  {
    PollPlacesAll(capacity, limit, queue, 0);
    PollConserves(capacity, limit, queue, {}, 0);
    AccountsForAll(Service(capacity, limit, queue, {}, 0), queue, Min(limit, |queue|));
  }

  /**
   One poll with a working library: exactly the first `limit` queued packets (all, if fewer) are put
   into frames, in order and none held at the end; the frames are the greedy packing; no order-
   preserving packing of these packets uses fewer; there are at most as many frames as packets, one
   idle frame if there are none, and never more than the limit.
   */
  lemma PollPacksOptimally(capacity: nat, limit: nat, queue: seq<Packet>, other: seq<seq<Packet>>)
    requires limit > 0 && capacity > 0 && Fit(capacity, queue, limit)
    ensures var n := Min(limit, |queue|);
            var o := Service(capacity, limit, queue, {}, 0);
            && o.lost == [] && o.pipe == queue[n..]
            && Greedy(capacity, o.sent, queue[..n])
            && 1 <= |o.sent| <= (if n == 0 then 1 else n) <= limit
            && (n > 0 && Flatten(other) == queue[..n] && Holds(capacity, other) ==> |o.sent| <= |other|)
  {
    var n := Min(limit, |queue|);
    var o := Service(capacity, limit, queue, {}, 0);
    PollSendsFirst(capacity, limit, queue);
    PollIsGreedy(capacity, limit, queue, {}, 0);
    if n == 0 {
      assert Filling(limit, capacity, queue) == Fill([], queue);
    } else {
      FrameCount(capacity, o.sent);
      if Flatten(other) == queue[..n] && Holds(capacity, other) {
        GreedyOptimal(capacity, o.sent, other, queue[..n]);
      }
    }
  }

  // ---------------------------------------------------------------- a poll that is abandoned

  /** The packet held when frame `j` of these was closed: the first of the next, if there is one. */
  function HeldAfter(frames: seq<seq<Packet>>, j: nat): seq<Packet>
    requires j < |frames|
  {
    if j + 1 < |frames| && frames[j + 1] != [] then [frames[j + 1][0]] else []
  }

  /** The number of frames before the first turn that fails, at most `n`. */
  function FirstFailure(unsynced: set<nat>, turn: nat, n: nat): (j: nat)
    ensures j <= n
    ensures j < n ==> turn + j in unsynced
    ensures forall i :: turn <= i < turn + j ==> i !in unsynced
    decreases n
  {
    if n == 0 || turn in unsynced then 0 else 1 + FirstFailure(unsynced, turn + 1, n - 1)
  }

  /** `full` is what the poll does without failures, `o` what it does when the turn numbered `j` fails first. */
  predicate LosesFrame(full: Outcome, o: Outcome, j: nat) {
    && j <= |full.sent|
    && if j == |full.sent| then o == full
       else o.sent == full.sent[..j] && o.lost == full.sent[j] + HeldAfter(full.sent, j)
  }

  lemma LosesLast(room: nat, f: Fill)
    requires LastTurn(room, f)
    ensures LosesFrame(Outcome([f.frame], [], f.rest), Abandon(room, f), 0)
    ensures LosesFrame(Outcome([f.frame], [], f.rest), Outcome([f.frame], [], f.rest), 1)
  {
    assert f.frame + [] == f.frame;
  }

  lemma LosesNow(room: nat, f: Fill, later: Outcome)
    requires !LastTurn(room, f) && later.sent != [] && later.sent[0] != [] && later.sent[0][0] == f.rest[0]
    ensures LosesFrame(After([f.frame], later), Abandon(room, f), 0)
  {
    assert ([f.frame] + later.sent)[1] == later.sent[0];
  }

  lemma LosesLater(frame: seq<Packet>, later: Outcome, o: Outcome, j: nat)
    requires LosesFrame(later, o, j)
    ensures LosesFrame(After([frame], later), After([frame], o), j + 1)
  {
    var all := [frame] + later.sent;
    assert all[..j + 1] == [frame] + later.sent[..j];
    if j < |later.sent| {
      assert all[j + 1] == later.sent[j] && HeldAfter(all, j + 1) == HeldAfter(later.sent, j);
    }
  }

  lemma LosesFirstLater(frame: seq<Packet>, later: Outcome, o: Outcome, unsynced: set<nat>, turn: nat)
    requires turn !in unsynced && LosesFrame(later, o, FirstFailure(unsynced, turn + 1, |later.sent|))
    ensures LosesFrame(After([frame], later), After([frame], o),
                       FirstFailure(unsynced, turn, |After([frame], later).sent|))
  {
    LosesLater(frame, later, o, FirstFailure(unsynced, turn + 1, |later.sent|));
  }

  /** Without failures, the first frame that a poll sends starts with the first packet. */
  lemma StartsInOrder(capacity: nat, room: nat, queue: seq<Packet>, turn: nat)
    requires room > 0 && capacity > 0 && Fit(capacity, queue, room) && queue != []
    ensures var frames := Service(capacity, room, queue, {}, turn).sent;
            frames != [] && frames[0] != [] && frames[0][0] == queue[0]
  {
    PollPlacesAll(capacity, room, queue, turn);
    PollIsGreedy(capacity, room, queue, {}, turn);
  }

  /**
   Losses, exactly: with the frames the poll would send if nothing failed, the frames before the
   first failing turn are sent, and what is lost is the failing turn's frame and the one packet held
   over from it; without a failing turn nothing is lost.
   */
  lemma {:induction false} LossExactly(capacity: nat, room: nat, queue: seq<Packet>, unsynced: set<nat>, turn: nat)
    requires room > 0 && capacity > 0 && Fit(capacity, queue, room)
    ensures var full := Service(capacity, room, queue, {}, turn);
            var o := Service(capacity, room, queue, unsynced, turn);
            LosesFrame(full, o, FirstFailure(unsynced, turn, |full.sent|))
    decreases |queue|
  {
    var f := Filling(room, capacity, queue);
    PlacedSome(capacity, room, queue);
    if LastTurn(room, f) {
      LosesLast(room, f);
    } else {
      var left := room - |f.frame|;
      if turn in unsynced {
        StartsInOrder(capacity, left, f.rest, turn + 1);
        LosesNow(room, f, Service(capacity, left, f.rest, {}, turn + 1));
      } else {
        LossExactly(capacity, left, f.rest, unsynced, turn + 1);
        LosesFirstLater(f.frame, Service(capacity, left, f.rest, {}, turn + 1),
                        Service(capacity, left, f.rest, unsynced, turn + 1), unsynced, turn);
      }
    }
  }

  // ---------------------------------------------------------------- termination

  function Turns(capacity: nat, limit: nat, s: Loop, n: nat): Loop
    decreases n
  {
    if n == 0 || s.count >= limit then s else Turns(capacity, limit, TurnOnce(capacity, limit, s), n - 1)
  }

  /** A packet too large for an empty frame, among those that the poll may still place. */
  ghost predicate Blocked(capacity: nat, limit: nat, s: Loop) {
    s.count < limit && !Fit(capacity, s.queue, limit - s.count)
  }

  lemma UnfitGoesOn(capacity: nat, room: nat, queue: seq<Packet>)
    requires capacity > 0 && !Fit(capacity, queue, room)
    ensures var f := Filling(room, capacity, queue);
            !LastTurn(room, f) && |f.frame| < room && !Fit(capacity, f.rest, room - |f.frame|)
  {
    var f := Filling(room, capacity, queue);
    FillingIsFilled(room, capacity, queue);
    if LastTurn(room, f) {
      forall i | 0 <= i < |queue| && i < room
        ensures queue[i].Size() < capacity
      {
        assert queue[i] == f.frame[i];
        LoadAtLeast(f.frame, i);
      }
    } else {
      FitBehind(capacity, room, queue, f);
    }
  }

  lemma {:induction false} OversizedBlocks(capacity: nat, limit: nat, s: Loop, n: nat)
    requires capacity > 0 && Blocked(capacity, limit, s)
    ensures Turns(capacity, limit, s, n).count < limit
    decreases n
  {
    if n > 0 {
      UnfitGoesOn(capacity, limit - s.count, s.queue);
      OversizedBlocks(capacity, limit, TurnOnce(capacity, limit, s), n - 1);
    }
  }

  lemma FinishedStays(capacity: nat, limit: nat, s: Loop, n: nat)
    requires s.count >= limit
    ensures Turns(capacity, limit, s, n) == s
  {
  }

  /** A turn that neither ends the poll nor fails: what has been sent and what follows stay the same together. */
  lemma PassingTurn(capacity: nat, limit: nat, s: Loop, unsynced: set<nat>, turn: nat)
    requires capacity > 0 && s.count < limit && turn !in unsynced
    requires TurnOnce(capacity, limit, s).count < limit
    requires Ends(capacity, limit - s.count, s.queue, unsynced, turn)
    ensures var next := TurnOnce(capacity, limit, s);
            && Ends(capacity, limit - next.count, next.queue, unsynced, turn + 1)
            && After(s.frames, Service(capacity, limit - s.count, s.queue, unsynced, turn))
               == After(next.frames, Service(capacity, limit - next.count, next.queue, unsynced, turn + 1))
  {
    var room := limit - s.count;
    var f := Filling(room, capacity, s.queue);
    GoesOn(capacity, room, s.queue, unsynced, turn);
    AfterOne(s.frames, f.frame, Service(capacity, room - |f.frame|, f.rest, unsynced, turn + 1));
  }

  /** When the packets fit, the loop ends within as many turns as it may place packets, with the poll's frames. */
  lemma {:induction false} FitFinishes(capacity: nat, limit: nat, s: Loop, n: nat, turn: nat)
    requires capacity > 0 && s.count < limit && Fit(capacity, s.queue, limit - s.count)
    requires n >= limit - s.count
    ensures var after := Turns(capacity, limit, s, n);
            && after.count == limit
            && after.frames == s.frames + Service(capacity, limit - s.count, s.queue, {}, turn).sent
    decreases n
  {
    var next := TurnOnce(capacity, limit, s);
    PlacedSome(capacity, limit - s.count, s.queue);
    if LastTurn(limit - s.count, Filling(limit - s.count, capacity, s.queue)) {
      FinishedStays(capacity, limit, next, n - 1);
    } else {
      PassingTurn(capacity, limit, s, {}, turn);
      FitFinishes(capacity, limit, next, n - 1, turn + 1);
    }
  }

  /**
   The loops end exactly when each of the first `limit` queued packets is smaller than an empty
   frame; a larger one is held for ever while idle frames go out.
   */
  lemma TerminatesExactly(capacity: nat, limit: nat, queue: seq<Packet>)
    requires capacity > 0
    ensures (exists n: nat :: Turns(capacity, limit, Loop(queue, 0, []), n).count >= limit)
            <==> Fit(capacity, queue, limit)
  {
    var s := Loop(queue, 0, []);
    if Fit(capacity, queue, limit) {
      if limit > 0 {
        FitFinishes(capacity, limit, s, limit, 0);
      } else {
        FinishedStays(capacity, limit, s, 0);
      }
    } else {
      forall n: nat
        ensures Turns(capacity, limit, s, n).count < limit
      {
        OversizedBlocks(capacity, limit, s, n);
      }
    }
  }

  /** With failures: the loops end at the limit or with the first turn that fails, here within `n` turns. */
  predicate EndsWithin(capacity: nat, limit: nat, s: Loop, unsynced: set<nat>, turn: nat, n: nat)
    decreases n
  {
    || s.count >= limit
    || (n > 0
        && (turn in unsynced || EndsWithin(capacity, limit, TurnOnce(capacity, limit, s), unsynced, turn + 1, n - 1)))
  }

  lemma {:induction false} LimitEnds(capacity: nat, limit: nat, s: Loop, unsynced: set<nat>, turn: nat, n: nat)
    requires Turns(capacity, limit, s, n).count >= limit
    ensures EndsWithin(capacity, limit, s, unsynced, turn, n)
    decreases n
  {
    if n > 0 && s.count < limit {
      LimitEnds(capacity, limit, TurnOnce(capacity, limit, s), unsynced, turn + 1, n - 1);
    }
  }

  lemma {:induction false} FailureEnds(capacity: nat, limit: nat, s: Loop, unsynced: set<nat>, turn: nat, n: nat)
    requires turn + n in unsynced
    ensures EndsWithin(capacity, limit, s, unsynced, turn, n + 1)
    decreases n
  {
    if n > 0 && s.count < limit {
      FailureEnds(capacity, limit, TurnOnce(capacity, limit, s), unsynced, turn + 1, n - 1);
    }
  }

  lemma {:induction false} OnlyLimitEnds(capacity: nat, limit: nat, s: Loop, unsynced: set<nat>, turn: nat, n: nat)
    requires forall t :: t in unsynced ==> t < turn
    requires EndsWithin(capacity, limit, s, unsynced, turn, n)
    ensures Turns(capacity, limit, s, n).count >= limit
    decreases n
  {
    if n > 0 && s.count < limit {
      OnlyLimitEnds(capacity, limit, TurnOnce(capacity, limit, s), unsynced, turn + 1, n - 1);
    }
  }

  /**
   Failures included, the loops end exactly in the polls that `ServiceDownlink` is specified for: when
   the first `limit` packets fit, or else when some turn fails to synchronise.
   */
  lemma EndsExactly(capacity: nat, limit: nat, queue: seq<Packet>, unsynced: set<nat>)
    requires capacity > 0
    ensures (exists n: nat :: EndsWithin(capacity, limit, Loop(queue, 0, []), unsynced, 0, n))
            <==> Ends(capacity, limit, queue, unsynced, 0)
  {
    var s := Loop(queue, 0, []);
    TerminatesExactly(capacity, limit, queue);
    if Fit(capacity, queue, limit) {
      var n: nat :| Turns(capacity, limit, s, n).count >= limit;
      LimitEnds(capacity, limit, s, unsynced, 0, n);
      assert exists m: nat :: EndsWithin(capacity, limit, s, unsynced, 0, m);
    } else if t: nat :| t in unsynced {
      FailureEnds(capacity, limit, s, unsynced, 0, t);
      assert exists m: nat :: EndsWithin(capacity, limit, s, unsynced, 0, m);
    } else {
      forall n: nat | EndsWithin(capacity, limit, s, unsynced, 0, n)
        ensures false
      {
        OnlyLimitEnds(capacity, limit, s, unsynced, 0, n);
      }
    }
  }

  /**
   What a poll that fails at the turn `n` turns on has sent and lost, whatever the packets' sizes: the
   frames of the turns before, and the frame of the failing turn with the packet held over from it.
   */
  lemma {:induction false} FailureLoses(capacity: nat, limit: nat, s: Loop, unsynced: set<nat>, turn: nat, n: nat)
    requires capacity > 0 && turn + n in unsynced && forall t :: turn <= t < turn + n ==> t !in unsynced
    requires s.count < limit && Turns(capacity, limit, s, n).count < limit
    requires Ends(capacity, limit - s.count, s.queue, unsynced, turn)
    ensures var failing := Turns(capacity, limit, s, n);
            After(s.frames, Service(capacity, limit - s.count, s.queue, unsynced, turn))
            == After(failing.frames,
                     Abandon(limit - failing.count, Filling(limit - failing.count, capacity, failing.queue)))
    decreases n
  {
    if n > 0 {
      var next := TurnOnce(capacity, limit, s);
      assert next.count < limit;
      PassingTurn(capacity, limit, s, unsynced, turn);
      FailureLoses(capacity, limit, next, unsynced, turn + 1, n - 1);
    }
  }

  function IdleFrames(n: nat): seq<seq<Packet>> {
    if n == 0 then [] else IdleFrames(n - 1) + [[]]
  }

  lemma IdleFirst(n: nat)
    ensures [[]] + IdleFrames(n) == IdleFrames(n + 1)
  {
    if n > 0 {
      IdleFirst(n - 1);
    }
  }

  /** One oversized packet at the head: after any number of turns it is still held, and each turn sent an idle frame. */
  lemma {:induction false} OversizedHeldForEver(capacity: nat, limit: nat, p: Packet, rest: seq<Packet>,
                                                frames: seq<seq<Packet>>, n: nat)
    requires limit > 0 && p.Size() >= capacity
    ensures Turns(capacity, limit, Loop([p] + rest, 0, frames), n) == Loop([p] + rest, 0, frames + IdleFrames(n))
    decreases n
  {
    var queue := [p] + rest;
    if n == 0 {
      assert frames + [] == frames;
    } else {
      assert Filling(limit, capacity, queue) == Fill([], queue);
      assert TurnOnce(capacity, limit, Loop(queue, 0, frames)) == Loop(queue, 0, frames + [[]]);
      OversizedHeldForEver(capacity, limit, p, rest, frames + [[]], n - 1);
      IdleFirst(n - 1);
      assert frames + [[]] + IdleFrames(n - 1) == frames + ([[]] + IdleFrames(n - 1));
    }
  }
}

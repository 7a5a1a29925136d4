/**
 RADIO_ServiceDownlink: queued packets are packed in order into transfer frames, with one packet
 held over when it does not fit. The TM library is abstract: starting a frame gives a fixed free
 capacity, adding a packet takes its size off, completing a frame makes it not ready.
 */
module Downlink {
  import opened Bytes
  import opened Packing

  // ---------------------------------------------------------------- specification

  /** A frame and the packets behind it. */
  datatype Fill = Fill(frame: seq<Packet>, rest: seq<Packet>)

  /** One frame with `free` octets takes packets of the queue in order, at most `room` of them, while they fit. */
  function Filling(room: nat, free: nat, queue: seq<Packet>): Fill
    decreases |queue|
  {
    if room == 0 || queue == [] || queue[0].Size() >= free then Fill([], queue)
    else
      var more := Filling(room - 1, free - queue[0].Size(), queue[1..]);
      Fill([queue[0]] + more.frame, more.rest)
  }

  /**
   A frame takes the longest possible beginning of the queue: it leaves free space, and it stops
   only at the poll's limit, at the end of the queue, or at a packet that does not fit any more.
   */
  ghost predicate Filled(capacity: nat, room: nat, queue: seq<Packet>, f: Fill) {
    && f.frame + f.rest == queue
    && |f.frame| <= room
    && Load(f.frame) < capacity
    && (|f.frame| == room || f.rest == [] || Load(f.frame) + f.rest[0].Size() >= capacity)
  }

  lemma {:induction false} FillingIsFilled(room: nat, free: nat, queue: seq<Packet>)
    requires free > 0
    ensures Filled(free, room, queue, Filling(room, free, queue))
    decreases |queue|
  {
    if !(room == 0 || queue == [] || queue[0].Size() >= free) {
      var more := Filling(room - 1, free - queue[0].Size(), queue[1..]);
      FillingIsFilled(room - 1, free - queue[0].Size(), queue[1..]);
      assert ([queue[0]] + more.frame)[1..] == more.frame;
      assert [queue[0]] + more.frame + more.rest == [queue[0]] + (more.frame + more.rest);
    }
  }

  /** The description leaves no choice. */
  lemma {:induction false} FilledIsFilling(capacity: nat, room: nat, queue: seq<Packet>, f: Fill)
    requires Filled(capacity, room, queue, f)
    ensures Filling(room, capacity, queue) == f
    decreases |f.frame|
  {
    if f.frame != [] {
      var p, frame := f.frame[0], f.frame[1..];
      assert f.frame == [p] + frame;
      assert queue[0] == p && queue[1..] == frame + f.rest;
      FilledIsFilling(capacity - p.Size(), room - 1, queue[1..], Fill(frame, f.rest));
    } else {
      assert [] + f.rest == f.rest;
    }
  }

  /** Every packet among the first `n` is smaller than an empty frame's free space. */
  predicate Fit(capacity: nat, queue: seq<Packet>, n: nat) {
    forall i :: 0 <= i < |queue| && i < n ==> queue[i].Size() < capacity
  }

  lemma {:induction false} LoadAtLeast(frame: seq<Packet>, i: nat)
    requires i < |frame|
    ensures frame[i].Size() <= Load(frame)
    decreases i
  {
    if i > 0 {
      LoadAtLeast(frame[1..], i - 1);
    }
  }

  datatype Outcome = Outcome(sent: seq<seq<Packet>>, lost: seq<Packet>, pipe: seq<Packet>)

  /** The frame of a turn of the outer loop ends the poll: the limit is reached or the queue is empty. */
  predicate LastTurn(room: nat, f: Fill) { |f.frame| == room || f.rest == [] }

  /** A turn that fails loses its frame and the packet held over from it. */
  function Abandon(room: nat, f: Fill): Outcome {
    if LastTurn(room, f) then Outcome([], f.frame, f.rest)
    else Outcome([], f.frame + [f.rest[0]], f.rest[1..])
  }

  function After(frames: seq<seq<Packet>>, outcome: Outcome): Outcome { outcome.(sent := frames + outcome.sent) }

  /** A poll ends when the packets it reaches fit, or else when some turn to come fails to synchronise. */
  predicate Ends(capacity: nat, room: nat, queue: seq<Packet>, unsynced: set<nat>, turn: nat) {
    Fit(capacity, queue, room) || exists t :: t in unsynced && turn <= t
  }

  ghost function Bound(s: set<nat>): (b: nat)
    ensures forall t :: t in s ==> t < b
  {
    if s == {} then 0
    else
      var x :| x in s;
      var b := Bound(s - {x});
      assert forall t :: t in s ==> t == x || t in s - {x};
      if x < b then b else x + 1
  }

  /** Turns that may pass before an oversized packet no longer holds the poll up. */
  ghost function Horizon(capacity: nat, room: nat, queue: seq<Packet>, unsynced: set<nat>, turn: nat): nat {
    if Fit(capacity, queue, room) || Bound(unsynced) <= turn then 0 else Bound(unsynced) - turn
  }

  ghost predicate Nearer(capacity: nat, room: nat, queue: seq<Packet>, room': nat, queue': seq<Packet>,
                         unsynced: set<nat>, turn: nat) {
    var before := Horizon(capacity, room, queue, unsynced, turn);
    var after := Horizon(capacity, room', queue', unsynced, turn + 1);
    after < before || (after == before && |queue'| < |queue|)
  }

  /** The rest of the queue after a frame that ended with a packet held. */
  lemma FitBehind(capacity: nat, room: nat, queue: seq<Packet>, f: Fill)
    requires Filled(capacity, room, queue, f) && !LastTurn(room, f)
    ensures |f.frame| < room && f.rest != [] && |f.frame| + |f.rest| == |queue|
    ensures Fit(capacity, queue, room) <==> Fit(capacity, f.rest, room - |f.frame|)
    ensures Fit(capacity, queue, room) ==> f.frame != [] && f.frame[0] == queue[0]
  {
    forall i | 0 <= i < |queue|
      ensures queue[i] == if i < |f.frame| then f.frame[i] else f.rest[i - |f.frame|]
      ensures i < |f.frame| ==> queue[i].Size() < capacity
    {
      if i < |f.frame| {
        LoadAtLeast(f.frame, i);
      }
    }
    forall i | 0 <= i < |f.rest|
      ensures f.rest[i] == queue[|f.frame| + i]
    {
    }
  }

  /** A turn that neither ends the poll nor fails brings its end nearer. */
  lemma GoesOn(capacity: nat, room: nat, queue: seq<Packet>, unsynced: set<nat>, turn: nat)
    requires capacity > 0 && Ends(capacity, room, queue, unsynced, turn)
    requires !LastTurn(room, Filling(room, capacity, queue)) && turn !in unsynced
    ensures var f := Filling(room, capacity, queue);
            && |f.frame| < room
            && Ends(capacity, room - |f.frame|, f.rest, unsynced, turn + 1)
            && Nearer(capacity, room, queue, room - |f.frame|, f.rest, unsynced, turn)
  {
    FillingIsFilled(room, capacity, queue);
    FitBehind(capacity, room, queue, Filling(room, capacity, queue));
  }

  /**
   A poll, from the turn numbered `turn` on. When synchronisation of that turn's frame fails the
   poll is abandoned, with the frame and the held packet.
   */
  function Service(capacity: nat, room: nat, queue: seq<Packet>, unsynced: set<nat>, turn: nat): Outcome
    requires room > 0 && capacity > 0 && Ends(capacity, room, queue, unsynced, turn)
    decreases Horizon(capacity, room, queue, unsynced, turn), |queue|
  {
    var f := Filling(room, capacity, queue);
    if turn in unsynced then Abandon(room, f)
    else if LastTurn(room, f) then Outcome([f.frame], [], f.rest)
    else
      GoesOn(capacity, room, queue, unsynced, turn);
      After([f.frame], Service(capacity, room - |f.frame|, f.rest, unsynced, turn + 1))
  }

  // ---------------------------------------------------------------- a turn, whatever the packets

  /** The outer loop's state, with no assumption that packets fit. */
  datatype Loop = Loop(queue: seq<Packet>, count: nat, frames: seq<seq<Packet>>)

  function TurnOnce(capacity: nat, limit: nat, s: Loop): Loop
    requires s.count < limit
  {
    var f := Filling(limit - s.count, capacity, s.queue);
    Loop(f.rest, if LastTurn(limit - s.count, f) then limit else s.count + |f.frame|, s.frames + [f.frame])
  }

  // ---------------------------------------------------------------- the service

  function Held(size: nat, packet: Packet): seq<Packet> { if size == 0 then [] else [packet] }

  lemma FilledIsTurn(capacity: nat, limit: nat, count: nat, queue: seq<Packet>, f: Fill)
    requires count < limit && Filled(capacity, limit - count, queue, f)
    ensures forall frames :: TurnOnce(capacity, limit, Loop(queue, count, frames)) ==
              Loop(f.rest, if LastTurn(limit - count, f) then limit else count + |f.frame|, frames + [f.frame])
  {
    FilledIsFilling(capacity, limit - count, queue, f);
  }

  lemma LoadOneMore(frame: seq<Packet>, p: Packet)
    ensures Load(frame + [p]) == Load(frame) + p.Size()
  {
    LoadConcat(frame, [p]);
  }

  lemma MoveOne(placed: seq<Packet>, rest: seq<Packet>)
    requires rest != []
    ensures placed + [rest[0]] + rest[1..] == placed + rest
  {
  }

  class DownlinkService {
    const capacity: nat
    var pipe: seq<Packet>            // packets waiting on the software bus
    var incoming: seq<seq<Packet>>   // what other tasks put on the pipe before each of the next reads
    var ready: bool                  // frame_info
    var free: nat
    var open: seq<Packet>            // packets in the frame being filled
    var sent: seq<seq<Packet>>       // packets of each frame given to the radio

    ghost predicate Valid()
      reads this
    {
      capacity > 0 && (ready ==> open == [] && free == capacity)
    }

    ghost function Coming(): seq<Packet>
      reads this`incoming
    {
      Flatten(incoming)
    }

    constructor (capacity: nat)
      requires capacity > 0
      ensures Valid() && pipe == [] && incoming == [] && sent == [] && this.capacity == capacity
    {
      this.capacity := capacity;
      pipe, incoming, ready, free, open, sent := [], [], false, 0, [], [];
    }

    /** Other tasks put packets on the pipe. */
    method Arrive() returns (ghost arrived: seq<Packet>)
      modifies this`pipe, this`incoming
      ensures pipe == old(pipe) + arrived && old(Coming()) == arrived + Coming()
    {
      arrived := [];
      if incoming != [] {
        arrived := incoming[0];
        pipe, incoming := pipe + incoming[0], incoming[1..];
      }
    }

    method StartFrame()
      modifies this`ready, this`free, this`open
      ensures ready && free == capacity && open == []
    {
      ready, free, open := true, capacity, [];
    }

    method AddPacket(packet: Packet)
      requires ready && packet.Size() < free
      modifies this`free, this`open
      ensures free == old(free) - packet.Size() && open == old(open) + [packet]
    {
      free, open := free - packet.Size(), open + [packet];
    }

    ghost function FreeNow(): nat
      reads this`ready, this`free
    {
      if ready then free else capacity
    }

    ghost function OpenNow(): seq<Packet>
      reads this`ready, this`open
    {
      if ready then open else []
    }

    /** One turn of the inner loop: read a packet unless one is held, and try to place it. */
    method PlaceOne(limit: nat, count: nat, pktLen: nat, packet: Packet, ghost rest: seq<Packet>)
      returns (newCount: nat, newLen: nat, newPacket: Packet, stop: bool)
      requires count < limit && FreeNow() > 0
      requires pktLen == 0 || pktLen == packet.Size()
      requires ready || pktLen > 0
      requires rest == Held(pktLen, packet) + pipe
      modifies this`pipe, this`ready, this`free, this`open
      ensures ready && (newLen == 0 || newLen == newPacket.Size())
      ensures stop ==>
                && open == old(OpenNow()) && free == old(FreeNow())
                && Held(newLen, newPacket) + pipe == rest
                && (newLen == 0 ==> rest == [] && newCount == limit)
                && (newLen > 0 ==> rest != [] && rest[0].Size() >= free && newCount == count)
      ensures !stop ==>
                && rest != [] && newLen == 0 && newCount == count + 1
                && open == old(OpenNow()) + [rest[0]] && pipe == rest[1..]
                && free == old(FreeNow()) - rest[0].Size() > 0
    {
      newCount, newLen, newPacket, stop := count, pktLen, packet, false;
      if newLen == 0 {
        if pipe == [] {
          newCount, stop := limit, true;
          return;
        }
        newPacket, pipe := pipe[0], pipe[1..];
      }
      if !ready {
        StartFrame();
      }
      newLen := newPacket.Size();
      if newLen < free {
        AddPacket(newPacket);
        newLen := 0;
        newCount := newCount + 1;
      } else {
        stop := true;
      }
    }

    /** The same, after what other tasks put on the pipe in the meantime. */
    method PlaceNext(limit: nat, count: nat, pktLen: nat, packet: Packet, ghost rest: seq<Packet>)
      returns (newCount: nat, newLen: nat, newPacket: Packet, stop: bool, ghost more: seq<Packet>)
      requires count < limit && FreeNow() > 0
      requires pktLen == 0 || pktLen == packet.Size()
      requires ready || pktLen > 0
      requires rest == Held(pktLen, packet) + pipe
      modifies this`pipe, this`incoming, this`ready, this`free, this`open
      ensures old(Coming()) == more + Coming()
      ensures ready && (newLen == 0 || newLen == newPacket.Size())
      ensures stop ==>
                && open == old(OpenNow()) && free == old(FreeNow())
                && Held(newLen, newPacket) + pipe == rest + more
                && (newLen == 0 ==> rest + more == [] && newCount == limit)
                && (newLen > 0 ==> rest + more != [] && (rest + more)[0].Size() >= free && newCount == count)
      ensures !stop ==>
                && rest + more != [] && newLen == 0 && newCount == count + 1
                && open == old(OpenNow()) + [(rest + more)[0]] && pipe == (rest + more)[1..]
                && free == old(FreeNow()) - (rest + more)[0].Size() > 0
    {
      more := Arrive();
      Appended(Held(pktLen, packet), old(pipe), more);
      newCount, newLen, newPacket, stop := PlaceOne(limit, count, pktLen, packet, rest + more);
    }

    /**
     The inner loop: fills one frame, starting with the held packet if there is one, from the queue
     made longer by the packets that arrive meanwhile.
     */
    method FillFrame(limit: nat, count: nat, pktLen: nat, packet: Packet, ghost queue: seq<Packet>)
      returns (newCount: nat, newLen: nat, newPacket: Packet, ghost arrived: seq<Packet>)
      requires Valid() && count < limit
      requires pktLen == 0 || pktLen == packet.Size()
      requires ready || pktLen > 0
      requires queue == Held(pktLen, packet) + pipe
      modifies this`pipe, this`incoming, this`ready, this`free, this`open
      ensures ready && (newLen == 0 || newLen == newPacket.Size())
      ensures old(Coming()) == arrived + Coming()
      ensures var f := Fill(open, Held(newLen, newPacket) + pipe);
              Filled(capacity, limit - count, queue + arrived, f) && (newLen == 0 <==> LastTurn(limit - count, f))
      ensures newCount == if newLen == 0 then limit else count + |open|
    {
      newCount, newLen, newPacket, arrived := count, pktLen, packet, [];
      ghost var placed: seq<Packet>, rest := [], queue;
      while newCount < limit
        invariant newCount == count + |placed| <= limit
        invariant newLen == 0 || newLen == newPacket.Size()
        invariant old(Coming()) == arrived + Coming()
        invariant (ready || newLen > 0) && (placed != [] ==> newLen == 0)
        invariant placed == OpenNow() && rest == Held(newLen, newPacket) + pipe
        invariant placed + rest == queue + arrived && FreeNow() == capacity - Load(placed) > 0
        decreases limit - newCount
      {
        var stop;
        ghost var more;
        newCount, newLen, newPacket, stop, more := PlaceNext(limit, newCount, newLen, newPacket, rest);
        Longer(arrived, more, Coming(), placed, rest, queue);
        arrived, rest := arrived + more, rest + more;
        if stop {
          break;
        }
        LoadOneMore(placed, rest[0]);
        MoveOne(placed, rest);
        placed, rest := placed + [rest[0]], rest[1..];
      }
    }

    /** One turn of the outer loop: fill a frame, complete it, and send it if it can be synchronised. */
    method OneFrame(limit: nat, count: nat, pktLen: nat, packet: Packet, synced: bool, ghost queue: seq<Packet>)
      returns (newCount: nat, newLen: nat, newPacket: Packet, ghost frame: seq<Packet>, ghost arrived: seq<Packet>)
      requires Valid() && count < limit
      requires pktLen == 0 || pktLen == packet.Size()
      requires ready || pktLen > 0
      requires queue == Held(pktLen, packet) + pipe
      modifies this
      ensures Valid() && !ready && (newLen == 0 || newLen == newPacket.Size())
      ensures old(Coming()) == arrived + Coming()
      ensures var f := Fill(frame, Held(newLen, newPacket) + pipe);
              Filled(capacity, limit - count, queue + arrived, f) && (newLen == 0 <==> LastTurn(limit - count, f))
      ensures newCount == if newLen == 0 then limit else count + |frame|
      ensures sent == if synced then old(sent) + [frame] else old(sent)
      ensures forall frames ::
                Loop(Held(newLen, newPacket) + pipe, newCount, frames + [frame])
                == TurnOnce(capacity, limit, Loop(queue + arrived, count, frames))
    {
      newCount, newLen, newPacket, arrived := FillFrame(limit, count, pktLen, packet, queue);
      FilledIsTurn(capacity, limit, count, queue + arrived, Fill(open, Held(newLen, newPacket) + pipe));
      frame := CompleteFrame(synced);
    }

    /** Completes the frame, and gives it to the radio if it can be synchronised. */
    method CompleteFrame(synced: bool) returns (ghost frame: seq<Packet>)
      modifies this`ready, this`open, this`sent
      ensures !ready && open == [] && frame == old(open)
      ensures sent == if synced then old(sent) + [frame] else old(sent)
    {
      frame := open;
      ready := false;
      if synced {
        sent := sent + [open];
      }
      open := [];
    }

    /**
     One poll. `unsynced` holds the turns of the outer loop whose frame cannot be synchronised;
     at the first of them the poll is abandoned and the packets of that frame and the held packet are lost.
     With packets arriving during the poll, it is the poll of the queue with them at its end.
     */
    method ServiceDownlink(limit: nat, unsynced: set<nat>)
      returns (ghost lost: seq<Packet>, ghost arrived: seq<Packet>)
      requires Valid() && Ends(capacity, limit, pipe + Coming(), unsynced, 0)
      modifies this
      ensures Valid() && old(Coming()) == arrived + Coming()
      ensures limit == 0 ==> sent == old(sent) && pipe == old(pipe) && lost == arrived == []
      ensures limit > 0 ==>
                && Ends(capacity, limit, old(pipe) + arrived, unsynced, 0)
                && var outcome := Service(capacity, limit, old(pipe) + arrived, unsynced, 0);
                   sent == old(sent) + outcome.sent && lost == outcome.lost && pipe == outcome.pipe
    {
      lost, arrived := [], [];
      if !ready {
        StartFrame();
      }
      if limit > 0 {
        lost, arrived := FillAndSend(limit, unsynced);
      }
    }

    /** A turn keeps the poll on course, or ends it, with the frame and the held packet lost if it fails. */
    method Turn(limit: nat, count: nat, pktLen: nat, packet: Packet, turn: nat, unsynced: set<nat>,
                ghost c: Course, ghost all: seq<Packet>, ghost queue: seq<Packet>)
      returns (newCount: nat, newLen: nat, newPacket: Packet, ghost lost: seq<Packet>, ghost arrived: seq<Packet>)
      requires Valid() && count < limit && c.capacity == capacity && c.unsynced == unsynced
      requires pktLen == 0 || pktLen == packet.Size()
      requires ready || pktLen > 0
      requires queue == Held(pktLen, packet) + pipe
      requires OnCourse(c, all, sent, limit - count, queue, turn) && c.Allows(all + Coming())
      modifies this
      ensures Valid() && !ready && (newLen == 0 || newLen == newPacket.Size())
      ensures count <= newCount <= limit && (newLen == 0 <==> newCount == limit)
      ensures old(Coming()) == arrived + Coming() && c.Allows(all + arrived)
      ensures var rest := Held(newLen, newPacket) + pipe;
              if turn in unsynced then c.Result(all + arrived) == Outcome(sent, lost, pipe)
              else if newCount == limit then c.Result(all + arrived) == Outcome(sent, [], rest)
              else
                && OnCourse(c, all + arrived, sent, limit - newCount, rest, turn + 1)
                && Nearer(capacity, limit - count, queue + old(Coming()), limit - newCount, rest + Coming(),
                          unsynced, turn)
    {
      ghost var frames, room, coming := sent, limit - count, Coming();
      ghost var frame;
      newCount, newLen, newPacket, frame, arrived := OneFrame(limit, count, pktLen, packet, turn !in unsynced, queue);
      lost := frame + Held(newLen, newPacket);
      TurnKept(c, all, frames, room, queue, turn, arrived, coming, Coming(), frame, newLen, newPacket, pipe);
    }

    /** The outer loop. */
    method FillAndSend(limit: nat, unsynced: set<nat>) returns (ghost lost: seq<Packet>, ghost arrived: seq<Packet>)
      requires Valid() && ready && limit > 0 && Ends(capacity, limit, pipe + Coming(), unsynced, 0)
      modifies this
      ensures Valid() && old(Coming()) == arrived + Coming()
      ensures Ends(capacity, limit, old(pipe) + arrived, unsynced, 0)
      ensures Outcome(sent, lost, pipe)
           == After(old(sent), Service(capacity, limit, old(pipe) + arrived, unsynced, 0))
    {
      lost, arrived := [], [];
      var count, pktLen: nat, packet, turn := 0, 0, Packet([]), 0;
      ghost var queue := pipe;
      ghost var c := Course(capacity, limit, unsynced, sent);
      CourseStarts(c, pipe);
      assert pipe + arrived == pipe;
      while count < limit
        invariant count <= limit && Valid() && (pktLen == 0 || pktLen == packet.Size())
        invariant count < limit ==> ready || pktLen > 0
        invariant queue == Held(pktLen, packet) + pipe
        invariant count == limit ==> pktLen == 0
        invariant old(Coming()) == arrived + Coming() && c.Allows(old(pipe) + arrived + Coming())
        invariant if count == limit
                  then c.Allows(old(pipe) + arrived) && c.Result(old(pipe) + arrived) == Outcome(sent, [], queue)
                  else OnCourse(c, old(pipe) + arrived, sent, limit - count, queue, turn)
        decreases count < limit,
                  Horizon(capacity, limit - count, queue + Coming(), unsynced, turn), |queue + Coming()|
      {
        ghost var dropped, more;
        ghost var all := old(pipe) + arrived;
        count, pktLen, packet, dropped, more := Turn(limit, count, pktLen, packet, turn, unsynced, c, all, queue);
        queue := Held(pktLen, packet) + pipe;
        Appended(arrived, more, Coming());
        Appended(old(pipe), arrived, more);
        Appended(all, more, Coming());
        arrived := arrived + more;
        if turn in unsynced {
          lost := dropped;
          return;
        }
        turn := turn + 1;
      }
    }
  }

  lemma AbandonHeld(frames: seq<seq<Packet>>, room: nat, frame: seq<Packet>, size: nat, packet: Packet,
                    pipe: seq<Packet>)
    requires size == 0 <==> LastTurn(room, Fill(frame, Held(size, packet) + pipe))
    ensures After(frames, Abandon(room, Fill(frame, Held(size, packet) + pipe)))
         == Outcome(frames, frame + Held(size, packet), pipe)
  {
    assert frames + [] == frames;
    if size == 0 {
      assert [] + pipe == pipe && frame + [] == frame;
    } else {
      assert ([packet] + pipe)[1..] == pipe;
    }
  }

  lemma Longer(arrived: seq<Packet>, more: seq<Packet>, coming: seq<Packet>,
               placed: seq<Packet>, rest: seq<Packet>, queue: seq<Packet>)
    requires placed + rest == queue + arrived
    ensures arrived + (more + coming) == arrived + more + coming
    ensures placed + (rest + more) == queue + (arrived + more)
  {
    Appended(placed, rest, more);
    Appended(queue, arrived, more);
  }

  // ---------------------------------------------------------------- a poll seen from within

  /** What is fixed for a poll: its parameters, and the frames sent before it. */
  datatype Course = Course(capacity: nat, limit: nat, unsynced: set<nat>, before: seq<seq<Packet>>) {
    predicate Allows(all: seq<Packet>) {
      capacity > 0 && limit > 0 && Ends(capacity, limit, all, unsynced, 0)
    }

    /** The frames sent and the packets lost and left, had all these packets been waiting. */
    function Result(all: seq<Packet>): Outcome
      requires Allows(all)
    {
      After(before, Service(capacity, limit, all, unsynced, 0))
    }
  }

  /**
   If `extra` comes after all the packets so far, the poll of them together is what has been sent
   and then the poll of the rest.
   */
  ghost predicate Leads(c: Course, all: seq<Packet>, frames: seq<seq<Packet>>, room: nat, rest: seq<Packet>,
                        turn: nat, extra: seq<Packet>) {
    c.Allows(all + extra) ==>
      && room > 0 && Ends(c.capacity, room, rest + extra, c.unsynced, turn)
      && c.Result(all + extra) == After(frames, Service(c.capacity, room, rest + extra, c.unsynced, turn))
  }

  ghost predicate OnCourse(c: Course, all: seq<Packet>, frames: seq<seq<Packet>>, room: nat, rest: seq<Packet>,
                           turn: nat) {
    forall extra: seq<Packet> :: Leads(c, all, frames, room, rest, turn, extra)
  }

  lemma CourseStarts(c: Course, queue: seq<Packet>)
    requires c.limit > 0
    ensures OnCourse(c, queue, c.before, c.limit, queue, 0)
  {
  }

  lemma EndsSooner(c: Course, queue: seq<Packet>, extra: seq<Packet>)
    requires c.Allows(queue + extra)
    ensures c.Allows(queue)
  {
    if Fit(c.capacity, queue + extra, c.limit) {
      assert forall i :: 0 <= i < |queue| ==> queue[i] == (queue + extra)[i];
    }
  }

  /** Packets that come later change nothing in a frame that ended with a packet held. */
  lemma FilledMore(capacity: nat, room: nat, queue: seq<Packet>, f: Fill, extra: seq<Packet>)
    requires Filled(capacity, room, queue, f) && !LastTurn(room, f)
    ensures |f.frame| < room
    ensures Filled(capacity, room, queue + extra, Fill(f.frame, f.rest + extra))
    ensures !LastTurn(room, Fill(f.frame, f.rest + extra))
  {
    Appended(f.frame, f.rest, extra);
    assert (f.rest + extra)[0] == f.rest[0];
  }

  /** A turn in which `arrived` arrived, with `coming` still to come. */
  lemma CourseKept(c: Course, all: seq<Packet>, frames: seq<seq<Packet>>, room: nat, queue: seq<Packet>, turn: nat,
                   arrived: seq<Packet>, coming: seq<Packet>, f: Fill)
    requires room > 0 && OnCourse(c, all, frames, room, queue, turn) && c.Allows(all + arrived + coming)
    requires Filled(c.capacity, room, queue + arrived, f)
    ensures c.Allows(all + arrived)
    ensures !LastTurn(room, f) ==> f.rest != [] && |f.frame| < room
    ensures if turn in c.unsynced then c.Result(all + arrived) == After(frames, Abandon(room, f))
            else if LastTurn(room, f) then c.Result(all + arrived) == Outcome(frames + [f.frame], [], f.rest)
            else
              && OnCourse(c, all + arrived, frames + [f.frame], room - |f.frame|, f.rest, turn + 1)
              && Nearer(c.capacity, room, queue + arrived + coming, room - |f.frame|, f.rest + coming, c.unsynced, turn)
  {
    EndsSooner(c, all + arrived, coming);
    assert Leads(c, all, frames, room, queue, turn, arrived);
    FilledIsFilling(c.capacity, room, queue + arrived, f);
    if !LastTurn(room, f) && turn !in c.unsynced {
      FilledMore(c.capacity, room, queue + arrived, f, []);
      CourseGoesOn(c, all, frames, room, queue, turn, arrived, f);
      NearerBy(c, all, frames, room, queue, turn, arrived, coming, f);
    }
  }

  /** The same, with what the service has in hand after the turn. */
  lemma TurnKept(c: Course, all: seq<Packet>, frames: seq<seq<Packet>>, room: nat, queue: seq<Packet>, turn: nat,
                 arrived: seq<Packet>, coming: seq<Packet>, coming': seq<Packet>,
                 frame: seq<Packet>, size: nat, packet: Packet, pipe: seq<Packet>)
    requires room > 0 && OnCourse(c, all, frames, room, queue, turn)
    requires c.Allows(all + coming) && coming == arrived + coming'
    requires var f := Fill(frame, Held(size, packet) + pipe);
             Filled(c.capacity, room, queue + arrived, f) && (size == 0 <==> LastTurn(room, f))
    ensures c.Allows(all + arrived)
    ensures size > 0 ==> |frame| < room
    ensures var rest := Held(size, packet) + pipe;
            if turn in c.unsynced then c.Result(all + arrived) == Outcome(frames, frame + Held(size, packet), pipe)
            else if size == 0 then c.Result(all + arrived) == Outcome(frames + [frame], [], rest)
            else
              && OnCourse(c, all + arrived, frames + [frame], room - |frame|, rest, turn + 1)
              && Nearer(c.capacity, room, queue + coming, room - |frame|, rest + coming', c.unsynced, turn)
  {
    Appended(all, arrived, coming');
    Appended(queue, arrived, coming');
    AbandonHeld(frames, room, frame, size, packet, pipe);
    CourseKept(c, all, frames, room, queue, turn, arrived, coming', Fill(frame, Held(size, packet) + pipe));
  }

  lemma CourseGoesOn(c: Course, all: seq<Packet>, frames: seq<seq<Packet>>, room: nat, queue: seq<Packet>, turn: nat,
                     arrived: seq<Packet>, f: Fill)
    requires room > 0 && OnCourse(c, all, frames, room, queue, turn) && turn !in c.unsynced
    requires Filled(c.capacity, room, queue + arrived, f) && !LastTurn(room, f)
    ensures |f.frame| < room
    ensures OnCourse(c, all + arrived, frames + [f.frame], room - |f.frame|, f.rest, turn + 1)
  {
    FilledMore(c.capacity, room, queue + arrived, f, []);
    var left, soFar, longer, next := room - |f.frame|, frames + [f.frame], all + arrived, turn + 1;
    forall extra: seq<Packet>
      ensures Leads(c, longer, soFar, left, f.rest, next, extra)
    {
      LeadsOn(c, all, frames, room, queue, turn, arrived, f, extra);
    }
  }

  lemma LeadsOn(c: Course, all: seq<Packet>, frames: seq<seq<Packet>>, room: nat, queue: seq<Packet>, turn: nat,
                arrived: seq<Packet>, f: Fill, extra: seq<Packet>)
    requires room > 0 && OnCourse(c, all, frames, room, queue, turn) && turn !in c.unsynced
    requires Filled(c.capacity, room, queue + arrived, f) && !LastTurn(room, f)
    ensures |f.frame| < room
    ensures Leads(c, all + arrived, frames + [f.frame], room - |f.frame|, f.rest, turn + 1, extra)
  {
    FilledMore(c.capacity, room, queue + arrived, f, extra);
    if c.Allows(all + arrived + extra) {
      Appended(all, arrived, extra);
      Appended(queue, arrived, extra);
      assert Leads(c, all, frames, room, queue, turn, arrived + extra);
      FilledIsFilling(c.capacity, room, queue + arrived + extra, Fill(f.frame, f.rest + extra));
      GoesOn(c.capacity, room, queue + arrived + extra, c.unsynced, turn);
      AfterOne(frames, f.frame, Service(c.capacity, room - |f.frame|, f.rest + extra, c.unsynced, turn + 1));
    }
  }

  lemma NearerBy(c: Course, all: seq<Packet>, frames: seq<seq<Packet>>, room: nat, queue: seq<Packet>, turn: nat,
                 arrived: seq<Packet>, coming: seq<Packet>, f: Fill)
    requires room > 0 && OnCourse(c, all, frames, room, queue, turn) && turn !in c.unsynced
    requires c.Allows(all + arrived + coming)
    requires Filled(c.capacity, room, queue + arrived, f) && !LastTurn(room, f)
    ensures |f.frame| < room
    ensures Nearer(c.capacity, room, queue + arrived + coming, room - |f.frame|, f.rest + coming, c.unsynced, turn)
  {
    FilledMore(c.capacity, room, queue + arrived, f, coming);
    Appended(all, arrived, coming);
    Appended(queue, arrived, coming);
    assert Leads(c, all, frames, room, queue, turn, arrived + coming);
    FilledIsFilling(c.capacity, room, queue + arrived + coming, Fill(f.frame, f.rest + coming));
    GoesOn(c.capacity, room, queue + arrived + coming, c.unsynced, turn);
  }

  lemma AfterOne(frames: seq<seq<Packet>>, frame: seq<Packet>, later: Outcome)
    ensures After(frames, After([frame], later)) == After(frames + [frame], later)
  {
    Appended(frames, [frame], later.sent);
  }
}

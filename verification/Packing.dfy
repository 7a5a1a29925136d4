/**
 Order-preserving packing of packets into transfer frames of fixed free capacity, and the proof that
 the greedy packing uses the fewest frames. A packet is added while it is smaller than the free space.
 */
module Packing {
  import opened Bytes

  datatype Packet = Packet(bytes: seq<byte>) {
    function Size(): nat { |bytes| }
  }

  function Load(frame: seq<Packet>): nat {
    if frame == [] then 0 else frame[0].Size() + Load(frame[1..])
  }

  lemma {:induction false} LoadConcat(a: seq<Packet>, b: seq<Packet>)
    ensures Load(a + b) == Load(a) + Load(b)
  {
    if a == [] {
      assert a + b == b;
    } else {
      assert (a + b)[1..] == a[1..] + b;
      LoadConcat(a[1..], b);
    }
  }

  /** Every frame could have been filled by the library: packets leave some space free. */
  predicate Holds(capacity: nat, frames: seq<seq<Packet>>) {
    frames == [] || (Load(frames[0]) < capacity && Holds(capacity, frames[1..]))
  }

  /** Each later frame starts with a packet that did not fit in the frame before. */
  predicate NoneFitsEarlier(capacity: nat, frames: seq<seq<Packet>>) {
    |frames| <= 1
    || (&& frames[1] != []
        && Load(frames[0]) + frames[1][0].Size() >= capacity
        && NoneFitsEarlier(capacity, frames[1..]))
  }

  ghost predicate Greedy(capacity: nat, frames: seq<seq<Packet>>, packets: seq<Packet>) {
    && Flatten(frames) == packets
    && Holds(capacity, frames)
    && NoneFitsEarlier(capacity, frames)
  }

  lemma LoadOfPrefix(front: seq<Packet>, p: seq<Packet>)
    requires front <= p
    ensures Load(front) <= Load(p)
  {
    LoadConcat(front, p[|front|..]);
    assert p == front + p[|front|..];
  }

  lemma LoadOfThree(x: seq<Packet>, g: seq<Packet>, next: Packet)
    ensures Load(x + g + [next]) == Load(x) + Load(g) + next.Size()
  {
    LoadConcat(x + g, [next]);
    LoadConcat(x, g);
    assert Load([next]) == next.Size();
  }

  lemma LongerPrefix<T>(front: seq<T>, p: seq<T>, s: seq<T>)
    requires front <= s && p <= s && |front| <= |p|
    ensures front <= p
  {
  }

  lemma ThroughNext(x: seq<Packet>, g: seq<Packet>, rest: seq<Packet>)
    requires rest != []
    ensures x + g + [rest[0]] <= x + (g + rest)
  {
    assert x + (g + rest) == x + g + [rest[0]] + rest[1..];
  }

  /** A frame that holds `x`, all of a greedy frame and the packet after it would be too full. */
  lemma CannotReachFurther(capacity: nat, x: seq<Packet>, g: seq<Packet>, rest: seq<Packet>, p: seq<Packet>)
    requires rest != [] && Load(g) + rest[0].Size() >= capacity && Load(p) < capacity
    requires p <= x + (g + rest)
    ensures |p| <= |x| + |g|
  {
    if |p| > |x| + |g| {
      ThroughNext(x, g, rest);
      var front := x + g + [rest[0]];
      LongerPrefix(front, p, x + (g + rest));
      assert Load(front) <= Load(p) by { LoadOfPrefix(front, p); }
      assert Load(front) == Load(x) + Load(g) + rest[0].Size() by { LoadOfThree(x, g, rest[0]); }
    }
  }

  lemma Regroup(x: seq<Packet>, g: seq<Packet>, b: seq<Packet>, p: seq<Packet>, q: seq<Packet>)
    returns (x': seq<Packet>)
    requires p + q == x + (g + b) && |p| <= |x| + |g|
    ensures q == x' + b
  {
    var s := x + g;
    x' := s[|p|..];
    assert x + (g + b) == s + b;
    assert q == (p + q)[|p|..] == (s + b)[|p|..] == s[|p|..] + b;
  }

  lemma StartsWith(frames: seq<seq<Packet>>)
    requires frames != [] && frames[0] != []
    ensures Flatten(frames) != [] && Flatten(frames)[0] == frames[0][0]
  {
  }

  /** The first frame of another packing reaches no further than the greedy first frame. */
  lemma FirstFrameBound(capacity: nat, greedy: seq<seq<Packet>>, other: seq<seq<Packet>>, x: seq<Packet>)
    requires |greedy| > 1 && NoneFitsEarlier(capacity, greedy)
    requires other != [] && Holds(capacity, other)
    requires Flatten(other) == x + Flatten(greedy)
    ensures |other[0]| <= |x| + |greedy[0]|
  {
    var rest := Flatten(greedy[1..]);
    StartsWith(greedy[1..]);
    assert other[0] <= Flatten(other);
    CannotReachFurther(capacity, x, greedy[0], rest, other[0]);
  }

  /** Any packing of the same packets, or of these after others, needs at least as many frames. */
  lemma {:induction false} GreedyLeads(capacity: nat, greedy: seq<seq<Packet>>, other: seq<seq<Packet>>, x: seq<Packet>)
    requires Holds(capacity, greedy) && NoneFitsEarlier(capacity, greedy)
    requires Holds(capacity, other)
    requires Flatten(greedy) != [] && Flatten(other) == x + Flatten(greedy)
    ensures |greedy| <= |other|
    decreases |other|
  {
    if |greedy| > 1 {
      FirstFrameBound(capacity, greedy, other, x);
      StartsWith(greedy[1..]);
      var x' := Regroup(x, greedy[0], Flatten(greedy[1..]), other[0], Flatten(other[1..]));
      GreedyLeads(capacity, greedy[1..], other[1..], x');
    }
  }

  /** No order-preserving packing of the same nonempty packets uses fewer frames than the greedy one. */
  lemma GreedyOptimal(capacity: nat, greedy: seq<seq<Packet>>, other: seq<seq<Packet>>, packets: seq<Packet>)
    requires packets != [] && Greedy(capacity, greedy, packets)
    requires Flatten(other) == packets && Holds(capacity, other)
    ensures |greedy| <= |other|
  {
    assert [] + packets == packets;
    GreedyLeads(capacity, greedy, other, []);
  }

  /** Two consecutive frames together carry at least a frame's capacity. */
  lemma {:induction false} ConsecutiveFull(capacity: nat, frames: seq<seq<Packet>>, i: nat)
    requires NoneFitsEarlier(capacity, frames) && i + 1 < |frames|
    ensures frames[i + 1] != [] && Load(frames[i]) + Load(frames[i + 1]) >= capacity
  {
    if i > 0 {
      ConsecutiveFull(capacity, frames[1..], i - 1);
    }
  }

  /** If the first frame is not empty none is, so there are at most as many frames as packets. */
  lemma {:induction false} FrameCount(capacity: nat, frames: seq<seq<Packet>>)
    requires NoneFitsEarlier(capacity, frames) && (frames != [] ==> frames[0] != [])
    ensures |frames| <= |Flatten(frames)|
  {
    if frames != [] {
      FrameCount(capacity, frames[1..]);
    }
  }

  lemma SplitAt<T>(a: seq<T>, a': seq<T>, b: seq<T>, b': seq<T>)
    requires a + a' == b + b' && |a| == |b|
    ensures a == b && a' == b'
  {
    assert a == (a + a')[..|a|] && b == (b + b')[..|b|];
    assert a' == (a + a')[|a|..] && b' == (b + b')[|b|..];
  }

  /** Nonempty packets have one greedy packing. */
  lemma {:induction false} GreedyUnique(capacity: nat, a: seq<seq<Packet>>, b: seq<seq<Packet>>)
    requires Holds(capacity, a) && NoneFitsEarlier(capacity, a)
    requires Holds(capacity, b) && NoneFitsEarlier(capacity, b)
    requires Flatten(a) == Flatten(b) != []
    ensures a == b
    decreases |a|
  {
    var x: seq<Packet> := [];
    assert Flatten(b) == x + Flatten(a) && Flatten(a) == x + Flatten(b);
    SameLength(capacity, a, b);
    if |a| > 1 {
      FirstFrameBound(capacity, a, b, x);
      FirstFrameBound(capacity, b, a, x);
      SplitAt(a[0], Flatten(a[1..]), b[0], Flatten(b[1..]));
      StartsWith(a[1..]);
      GreedyUnique(capacity, a[1..], b[1..]);
      assert a == [a[0]] + a[1..] && b == [b[0]] + b[1..];
    } else {
      assert a == [a[0]] && b == [b[0]];
      FlattenOne(a[0]);
      FlattenOne(b[0]);
    }
  }

  lemma SameLength(capacity: nat, a: seq<seq<Packet>>, b: seq<seq<Packet>>)
    requires Holds(capacity, a) && NoneFitsEarlier(capacity, a)
    requires Holds(capacity, b) && NoneFitsEarlier(capacity, b)
    requires Flatten(a) == Flatten(b) != []
    ensures |a| == |b| > 0
  {
    GreedyOptimal(capacity, a, b, Flatten(a));
    GreedyOptimal(capacity, b, a, Flatten(a));
  }
}

/**
 Whether the outcome of a stream depends on how the receives cut it. Resynchronisation looks at what
 happens to be buffered, so it may; the theorem says exactly when it does not.
 */
module Chunking {
  import opened Bytes
  import opened TcFrames
  import opened Uplink
  import opened Streams

  function AbsorbAll(u: State, crypto: Crypto, chunks: seq<seq<byte>>): State
    decreases |chunks|
  {
    if chunks == [] then u else AbsorbAll(Absorb(u, crypto, chunks[0]), crypto, chunks[1..])
  }

  /** Each receive fits in what is left of the buffer when it happens. */
  predicate Feasible(u: State, crypto: Crypto, chunks: seq<seq<byte>>)
    decreases |chunks|
  {
    chunks == []
    || (|u.buffered| + |chunks[0]| <= BUFFER_SIZE
        && Feasible(Absorb(u, crypto, chunks[0]), crypto, chunks[1..]))
  }

  /** Nothing but frames, except that the last piece may be a header thrown away alone. */
  predicate Calm(pieces: seq<Piece>) {
    || pieces == []
    || (pieces[0].Frame? && Calm(pieces[1..]))
    || (|pieces| == 1 && pieces[0].Discarded? && |pieces[0].bytes| == HEADER_SIZE)
  }

  // ---------------------------------------------------------------- calm streams compose

  function Joined(a: seq<byte>, b: seq<byte>): Cut {
    var first := Split(a);
    var second := Split(first.tail + b);
    Cut(first.pieces + second.pieces, second.tail)
  }

  lemma PrefixPends(a: seq<byte>, b: seq<byte>)
    requires Pending(a + b) || (|a| < |a + b| && |a + b| == HEADER_SIZE)
    ensures Pending(a)
  {
    if |a| >= HEADER_SIZE {
      SameHeader(a, a, b);
      assert AnnouncedLength(a, 0) == AnnouncedLength(a + b, 0);
    }
  }

  lemma PendingJoins(a: seq<byte>, b: seq<byte>)
    requires Pending(a)
    ensures Joined(a, b) == Split(a + b)
  {
    assert [] + Split(a + b).pieces == Split(a + b).pieces;
  }

  lemma FrameJoins(n: nat, a: seq<byte>, b: seq<byte>)
    requires HEADER_SIZE <= n <= |a| && AnnouncedLength(a, 0) == n
    ensures AnnouncedLength(a + b, 0) == n
    ensures Split(a + b) == Prepend(Frame(a[..n]), Split(a[n..] + b))
    ensures Joined(a, b) == Prepend(Frame(a[..n]), Joined(a[n..], b))
  {
    assert (a + b)[..n] == a[..n] && (a + b)[n..] == a[n..] + b;
    var f, rest := Frame(a[..n]), Split(a[n..]);
    var second := Split(rest.tail + b);
    assert Split(a) == Prepend(f, rest);
    assert [f] + rest.pieces + second.pieces == [f] + (rest.pieces + second.pieces);
  }

  lemma {:induction false} CalmJoins(a: seq<byte>, b: seq<byte>)
    requires Calm(Split(a + b).pieces)
    ensures Joined(a, b) == Split(a + b)
    decreases |a|
  {
    var s := a + b;
    if Pending(s) {
      PrefixPends(a, b);
      PendingJoins(a, b);
    } else if Implausible(s) {
      assert |s| == HEADER_SIZE;
      if b == [] {
        assert a == s;
        assert Split(a).pieces + [] == Split(a).pieces;
      } else {
        PrefixPends(a, b);
        PendingJoins(a, b);
      }
    } else {
      var n := AnnouncedLength(s, 0);
      if |a| < n {
        if |a| >= HEADER_SIZE {
          SameHeader(s, a, b);
        }
        PendingJoins(a, b);
      } else {
        SameHeader(s, a, b);
        FrameJoins(n, a, b);
        assert Split(s).pieces[1..] == Split(a[n..] + b).pieces;
        CalmJoins(a[n..], b);
      }
    }
  }

  lemma {:induction false} CalmSuffix(a: seq<Piece>, b: seq<Piece>)
    requires Calm(a + b)
    ensures Calm(b)
  {
    if a == [] {
      assert a + b == b;
    } else {
      assert (a + b)[1..] == a[1..] + b;
      if a[0].Frame? {
        CalmSuffix(a[1..], b);
      } else {
        assert b == [];
      }
    }
  }

  lemma AbsorbTwice(u: State, crypto: Crypto, d: seq<byte>, e: seq<byte>)
    requires Calm(Split(u.buffered + (d + e)).pieces)
    ensures Absorb(Absorb(u, crypto, d), crypto, e) == Absorb(u, crypto, d + e)
    ensures Calm(Split(Absorb(u, crypto, d).buffered + e).pieces)
  {
    var a := u.buffered + d;
    assert u.buffered + (d + e) == a + e;
    CalmJoins(a, e);
    var first := Split(a);
    var second := Split(first.tail + e);
    ProcessAllConcat(u.log, crypto, first.pieces, second.pieces);
    CalmSuffix(first.pieces, second.pieces);
  }

  /** A calm stream has one outcome, that of receiving it whole, however it is cut. */
  lemma {:induction false} CalmOutcome(u: State, crypto: Crypto, chunks: seq<seq<byte>>)
    requires Ready(u) && Calm(Split(u.buffered + Flatten(chunks)).pieces)
    ensures AbsorbAll(u, crypto, chunks) == Absorb(u, crypto, Flatten(chunks))
    decreases |chunks|
  {
    if chunks == [] {
      assert u.buffered + [] == u.buffered;
    } else {
      var d, rest := chunks[0], chunks[1..];
      AbsorbTwice(u, crypto, d, Flatten(rest));
      TailWaits(u.buffered + d);
      CalmOutcome(Absorb(u, crypto, d), crypto, rest);
    }
  }

  // ---------------------------------------------------------------- streams that are not calm

  function Singles(s: seq<byte>): seq<seq<byte>> {
    if s == [] then [] else [[s[0]]] + Singles(s[1..])
  }

  lemma {:induction false} SinglesFeasible(u: State, crypto: Crypto, s: seq<byte>)
    requires Ready(u)
    ensures Flatten(Singles(s)) == s
    ensures Feasible(u, crypto, Singles(s))
    decreases |s|
  {
    if s != [] {
      var c := [s[0]];
      AbsorbReady(u, crypto, c);
      SinglesFeasible(Absorb(u, crypto, c), crypto, s[1..]);
      OneMoreChunk(u, crypto, c, Singles(s[1..]));
      assert c + s[1..] == s;
    }
  }

  lemma OneMoreChunk(u: State, crypto: Crypto, c: seq<byte>, rest: seq<seq<byte>>)
    ensures Flatten([c] + rest) == c + Flatten(rest)
    ensures AbsorbAll(u, crypto, [c] + rest) == AbsorbAll(Absorb(u, crypto, c), crypto, rest)
    ensures |u.buffered| + |c| <= BUFFER_SIZE && Feasible(Absorb(u, crypto, c), crypto, rest) ==>
              Feasible(u, crypto, [c] + rest)
  {
    assert ([c] + rest)[1..] == rest;
  }

  /** What the program keeps: its buffer, the frames given to the library, the messages and the errors. */
  datatype Observed = Observed(buffered: seq<byte>, handed: seq<seq<byte>>, sent: seq<seq<byte>>, errors: byte)

  function Observe(u: State): Observed {
    Observed(u.buffered, Frames(u.log.trace), u.log.sent, u.log.errors)
  }

  /** Bytes jumped over or thrown away. */
  function Wasted(pieces: seq<Piece>): nat {
    if pieces == [] then 0
    else (if pieces[0].Frame? then 0 else |pieces[0].bytes|) + Wasted(pieces[1..])
  }

  lemma {:induction false} WastedConcat(a: seq<Piece>, b: seq<Piece>)
    ensures Wasted(a + b) == Wasted(a) + Wasted(b)
  {
    if a == [] {
      assert a + b == b;
    } else {
      assert (a + b)[1..] == a[1..] + b;
      WastedConcat(a[1..], b);
    }
  }

  lemma {:induction false} WastedOrHanded(pieces: seq<Piece>)
    ensures |PieceBytes(pieces)| == Wasted(pieces) + |Flatten(Frames(pieces))|
  {
    if pieces != [] {
      WastedOrHanded(pieces[1..]);
      var later := Frames(pieces[1..]);
      assert ([pieces[0].bytes] + later)[1..] == later && [] + later == later;
    }
  }

  /** The bytes of a state are wasted, handed over or buffered. */
  lemma WhereBytesAre(u: State)
    ensures |Accounted(u)| == Wasted(u.log.trace) + |Flatten(Observe(u).handed)| + |u.buffered|
  {
    WastedOrHanded(u.log.trace);
  }

  lemma AbsorbWastes(u: State, crypto: Crypto, data: seq<byte>)
    ensures Wasted(Absorb(u, crypto, data).log.trace) == Wasted(u.log.trace) + Wasted(Split(u.buffered + data).pieces)
  {
    AbsorbTrace(u, crypto, data);
    WastedConcat(u.log.trace, Split(u.buffered + data).pieces);
  }

  lemma {:induction false} AbsorbAllConserves(u: State, crypto: Crypto, chunks: seq<seq<byte>>)
    ensures Accounted(AbsorbAll(u, crypto, chunks)) == Accounted(u) + Flatten(chunks)
    decreases |chunks|
  {
    if chunks != [] {
      AbsorbConserves(u, crypto, chunks[0]);
      AbsorbAllConserves(Absorb(u, crypto, chunks[0]), crypto, chunks[1..]);
    }
  }

  // ---------------------------------------------------------------- one byte at a time

  /** One more byte wastes nothing, or the five bytes of a header that announces too little. */
  lemma OneByteWastes(buffered: seq<byte>, x: byte)
    requires Pending(buffered)
    ensures var wasted := Wasted(Split(buffered + [x]).pieces); wasted == 0 || wasted == HEADER_SIZE
  {
    var s := buffered + [x];
    if |buffered| >= HEADER_SIZE {
      SameHeader(s, buffered, [x]);
    }
    if Implausible(s) {
      FiveBytesDiscarded(s);
      assert [Discarded(s)][1..] == [];
    } else if !Pending(s) {
      assert AnnouncedLength(s, 0) == |s|;
      WholeFrame(s);
      assert [Frame(s)][1..] == [];
    }
  }

  /** So, received one byte at a time, bytes are wasted in fives. */
  lemma {:induction false} SinglesWaste(u: State, crypto: Crypto, s: seq<byte>) returns (fives: nat)
    requires Ready(u)
    ensures Wasted(AbsorbAll(u, crypto, Singles(s)).log.trace) == Wasted(u.log.trace) + 5 * fives
    decreases |s|
  {
    if s == [] {
      fives := 0;
    } else {
      var c := [s[0]];
      OneByteWastes(u.buffered, s[0]);
      AbsorbWastes(u, crypto, c);
      AbsorbReady(u, crypto, c);
      assert ([c] + Singles(s[1..]))[1..] == Singles(s[1..]);
      var more := SinglesWaste(Absorb(u, crypto, c), crypto, s[1..]);
      fives := more + if Wasted(Split(u.buffered + c).pieces) == 0 then 0 else 1;
    }
  }

  lemma ThenSingles(u: State, crypto: Crypto, c: seq<byte>, s: seq<byte>)
    returns (chunks: seq<seq<byte>>, fives: nat)
    requires Ready(u) && |u.buffered| + |c| <= BUFFER_SIZE
    ensures Flatten(chunks) == c + s && Feasible(u, crypto, chunks)
    ensures Wasted(AbsorbAll(u, crypto, chunks).log.trace)
         == Wasted(u.log.trace) + Wasted(Split(u.buffered + c).pieces) + 5 * fives
  {
    AbsorbReady(u, crypto, c);
    AbsorbWastes(u, crypto, c);
    SinglesFeasible(Absorb(u, crypto, c), crypto, s);
    fives := SinglesWaste(Absorb(u, crypto, c), crypto, s);
    chunks := [c] + Singles(s);
    OneMoreChunk(u, crypto, c, Singles(s));
  }

  /** A first receive of `n` bytes that wastes `first` of them, then one byte at a time. */
  lemma FirstThenSingles(u: State, crypto: Crypto, s: seq<byte>, n: nat, first: nat)
    returns (chunks: seq<seq<byte>>, fives: nat)
    requires Ready(u) && n <= |s| && |u.buffered| + n <= BUFFER_SIZE
    requires Wasted(Split(u.buffered + s[..n]).pieces) == first
    ensures Cuts(u, crypto, s, chunks)
    ensures WastedBy(u, crypto, chunks) == Wasted(u.log.trace) + first + 5 * fives
  {
    assert s == s[..n] + s[n..];
    chunks, fives := ThenSingles(u, crypto, s[..n], s[n..]);
  }

  lemma FiveBytesDiscarded(s: seq<byte>)
    requires Implausible(s) && |s| == HEADER_SIZE
    ensures Split(s) == Cut([Discarded(s)], [])
  {
    NoneNearEnd(s, 1);
  }

  lemma ShortHeaderPrefix(w: seq<byte>, n: nat)
    requires Implausible(w) && HEADER_SIZE <= n <= |w|
    ensures Implausible(w[..n])
  {
  }

  lemma SkipThenFrameWastes(skip: Piece, frame: Piece)
    requires !skip.Frame? && frame.Frame?
    ensures Wasted([skip] + [frame]) == |skip.bytes|
  {
    assert [frame][1..] == [];
    WastedConcat([skip], [frame]);
    assert [skip][1..] == [];
  }

  /** With six bytes, the bad header is thrown away with the byte after it, or one byte is skipped. */
  lemma SixBytesWaste(s: seq<byte>)
    requires Implausible(s) && |s| == HEADER_SIZE + 1
    ensures Wasted(Split(s).pieces) == 6 || Wasted(Split(s).pieces) == 1
  {
    if Plausible(s, 1) {
      var f := s[1..];
      assert AnnouncedLength(f, 0) == AnnouncedLength(s, 1) == 5;
      WholeFrame(f);
      var skip, frame := Skipped(s[..1]), Frame(f);
      assert Split(s) == Prepend(skip, Cut([frame], []));
      SkipThenFrameWastes(skip, frame);
    } else {
      NoneNearEnd(s, 2);
      assert NextPlausible(s, 1) == |s|;
      assert [Discarded(s)][1..] == [];
    }
  }

  ghost predicate Cuts(u: State, crypto: Crypto, s: seq<byte>, chunks: seq<seq<byte>>) {
    Flatten(chunks) == s && Feasible(u, crypto, chunks)
  }

  /** Two feasible ways of cutting `s` whose outcomes the program can tell apart. */
  ghost predicate Conflict(u: State, crypto: Crypto, s: seq<byte>, a: seq<seq<byte>>, b: seq<seq<byte>>) {
    && Cuts(u, crypto, s, a) && Cuts(u, crypto, s, b)
    && Observe(AbsorbAll(u, crypto, a)) != Observe(AbsorbAll(u, crypto, b))
  }

  function WastedBy(u: State, crypto: Crypto, chunks: seq<seq<byte>>): nat {
    Wasted(AbsorbAll(u, crypto, chunks).log.trace)
  }

  /** Outcomes that differ in the bytes wasted differ in the bytes handed over or buffered. */
  lemma WasteShows(u: State, crypto: Crypto, s: seq<byte>, a: seq<seq<byte>>, b: seq<seq<byte>>)
    requires Cuts(u, crypto, s, a) && Cuts(u, crypto, s, b)
    requires WastedBy(u, crypto, a) != WastedBy(u, crypto, b)
    ensures Conflict(u, crypto, s, a, b)
  {
    AbsorbAllConserves(u, crypto, a);
    AbsorbAllConserves(u, crypto, b);
    WhereBytesAre(AbsorbAll(u, crypto, a));
    WhereBytesAre(AbsorbAll(u, crypto, b));
  }

  /** The first five bytes, and the first six, of a stream that starts with such a header. */
  lemma FirstBytesWaste(u: State, s: seq<byte>) returns (five: nat, wasted: nat)
    requires Ready(u) && Implausible(u.buffered + s) && |u.buffered + s| > HEADER_SIZE
    ensures five < |s| && |u.buffered| + five == HEADER_SIZE
    ensures Wasted(Split(u.buffered + s[..five]).pieces) == 5
    ensures Wasted(Split(u.buffered + s[..five + 1]).pieces) == wasted && (wasted == 6 || wasted == 1)
  {
    var w := u.buffered + s;
    if |u.buffered| >= HEADER_SIZE {
      SameHeader(w, u.buffered, s);
      assert false;
    }
    five := HEADER_SIZE - |u.buffered|;
    assert u.buffered + s[..five] == w[..5];
    assert u.buffered + s[..five + 1] == w[..6];
    ShortHeaderPrefix(w, 5);
    ShortHeaderPrefix(w, 6);
    FiveBytesDiscarded(w[..5]);
    SixBytesWaste(w[..6]);
    wasted := Wasted(Split(w[..6]).pieces);
    assert [Discarded(w[..5])][1..] == [];
  }

  lemma NotCongruent(base: nat, six: nat, m: nat, n: nat)
    requires six == 6 || six == 1
    ensures base + 5 + 5 * m != base + six + 5 * n
  {
  }

  /**
   With a header that announces too little, receiving five bytes at once and then single bytes wastes
   a multiple of five; receiving six at once and then single bytes, one more than a multiple of five.
   */
  lemma FiveOrSix(u: State, crypto: Crypto, s: seq<byte>) returns (a: seq<seq<byte>>, b: seq<seq<byte>>)
    requires Ready(u) && Implausible(u.buffered + s) && |u.buffered + s| > HEADER_SIZE
    ensures Conflict(u, crypto, s, a, b)
  {
    var n, six := FirstBytesWaste(u, s);
    var i, j;
    a, i := FirstThenSingles(u, crypto, s, n, 5);
    b, j := FirstThenSingles(u, crypto, s, n + 1, six);
    NotCongruent(Wasted(u.log.trace), six, i, j);
    WasteShows(u, crypto, s, a, b);
  }

  lemma WholeFrame(f: seq<byte>)
    requires WellFormedFrame(f)
    ensures Split(f) == Cut([Frame(f)], [])
  {
    assert f[..|f|] == f && f[|f|..] == [];
    assert Split([]) == Cut([], []);
  }

  /** A receive `c` that completes exactly the first frame. */
  lemma CompleteFirst(u: State, crypto: Crypto, s: seq<byte>) returns (c: seq<byte>, rest: seq<byte>)
    requires Ready(u) && !Pending(u.buffered + s) && !Implausible(u.buffered + s)
    ensures s == c + rest && c != [] && |u.buffered| + |c| <= BUFFER_SIZE
    ensures Absorb(u, crypto, c).buffered == []
    ensures Calm(Split(u.buffered + s).pieces) <==> Calm(Split(rest).pieces)
  {
    var w := u.buffered + s;
    var size := AnnouncedLength(w, 0);
    if |u.buffered| >= HEADER_SIZE {
      SameHeader(w, u.buffered, s);
    }
    c, rest := s[..size - |u.buffered|], s[size - |u.buffered|..];
    var f := w[..size];
    assert u.buffered + c == f && w[size..] == rest;
    assert AnnouncedLength(f, 0) == size;
    WholeFrame(f);
    assert Split(w).pieces[1..] == Split(rest).pieces;
  }

  lemma ConflictLater(u: State, crypto: Crypto, c: seq<byte>, rest: seq<byte>, a: seq<seq<byte>>, b: seq<seq<byte>>)
    requires |u.buffered| + |c| <= BUFFER_SIZE
    requires Conflict(Absorb(u, crypto, c), crypto, rest, a, b)
    ensures Conflict(u, crypto, c + rest, [c] + a, [c] + b)
  {
    OneMoreChunk(u, crypto, c, a);
    OneMoreChunk(u, crypto, c, b);
  }

  /** Two such cuttings for every stream that needs a resynchronisation. */
  lemma {:induction false} Diverge(u: State, crypto: Crypto, s: seq<byte>)
    returns (a: seq<seq<byte>>, b: seq<seq<byte>>)
    requires Ready(u) && !Calm(Split(u.buffered + s).pieces)
    ensures Conflict(u, crypto, s, a, b)
    decreases |s|
  {
    var w := u.buffered + s;
    if Implausible(w) {
      if |w| == HEADER_SIZE {
        FiveBytesDiscarded(w);
      }
      a, b := FiveOrSix(u, crypto, s);
    } else {
      var c, rest := CompleteFirst(u, crypto, s);
      var next := Absorb(u, crypto, c);
      AbsorbReady(u, crypto, c);
      assert next.buffered + rest == rest;
      var a', b' := Diverge(next, crypto, rest);
      ConflictLater(u, crypto, c, rest, a', b');
      a, b := [c] + a', [c] + b';
    }
  }

  /** Every two feasible ways of cutting `s` leave the program with the same buffer, frames, messages and errors. */
  ghost predicate CuttingIrrelevant(u: State, crypto: Crypto, s: seq<byte>) {
    forall a: seq<seq<byte>>, b: seq<seq<byte>> ::
      Cuts(u, crypto, s, a) && Cuts(u, crypto, s, b) ==>
        Observe(AbsorbAll(u, crypto, a)) == Observe(AbsorbAll(u, crypto, b))
  }

  /**
   Exactly when the outcome is independent of the cutting: the stream, split whole, needs no
   resynchronisation (save a five-byte discard at its very end).
   */
  lemma ChunkingIndependentExactly(u: State, crypto: Crypto, s: seq<byte>)
    requires Ready(u)
    ensures CuttingIrrelevant(u, crypto, s) <==> Calm(Split(u.buffered + s).pieces)
  {
    if Calm(Split(u.buffered + s).pieces) {
      forall a: seq<seq<byte>>, b: seq<seq<byte>> | Cuts(u, crypto, s, a) && Cuts(u, crypto, s, b)
        ensures AbsorbAll(u, crypto, a) == AbsorbAll(u, crypto, b)
      {
        CalmOutcome(u, crypto, a);
        CalmOutcome(u, crypto, b);
      }
    } else {
      var a, b := Diverge(u, crypto, s);
    }
  }

  lemma {:induction false} FramesAreCalm(fs: seq<seq<byte>>)
    ensures Calm(AsPieces(fs))
  {
    if fs != [] {
      assert ([Frame(fs[0])] + AsPieces(fs[1..]))[1..] == AsPieces(fs[1..]);
      FramesAreCalm(fs[1..]);
    }
  }

  /**
   A prefix of a stream of frames, received in any chunks whatever, yields exactly its whole
   frames, leaves the start of the next one buffered, and ends in one and the same state.
   */
  lemma FrameStreamOutcome(u: State, crypto: Crypto, chunks: seq<seq<byte>>, fs: seq<seq<byte>>)
    requires u.buffered == [] && AllFrames(fs) && Flatten(chunks) <= Flatten(fs)
    ensures var n := |Flatten(chunks)|;
            var u' := AbsorbAll(u, crypto, chunks);
            && u'.log == Extended(u.log, crypto, AsPieces(Complete(fs, n)))
            && u'.buffered <= Flatten(Remaining(fs, n))
            && Ready(u')
  {
    var s := Flatten(chunks);
    assert u.buffered + s == s;
    SplitStream(s, fs);
    FramesAreCalm(Complete(fs, |s|));
    CalmOutcome(u, crypto, chunks);
    ProcessAllExtends(u.log, crypto, Split(s).pieces);
    TailWaits(s);
  }
}

/**
 Uplink over whole streams: what is conserved, what well-formed streams yield, and exactly when the
 result does not depend on how the stream was cut into receives.
 */
module Streams {
  import opened Bytes
  import opened TcFrames
  import opened SpacePackets
  import opened Uplink

  // ---------------------------------------------------------------- what processing adds to the log

  /** The messages sent for frames given to the security library after the frames `before`. */
  function BusMessages(crypto: Crypto, before: seq<seq<byte>>, frames: seq<seq<byte>>): seq<seq<byte>>
    decreases |frames|
  {
    if frames == [] then []
    else
      var answer := crypto(before, frames[0]);
      (if answer.status == CRYPTO_LIB_SUCCESS then CommandPackets(answer.pdu) else [])
      + BusMessages(crypto, before + [frames[0]], frames[1..])
  }

  function Failures(crypto: Crypto, before: seq<seq<byte>>, frames: seq<seq<byte>>): nat
    decreases |frames|
  {
    if frames == [] then 0
    else
      (if crypto(before, frames[0]).status == CRYPTO_LIB_SUCCESS then 0 else 1)
      + Failures(crypto, before + [frames[0]], frames[1..])
  }

  lemma BusMessagesOne(crypto: Crypto, before: seq<seq<byte>>, f: seq<byte>)
    ensures var answer := crypto(before, f);
            && BusMessages(crypto, before, [f])
               == (if answer.status == CRYPTO_LIB_SUCCESS then CommandPackets(answer.pdu) else [])
            && Failures(crypto, before, [f]) == (if answer.status == CRYPTO_LIB_SUCCESS then 0 else 1)
  {
    assert [f][1..] == [];
  }

  lemma BusMessagesFirst(crypto: Crypto, before: seq<seq<byte>>, f: seq<byte>, frames: seq<seq<byte>>)
    ensures var answer := crypto(before, f);
            && BusMessages(crypto, before, [f] + frames)
               == (if answer.status == CRYPTO_LIB_SUCCESS then CommandPackets(answer.pdu) else [])
                  + BusMessages(crypto, before + [f], frames)
            && Failures(crypto, before, [f] + frames)
               == (if answer.status == CRYPTO_LIB_SUCCESS then 0 else 1) + Failures(crypto, before + [f], frames)
  {
    assert ([f] + frames)[1..] == frames;
  }

  lemma {:induction false} BusMessagesConcat(crypto: Crypto, before: seq<seq<byte>>,
                                             a: seq<seq<byte>>, b: seq<seq<byte>>)
    ensures BusMessages(crypto, before, a + b) == BusMessages(crypto, before, a) + BusMessages(crypto, before + a, b)
    ensures Failures(crypto, before, a + b) == Failures(crypto, before, a) + Failures(crypto, before + a, b)
    decreases |a|
  {
    if a == [] {
      assert a + b == b && before + a == before;
    } else {
      var f, rest := a[0], a[1..];
      assert a == [f] + rest;
      BusMessagesFirst(crypto, before, f, rest);
      BusMessagesFirst(crypto, before, f, rest + b);
      BusMessagesConcat(crypto, before + [f], rest, b);
      Appended([f], rest, b);
      Appended(before, [f], rest);
      var answer := crypto(before, f);
      Appended(if answer.status == CRYPTO_LIB_SUCCESS then CommandPackets(answer.pdu) else [],
               BusMessages(crypto, before + [f], rest), BusMessages(crypto, before + a, b));
    }
  }

  function Counted(errors: byte, n: nat): byte { Wrap8(errors + n) }

  lemma CountedTwice(errors: byte, a: nat, b: nat)
    ensures Counted(Counted(errors, a), b) == Counted(errors, a + b)
  {
  }

  /** A log with the pieces appended to the trace, each frame's packets to the bus, and failures counted. */
  function Extended(log: Log, crypto: Crypto, pieces: seq<Piece>): Log {
    var before, frames := Frames(log.trace), Frames(pieces);
    Log(log.trace + pieces,
        log.sent + BusMessages(crypto, before, frames),
        Counted(log.errors, Failures(crypto, before, frames)))
  }

  lemma ExtendedOne(log: Log, crypto: Crypto, piece: Piece)
    ensures Process(log, crypto, piece) == Extended(log, crypto, [piece])
  {
    assert [piece][1..] == [];
    if piece.Frame? {
      assert Frames([piece]) == [piece.bytes];
      BusMessagesOne(crypto, Frames(log.trace), piece.bytes);
    } else {
      assert Frames([piece]) == [];
      assert log.sent + [] == log.sent;
    }
  }

  lemma SentTwice(sent: seq<seq<byte>>, crypto: Crypto, n: seq<seq<byte>>, a: seq<seq<byte>>, b: seq<seq<byte>>)
    ensures sent + BusMessages(crypto, n, a) + BusMessages(crypto, n + a, b)
         == sent + BusMessages(crypto, n, a + b)
  {
    BusMessagesConcat(crypto, n, a, b);
    var x, y := BusMessages(crypto, n, a), BusMessages(crypto, n + a, b);
    assert sent + x + y == sent + (x + y);
  }

  lemma ErrorsTwice(errors: byte, crypto: Crypto, n: seq<seq<byte>>, a: seq<seq<byte>>, b: seq<seq<byte>>)
    ensures Counted(Counted(errors, Failures(crypto, n, a)), Failures(crypto, n + a, b))
         == Counted(errors, Failures(crypto, n, a + b))
  {
    BusMessagesConcat(crypto, n, a, b);
    CountedTwice(errors, Failures(crypto, n, a), Failures(crypto, n + a, b));
  }

  lemma ExtendedIs(log: Log, crypto: Crypto, pieces: seq<Piece>, n: seq<seq<byte>>, fs: seq<seq<byte>>)
    requires n == Frames(log.trace) && fs == Frames(pieces)
    ensures Extended(log, crypto, pieces) == Log(log.trace + pieces,
                                                 log.sent + BusMessages(crypto, n, fs),
                                                 Counted(log.errors, Failures(crypto, n, fs)))
  {
  }

  lemma ExtendedTwice(log: Log, crypto: Crypto, a: seq<Piece>, b: seq<Piece>)
    ensures Extended(Extended(log, crypto, a), crypto, b) == Extended(log, crypto, a + b)
  {
    var n, fa, fb := Frames(log.trace), Frames(a), Frames(b);
    var once := Extended(log, crypto, a);
    var twice, both := Extended(once, crypto, b), Extended(log, crypto, a + b);
    assert Frames(log.trace + a) == n + fa by { FramesConcat(log.trace, a); }
    assert Frames(a + b) == fa + fb by { FramesConcat(a, b); }
    ExtendedIs(log, crypto, a, n, fa);
    ExtendedIs(once, crypto, b, n + fa, fb);
    ExtendedIs(log, crypto, a + b, n, fa + fb);
    assert twice.trace == both.trace by { Appended(log.trace, a, b); }
    assert twice.sent == both.sent by { SentTwice(log.sent, crypto, n, fa, fb); }
    assert twice.errors == both.errors by { ErrorsTwice(log.errors, crypto, n, fa, fb); }
  }

  lemma {:induction false} ProcessAllExtends(log: Log, crypto: Crypto, pieces: seq<Piece>)
    ensures ProcessAll(log, crypto, pieces) == Extended(log, crypto, pieces)
    decreases |pieces|
  {
    if pieces != [] {
      var p, rest := pieces[0], pieces[1..];
      ExtendedOne(log, crypto, p);
      ProcessAllExtends(Process(log, crypto, p), crypto, rest);
      ExtendedTwice(log, crypto, [p], rest);
      assert pieces == [p] + rest;
    }
  }

  lemma {:induction false} ProcessAllConcat(log: Log, crypto: Crypto, a: seq<Piece>, b: seq<Piece>)
    ensures ProcessAll(log, crypto, a + b) == ProcessAll(ProcessAll(log, crypto, a), crypto, b)
    decreases |a|
  {
    if a == [] {
      assert a + b == b;
    } else {
      assert (a + b)[1..] == a[1..] + b;
      ProcessAllConcat(Process(log, crypto, a[0]), crypto, a[1..], b);
    }
  }

  // ---------------------------------------------------------------- conservation and room, for any bytes

  /** All the bytes a state accounts for, in the order they were received. */
  function Accounted(u: State): seq<byte> { PieceBytes(u.log.trace) + u.buffered }

  lemma AbsorbTrace(u: State, crypto: Crypto, data: seq<byte>)
    ensures Absorb(u, crypto, data).log.trace == u.log.trace + Split(u.buffered + data).pieces
  {
    ProcessAllExtends(u.log, crypto, Split(u.buffered + data).pieces);
  }

  lemma AbsorbConserves(u: State, crypto: Crypto, data: seq<byte>)
    ensures Accounted(Absorb(u, crypto, data)) == Accounted(u) + data
  {
    var c := Split(u.buffered + data);
    AbsorbTrace(u, crypto, data);
    SplitConserves(u.buffered + data);
    PiecesConserve(u, data, c.pieces, c.tail);
  }

  lemma PiecesConserve(u: State, data: seq<byte>, pieces: seq<Piece>, tail: seq<byte>)
    requires PieceBytes(pieces) + tail == u.buffered + data
    ensures PieceBytes(u.log.trace + pieces) + tail == Accounted(u) + data
  {
    PieceBytesConcat(u.log.trace, pieces);
    Appended(PieceBytes(u.log.trace), PieceBytes(pieces), tail);
    Appended(PieceBytes(u.log.trace), u.buffered, data);
  }

  /**
   No stall: the next request asks for at least one byte, and for at least what the frame at the
   front of the buffer still lacks.
   */
  lemma RoomForPending(u: State)
    requires Ready(u)
    ensures 1 <= BUFFER_SIZE - |u.buffered|
    ensures |u.buffered| >= HEADER_SIZE ==>
              |u.buffered| < AnnouncedLength(u.buffered, 0) <= |u.buffered| + (BUFFER_SIZE - |u.buffered|)
  {
  }

  // ---------------------------------------------------------------- streams of frames

  predicate WellFormedFrame(f: seq<byte>) {
    |f| >= HEADER_SIZE && AnnouncedLength(f, 0) == |f|
  }

  predicate AllFrames(fs: seq<seq<byte>>) {
    fs == [] || (WellFormedFrame(fs[0]) && AllFrames(fs[1..]))
  }

  /** The frames that lie wholly within the first `n` bytes of the stream, and the others. */
  function Complete(fs: seq<seq<byte>>, n: nat): seq<seq<byte>>
    decreases |fs|
  {
    if fs == [] || n < |fs[0]| then [] else [fs[0]] + Complete(fs[1..], n - |fs[0]|)
  }

  function Remaining(fs: seq<seq<byte>>, n: nat): seq<seq<byte>>
    decreases |fs|
  {
    if fs == [] || n < |fs[0]| then fs else Remaining(fs[1..], n - |fs[0]|)
  }

  lemma {:induction false} CompleteThenRemaining(fs: seq<seq<byte>>, n: nat)
    ensures Complete(fs, n) + Remaining(fs, n) == fs
    ensures AllFrames(fs) ==> AllFrames(Remaining(fs, n))
    decreases |fs|
  {
    if fs != [] && n >= |fs[0]| {
      CompleteThenRemaining(fs[1..], n - |fs[0]|);
    }
  }

  function AsPieces(fs: seq<seq<byte>>): (ps: seq<Piece>)
    ensures |ps| == |fs|
  {
    if fs == [] then [] else [Frame(fs[0])] + AsPieces(fs[1..])
  }

  lemma {:induction false} FramesOfPieces(fs: seq<seq<byte>>)
    ensures Frames(AsPieces(fs)) == fs
    ensures PieceBytes(AsPieces(fs)) == Flatten(fs)
  {
    if fs != [] {
      assert ([Frame(fs[0])] + AsPieces(fs[1..]))[1..] == AsPieces(fs[1..]);
      FramesOfPieces(fs[1..]);
    }
  }

  lemma SameHeader(s: seq<byte>, f: seq<byte>, rest: seq<byte>)
    requires |f| >= HEADER_SIZE && |s| >= HEADER_SIZE && s <= f + rest
    ensures AnnouncedLength(s, 0) == AnnouncedLength(f, 0)
  {
    assert s[2] == (f + rest)[2] == f[2];
    assert s[3] == (f + rest)[3] == f[3];
  }

  lemma FrontFrame(s: seq<byte>, f: seq<byte>, rest: seq<byte>)
    requires WellFormedFrame(f) && s <= f + rest
    ensures |s| < |f| ==> Pending(s)
    ensures |s| >= |f| ==> s[..|f|] == f && s[|f|..] <= rest && Split(s) == Prepend(Frame(f), Split(s[|f|..]))
  {
    if |s| >= HEADER_SIZE {
      SameHeader(s, f, rest);
    }
    if |s| >= |f| {
      assert s[..|f|] == (f + rest)[..|f|] == f;
      assert s[|f|..] == (f + rest)[|f|..|s|] == rest[..|s| - |f|];
    }
  }

  /** A prefix of a stream of frames splits into exactly the whole frames it contains. */
  lemma {:induction false} SplitStream(s: seq<byte>, fs: seq<seq<byte>>)
    requires AllFrames(fs) && s <= Flatten(fs)
    ensures Split(s).pieces == AsPieces(Complete(fs, |s|))
    ensures Split(s).tail <= Flatten(Remaining(fs, |s|))
    decreases |fs|
  {
    if fs == [] {
      assert s == [];
    } else {
      var f, rest := fs[0], fs[1..];
      FrontFrame(s, f, Flatten(rest));
      if |s| >= |f| {
        SplitStream(s[|f|..], rest);
        assert ([f] + Complete(rest, |s| - |f|))[1..] == Complete(rest, |s| - |f|);
      }
    }
  }
}

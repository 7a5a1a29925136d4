/**
 How RADIO_ServiceUplink cuts buffered bytes into telecommand transfer frames, as a function on
 byte strings, with an independent description of the result and the proof that the two agree.
 The length field is that of section 4.1.2.7 of CCSDS 232.0-B: ten bits, total octets minus one.
 */
module TcFrames {
  import opened Bytes

  const HEADER_SIZE := 5
  const MAX_FRAME := 1024

  /** The frame length announced at offset `k`. */
  function AnnouncedLength(s: seq<byte>, k: nat): (n: nat)
    requires k + HEADER_SIZE <= |s|
    ensures 1 <= n <= MAX_FRAME
  {
    Be16(s[k + 2] % 4, s[k + 3]) + 1
  }

  /** A header with an acceptable length whose frame lies wholly inside `s`. */
  predicate Plausible(s: seq<byte>, k: nat) {
    && k + HEADER_SIZE <= |s|
    && AnnouncedLength(s, k) >= HEADER_SIZE
    && k + AnnouncedLength(s, k) <= |s|
  }

  predicate Implausible(s: seq<byte>) {
    |s| >= HEADER_SIZE && AnnouncedLength(s, 0) < HEADER_SIZE
  }

  /** Bytes that must wait for more: no complete header, or a good header without its whole frame. */
  predicate Pending(s: seq<byte>) {
    |s| < HEADER_SIZE || (AnnouncedLength(s, 0) >= HEADER_SIZE && AnnouncedLength(s, 0) > |s|)
  }

  /** The least plausible offset from `k` on, or the length of `s` when there is none. */
  function NextPlausible(s: seq<byte>, k: nat): (r: nat)
    requires k <= |s|
    ensures k <= r <= |s|
    ensures r < |s| ==> Plausible(s, r)
    ensures forall j :: k <= j < r ==> !Plausible(s, j)
    decreases |s| - k
  {
    if Plausible(s, k) || k == |s| then k else NextPlausible(s, k + 1)
  }

  /** What happens to a stretch of the buffer. */
  datatype Piece =
    | Frame(bytes: seq<byte>)     // handed to the security library
    | Skipped(bytes: seq<byte>)   // jumped over to resynchronise
    | Discarded(bytes: seq<byte>) // thrown away, resynchronisation having failed

  datatype Cut = Cut(pieces: seq<Piece>, tail: seq<byte>)

  function Prepend(p: Piece, c: Cut): Cut { Cut([p] + c.pieces, c.tail) }

  function Split(s: seq<byte>): (c: Cut)
    decreases |s|
  {
    if Pending(s) then Cut([], s)
    else if Implausible(s) then
      var k := NextPlausible(s, 1);
      if k == |s| then Cut([Discarded(s)], [])
      else Prepend(Skipped(s[..k]), Split(s[k..]))
    else
      var n := AnnouncedLength(s, 0);
      Prepend(Frame(s[..n]), Split(s[n..]))
  }

  // ---------------------------------------------------------------- conservation

  function PieceBytes(pieces: seq<Piece>): seq<byte> {
    if pieces == [] then [] else pieces[0].bytes + PieceBytes(pieces[1..])
  }

  function Frames(pieces: seq<Piece>): seq<seq<byte>> {
    if pieces == [] then []
    else (if pieces[0].Frame? then [pieces[0].bytes] else []) + Frames(pieces[1..])
  }

  lemma {:induction false} PieceBytesConcat(a: seq<Piece>, b: seq<Piece>)
    ensures PieceBytes(a + b) == PieceBytes(a) + PieceBytes(b)
  {
    if a == [] {
      assert a + b == b;
    } else {
      assert (a + b)[1..] == a[1..] + b;
      PieceBytesConcat(a[1..], b);
    }
  }

  lemma {:induction false} FramesConcat(a: seq<Piece>, b: seq<Piece>)
    ensures Frames(a + b) == Frames(a) + Frames(b)
  {
    if a == [] {
      assert a + b == b;
    } else {
      var first := if a[0].Frame? then [a[0].bytes] else [];
      assert (a + b)[0] == a[0] && (a + b)[1..] == a[1..] + b;
      assert Frames(a + b) == first + Frames(a[1..] + b);
      FramesConcat(a[1..], b);
      assert first + (Frames(a[1..]) + Frames(b)) == first + Frames(a[1..]) + Frames(b);
    }
  }

  lemma PrependConserves(p: Piece, c: Cut, s: seq<byte>)
    requires p.bytes <= s && PieceBytes(c.pieces) + c.tail == s[|p.bytes|..]
    ensures PieceBytes(Prepend(p, c).pieces) + Prepend(p, c).tail == s
  {
    assert ([p] + c.pieces)[1..] == c.pieces;
    assert s == p.bytes + s[|p.bytes|..];
  }

  /** Every byte is in exactly one piece or in the tail, in order. */
  lemma {:induction false} SplitConserves(s: seq<byte>)
    ensures PieceBytes(Split(s).pieces) + Split(s).tail == s
    decreases |s|
  {
    if Implausible(s) {
      var k := NextPlausible(s, 1);
      if k == |s| {
        assert [Discarded(s)][1..] == [];
      } else {
        SplitConserves(s[k..]);
        PrependConserves(Skipped(s[..k]), Split(s[k..]), s);
      }
    } else if !Pending(s) {
      var n := AnnouncedLength(s, 0);
      SplitConserves(s[n..]);
      PrependConserves(Frame(s[..n]), Split(s[n..]), s);
    }
  }

  // ---------------------------------------------------------------- an independent description

  /** What a piece must look like when it is the first of the remaining bytes `s`. */
  ghost predicate Fits(p: Piece, s: seq<byte>) {
    && p.bytes <= s
    && match p
       case Frame(b) =>
         |b| >= HEADER_SIZE && AnnouncedLength(s, 0) == |b|
       case Skipped(b) =>
         && Implausible(s) && 1 <= |b| < |s|
         && Plausible(s, |b|)
         && (forall j :: 1 <= j < |b| ==> !Plausible(s, j))
       case Discarded(b) =>
         && Implausible(s) && b == s
         && (forall j :: 1 <= j ==> !Plausible(s, j))
  }

  /** Pieces and a waiting tail that exhaust `s`. */
  ghost predicate Describes(c: Cut, s: seq<byte>)
    decreases |c.pieces|
  {
    if c.pieces == [] then c.tail == s && Pending(s)
    else Fits(c.pieces[0], s) && Describes(Cut(c.pieces[1..], c.tail), s[|c.pieces[0].bytes|..])
  }

  lemma {:induction false} SplitDescribes(s: seq<byte>)
    ensures Describes(Split(s), s)
    decreases |s|
  {
    if !Pending(s) {
      var c := Split(s);
      var p := c.pieces[0];
      var rest := s[|p.bytes|..];
      if p.Discarded? {
        assert rest == [];
        assert c.pieces[1..] == [];
      } else {
        assert c.pieces[1..] == Split(rest).pieces;
        SplitDescribes(rest);
        assert Cut(c.pieces[1..], c.tail) == Split(rest);
      }
    }
  }

  lemma NextPlausibleIs(s: seq<byte>, k: nat)
    requires 1 <= k <= |s| && (k < |s| ==> Plausible(s, k))
    requires forall j :: 1 <= j < k ==> !Plausible(s, j)
    ensures NextPlausible(s, 1) == k
  {
  }

  lemma FirstPiece(p: Piece, s: seq<byte>)
    requires Fits(p, s)
    ensures !Pending(s)
    ensures Split(s) == if p.Discarded? then Cut([p], []) else Prepend(p, Split(s[|p.bytes|..]))
  {
    assert p.bytes == s[..|p.bytes|];
    if !p.Frame? {
      NextPlausibleIs(s, |p.bytes|);
    }
  }

  /** The description leaves no choice. */
  lemma {:induction false} OnlySplitDescribes(c: Cut, s: seq<byte>)
    requires Describes(c, s)
    ensures c == Split(s)
    decreases |s|
  {
    if c.pieces != [] {
      var p := c.pieces[0];
      var rest := s[|p.bytes|..];
      var c' := Cut(c.pieces[1..], c.tail);
      FirstPiece(p, s);
      assert c == Prepend(p, c');
      OnlySplitDescribes(c', rest);
      if p.Discarded? {
        assert rest == [];
      }
    }
  }

  lemma SplitCharacterised(c: Cut, s: seq<byte>)
    ensures Describes(c, s) <==> c == Split(s)
  {
    SplitDescribes(s);
    if Describes(c, s) {
      OnlySplitDescribes(c, s);
    }
  }

  // ---------------------------------------------------------------- no stall

  /** The tail always leaves room for the frame it belongs to, and waiting alone changes nothing. */
  lemma {:induction false} TailWaits(s: seq<byte>)
    ensures Pending(Split(s).tail)
    ensures |Split(s).tail| < MAX_FRAME
    ensures Split(Split(s).tail) == Cut([], Split(s).tail)
    decreases |s|
  {
    if !Pending(s) {
      var p := Split(s).pieces[0];
      if !p.Discarded? {
        TailWaits(s[|p.bytes|..]);
      }
    }
  }
}

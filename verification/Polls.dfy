/** What a whole poll of the uplink does with the answers of the SPI driver. */
module Polls {
  import opened Bytes
  import opened Protocol
  import opened Device
  import opened Uplink
  import opened Chunking

  lemma {:induction false} AbsorbAllReady(u: State, crypto: Crypto, ds: seq<seq<byte>>)
    requires Ready(u)
    ensures Ready(AbsorbAll(u, crypto, ds))
    decreases |ds|
  {
    if ds != [] {
      AbsorbReady(u, crypto, ds[0]);
      AbsorbAllReady(Absorb(u, crypto, ds[0]), crypto, ds[1..]);
    }
  }

  /** The outcome of the receive attempt that comes after `ds` has been received. */
  function NextExchange(u: State, crypto: Crypto, ds: seq<seq<byte>>, spi: SpiAnswer): Received
    requires Ready(u)
  {
    AbsorbAllReady(u, crypto, ds);
    Exchange(1024 - |AbsorbAll(u, crypto, ds).buffered|, spi)
  }

  /** The attempt numbered `i`, after those before it, brought `ds[i]`. */
  predicate BroughtAt(u: State, crypto: Crypto, answers: seq<SpiAnswer>, ds: seq<seq<byte>>, i: nat)
    requires Ready(u) && i < |ds| <= |answers|
  {
    NextExchange(u, crypto, ds[..i], answers[i]) == Data(ds[i])
  }

  /** After all of `ds`, the answers are used up or the next attempt fails. */
  predicate StopsAfter(u: State, crypto: Crypto, answers: seq<SpiAnswer>, ds: seq<seq<byte>>)
    requires Ready(u) && |ds| <= |answers|
  {
    |ds| < |answers| ==> NextExchange(u, crypto, ds, answers[|ds|]) == Failure
  }

  /** What the attempts of a poll brought, up to the first that failed. */
  ghost predicate Brings(u: State, crypto: Crypto, answers: seq<SpiAnswer>, ds: seq<seq<byte>>)
    requires Ready(u)
  {
    && |ds| <= |answers|
    && (forall i :: 0 <= i < |ds| ==> BroughtAt(u, crypto, answers, ds, i))
    && StopsAfter(u, crypto, answers, ds)
  }

  lemma NextLater(u: State, crypto: Crypto, d: seq<byte>, rest: seq<seq<byte>>, spi: SpiAnswer)
    requires Ready(u) && Ready(Absorb(u, crypto, d))
    ensures NextExchange(u, crypto, [d] + rest, spi) == NextExchange(Absorb(u, crypto, d), crypto, rest, spi)
  {
    assert ([d] + rest)[1..] == rest;
  }

  lemma NextFirst(u: State, crypto: Crypto, spi: SpiAnswer)
    requires Ready(u)
    ensures NextExchange(u, crypto, [], spi) == Exchange(BUFFER_SIZE - |u.buffered|, spi)
  {
  }

  lemma BroughtFirst(u: State, crypto: Crypto, answers: seq<SpiAnswer>, ds: seq<seq<byte>>)
    requires Ready(u) && 0 < |ds| <= |answers|
    ensures BroughtAt(u, crypto, answers, ds, 0) <==> Exchange(BUFFER_SIZE - |u.buffered|, answers[0]) == Data(ds[0])
  {
    assert ds[..0] == [];
    NextFirst(u, crypto, answers[0]);
  }

  lemma BroughtLater(u: State, crypto: Crypto, answers: seq<SpiAnswer>, ds: seq<seq<byte>>, next: State, i: nat)
    requires Ready(u) && i + 1 < |ds| <= |answers| && next == Absorb(u, crypto, ds[0]) && Ready(next)
    ensures BroughtAt(u, crypto, answers, ds, i + 1) <==> BroughtAt(next, crypto, answers[1..], ds[1..], i)
  {
    assert ds[..i + 1] == [ds[0]] + ds[1..][..i];
    NextLater(u, crypto, ds[0], ds[1..][..i], answers[i + 1]);
  }

  lemma StopsLater(u: State, crypto: Crypto, answers: seq<SpiAnswer>, ds: seq<seq<byte>>, next: State)
    requires Ready(u) && 0 < |ds| <= |answers| && next == Absorb(u, crypto, ds[0]) && Ready(next)
    ensures StopsAfter(u, crypto, answers, ds) <==> StopsAfter(next, crypto, answers[1..], ds[1..])
  {
    assert ds == [ds[0]] + ds[1..];
    if |ds| < |answers| {
      NextLater(u, crypto, ds[0], ds[1..], answers[|ds|]);
    }
  }

  lemma BringsFirst(u: State, crypto: Crypto, answers: seq<SpiAnswer>, ds: seq<seq<byte>>, next: State)
    requires Ready(u) && 0 < |ds| <= |answers| && next == Absorb(u, crypto, ds[0]) && Ready(next)
    ensures Brings(u, crypto, answers, ds) <==>
            BroughtAt(u, crypto, answers, ds, 0) && Brings(next, crypto, answers[1..], ds[1..])
  {
    StopsLater(u, crypto, answers, ds, next);
    forall i | 0 <= i < |ds| - 1
      ensures BroughtAt(u, crypto, answers, ds, i + 1) <==> BroughtAt(next, crypto, answers[1..], ds[1..], i)
    {
      BroughtLater(u, crypto, answers, ds, next, i);
    }
    BringsByParts(u, crypto, answers, ds, next);
  }

  lemma BringsByParts(u: State, crypto: Crypto, answers: seq<SpiAnswer>, ds: seq<seq<byte>>, next: State)
    requires Ready(u) && 0 < |ds| <= |answers| && Ready(next)
    requires StopsAfter(u, crypto, answers, ds) <==> StopsAfter(next, crypto, answers[1..], ds[1..])
    requires forall i :: 0 <= i < |ds| - 1 ==>
               (BroughtAt(u, crypto, answers, ds, i + 1) <==> BroughtAt(next, crypto, answers[1..], ds[1..], i))
    ensures Brings(u, crypto, answers, ds) <==>
            BroughtAt(u, crypto, answers, ds, 0) && Brings(next, crypto, answers[1..], ds[1..])
  {
    if BroughtAt(u, crypto, answers, ds, 0) && Brings(next, crypto, answers[1..], ds[1..]) {
      forall i | 0 <= i < |ds|
        ensures BroughtAt(u, crypto, answers, ds, i)
      {
        if i > 0 {
          assert BroughtAt(next, crypto, answers[1..], ds[1..], i - 1);
        }
      }
    }
  }

  lemma PollGoesOn(u: State, crypto: Crypto, answers: seq<SpiAnswer>, next: State)
    requires Ready(u) && answers != [] && Receive(u, crypto, answers[0]) == (next, true)
    ensures Ready(next) && Poll(u, crypto, answers) == Poll(next, crypto, answers[1..])
  {
    ReceiveReady(u, crypto, answers[0]);
  }

  lemma ReceiveBrings(u: State, crypto: Crypto, spi: SpiAnswer, d: seq<byte>)
    requires Ready(u) && Exchange(BUFFER_SIZE - |u.buffered|, spi) == Data(d)
    ensures Receive(u, crypto, spi) == (Absorb(u, crypto, d), true)
  {
  }

  function OneErrorMore(u: State): State { u.(log := u.log.(errors := (u.log.errors + 1) % 256)) }

  lemma PollStops(u: State, crypto: Crypto, answers: seq<SpiAnswer>)
    requires Ready(u) && answers != [] && Exchange(BUFFER_SIZE - |u.buffered|, answers[0]) == Failure
    ensures Poll(u, crypto, answers) == OneErrorMore(u)
  {
  }

  lemma AbsorbAllNext(u: State, crypto: Crypto, ds: seq<seq<byte>>)
    requires ds != []
    ensures AbsorbAll(u, crypto, ds) == AbsorbAll(Absorb(u, crypto, ds[0]), crypto, ds[1..])
  {
  }

  /**
   A poll takes in all that its attempts brought, in order, up to the first that failed, and counts
   one error exactly when one failed.
   */
  lemma {:induction false} PollTakesAll(u: State, crypto: Crypto, answers: seq<SpiAnswer>, ds: seq<seq<byte>>)
    requires Ready(u) && Brings(u, crypto, answers, ds)
    ensures var all := AbsorbAll(u, crypto, ds);
            Poll(u, crypto, answers) == if |ds| == |answers| then all else OneErrorMore(all)
    decreases |ds|
  {
    if ds != [] {
      var next := Absorb(u, crypto, ds[0]);
      AbsorbReady(u, crypto, ds[0]);
      BringsFirst(u, crypto, answers, ds, next);
      BroughtFirst(u, crypto, answers, ds);
      ReceiveBrings(u, crypto, answers[0], ds[0]);
      PollGoesOn(u, crypto, answers, next);
      AbsorbAllNext(u, crypto, ds);
      PollTakesAll(next, crypto, answers[1..], ds[1..]);
    } else if answers != [] {
      NextFirst(u, crypto, answers[0]);
      PollStops(u, crypto, answers);
    }
  }

  /** Whatever the driver answers, some list of received bytes is what a poll brings. */
  lemma {:induction false} SomethingIsBrought(u: State, crypto: Crypto, answers: seq<SpiAnswer>)
    returns (ds: seq<seq<byte>>)
    requires Ready(u)
    ensures Brings(u, crypto, answers, ds)
    decreases |answers|
  {
    ds := [];
    if answers != [] && Exchange(BUFFER_SIZE - |u.buffered|, answers[0]).Data? {
      var d := Exchange(BUFFER_SIZE - |u.buffered|, answers[0]).bytes;
      AbsorbReady(u, crypto, d);
      var rest := SomethingIsBrought(Absorb(u, crypto, d), crypto, answers[1..]);
      ds := [d] + rest;
      BringsFirst(u, crypto, answers, ds, Absorb(u, crypto, d));
      BroughtFirst(u, crypto, answers, ds);
    }
  }

  /** A receive brings bytes exactly when the request was written whole and their frame starts the answer. */
  lemma ExchangeExactly(maxLength: uint16, spi: SpiAnswer, payload: seq<byte>)
    requires maxLength <= BUFFER_SIZE
    ensures Exchange(maxLength, spi) == Data(payload) <==>
            && spi.written == 7 && |payload| <= maxLength
            && [0xAA, |payload| / 256, |payload| % 256] + payload + [0x11] <= spi.read
  {
    var read := SpiRead(spi, maxLength + 4);
    ReplyAcceptedExactly(read, maxLength, payload);
    if |payload| <= maxLength {
      assert FramedPayload(payload) == [0xAA, |payload| / 256, |payload| % 256] + payload + [0x11];
      assert read <= spi.read;
    }
  }
}

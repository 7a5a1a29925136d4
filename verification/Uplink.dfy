/**
 RADIO_ServiceUplink: receives into a persistent buffer, cuts it into frames in place and forwards
 the packets found. The class follows the code; its methods are tied to functions on byte strings.
 */
module Uplink {
  import opened Bytes
  import opened Protocol
  import opened Device
  import opened TcFrames
  import opened SpacePackets

  const BUFFER_SIZE: uint16 := 1024
  const CRYPTO_LIB_SUCCESS := 0

  type Pdu = s: seq<byte> | |s| < 0x1_0000

  /** What the security library does with one frame; `scribble` overwrites bytes of that frame only. */
  datatype CryptoAnswer = CryptoAnswer(status: int, pdu: Pdu, scribble: seq<byte>)

  /** The answer may depend on all the frames the library has seen before, and on the frame. */
  type Crypto = (seq<seq<byte>>, seq<byte>) -> CryptoAnswer

  /** What the service has done so far: stretches of input, messages sent, DeviceErrorCount. */
  datatype Log = Log(trace: seq<Piece>, sent: seq<seq<byte>>, errors: byte)

  datatype State = State(buffered: seq<byte>, log: Log)

  // ---------------------------------------------------------------- specification

  function CountError(log: Log): Log { log.(errors := Wrap8(log.errors + 1)) }

  function Process(log: Log, crypto: Crypto, piece: Piece): Log {
    var seen := log.(trace := log.trace + [piece]);
    if piece.Frame? then
      var answer := crypto(Frames(log.trace), piece.bytes);
      if answer.status == CRYPTO_LIB_SUCCESS then seen.(sent := log.sent + CommandPackets(answer.pdu))
      else CountError(seen)
    else seen
  }

  function ProcessAll(log: Log, crypto: Crypto, pieces: seq<Piece>): Log
    decreases |pieces|
  {
    if pieces == [] then log else ProcessAll(Process(log, crypto, pieces[0]), crypto, pieces[1..])
  }

  lemma FirstProcessed(log: Log, crypto: Crypto, piece: Piece, rest: Cut)
    ensures ProcessAll(log, crypto, Prepend(piece, rest).pieces)
         == ProcessAll(Process(log, crypto, piece), crypto, rest.pieces)
  {
    assert ([piece] + rest.pieces)[1..] == rest.pieces;
  }

  function SplitUp(s: seq<byte>, log: Log, crypto: Crypto): State {
    State(Split(s).tail, ProcessAll(log, crypto, Split(s).pieces))
  }

  function Absorb(u: State, crypto: Crypto, data: seq<byte>): State {
    SplitUp(u.buffered + data, u.log, crypto)
  }

  /** What a receive attempt does with the outcome of the exchange; false when it failed. */
  function Take(u: State, crypto: Crypto, outcome: Received): (State, bool) {
    match outcome
    case Failure => (u.(log := CountError(u.log)), false)
    case Data(bytes) => (Absorb(u, crypto, bytes), true)
  }

  function Receive(u: State, crypto: Crypto, spi: SpiAnswer): (State, bool)
    requires |u.buffered| <= BUFFER_SIZE
  {
    Take(u, crypto, Exchange(BUFFER_SIZE - |u.buffered|, spi))
  }

  predicate Ready(u: State) { Pending(u.buffered) && |u.buffered| < BUFFER_SIZE }

  lemma AbsorbReady(u: State, crypto: Crypto, data: seq<byte>)
    ensures Ready(Absorb(u, crypto, data))
  {
    TailWaits(u.buffered + data);
  }

  lemma TakeReady(u: State, crypto: Crypto, outcome: Received)
    requires Ready(u)
    ensures Ready(Take(u, crypto, outcome).0)
  {
    if outcome.Data? {
      AbsorbReady(u, crypto, outcome.bytes);
    }
  }

  lemma ReceiveReady(u: State, crypto: Crypto, spi: SpiAnswer)
    requires Ready(u)
    ensures Ready(Receive(u, crypto, spi).0)
  {
    TakeReady(u, crypto, Exchange(BUFFER_SIZE - |u.buffered|, spi));
  }

  /** One poll: an attempt per answer until one fails. */
  function Poll(u: State, crypto: Crypto, answers: seq<SpiAnswer>): (u': State)
    requires Ready(u)
    decreases |answers|
  {
    if answers == [] then u
    else
      ReceiveReady(u, crypto, answers[0]);
      var (next, ok) := Receive(u, crypto, answers[0]);
      if ok then Poll(next, crypto, answers[1..]) else next
  }

  lemma NoneNearEnd(s: seq<byte>, k: nat)
    requires k <= |s| < k + HEADER_SIZE
    ensures NextPlausible(s, k) == |s|
    decreases |s| - k
  {
    if k < |s| {
      NoneNearEnd(s, k + 1);
    }
  }

  // ---------------------------------------------------------------- the service

  class UplinkService {
    const receiveBuffer: array<byte>
    var length: nat
    var trace: seq<Piece>
    var sent: seq<seq<byte>>
    var errors: byte

    ghost predicate Valid()
      reads this, receiveBuffer
    {
      && receiveBuffer.Length == BUFFER_SIZE
      && length < BUFFER_SIZE
      && Pending(receiveBuffer[..length])
    }

    function LogNow(): Log
      reads this
    {
      Log(trace, sent, errors)
    }

    ghost function Now(): State
      requires length <= receiveBuffer.Length
      reads this, receiveBuffer
    {
      State(receiveBuffer[..length], LogNow())
    }

    constructor ()
      ensures Valid() && fresh(receiveBuffer)
      ensures Now() == State([], Log([], [], 0))
    {
      receiveBuffer := new byte[BUFFER_SIZE](_ => 0);
      length := 0;
      trace, sent, errors := [], [], 0;
    }

    /** The forward search for a plausible header. */
    method FindPlausible(offset: nat, bufLen: nat) returns (found: bool, newOffset: nat)
      requires offset + HEADER_SIZE <= bufLen <= receiveBuffer.Length
      ensures var s := receiveBuffer[offset..bufLen];
              && (found <==> NextPlausible(s, 1) < |s|)
              && (found ==> newOffset == offset + NextPlausible(s, 1))
    {
      ghost var s := receiveBuffer[offset..bufLen];
      newOffset := offset + 1;
      found := false;
      while newOffset + 5 <= bufLen
        invariant offset < newOffset <= bufLen
        invariant NextPlausible(s, newOffset - offset) == NextPlausible(s, 1)
      {
        var frameLen := Be16(receiveBuffer[newOffset + 2] % 4, receiveBuffer[newOffset + 3]) + 1;
        assert frameLen == AnnouncedLength(s, newOffset - offset);
        if frameLen >= 5 && newOffset + frameLen <= bufLen {
          found := true;
          return;
        }
        newOffset := newOffset + 1;
      }
      NoneNearEnd(s, newOffset - offset);
    }

    /** The security library writes into the frame it was given. */
    method Scribble(offset: nat, frameLen: nat, bytes: seq<byte>)
      requires offset + frameLen <= receiveBuffer.Length
      modifies receiveBuffer
      ensures receiveBuffer[..offset] == old(receiveBuffer[..offset])
      ensures receiveBuffer[offset + frameLen..] == old(receiveBuffer[offset + frameLen..])
    {
      var touched := Min(|bytes|, frameLen);
      forall i | 0 <= i < touched {
        receiveBuffer[offset + i] := bytes[i];
      }
      assert forall i :: offset + frameLen <= i < receiveBuffer.Length ==> receiveBuffer[i] == old(receiveBuffer[i]);
    }

    /** One frame through the security library, and its PDU through the packet search. */
    method HandleFrame(offset: nat, frameLen: nat, crypto: Crypto)
      requires offset + frameLen <= receiveBuffer.Length
      modifies this`trace, this`sent, this`errors, receiveBuffer
      ensures LogNow() == old(Process(LogNow(), crypto, Frame(receiveBuffer[offset..offset + frameLen])))
      ensures receiveBuffer[..offset] == old(receiveBuffer[..offset])
      ensures receiveBuffer[offset + frameLen..] == old(receiveBuffer[offset + frameLen..])
    {
      var frame := receiveBuffer[offset..offset + frameLen];
      var answer := crypto(Frames(trace), frame);
      trace := trace + [Frame(frame)];
      Scribble(offset, frameLen, answer.scribble);
      if answer.status == CRYPTO_LIB_SUCCESS {
        var slices := ScanPdu(answer.pdu);
        assert Contents(answer.pdu, slices) == CommandPackets(answer.pdu);
        sent := sent + Contents(answer.pdu, slices);
      } else {
        errors := Wrap8(errors + 1);
      }
    }

    /** Moves the bytes from `offset` on to the front of the buffer. */
    method KeepTail(offset: nat)
      requires offset <= length <= receiveBuffer.Length
      modifies this`length, receiveBuffer
      ensures length <= old(length)
      ensures receiveBuffer[..length] == old(receiveBuffer[offset..length])
    {
      if offset < length {
        var remaining := length - offset;
        forall i | 0 <= i < remaining {
          receiveBuffer[i] := receiveBuffer[offset + i];
        }
        length := remaining;
      } else {
        length := 0;
      }
    }

    /** A header that announces too short a frame: jump to a plausible one, or give everything up. */
    method Resynchronise(offset: nat, bufLen: nat, crypto: Crypto) returns (newOffset: nat)
      requires offset + HEADER_SIZE <= bufLen <= receiveBuffer.Length
      requires Implausible(receiveBuffer[offset..bufLen])
      modifies this`trace
      ensures offset < newOffset <= bufLen
      ensures StillToDo(newOffset, bufLen, crypto) == old(StillToDo(offset, bufLen, crypto))
    {
      ghost var s, log := receiveBuffer[offset..bufLen], LogNow();
      var found, candidate := FindPlausible(offset, bufLen);
      if found {
        newOffset := candidate;
        assert forall i :: 0 <= i < |s| ==> s[i] == receiveBuffer[offset + i];
        assert receiveBuffer[offset..newOffset] == s[..newOffset - offset];
        trace := trace + [Skipped(receiveBuffer[offset..newOffset])];
        assert s[newOffset - offset..] == receiveBuffer[newOffset..bufLen];
        FirstProcessed(log, crypto, Skipped(s[..newOffset - offset]), Split(s[newOffset - offset..]));
      } else {
        newOffset := bufLen;
        trace := trace + [Discarded(receiveBuffer[offset..bufLen])];
        assert Split(s) == Prepend(Discarded(s), Cut([], []));
        FirstProcessed(log, crypto, Discarded(s), Cut([], []));
        assert receiveBuffer[bufLen..bufLen] == [];
      }
    }

    /** The final log and tail, seen from `offset` in the loop. */
    ghost function StillToDo(offset: nat, bufLen: nat, crypto: Crypto): State
      requires offset <= bufLen <= receiveBuffer.Length
      reads this, receiveBuffer
    {
      SplitUp(receiveBuffer[offset..bufLen], LogNow(), crypto)
    }

    /**
     One turn of the splitting loop. It leaves unchanged what the whole loop amounts to, and when it
     ends the loop what is left must wait for more bytes.
     */
    method CutOne(offset: nat, bufLen: nat, crypto: Crypto) returns (newOffset: nat, stop: bool)
      requires offset + HEADER_SIZE <= bufLen <= receiveBuffer.Length
      modifies this`trace, this`sent, this`errors, receiveBuffer
      ensures offset <= newOffset <= bufLen
      ensures StillToDo(newOffset, bufLen, crypto) == old(StillToDo(offset, bufLen, crypto))
      ensures if stop then Pending(receiveBuffer[newOffset..bufLen]) else offset < newOffset
    {
      ghost var s, log := receiveBuffer[offset..bufLen], LogNow();
      var frameLen := Be16(receiveBuffer[offset + 2] % 4, receiveBuffer[offset + 3]) + 1;
      assert frameLen == AnnouncedLength(s, 0);
      if frameLen < 5 {
        newOffset := Resynchronise(offset, bufLen, crypto);
        stop := false;
      } else if offset + frameLen > bufLen {
        newOffset, stop := offset, true;
      } else {
        assert receiveBuffer[offset..offset + frameLen] == s[..frameLen];
        assert s[frameLen..] == receiveBuffer[offset + frameLen..][..bufLen - offset - frameLen];
        HandleFrame(offset, frameLen, crypto);
        newOffset, stop := offset + frameLen, false;
        assert receiveBuffer[newOffset..bufLen] == receiveBuffer[newOffset..][..bufLen - newOffset];
        assert receiveBuffer[newOffset..bufLen] == s[frameLen..];
        assert Split(s) == Prepend(Frame(s[..frameLen]), Split(s[frameLen..]));
        FirstProcessed(log, crypto, Frame(s[..frameLen]), Split(s[frameLen..]));
      }
    }

    /** Cuts the first `length` bytes and moves what must wait to the front. */
    method SplitBuffer(crypto: Crypto)
      requires receiveBuffer.Length == BUFFER_SIZE && length <= BUFFER_SIZE
      modifies this, receiveBuffer
      ensures Valid()
      ensures Now() == old(SplitUp(receiveBuffer[..length], LogNow(), crypto))
    {
      var offset := 0;
      var bufLen := length;
      assert receiveBuffer[0..bufLen] == receiveBuffer[..length];
      while offset + 5 <= bufLen
        invariant offset <= bufLen == length == old(length)
        invariant StillToDo(offset, bufLen, crypto) == old(SplitUp(receiveBuffer[..length], LogNow(), crypto))
        decreases bufLen - offset
      {
        var stop;
        offset, stop := CutOne(offset, bufLen, crypto);
        if stop {
          break;
        }
      }
      ghost var rest := receiveBuffer[offset..bufLen];
      assert Pending(rest);
      TailWaits(rest);
      KeepTail(offset);
    }

    /** One receive into the tail of the buffer, without the splitting. */
    method ReceiveMore(spi: SpiAnswer) returns (ok: bool)
      requires Valid()
      modifies this, receiveBuffer
      ensures receiveBuffer.Length == BUFFER_SIZE && length <= BUFFER_SIZE
      ensures match old(Exchange(BUFFER_SIZE - length, spi))
              case Failure => !ok && length == old(length) && Now() == old(Now().(log := CountError(LogNow())))
              case Data(bytes) => ok && Now() == old(Now().(buffered := receiveBuffer[..length] + bytes))
    {
      var status, actualLength, wire := ReceiveData(receiveBuffer, length, BUFFER_SIZE - length, spi);
      if status != Success {
        errors := Wrap8(errors + 1);
        return false;
      }
      length := length + actualLength;
      if length > BUFFER_SIZE {
        assert false; // the overflow branch is never reached
      }
      ok := true;
    }

    method Attempt(spi: SpiAnswer, crypto: Crypto) returns (ok: bool)
      requires Valid()
      modifies this, receiveBuffer
      ensures Valid()
      ensures (Now(), ok) == old(Receive(Now(), crypto, spi))
    {
      ghost var u := Now();
      ok := ReceiveMore(spi);
      if ok {
        if length > 0 {
          SplitBuffer(crypto);
        }
      }
    }

    /** Up to `attempts` receives; `answers` is what the SPI driver does at each of them. */
    method ServiceUplink(attempts: nat, answers: seq<SpiAnswer>, crypto: Crypto)
      requires Valid()
      requires attempts <= |answers|
      modifies this, receiveBuffer
      ensures Valid()
      ensures Now() == old(Poll(Now(), crypto, answers[..attempts]))
    {
      var remaining := attempts;
      ghost var rest := answers[..attempts];
      while remaining > 0
        invariant 0 <= remaining <= attempts && Valid()
        invariant rest == answers[attempts - remaining..attempts]
        invariant Poll(Now(), crypto, rest) == old(Poll(Now(), crypto, answers[..attempts]))
      {
        var ok := Attempt(answers[attempts - remaining], crypto);
        if !ok {
          break;
        }
        remaining := remaining - 1;
        rest := rest[1..];
      }
    }
  }
}

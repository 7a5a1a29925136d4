/** The simulated radio (sim/radio_sim.c) with its fields updated in place. */
module Simulator {
  import opened Bytes
  import opened Protocol
  import opened Ring
  import opened Radio

  class RadioSim {
    const ring: RxRing
    const threshold: nat
    var power: byte
    var irqPin: byte
    var config: Config
    var hk: Housekeeping
    var asserted: bool
    var bytesReceived: uint32
    var bytesSent: uint32

    ghost predicate Valid()
      reads this, ring
    {
      ring.Valid()
    }

    ghost function Now(): (r: State)
      requires Valid()
      reads this, ring, ring.buffer
      ensures r.Valid()
    {
      CountIsLength(ring.buffer[..], ring.head, ring.tail);
      State(ring.buffer.Length, threshold, power, irqPin, config, hk, ring.Contents(),
            asserted, bytesReceived, bytesSent)
    }

    constructor (size: nat, threshold: nat, power: byte, irqPin: byte)
      requires 0 < size < 0x1_0000_0000
      ensures Valid() && fresh(ring) && fresh(ring.buffer)
      ensures Now() == Initial(size, threshold, power, irqPin)
    {
      ring := new RxRing(size);
      this.threshold, this.power, this.irqPin := threshold, power, irqPin;
      config := NO_CONFIG.(mode := MODE_DUPLEX);
      hk := Housekeeping(0, MODE_DUPLEX, 0, 0, 0, 0, 0, 0, 0, 0);
      asserted, bytesReceived, bytesSent := false, 0, 0;
    }

    method UpdateInterrupt()
      requires Valid()
      modifies this`asserted, this`irqPin
      ensures Valid() && Now() == old(Refresh(Now()))
    {
      var rxCount := ring.GetCount();
      var shouldAssert := rxCount >= threshold;
      if asserted != shouldAssert {
        asserted := shouldAssert;
        irqPin := 1;
      }
    }

    /** The ground thread's locked section. */
    method CommitDatagram(data: seq<byte>)
      requires Valid()
      modifies this, ring, ring.buffer
      ensures Valid() && Now() == old(Ingest(Now(), data))
    {
      var written := ring.Write(data);
      bytesReceived := Wrap32(bytesReceived + |data|);
      UpdateInterrupt();
    }

    method TakeSnapshot()
      requires Valid()
      modifies this`hk
      ensures Valid() && Now() == old(Snapshot(Now()))
    {
      hk := hk.(inRxBuffer := ring.GetCount());
      hk := hk.(received := bytesReceived);
      hk := hk.(sent := bytesSent);
    }

    /** Writes a 32-bit value, most significant octet first. */
    method PutWord(response: array<byte>, at: nat, n: uint32)
      requires at + 4 <= response.Length
      modifies response
      ensures response[..] == Overwritten(old(response[..]), at, Octets32(n))
    {
      var high: uint16, low: uint16 := n / 0x1_0000, n % 0x1_0000;
      response[at] := High(high);
      response[at + 1] := Low(high);
      response[at + 2] := High(low);
      response[at + 3] := Low(low);
    }

    method PutFields(response: array<byte>)
      requires response.Length == HK_SIZE
      modifies response
      ensures response[..9] == [HEADER, High(hk.counter), Low(hk.counter), hk.mode, hk.groundLock,
                                hk.rxSpeed, hk.rxWavelength, hk.txSpeed, hk.txWavelength]
    {
      response[0] := HEADER;
      response[1] := High(hk.counter);
      response[2] := Low(hk.counter);
      response[3] := hk.mode;
      response[4] := hk.groundLock;
      response[5] := hk.rxSpeed;
      response[6] := hk.rxWavelength;
      response[7] := hk.txSpeed;
      response[8] := hk.txWavelength;
    }

    method SendHousekeeping() returns (reply: seq<byte>)
      requires Valid()
      ensures reply == HkReply(Now())
    {
      var response := new byte[HK_SIZE];
      PutFields(response);
      ghost var fields := response[..9];
      var rxCount := ring.GetCount();
      PutWord(response, 9, rxCount);
      assert response[..13] == fields + Octets32(rxCount);
      PutWord(response, 13, hk.received);
      assert response[..17] == fields + Octets32(rxCount) + Octets32(hk.received);
      PutWord(response, 17, hk.sent);
      assert response[..21] == fields + Octets32(rxCount) + Octets32(hk.received) + Octets32(hk.sent);
      response[21] := TRAILER;
      reply := response[..];
      assert reply == response[..21] + [TRAILER];
    }

    /** What follows the snapshot of a housekeeping request. */
    method FinishHkRequest() returns (reply: seq<byte>)
      requires Valid()
      modifies this`hk
      ensures Valid() && Now() == old(CountCommand(Now()))
      ensures reply == old(HkReply(Now()))
    {
      reply := SendHousekeeping();
      hk := hk.(counter := Wrap16(hk.counter + 1));
    }

    method SetConfiguration(payload: seq<byte>)
      requires Valid() && |payload| == CFG_PAYLOAD_SIZE
      modifies this`config, this`hk
      ensures Valid() && Now() == old(Configure(Now(), payload))
    {
      config := config.(mode := payload[0]);
      config := config.(rxSpeed := payload[1]);
      config := config.(rxWavelength := payload[2]);
      config := config.(txSpeed := payload[3]);
      config := config.(txWavelength := payload[4]);
      hk := hk.(mode := config.mode, rxSpeed := config.rxSpeed, rxWavelength := config.rxWavelength,
                txSpeed := config.txSpeed, txWavelength := config.txWavelength);
    }

    /** Frames `toSend` queued bytes in a zeroed buffer; what follows the frame stays zero. */
    method BuildReply(txBuf: array<byte>, toSend: uint16)
      requires Valid() && toSend <= |Now().queue|
      requires toSend + 4 <= txBuf.Length && txBuf != ring.buffer
      requires forall i :: 0 <= i < txBuf.Length ==> txBuf[i] == 0
      modifies txBuf, ring`tail
      ensures Valid() && Now() == old(Now().(queue := Now().queue[toSend..]))
      ensures txBuf[..] == FramedPayload(old(Now().queue[..toSend])) + Zeros(txBuf.Length - toSend - 4)
    {
      ghost var q := Now().queue[..toSend];
      txBuf[0] := HEADER;
      txBuf[1] := High(toSend);
      txBuf[2] := Low(toSend);
      assert txBuf[..] == [HEADER, High(toSend), Low(toSend)] + Zeros(txBuf.Length - 3);
      if toSend > 0 {
        var count := ring.Read(txBuf, 3, toSend);
        if count != toSend {
          assert false; // the count was taken under the same lock
        }
      }
      assert txBuf[..] == [HEADER, High(toSend), Low(toSend)] + q + Zeros(txBuf.Length - 3 - toSend);
      txBuf[3 + toSend] := TRAILER;
    }

    /** Sends the first `requested + 4` bytes of the reply buffer. */
    method AnswerReceive(requested: uint16) returns (reply: seq<byte>)
      requires Valid()
      requires requested + 4 <= REPLY_BUFFER_SIZE
      modifies this`hk, ring`tail
      ensures Valid() && (Now(), reply) == old(ReadOut(Now(), requested))
    {
      ghost var r := Now();
      var available := ring.GetCount();
      var toSend: uint16 := if available > requested then requested else available;
      var txBuf := new byte[REPLY_BUFFER_SIZE](_ => 0);
      BuildReply(txBuf, toSend);
      reply := txBuf[..requested + 4];
      assert reply == FramedPayload(r.queue[..toSend]) + Zeros(requested - toSend);
      hk := hk.(sent := Wrap32(hk.sent + toSend));
    }

    method ForwardToGround(payload: seq<byte>, sent: int)
      requires Valid()
      modifies this`hk, this`bytesSent
      ensures Valid() && Now() == old(Forward(Now(), |payload|, sent))
    {
      hk := hk.(received := Wrap32(hk.received + |payload|));
      if config.mode == MODE_TX || config.mode == MODE_DUPLEX {
        if sent > 0 {
          bytesSent := Wrap32(bytesSent + sent);
          hk := hk.(sent := Wrap32(hk.sent + sent));
        }
      }
    }

    /** The checks on a powered radio's command, in the order the code makes them. */
    method ParseSpi(data: seq<byte>) returns (parsed: Parsed)
      requires |data| >= 5
      ensures parsed == ParseCommand(data)
    {
      var command := data[1];
      var payloadLen: int := Be16(data[2], data[3]);
      if data[0] != HEADER {
        return Parsed.BadHeader;
      }
      var expectedLen := 5 + payloadLen;
      if |data| < expectedLen {
        return Truncated;
      }
      var trailer := data[expectedLen - 1];
      if trailer != TRAILER {
        return BadTrailer;
      }
      return Command(command, data[4..4 + payloadLen]);
    }

    /** The handler; `sent` is what the ground socket would return for a forwarded payload. */
    method HandleSpiCommand(data: seq<byte>, sent: int) returns (response: Response)
      requires Valid() && FitsReplyBuffer(data)
      modifies this`hk, this`config, this`bytesSent, ring`tail
      ensures Valid() && (Now(), response) == old(Handle(Now(), data, sent))
    {
      if |data| < 5 {
        return Ignored;
      }
      if power == 0 {
        return Ignored;
      }
      var parsed := ParseSpi(data);
      if !parsed.Command? {
        return Ignored;
      }
      response := Dispatch(parsed.code, parsed.payload, sent);
      if !response.HkDue? {
        hk := hk.(counter := Wrap16(hk.counter + 1));
      }
    }

    method Dispatch(command: byte, payload: seq<byte>, sent: int) returns (response: Response)
      requires Valid()
      requires command == RECEIVE_CMD && |payload| == 2 ==> Be16(payload[0], payload[1]) + 4 <= REPLY_BUFFER_SIZE
      modifies this`hk, this`config, this`bytesSent, ring`tail
      ensures Valid() && (Now(), response) == old(Execute(Now(), command, payload, sent))
    {
      response := Accepted;
      if command == REQ_HK_CMD {
        TakeSnapshot();
        response := HkDue;
      } else if command == SET_CFG_CMD {
        if |payload| == CFG_PAYLOAD_SIZE {
          SetConfiguration(payload);
        }
      } else if command == RECEIVE_CMD {
        if |payload| == 2 {
          var reply := AnswerReceive(Be16(payload[0], payload[1]));
          response := Reply(reply);
        }
      } else if command == SEND_CMD {
        if |payload| > 0 {
          if config.mode == MODE_TX || config.mode == MODE_DUPLEX {
            response := ToGround(payload, sent);
          }
          ForwardToGround(payload, sent);
        }
      }
    }

    /** Power-off, the locked part. */
    method FlushBuffers()
      requires Valid()
      modifies this`asserted, ring
      ensures Valid() && Now() == old(Flush(Now()))
    {
      ring.Flush();
      asserted := false;
    }

    /** Power-off, the unlocked part that follows. */
    method ClearConfiguration()
      requires Valid()
      modifies this`irqPin, this`config, this`hk
      ensures Valid() && Now() == old(ClearConfig(Now()))
    {
      irqPin := 0;
      config := NO_CONFIG;
      hk := hk.(mode := MODE_SLEEP);
    }
  }
}

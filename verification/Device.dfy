/** The flight side of the SPI link (shared/radio_device.c): buffers are filled and checked in place. */
module Device {
  import opened Bytes
  import opened Protocol

  datatype Status = Success | Error

  /**
   What the SPI driver does during one exchange: the value its write returns, and the bytes its
   read brings back (none when the read returns an error).
   */
  datatype SpiAnswer = SpiAnswer(written: int, read: seq<byte>)

  /** A read of `n` bytes never returns more than `n`. */
  function SpiRead(spi: SpiAnswer, n: nat): seq<byte> {
    if |spi.read| <= n then spi.read else spi.read[..n]
  }

  method ReadInto(spi: SpiAnswer, buffer: array<byte>, n: nat) returns (got: nat)
    requires n <= buffer.Length
    modifies buffer
    ensures got <= n && buffer[..got] == SpiRead(spi, n)
  {
    var arrived := SpiRead(spi, n);
    got := |arrived|;
    forall i | 0 <= i < got {
      buffer[i] := arrived[i];
    }
  }

  const TX_BUFFER_SIZE := 2048
  const RX_BUFFER_SIZE := 2048
  const LARGEST_PAYLOAD: uint16 := 2043

  /** `wire` is what is handed to the SPI write; nothing is written for an oversized payload. */
  method CommandDevice(cmd: byte, payloadLength: uint16, payload: array?<byte>, written: int)
    returns (status: Status, wire: seq<byte>)
    requires payload != null ==> payloadLength <= payload.Length
    ensures payloadLength > LARGEST_PAYLOAD ==> status == Error && wire == []
    ensures payloadLength <= LARGEST_PAYLOAD ==>
              && (status == Success <==> written == |wire|)
              && |wire| == 5 + payloadLength
              && wire == EncodeCommand(cmd, wire[4..4 + payloadLength])
    ensures payloadLength <= LARGEST_PAYLOAD && payload != null ==>
              wire == EncodeCommand(cmd, payload[..payloadLength])
    ensures payloadLength == 0 ==> wire == EncodeCommand(cmd, [])
  {
    var txBuffer := new byte[TX_BUFFER_SIZE];
    if payloadLength > TX_BUFFER_SIZE - 5 {
      return Error, [];
    }
    txBuffer[0] := HEADER;
    txBuffer[1] := cmd;
    txBuffer[2] := High(payloadLength);
    txBuffer[3] := Low(payloadLength);
    if payloadLength > 0 && payload != null {
      forall i | 0 <= i < payloadLength {
        txBuffer[4 + i] := payload[i];
      }
    }
    txBuffer[4 + payloadLength] := TRAILER;
    var totalLength := 5 + payloadLength;
    wire := txBuffer[..totalLength];
    status := if written == totalLength then Success else Error;

    ghost var sent := txBuffer[4..4 + payloadLength];
    assert wire == EncodeCommand(cmd, sent);
    assert wire[4..4 + payloadLength] == sent;
    if payload != null {
      assert forall i :: 0 <= i < payloadLength ==> sent[i] == payload[i];
      assert sent == payload[..payloadLength];
    }
  }

  // ---------------------------------------------------------------- receive

  function ReceiveRequest(maxLength: uint16): (wire: seq<byte>)
    ensures |wire| == 7
  {
    EncodeCommand(RECEIVE_CMD, [High(maxLength), Low(maxLength)])
  }

  /** The whole exchange as a function of what the driver did. */
  function Exchange(maxLength: uint16, spi: SpiAnswer): Received {
    if spi.written != 7 then Failure // not all of the request's octets
    else DecodeReply(SpiRead(spi, maxLength + 4), maxLength)
  }

  /** The checks on a reply, in the order the code makes them. */
  method CheckReply(rxBuffer: array<byte>, bytesRead: nat, maxLength: uint16)
    returns (status: Status, responseLength: uint16)
    requires bytesRead <= rxBuffer.Length
    ensures status == Success <==> DecodeReply(rxBuffer[..bytesRead], maxLength).Data?
    ensures status == Success ==>
              && 3 + responseLength < bytesRead
              && responseLength <= maxLength
              && DecodeReply(rxBuffer[..bytesRead], maxLength).bytes == rxBuffer[3..3 + responseLength]
  {
    if bytesRead < 4 {
      return Error, 0;
    }
    if rxBuffer[0] != HEADER {
      return Error, 0;
    }
    responseLength := Be16(rxBuffer[1], rxBuffer[2]);
    if responseLength > maxLength {
      return Error, 0;
    }
    var trailerIndex := 3 + responseLength;
    if bytesRead <= trailerIndex {
      return Error, 0;
    }
    if rxBuffer[trailerIndex] != TRAILER {
      return Error, 0;
    }
    status := Success;
    assert rxBuffer[..bytesRead][3..3 + responseLength] == rxBuffer[3..3 + responseLength];
  }

  method CopyPayload(rxBuffer: array<byte>, length: nat, data: array<byte>, base: nat)
    requires 3 + length <= rxBuffer.Length && base + length <= data.Length
    requires rxBuffer != data
    modifies data
    ensures data[..] == old(data[..base]) + rxBuffer[3..3 + length] + old(data[base + length..])
  {
    forall i | 0 <= i < length {
      data[base + i] := rxBuffer[3 + i];
    }
  }

  /**
   On success the payload lands at `data[base..]`, no other byte changes and its length is returned;
   on failure nothing changes.
   */
  method ReceiveData(data: array<byte>, base: nat, maxLength: uint16, spi: SpiAnswer)
    returns (status: Status, actualLength: uint16, wire: seq<byte>)
    requires base + maxLength <= data.Length
    requires maxLength + 4 <= RX_BUFFER_SIZE
    modifies data
    ensures wire == ReceiveRequest(maxLength)
    ensures status == Success <==> Exchange(maxLength, spi).Data?
    ensures status == Error ==> data[..] == old(data[..]) && actualLength == 0
    ensures status == Success ==>
              var payload := Exchange(maxLength, spi).bytes;
              && actualLength == |payload| <= maxLength
              && data[..] == old(data[..base]) + payload + old(data[base + |payload|..])
  {
    var payload := new byte[2];
    actualLength := 0;
    payload[0] := High(maxLength);
    payload[1] := Low(maxLength);
    assert payload[..2] == [High(maxLength), Low(maxLength)];
    status, wire := CommandDevice(RECEIVE_CMD, 2, payload, spi.written);
    if status != Success {
      return;
    }

    var rxBuffer := new byte[RX_BUFFER_SIZE];
    var bytesRead := ReadInto(spi, rxBuffer, maxLength + 4);
    var responseLength;
    status, responseLength := CheckReply(rxBuffer, bytesRead, maxLength);
    if status != Success {
      return;
    }
    CopyPayload(rxBuffer, responseLength, data, base);
    actualLength := responseLength;
  }

  // ---------------------------------------------------------------- the other exchanges

  method ParseHk(rxBuffer: array<byte>) returns (result: HkResult)
    requires rxBuffer.Length == HK_SIZE
    ensures result == DecodeHk(rxBuffer[..])
  {
    if rxBuffer[0] != HEADER || rxBuffer[HK_SIZE - 1] != TRAILER {
      return HkFailure;
    }
    var counter := Be16(rxBuffer[1], rxBuffer[2]);
    var inRxBuffer := Be32(rxBuffer[9], rxBuffer[10], rxBuffer[11], rxBuffer[12]);
    var received := Be32(rxBuffer[13], rxBuffer[14], rxBuffer[15], rxBuffer[16]);
    var sent := Be32(rxBuffer[17], rxBuffer[18], rxBuffer[19], rxBuffer[20]);
    result := Hk(Housekeeping(
      counter,
      rxBuffer[3], rxBuffer[4], rxBuffer[5], rxBuffer[6], rxBuffer[7], rxBuffer[8],
      inRxBuffer, received, sent));
  }

  method RequestHk(spi: SpiAnswer) returns (result: HkResult, wire: seq<byte>)
    ensures wire == EncodeCommand(REQ_HK_CMD, [])
    ensures result == if spi.written == |wire| then DecodeHk(SpiRead(spi, HK_SIZE)) else HkFailure
  {
    var status;
    status, wire := CommandDevice(REQ_HK_CMD, 0, null, spi.written);
    if status != Success {
      return HkFailure, wire;
    }
    var rxBuffer := new byte[HK_SIZE];
    var bytesRead := ReadInto(spi, rxBuffer, HK_SIZE);
    if bytesRead != HK_SIZE {
      return HkFailure, wire;
    }
    result := ParseHk(rxBuffer);
  }

  method SendData(data: array<byte>, dataLength: uint16, written: int)
    returns (status: Status, wire: seq<byte>)
    requires dataLength <= data.Length
    ensures dataLength > LARGEST_PAYLOAD ==> status == Error && wire == []
    ensures dataLength <= LARGEST_PAYLOAD ==>
              && wire == EncodeCommand(SEND_CMD, data[..dataLength])
              && (status == Success <==> written == |wire|)
  {
    status, wire := CommandDevice(SEND_CMD, dataLength, data, written);
  }
}

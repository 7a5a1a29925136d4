/**
 The radio's SPI wire protocol: commands, receive replies and housekeeping replies, each as
 the printer of one side and the parser of the other, with the theorems that they agree.
 */
module Protocol {
  import opened Bytes

  const HEADER: byte := 0xAA
  const TRAILER: byte := 0x11

  const NOOP_CMD: byte := 0x00
  const REQ_HK_CMD: byte := 0x01
  const SET_CFG_CMD: byte := 0x02
  const RECEIVE_CMD: byte := 0x03
  const SEND_CMD: byte := 0x04

  const MODE_SLEEP: byte := 0
  const MODE_TX: byte := 1
  const MODE_RX: byte := 2
  const MODE_DUPLEX: byte := 3

  const CFG_PAYLOAD_SIZE := 5
  const HK_SIZE := 22

  // ---------------------------------------------------------------- commands

  /** The bytes the flight side puts on the wire for a command. */
  function EncodeCommand(code: byte, payload: seq<byte>): seq<byte>
    requires |payload| < 0x1_0000
  {
    [HEADER, code, High(|payload|), Low(|payload|)] + payload + [TRAILER]
  }

  /** The octets, spelled out: 0xAA, the code, the length most significant octet first, the payload, 0x11. */
  lemma CommandOctets(code: byte, payload: seq<byte>)
    requires |payload| < 0x1_0000
    ensures var w := EncodeCommand(code, payload);
            && |w| == |payload| + 5
            && w[0] == 0xAA && w[1] == code && 256 * (w[2] as int) + w[3] == |payload|
            && w[4..4 + |payload|] == payload && w[4 + |payload|] == 0x11
  {
    Halves(|payload|, 0, 0);
  }

  datatype Parsed = TooShort | BadHeader | Truncated | BadTrailer | Command(code: byte, payload: seq<byte>)

  /** What the simulated radio makes of a byte string; anything after the trailer is ignored. */
  function ParseCommand(data: seq<byte>): Parsed {
    if |data| < 5 then TooShort
    else if data[0] != HEADER then BadHeader
    else
      var size := Be16(data[2], data[3]);
      if |data| < 5 + size then Truncated
      else if data[4 + size] != TRAILER then BadTrailer
      else Command(data[1], data[4..4 + size])
  }

  lemma FrameParsed(code: byte, hi: byte, lo: byte, payload: seq<byte>, rest: seq<byte>)
    requires Be16(hi, lo) == |payload|
    ensures ParseCommand([HEADER, code, hi, lo] + payload + [TRAILER] + rest) == Command(code, payload)
  {
    var data := [HEADER, code, hi, lo] + payload + [TRAILER] + rest;
    assert data[4..4 + |payload|] == payload;
  }

  lemma CommandRoundTrip(code: byte, payload: seq<byte>, rest: seq<byte>)
    requires |payload| < 0x1_0000
    ensures ParseCommand(EncodeCommand(code, payload) + rest) == Command(code, payload)
  {
    var hi, lo := High(|payload|), Low(|payload|);
    Halves(|payload|, 0, 0);
    FrameParsed(code, hi, lo, payload, rest);
  }

  lemma AcceptedShape(data: seq<byte>)
    requires ParseCommand(data).Command?
    ensures var c := ParseCommand(data);
            && |data| >= 5 + |c.payload|
            && |c.payload| == Be16(data[2], data[3])
            && data[..5 + |c.payload|] == [HEADER, c.code, data[2], data[3]] + c.payload + [TRAILER]
  {
    var n := |ParseCommand(data).payload|;
    assert data[..5 + n] == data[..4] + data[4..4 + n] + [data[4 + n]];
  }

  lemma ParsedIsEncoded(data: seq<byte>)
    requires ParseCommand(data).Command?
    ensures var c := ParseCommand(data);
            |c.payload| < 0x1_0000 && EncodeCommand(c.code, c.payload) <= data
  {
    AcceptedShape(data);
    HalvesOf(|ParseCommand(data).payload|, data[2], data[3]);
  }

  /** A byte string is accepted exactly when some command's encoding is a prefix of it. */
  lemma AcceptedExactlyEncodings(data: seq<byte>)
    ensures ParseCommand(data).Command? <==>
            exists code, payload :: |payload| < 0x1_0000 && EncodeCommand(code, payload) <= data
  {
    if ParseCommand(data).Command? {
      ParsedIsEncoded(data);
    }
    if code, payload :| |payload| < 0x1_0000 && EncodeCommand(code, payload) <= data {
      var e := EncodeCommand(code, payload);
      CommandRoundTrip(code, payload, data[|e|..]);
      assert data == e + data[|e|..];
    }
  }

  lemma PrefixParses(code: byte, payload: seq<byte>, data: seq<byte>)
    requires |payload| < 0x1_0000 && EncodeCommand(code, payload) <= data
    ensures ParseCommand(data) == Command(code, payload)
  {
    var e := EncodeCommand(code, payload);
    CommandRoundTrip(code, payload, data[|e|..]);
    assert data == e + data[|e|..];
  }

  /** No encoding is a proper prefix of another, and the encoding is injective. */
  lemma SelfDelimiting(code: byte, payload: seq<byte>, code': byte, payload': seq<byte>)
    requires |payload| < 0x1_0000 && |payload'| < 0x1_0000
    requires EncodeCommand(code, payload) <= EncodeCommand(code', payload')
    ensures code == code' && payload == payload'
  {
    var e, e' := EncodeCommand(code, payload), EncodeCommand(code', payload');
    CommandRoundTrip(code, payload, e'[|e|..]);
    assert e' == e + e'[|e|..];
    CommandRoundTrip(code', payload', []);
    assert e' + [] == e';
  }

  // ---------------------------------------------------------------- receive replies

  /** The radio's answer to a receive request: framed payload, then zeros up to the request. */
  function EncodeReply(payload: seq<byte>, requested: uint16): (reply: seq<byte>)
    requires |payload| <= requested
    ensures |reply| == requested + 4
  {
    [HEADER, High(|payload|), Low(|payload|)] + payload + [TRAILER] + Zeros(requested - |payload|)
  }

  lemma ReplyOctets(payload: seq<byte>, requested: uint16)
    requires |payload| <= requested
    ensures var w := EncodeReply(payload, requested);
            && w[0] == 0xAA && 256 * (w[1] as int) + w[2] == |payload|
            && w[3..3 + |payload|] == payload && w[3 + |payload|] == 0x11
            && forall i :: 4 + |payload| <= i < |w| ==> w[i] == 0
  {
    Halves(|payload|, 0, 0);
  }

  datatype Received = Failure | Data(bytes: seq<byte>)

  /** The flight side's reading of the bytes an SPI read brought back. */
  function DecodeReply(bytes: seq<byte>, maxLength: uint16): Received {
    if |bytes| < 4 || bytes[0] != HEADER then Failure
    else
      var size := Be16(bytes[1], bytes[2]);
      if size > maxLength || |bytes| <= 3 + size || bytes[3 + size] != TRAILER then Failure
      else Data(bytes[3..3 + size])
  }

  lemma FrameDecoded(hi: byte, lo: byte, payload: seq<byte>, rest: seq<byte>, maxLength: uint16)
    requires Be16(hi, lo) == |payload| <= maxLength
    ensures DecodeReply([HEADER, hi, lo] + payload + [TRAILER] + rest, maxLength) == Data(payload)
  {
    var bytes := [HEADER, hi, lo] + payload + [TRAILER] + rest;
    assert bytes[3..3 + |payload|] == payload;
  }

  lemma ReplyRoundTrip(payload: seq<byte>, requested: uint16)
    requires |payload| <= requested
    ensures DecodeReply(EncodeReply(payload, requested), requested) == Data(payload)
  {
    var hi, lo := High(|payload|), Low(|payload|);
    Halves(|payload|, 0, 0);
    FrameDecoded(hi, lo, payload, Zeros(requested - |payload|), requested);
  }

  function FramedPayload(payload: seq<byte>): seq<byte>
    requires |payload| < 0x1_0000
  {
    [HEADER, High(|payload|), Low(|payload|)] + payload + [TRAILER]
  }

  /** A reply is accepted, with a given payload, exactly when it starts with that payload's frame. */
  lemma ReplyAcceptedExactly(bytes: seq<byte>, maxLength: uint16, payload: seq<byte>)
    ensures DecodeReply(bytes, maxLength) == Data(payload) <==>
            |payload| <= maxLength && FramedPayload(payload) <= bytes
  {
  }

  // ---------------------------------------------------------------- housekeeping

  datatype Housekeeping = Housekeeping(
    counter: uint16,
    mode: byte,
    groundLock: byte,
    rxSpeed: byte,
    rxWavelength: byte,
    txSpeed: byte,
    txWavelength: byte,
    inRxBuffer: uint32,
    received: uint32,
    sent: uint32)

  function EncodeHk(hk: Housekeeping): (reply: seq<byte>)
    ensures |reply| == HK_SIZE
  {
    [HEADER, High(hk.counter), Low(hk.counter),
     hk.mode, hk.groundLock, hk.rxSpeed, hk.rxWavelength, hk.txSpeed, hk.txWavelength]
    + Octets32(hk.inRxBuffer) + Octets32(hk.received) + Octets32(hk.sent) + [TRAILER]
  }

  function Number32(a: int, b: int, c: int, d: int): int { ((a * 256 + b) * 256 + c) * 256 + d }

  /** The fields at their places, each most significant octet first. */
  lemma HkOctets(hk: Housekeeping)
    ensures var w := EncodeHk(hk);
            && w[0] == 0xAA && w[21] == 0x11
            && 256 * (w[1] as int) + w[2] == hk.counter
            && w[3] == hk.mode && w[4] == hk.groundLock
            && w[5] == hk.rxSpeed && w[6] == hk.rxWavelength && w[7] == hk.txSpeed && w[8] == hk.txWavelength
            && Number32(w[9], w[10], w[11], w[12]) == hk.inRxBuffer
            && Number32(w[13], w[14], w[15], w[16]) == hk.received
            && Number32(w[17], w[18], w[19], w[20]) == hk.sent
  {
    Halves(hk.counter, 0, 0);
    Octets32Decoded(hk.inRxBuffer);
    Octets32Decoded(hk.received);
    Octets32Decoded(hk.sent);
  }

  datatype HkResult = HkFailure | Hk(hk: Housekeeping)

  function DecodeHk(b: seq<byte>): HkResult {
    if |b| != HK_SIZE || b[0] != HEADER || b[HK_SIZE - 1] != TRAILER then HkFailure
    else Hk(Housekeeping(Be16(b[1], b[2]), b[3], b[4], b[5], b[6], b[7], b[8],
                         Be32(b[9], b[10], b[11], b[12]),
                         Be32(b[13], b[14], b[15], b[16]),
                         Be32(b[17], b[18], b[19], b[20])))
  }

  lemma HkRoundTrip(hk: Housekeeping)
    ensures DecodeHk(EncodeHk(hk)) == Hk(hk)
  {
    Halves(hk.counter, 0, 0);
    Octets32Decoded(hk.inRxBuffer);
    Octets32Decoded(hk.received);
    Octets32Decoded(hk.sent);
  }

  lemma FieldsOf(b: seq<byte>)
    requires |b| == HK_SIZE
    ensures b == [b[0], b[1], b[2], b[3], b[4], b[5], b[6], b[7], b[8]]
                 + [b[9], b[10], b[11], b[12]] + [b[13], b[14], b[15], b[16]]
                 + [b[17], b[18], b[19], b[20]] + [b[21]]
  {
  }

  /** Conversely, an accepted reply is, octet by octet, the encoding of what was read from it: none is ignored. */
  lemma HkDecodedIsEncoded(b: seq<byte>, i: nat)
    requires DecodeHk(b).Hk? && i < HK_SIZE
    ensures EncodeHk(DecodeHk(b).hk)[i] == b[i]
  {
    var hk := DecodeHk(b).hk;
    Halves(0, b[1], b[2]);
    Octets32Encoded(hk.inRxBuffer, b[9], b[10], b[11], b[12]);
    Octets32Encoded(hk.received, b[13], b[14], b[15], b[16]);
    Octets32Encoded(hk.sent, b[17], b[18], b[19], b[20]);
    FieldsOf(b);
  }
}

/**
 The simulated radio as a value: its state with the receive buffer seen as a queue, and each
 atomic section of sim/radio_sim.c as a function on it.
 */
module Radio {
  import opened Bytes
  import opened Protocol

  const REPLY_BUFFER_SIZE := 4096

  datatype Config = Config(mode: byte, rxSpeed: byte, rxWavelength: byte, txSpeed: byte, txWavelength: byte)

  const NO_CONFIG := Config(0, 0, 0, 0, 0)

  datatype State = State(
    capacity: nat,         // RADIO_SIM_RX_BUFFER_SIZE; one slot stays free
    threshold: nat,        // RADIO_SIM_INTERRUPT_THRESHOLD
    power: byte,           // power GPIO level
    irqPin: byte,          // interrupt GPIO level
    config: Config,
    hk: Housekeeping,
    queue: seq<byte>,
    asserted: bool,
    bytesReceived: uint32,
    bytesSent: uint32)
  {
    predicate Valid() { |queue| < capacity < 0x1_0000_0000 }

    function Room(): nat
      requires Valid()
    {
      capacity - 1 - |queue|
    }

    predicate Listening() { power != 0 && (config.mode == MODE_RX || config.mode == MODE_DUPLEX) }

    predicate Transmitting() { config.mode == MODE_TX || config.mode == MODE_DUPLEX }
  }

  function Initial(capacity: nat, threshold: nat, power: byte, irqPin: byte): State {
    State(capacity, threshold, power, irqPin,
          NO_CONFIG.(mode := MODE_DUPLEX),
          Housekeeping(0, MODE_DUPLEX, 0, 0, 0, 0, 0, 0, 0, 0),
          [], false, 0, 0)
  }

  /** The interrupt update: the pin is driven high on either edge of the flag. */
  function Refresh(r: State): State {
    var should := |r.queue| >= r.threshold;
    if r.asserted != should then r.(asserted := should, irqPin := 1) else r
  }

  function Stored(r: State, data: seq<byte>): nat
    requires r.Valid()
  {
    Min(|data|, r.Room())
  }

  /** The locked section of the ground thread for one datagram. */
  function Ingest(r: State, data: seq<byte>): (r': State)
    requires r.Valid()
    ensures r'.Valid()
  {
    Refresh(r.(queue := r.queue + data[..Stored(r, data)],
               bytesReceived := Wrap32(r.bytesReceived + |data|)))
  }

  function Snapshot(r: State): State
    requires r.Valid()
  {
    r.(hk := r.hk.(inRxBuffer := |r.queue|, received := r.bytesReceived, sent := r.bytesSent))
  }

  /** The reply is built outside the lock, and its buffer count is read afresh. */
  function HkReply(r: State): seq<byte>
    requires r.Valid()
  {
    EncodeHk(r.hk.(inRxBuffer := |r.queue|))
  }

  function CountCommand(r: State): State { r.(hk := r.hk.(counter := Wrap16(r.hk.counter + 1))) }

  function Configure(r: State, p: seq<byte>): State
    requires |p| == CFG_PAYLOAD_SIZE
  {
    r.(config := Config(p[0], p[1], p[2], p[3], p[4]),
       hk := r.hk.(mode := p[0], rxSpeed := p[1], rxWavelength := p[2], txSpeed := p[3], txWavelength := p[4]))
  }

  function ReadOut(r: State, requested: uint16): (State, seq<byte>) {
    var n: uint16 := Min(requested, |r.queue|);
    (r.(queue := r.queue[n..], hk := r.hk.(sent := Wrap32(r.hk.sent + n))),
     EncodeReply(r.queue[..n], requested))
  }

  /** `sent` is what the socket call returned. */
  function Forward(r: State, size: nat, sent: int): State {
    var counted := r.(hk := r.hk.(received := Wrap32(r.hk.received + size)));
    if r.Transmitting() && sent > 0 then
      counted.(bytesSent := Wrap32(r.bytesSent + sent), hk := counted.hk.(sent := Wrap32(r.hk.sent + sent)))
    else counted
  }

  datatype Response =
    | Ignored                          // the command was not accepted
    | Accepted                         // no answer
    | HkDue                            // snapshot taken, reply and count still to come
    | Reply(bytes: seq<byte>)
    | ToGround(bytes: seq<byte>, sent: int)

  /** A receive request must leave room for its frame in the reply buffer. */
  predicate FitsReplyBuffer(data: seq<byte>) {
    var c := ParseCommand(data);
    c.Command? && c.code == RECEIVE_CMD && |c.payload| == 2 ==>
      Be16(c.payload[0], c.payload[1]) + 4 <= REPLY_BUFFER_SIZE
  }

  /** What an accepted command does, before it is counted. */
  function Execute(r: State, code: byte, p: seq<byte>, sent: int): (State, Response)
    requires r.Valid()
  {
    if code == REQ_HK_CMD then (Snapshot(r), HkDue)
    else if code == SET_CFG_CMD && |p| == CFG_PAYLOAD_SIZE then (Configure(r, p), Accepted)
    else if code == RECEIVE_CMD && |p| == 2 then
      var (r', reply) := ReadOut(r, Be16(p[0], p[1]));
      (r', Reply(reply))
    else if code == SEND_CMD && |p| > 0 then
      (Forward(r, |p|, sent), if r.Transmitting() then ToGround(p, sent) else Accepted)
    else (r, Accepted)
  }

  function Handle(r: State, data: seq<byte>, sent: int): (State, Response)
    requires r.Valid()
  {
    if r.power == 0 then (r, Ignored)
    else
      match ParseCommand(data)
      case Command(code, payload) =>
        var (r', response) := Execute(r, code, payload, sent);
        (if response.HkDue? then r' else CountCommand(r'), response)
      case _ => (r, Ignored)
  }

  function Flush(r: State): State { r.(queue := [], asserted := false) }

  /** After the flush, outside the lock: only the mode mirror of the housekeeping is cleared. */
  function ClearConfig(r: State): State {
    r.(irqPin := 0, config := NO_CONFIG, hk := r.hk.(mode := MODE_SLEEP))
  }

  // ---------------------------------------------------------------- the two ends of a receive

  /**
   What the radio answers to a receive request, the flight side reads as exactly the first
   min(requested, available) queued bytes, and the queue loses exactly those.
   */
  lemma ReceiveRoundTrip(r: State, requested: uint16)
    ensures var (r', reply) := ReadOut(r, requested);
            var n := Min(requested, |r.queue|);
            && DecodeReply(reply, requested) == Data(r.queue[..n])
            && r.queue == r.queue[..n] + r'.queue
            && |reply| == requested + 4
  {
    var n: uint16 := Min(requested, |r.queue|);
    assert ReadOut(r, requested).1 == EncodeReply(r.queue[..n], requested);
    assert r.queue == r.queue[..n] + ReadOut(r, requested).0.queue;
    ReplyRoundTrip(r.queue[..n], requested);
  }
}

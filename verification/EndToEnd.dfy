/**
 The whole uplink: ground datagrams, the radio's ring, the SPI exchange, the flight buffer, frames
 and packets, over every interleaving of the radio's two threads with the flight side's receives.
 */
module EndToEnd {
  import opened Bytes
  import opened Protocol
  import opened Device
  import opened Uplink
  import Radio
  import opened Schedules
  import opened Simulator

  // ---------------------------------------------------------------- one receive over the link

  /** The SPI driver's part when the radio answers, or does not. */
  function AnswerFrom(response: Radio.Response): SpiAnswer {
    SpiAnswer(7, if response.Reply? then response.bytes else [])
  }

  lemma RequestParses(m: uint16)
    requires m + 4 <= RX_BUFFER_SIZE
    ensures ParseCommand(ReceiveRequest(m)) == Command(RECEIVE_CMD, [High(m), Low(m)])
    ensures Be16(High(m), Low(m)) == m
    ensures Radio.FitsReplyBuffer(ReceiveRequest(m))
  {
    Halves(m, 0, 0);
    CommandRoundTrip(RECEIVE_CMD, [High(m), Low(m)], []);
    assert ReceiveRequest(m) + [] == ReceiveRequest(m);
  }

  lemma HandleParsed(r: Radio.State, data: seq<byte>, hi: byte, lo: byte)
    requires r.Valid() && ParseCommand(data) == Command(RECEIVE_CMD, [hi, lo])
    ensures var (r', response) := Radio.Handle(r, data, 0);
            if r.power == 0 then r' == r && response == Radio.Ignored
            else
              && r' == Radio.CountCommand(Radio.ReadOut(r, Be16(hi, lo)).0)
              && response == Radio.Reply(Radio.ReadOut(r, Be16(hi, lo)).1)
  {
  }

  lemma HandleRequest(r: Radio.State, m: uint16)
    requires r.Valid() && m + 4 <= RX_BUFFER_SIZE
    ensures var (r', response) := Radio.Handle(r, ReceiveRequest(m), 0);
            if r.power == 0 then r' == r && response == Radio.Ignored
            else r' == Radio.CountCommand(Radio.ReadOut(r, m).0) && response == Radio.Reply(Radio.ReadOut(r, m).1)
  {
    RequestParses(m);
    HandleParsed(r, ReceiveRequest(m), High(m), Low(m));
  }

  /** The bytes a receive brings over when the radio is powered. */
  function Delivered(r: Radio.State, m: uint16): seq<byte> { r.queue[..Min(m, |r.queue|)] }

  lemma ReplyExchanged(r: Radio.State, m: uint16)
    requires m + 4 <= RX_BUFFER_SIZE
    ensures Exchange(m, SpiAnswer(7, Radio.ReadOut(r, m).1)) == Data(Delivered(r, m))
    ensures r.queue == Delivered(r, m) + Radio.ReadOut(r, m).0.queue
  {
    Radio.ReceiveRoundTrip(r, m);
  }

  lemma NothingExchanged(m: uint16)
    ensures Exchange(m, SpiAnswer(7, [])) == Failure
  {
    assert SpiRead(SpiAnswer(7, []), m + 4) == [];
  }

  /** A receive that the radio answers, and one that it does not, told without the wire. */
  lemma ReceiveReply(u: Uplink.State, crypto: Crypto, r: Radio.State, m: uint16)
    requires |u.buffered| + m == BUFFER_SIZE
    ensures Receive(u, crypto, SpiAnswer(7, Radio.ReadOut(r, m).1)) == (Absorb(u, crypto, Delivered(r, m)), true)
  {
    ReplyExchanged(r, m);
  }

  lemma ReceiveNothing(u: Uplink.State, crypto: Crypto)
    requires |u.buffered| <= BUFFER_SIZE
    ensures Receive(u, crypto, SpiAnswer(7, [])) == (u.(log := CountError(u.log)), false)
  {
    NothingExchanged(BUFFER_SIZE - |u.buffered|);
  }

  lemma QueueSplit(r: Radio.State, m: uint16)
    ensures r.queue == Delivered(r, m) + Radio.ReadOut(r, m).0.queue
  {
  }

  /** The two real halves against each other: one receive attempt of the service on the simulator. */
  method AttemptOverLink(app: UplinkService, sim: RadioSim, crypto: Crypto) returns (ok: bool)
    requires app.Valid() && sim.Valid()
    requires app.receiveBuffer != sim.ring.buffer
    modifies app, app.receiveBuffer, sim`hk, sim`config, sim`bytesSent, sim.ring`tail
    ensures app.Valid() && sim.Valid()
    ensures ok <==> sim.power != 0
    ensures sim.power != 0 ==>
              && app.Now() == old(Absorb(app.Now(), crypto, Delivered(sim.Now(), BUFFER_SIZE - app.length)))
              && old(sim.Now().queue) == old(Delivered(sim.Now(), BUFFER_SIZE - app.length)) + sim.Now().queue
    ensures sim.power == 0 ==>
              app.Now().buffered == old(app.Now().buffered) && sim.Now() == old(sim.Now())
  {
    var m: uint16 := BUFFER_SIZE - app.length;
    assert Radio.FitsReplyBuffer(ReceiveRequest(m)) by { RequestParses(m); }
    HandleRequest(sim.Now(), m);
    if sim.power == 0 {
      ReceiveNothing(app.Now(), crypto);
    } else {
      ReceiveReply(app.Now(), crypto, sim.Now(), m);
      QueueSplit(sim.Now(), m);
    }
    var response := sim.HandleSpiCommand(ReceiveRequest(m), 0);
    ok := app.Attempt(AnswerFrom(response), crypto);
  }

  lemma HandleSend(r: Radio.State, data: seq<byte>, payload: seq<byte>, sent: int)
    requires r.Valid() && ParseCommand(data) == Command(SEND_CMD, payload)
    ensures Radio.Handle(r, data, sent) ==
            if r.power == 0 then (r, Radio.Ignored)
            else if payload == [] then (Radio.CountCommand(r), Radio.Accepted)
            else (Radio.CountCommand(Radio.Forward(r, |payload|, sent)),
                  if r.Transmitting() then Radio.ToGround(payload, sent) else Radio.Accepted)
  {
  }

  /**
   The other direction: a frame of up to 2043 bytes sent by the flight side is given to the ground
   socket unchanged exactly when it is not empty and the radio is on and in a transmitting mode.
   */
  lemma SendRoundTrip(r: Radio.State, payload: seq<byte>, sent: int)
    requires r.Valid() && |payload| <= LARGEST_PAYLOAD
    ensures Radio.Handle(r, EncodeCommand(SEND_CMD, payload), sent).1 ==
            if r.power == 0 then Radio.Ignored
            else if payload != [] && r.Transmitting() then Radio.ToGround(payload, sent)
            else Radio.Accepted
  {
    var data := EncodeCommand(SEND_CMD, payload);
    assert ParseCommand(data) == Command(SEND_CMD, payload) by {
      CommandRoundTrip(SEND_CMD, payload, []);
      assert data + [] == data;
    }
    HandleSend(r, data, payload, sent);
  }

  // ---------------------------------------------------------------- the whole system

  /** The radio's two threads and the flight side's uplink service. */
  datatype Node = Node(radio: System, app: Uplink.State)

  /** A step of the radio, or one receive attempt of the flight side, answered within a radio tick. */
  datatype Move = RadioMove(step: Step) | Attempt

  predicate IsReceive(step: Step) {
    step.Spi? && ParseCommand(step.data).Command? && ParseCommand(step.data).code == RECEIVE_CMD
  }

  /** The flight side is the only SPI master, and issues RECEIVE only in its attempts. */
  function RadioStep(n: Node, move: Move): Step {
    match move
    case RadioMove(step) => if IsReceive(step) then Periodic else step
    case Attempt => Spi(ReceiveRequest(Request(n.app)), 0)
  }

  function Request(app: Uplink.State): uint16 {
    if |app.buffered| <= BUFFER_SIZE then BUFFER_SIZE - |app.buffered| else 0
  }

  function Advance(n: Node, crypto: Crypto, move: Move): (Node, Event)
    requires n.radio.radio.Valid() && Ready(n.app)
  {
    var (radio, e) := Next(n.radio, RadioStep(n, move));
    if move.Attempt? && n.radio.tick.Idle? then
      var spi := SpiAnswer(7, if e.Served? then e.reply else []);
      (Node(radio, Receive(n.app, crypto, spi).0), e)
    else (Node(radio, n.app), e)
  }

  lemma ReceiveStep(s: System, data: seq<byte>, hi: byte, lo: byte)
    requires s.radio.Valid() && s.tick.Idle? && Radio.FitsReplyBuffer(data)
    requires ParseCommand(data) == Command(RECEIVE_CMD, [hi, lo])
    ensures Next(s, Spi(data, 0)) ==
            if s.radio.power == 0 then (s, Quiet)
            else
              var (r, reply) := Radio.ReadOut(s.radio, Be16(hi, lo));
              (s.(radio := Radio.CountCommand(r)), Served(Be16(hi, lo), reply))
  {
    HandleParsed(s.radio, data, hi, lo);
  }

  lemma RequestStep(s: System, m: uint16)
    requires s.radio.Valid() && m + 4 <= RX_BUFFER_SIZE && s.tick.Idle?
    ensures Next(s, Spi(ReceiveRequest(m), 0)) ==
            if s.radio.power == 0 then (s, Quiet)
            else var (r, reply) := Radio.ReadOut(s.radio, m); (s.(radio := Radio.CountCommand(r)), Served(m, reply))
  {
    RequestParses(m);
    ReceiveStep(s, ReceiveRequest(m), High(m), Low(m));
  }

  /** What an attempt does, told without the wire. */
  lemma AttemptEffect(n: Node, crypto: Crypto)
    requires n.radio.radio.Valid() && Ready(n.app) && n.radio.tick.Idle?
    ensures var (n', e) := Advance(n, crypto, Attempt);
            var r, m := n.radio.radio, Request(n.app);
            if r.power == 0 then
              n'.radio == n.radio && n'.app == n.app.(log := CountError(n.app.log)) && e == Quiet
            else
              && n'.radio == n.radio.(radio := Radio.CountCommand(Radio.ReadOut(r, m).0))
              && n'.app == Absorb(n.app, crypto, Delivered(r, m))
              && e == Served(m, Radio.ReadOut(r, m).1)
  {
    var r, m := n.radio.radio, Request(n.app);
    RequestStep(n.radio, m);
    ReplyExchanged(r, m);
    NothingExchanged(m);
  }
}

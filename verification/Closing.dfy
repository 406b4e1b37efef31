/** How a TCP session ends on both sides: each end's once-only close message, the close handlers,
    and the device's rejects for unknown sessions, with everything still in flight. */
module Closing {
  datatype Side = Client | Device

  /** Messages on their way to one side. */
  datatype Traffic = Traffic(data: nat, acks: nat, closes: nat)

  /** One end: whether its session is in the table, chunks its writer still holds, payloads its
      consumer has not taken, and close messages it has published by closing. */
  datatype End = End(open: bool, unsent: nat, buffered: nat, ownCloses: nat)

  /** `lostClose` records that the network lost a close message. */
  datatype State = State(client: End, device: End, toClient: Traffic, toDevice: Traffic, lostClose: bool) {
    function At(side: Side): End { if side.Client? then client else device }

    function To(side: Side): Traffic { if side.Client? then toClient else toDevice }

    function WithEnd(side: Side, e: End): State {
      if side.Client? then this.(client := e) else this.(device := e)
    }

    function WithTraffic(side: Side, t: Traffic): State {
      if side.Client? then this.(toClient := t) else this.(toDevice := t)
    }
  }

  function Other(side: Side): Side { if side.Client? then Device else Client }

  datatype Kind = Data | Ack | CloseMsg

  datatype Step =
    | LocalClose(side: Side)
    | SendChunk(side: Side)
    // delivery to a side; `silent` says that a frame is a duplicate, or that a reject is throttled
    | Deliver(side: Side, kind: Kind, silent: bool)
    // the consumer takes a payload and may owe an ack
    | Consume(side: Side, acks: bool)
    | Lose(side: Side, kind: Kind)

  function CountOf(t: Traffic, k: Kind): nat {
    match k case Data => t.data case Ack => t.acks case CloseMsg => t.closes
  }

  function Without(t: Traffic, k: Kind): Traffic
    requires CountOf(t, k) > 0
  {
    match k
    case Data => t.(data := t.data - 1)
    case Ack => t.(acks := t.acks - 1)
    case CloseMsg => t.(closes := t.closes - 1)
  }

  predicate Enabled(s: State, step: Step) {
    match step
    case LocalClose(side) => s.At(side).open
    case SendChunk(side) => s.At(side).unsent > 0
    case Deliver(side, kind, _) => CountOf(s.To(side), kind) > 0
    case Consume(side, _) => s.At(side).buffered > 0
    case Lose(side, kind) => CountOf(s.To(side), kind) > 0
  }

  function SendClose(s: State, to: Side): State {
    s.WithTraffic(to, s.To(to).(closes := s.To(to).closes + 1))
  }

  /** `Close` on one end: out of the table, and one close message to the other end. Its goroutines may
      still be on the way to a publish, so chunks and acks can follow the close message. */
  function CloseEnd(s: State, side: Side): State {
    var e := s.At(side);
    SendClose(s.WithEnd(side, e.(open := false, ownCloses := e.ownCloses + 1)), Other(side))
  }

  /** A message for a session the side does not know: the device answers data and acks with a
      throttled close; everything else is ignored. */
  function Unknown(s: State, side: Side, kind: Kind, silent: bool): State {
    if side.Device? && !kind.CloseMsg? && !silent then SendClose(s, Client) else s
  }

  function Received(s: State, side: Side, kind: Kind, silent: bool): State {
    var e := s.At(side);
    if !e.open then Unknown(s, side, kind, silent)
    else
      match kind
      case Data => if silent then s else s.WithEnd(side, e.(buffered := e.buffered + 1))
      case Ack => s
      case CloseMsg => CloseEnd(s, side)
  }

  function Apply(s: State, step: Step): State
    requires Enabled(s, step)
  {
    match step
    case LocalClose(side) => CloseEnd(s, side)
    case SendChunk(side) =>
      var o := Other(side);
      s.WithEnd(side, s.At(side).(unsent := s.At(side).unsent - 1)).WithTraffic(o, s.To(o).(data := s.To(o).data + 1))
    case Deliver(side, kind, silent) => Received(s.WithTraffic(side, Without(s.To(side), kind)), side, kind, silent)
    case Consume(side, acks) =>
      var o := Other(side);
      var s' := s.WithEnd(side, s.At(side).(buffered := s.At(side).buffered - 1));
      if acks then s'.WithTraffic(o, s.To(o).(acks := s.To(o).acks + 1)) else s'
    case Lose(side, kind) =>
      s.WithTraffic(side, Without(s.To(side), kind)).(lostClose := s.lostClose || kind.CloseMsg?)
  }

  function EndWork(e: End): nat {
    6 * e.unsent + 3 * e.buffered + if e.open then 2 else 0
  }

  function TrafficWork(t: Traffic): nat {
    5 * t.data + 2 * t.acks + t.closes
  }

  /** What is left to happen; nothing new enters from the application. */
  function Work(s: State): nat {
    EndWork(s.client) + EndWork(s.device) + TrafficWork(s.toClient) + TrafficWork(s.toDevice)
  }

  lemma DeliverWorkFalls(s: State, side: Side, kind: Kind, silent: bool)
    requires CountOf(s.To(side), kind) > 0
    ensures Work(Apply(s, Deliver(side, kind, silent))) < Work(s)
  {
    var s' := s.WithTraffic(side, Without(s.To(side), kind));
    assert Work(s') == Work(s) - (match kind case Data => 5 case Ack => 2 case CloseMsg => 1);
  }

  lemma WorkFalls(s: State, step: Step)
    requires Enabled(s, step)
    ensures Work(Apply(s, step)) < Work(s)
  {
    match step
    case Deliver(side, kind, silent) => DeliverWorkFalls(s, side, kind, silent);
    case _ =>
  }

  predicate Run(s: State, steps: seq<Step>, t: State)
    decreases |steps|
  {
    if steps == [] then s == t
    else Enabled(s, steps[0]) && Run(Apply(s, steps[0]), steps[1..], t)
  }

  /** Each end has published one close message exactly when it has closed, and an end that is still
      open beside a closed one has a close message on its way, unless the network lost one. */
  ghost predicate Inv(s: State) {
    && s.client.ownCloses == (if s.client.open then 0 else 1)
    && s.device.ownCloses == (if s.device.open then 0 else 1)
    && (s.client.open && !s.device.open && !s.lostClose ==> s.toClient.closes > 0)
    && (s.device.open && !s.client.open && !s.lostClose ==> s.toDevice.closes > 0)
  }

  lemma StepKeepsInv(s: State, step: Step)
    requires Inv(s) && Enabled(s, step)
    ensures Inv(Apply(s, step))
  {
  }

  /** An open session on both ends with any data and acks in flight, and nothing closed yet. */
  predicate Established(s: State) {
    && s.client.open && s.device.open && s.client.ownCloses == 0 == s.device.ownCloses
    && s.toClient.closes == 0 == s.toDevice.closes && !s.lostClose
  }

  /** The exchange ends: a run has at most `Work(s)` steps, and each end publishes its own close
      message at most once. */
  lemma {:induction false} ExchangeEnds(s: State, steps: seq<Step>, t: State)
    requires Inv(s) && Run(s, steps, t)
    ensures |steps| + Work(t) <= Work(s)
    ensures Inv(t) && t.client.ownCloses <= 1 && t.device.ownCloses <= 1
    decreases |steps|
  {
    if steps != [] {
      WorkFalls(s, steps[0]);
      StepKeepsInv(s, steps[0]);
      ExchangeEnds(Apply(s, steps[0]), steps[1..], t);
    }
  }

  /** From two open ends, with anything in flight and copies of close messages among it: when nothing is
      in flight any more and no close message was lost, both ends agree. */
  lemma EndsAgree(s: State, steps: seq<Step>, t: State)
    requires Inv(s) && s.client.open && s.device.open && Run(s, steps, t)
    requires t.toClient == Traffic(0, 0, 0) == t.toDevice && !t.lostClose
    ensures t.client.open <==> t.device.open
  {
    hide Run, Apply, Work;
    ExchangeEnds(s, steps, t);
  }

  /** Data or an ack from a client whose session the device has forgotten brings a reject, which closes it. */
  lemma RejectClosesClient(s: State, kind: Kind)
    requires s.client.open && !s.device.open && !kind.CloseMsg? && CountOf(s.toDevice, kind) > 0
    ensures var s1 := Apply(s, Deliver(Device, kind, false));
            && s1.toClient.closes == s.toClient.closes + 1
            && !Apply(s1, Deliver(Client, CloseMsg, false)).client.open
  {
  }

  /** A client answers nothing it does not know, and neither end answers a close for an unknown session. */
  lemma UnknownIsSilent(s: State, side: Side, kind: Kind)
    requires !s.At(side).open && CountOf(s.To(side), kind) > 0 && (side.Client? || kind.CloseMsg?)
    ensures var t := Apply(s, Deliver(side, kind, false));
            t.To(Other(side)) == s.To(Other(side)) && t.client == s.client && t.device == s.device
  {
  }

  /** With a lost close message they need not: the other end can stay open with nothing left to happen. */
  lemma LostCloseLeavesHalfOpen()
    ensures exists s, steps, t :: Established(s) && Run(s, steps, t)
              && t.toClient == Traffic(0, 0, 0) == t.toDevice && !t.client.open && t.device.open
  {
    var e := End(true, 0, 0, 0);
    var s := State(e, e, Traffic(0, 0, 0), Traffic(0, 0, 0), false);
    var s1 := Apply(s, LocalClose(Client));
    var s2 := Apply(s1, Lose(Device, CloseMsg));
    var steps := [LocalClose(Client), Lose(Device, CloseMsg)];
    assert steps[1..] == [Lose(Device, CloseMsg)];
    assert Run(s2, [], s2) && Run(s1, steps[1..], s2);
    assert Established(s) && Run(s, steps, s2);
  }
}

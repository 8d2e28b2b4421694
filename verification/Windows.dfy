/** What the windows promise over whole runs: how much can be under way, and that a packet sent
    under an advertised window finds a free slot at the receiver; and that what the receiver
    reports missing reaches the sender's loss list. */
module Windows {
  import opened LossCells
  import opened Nak
  import opened SndBuffers
  import opened RcvBuffers
  import opened Protocol
  import opened Effects
  import opened Runs
  import opened Progress

  // ---------- the congestion window ----------

  predicate Within(s: System, w: int) {
    s.snd.curr + 1 - s.snd.lastAck <= w
  }

  predicate Paced(e: Event, w: int) {
    e.SendPicked? ==> e.cwnd <= w
  }

  /** What an event does to the sender's marks, unless it sends. */
  lemma MarksMove(c: Config, s: System, e: Event)
    requires Inv(c, s)
    ensures var t := Step(c, s, e);
            && s.snd.lastAck <= t.snd.lastAck
            && (!e.SendPicked? ==> t.snd.curr == s.snd.curr)
            && (e.SendPicked? ==> t.snd == Transmit(s.snd, s.picked, e.cwnd).0)
  {
    hide Inv, Honest, RcvInv, SndInv, Transmit, Pick, OnAck, OnLiteAck, OnTimeout, Protocol.Send, Accepted, TakenFrom;
    EndsHold(c, s);
    match e
    case AppSend(data) => SendShape(s.snd, data);
    case PickLost => PickKeeps(s.snd);
    case SendPicked(cwnd) => TransmitKeeps(s.snd, s.picked, cwnd);
    case Expire => TimeoutShape(s.snd);
    case ToSender(m) =>
      match m {
        case Ack(ack, window) => AckEffect(s.snd, ack, window);
        case LiteAck(ack) => LiteAckEffect(s.snd, ack);
        case _ =>
      }
    case _ =>
  }

  lemma StepWithin(c: Config, s: System, e: Event, w: int)
    requires Inv(c, s) && Within(s, w) && Paced(e, w)
    ensures Within(Step(c, s, e), w)
  {
    hide Inv, Step, SndInv, Transmit;
    EndsHold(c, s);
    MarksMove(c, s, e);
    if e.SendPicked? {
      TransmitAnswers(s.snd, s.picked, e.cwnd);
      TransmitKeeps(s.snd, s.picked, e.cwnd);
    }
  }

  lemma {:induction false} RunWithin(c: Config, s: System, events: seq<Event>, w: int)
    requires Inv(c, s) && Within(s, w) && forall e :: e in events ==> Paced(e, w)
    ensures Within(Run(c, s, events), w)
    decreases |events|
  {
    hide Inv, Step, Within;
    if events != [] {
      StepKeeps(c, s, events[0]);
      StepWithin(c, s, events[0], w);
      RunWithin(c, Step(c, s, events[0]), events[1..], w);
    }
  }

  /** As long as the congestion window stays at or below w, the packets sent and not acknowledged
      never outnumber w. */
  lemma WindowIsKept(c: Config, events: seq<Event>, w: int)
    requires Sensible(c) && 0 <= w && forall e :: e in events ==> Paced(e, w)
    ensures Within(Reached(c, events), w)
  {
    StartHolds(c);
    hide Inv;
    RunWithin(c, Start(c), events, w);
  }

  // ---------- the advertised window ----------

  /** The sender's window is at the floor, ends within the receive buffer, or ends where the first
      one did. */
  predicate Covered(c: Config, s: System) {
    || s.snd.window <= 2
    || s.snd.lastAck + s.snd.window <= Edge(s.rcv)
    || s.snd.lastAck + s.snd.window == c.isn + c.window
  }

  /** The right edge of the receive buffer never moves back. */
  lemma EdgeMoves(c: Config, s: System, e: Event)
    requires Inv(c, s)
    ensures Edge(s.rcv) <= Edge(Step(c, s, e).rcv)
  {
    hide Inv, Honest, RcvInv, SndInv, OnData, Acknowledge, Consume, ReadLength, Unread;
    EndsHold(c, s);
    match e
    case ToReceiver(d) =>
      if d in s.net && d.Data? {
        DataShape(s.rcv, d.no, d.packet.payload);
      }
    case EmitAck(lite, due) => AcknowledgeKeeps(s.rcv, lite, due);
    case AppRead(len) => ReadKeeps(s.rcv, len);
    case _ =>
  }

  /** What an event does to the sender's window: an acknowledgement may take it over, a light one
      narrows it, and nothing else touches it. */
  lemma WindowMoves(c: Config, s: System, e: Event)
    requires Inv(c, s)
    ensures var u, v := s.snd, Step(c, s, e).snd;
            || (v.window <= u.window && v.lastAck + v.window == u.lastAck + u.window)
            || (v.lastAck + v.window <= Edge(s.rcv) || v.window == 2)
  {
    hide Inv, Honest, RcvInv, SndInv, Transmit, Pick, OnAck, OnLiteAck, OnTimeout, Protocol.Send, Accepted, TakenFrom;
    EndsHold(c, s);
    match e
    case AppSend(data) => SendShape(s.snd, data);
    case PickLost => PickKeeps(s.snd);
    case SendPicked(cwnd) => TransmitKeeps(s.snd, s.picked, cwnd);
    case Expire => TimeoutShape(s.snd);
    case ToSender(m) =>
      match m {
        case Ack(ack, window) =>
          AckEffect(s.snd, ack, window);
          if m in s.net {
            AckIsCovered(c, s, ack, window);
          }
        case LiteAck(ack) => LiteAckEffect(s.snd, ack);
        case _ =>
      }
    case _ =>
  }

  lemma AckIsCovered(c: Config, s: System, ack: int, window: int)
    requires Inv(c, s) && Ack(ack, window) in s.net
    ensures ack <= s.snd.curr + 1 && (ack + window <= Edge(s.rcv) || window == 2)
  {
    hide RcvInv, SndInv;
    assert Honest(c, s.snd, s.rcv, Ack(ack, window));
  }

  lemma {:induction false} RunCovered(c: Config, s: System, events: seq<Event>)
    requires Inv(c, s) && Covered(c, s)
    ensures Covered(c, Run(c, s, events))
    decreases |events|
  {
    hide Inv, Step;
    if events != [] {
      StepKeeps(c, s, events[0]);
      EdgeMoves(c, s, events[0]);
      WindowMoves(c, s, events[0]);
      hide Edge;
      RunCovered(c, Step(c, s, events[0]), events[1..]);
    }
  }

  /** A new packet sent in this state under a window above the floor would be accepted if it
      arrived at once, and the receiver's slots reach as far ever after. */
  ghost predicate FindsSlot(c: Config, s: System, cwnd: int)
    requires Inv(c, s)
  {
    var m := Transmit(s.snd, s.picked, cwnd).1;
    s.picked.Fresh? && m.Some? && 2 < s.snd.window ==>
      m.value.no < Edge(s.rcv) && OnData(s.rcv, m.value.no, m.value.packet.payload).0 != s.rcv
  }

  /** In every run: a new packet sent under a window above the floor finds a free slot, unless it
      was sent under the first window. */
  lemma SlotOrFirstWindow(c: Config, events: seq<Event>, cwnd: int)
    requires Sensible(c)
    ensures var s := Reached(c, events);
            Inv(c, s) && (FindsSlot(c, s, cwnd) || (s.snd.curr + 1 < c.isn + c.window && c.rcvSize <= c.window))
  {
    hide Inv, Edge;
    StartHolds(c);
    RunKeeps(c, Start(c), events);
    StartCovered(c);
    RunCovered(c, Start(c), events);
    FreshFinds(c, Reached(c, events), cwnd);
  }

  lemma StartCovered(c: Config)
    requires Sensible(c)
    ensures Covered(c, Start(c))
  {
  }

  lemma FreshFinds(c: Config, s: System, cwnd: int)
    requires Inv(c, s) && Covered(c, s)
    ensures FindsSlot(c, s, cwnd) || (s.snd.curr + 1 < c.isn + c.window && c.rcvSize <= c.window)
  {
    hide Transmit, OnData, Honest, NotchFits, Stream, Part, SndInv;
    EndsHold(c, s);
    TransmitAnswers(s.snd, s.picked, cwnd);
    TransmitKeeps(s.snd, s.picked, cwnd);
    var m := Transmit(s.snd, s.picked, cwnd).1;
    if s.picked.Fresh? && m.Some? {
      DataEffect(s.rcv, m.value.no, m.value.packet.payload);
    }
  }

  ghost predicate Finds(c: Config, events: seq<Event>, cwnd: int)
    requires Sensible(c)
  {
    Inv(c, Reached(c, events)) && FindsSlot(c, Reached(c, events), cwnd)
  }

  /** The promise of the windows holds in all runs exactly when the first window is smaller than
      the receive buffer, one slot of which stays empty. */
  lemma PromiseIsExact(c: Config)
    requires Sensible(c) && 2 < c.window && c.rcvSize <= c.limit
    ensures (forall events, cwnd :: Finds(c, events, cwnd)) <==> c.window < c.rcvSize
  {
    hide FindsSlot, Inv;
    if c.window < c.rcvSize {
      forall events, cwnd
        ensures Finds(c, events, cwnd)
      {
        SlotOrFirstWindow(c, events, cwnd);
      }
    } else {
      var events := FirstWindowOvershoots(c);
      assert !Finds(c, events, c.rcvSize);
    }
  }

  // ---------- a first window as large as the receive buffer ----------

  /** k packets were queued and sent, and nothing has arrived. */
  ghost predicate AllOut(c: Config, s: System, k: int) {
    && Inv(c, s) && s.snd.curr == c.isn - 1 + k && |s.snd.history| == k
    && s.snd.isn == s.snd.lastAck == s.snd.acked == c.isn
    && s.snd.window == c.window && s.snd.limit == c.limit
    && s.snd.lost == {} && s.picked == Idle && s.rcv == Start(c).rcv
  }

  /** One more packet is queued and the transmitting thread is about to send it. */
  ghost predicate OneWaits(c: Config, s: System, k: int) {
    && Inv(c, s) && s.snd.curr == c.isn - 1 + k && |s.snd.history| == k + 1
    && s.snd.isn == s.snd.lastAck == s.snd.acked == c.isn
    && s.snd.window == c.window && s.snd.limit == c.limit
    && s.snd.lost == {} && s.picked == Fresh && s.rcv == Start(c).rcv
  }

  lemma QueueOne(c: Config, s: System, k: int)
    requires AllOut(c, s, k) && 0 <= k < c.limit
    ensures var t := Step(c, s, AppSend([0]));
            Inv(c, t) && OneWaits(c, Step(c, t, PickLost), k)
  {
    hide RcvInv, SndInv, Honest, Accepted, Protocol.Send, Bytes, Inv;
    EndsHold(c, s);
    StepKeeps(c, s, AppSend([0]));
    StepKeeps(c, Step(c, s, AppSend([0])), PickLost);
    OneFits(s.snd);
    SendShape(s.snd, [0]);
  }

  lemma OneFits(s: Snd)
    requires SndInv(s) && Queued(s) < s.limit
    ensures |Protocol.Send(s, [0]).history| == |s.history| + 1
  {
    hide Accepted, Protocol.Send, BlockCount;
    BlockCountStep(1, s.mss);
    SendFits(s, [0]);
    SendShape(s, [0]);
  }

  lemma SendOne(c: Config, s: System, k: int)
    requires OneWaits(c, s, k) && 0 <= k < c.window
    ensures AllOut(c, Step(c, s, SendPicked(c.window)), k + 1)
  {
    hide RcvInv, SndInv, Honest, Inv;
    EndsHold(c, s);
    StepKeeps(c, s, SendPicked(c.window));
  }

  lemma RunThen(c: Config, events: seq<Event>, e: Event)
    requires Sensible(c)
    ensures Inv(c, Reached(c, events)) && Reached(c, events + [e]) == Step(c, Reached(c, events), e)
  {
    hide Inv, Step, Run;
    StartHolds(c);
    RunKeeps(c, Start(c), events);
    RunTwice(c, Start(c), events, [e]);
    RunOne(c, Reached(c, events), e);
  }

  lemma {:induction false} SendMany(c: Config, k: nat) returns (events: seq<Event>)
    requires Sensible(c) && k <= c.window && k <= c.limit
    ensures AllOut(c, Reached(c, events), k)
  {
    hide Inv, Step, Reached;
    if k == 0 {
      events := [];
      NoneOut(c);
    } else {
      events := SendMany(c, k - 1);
      QueueOne(c, Reached(c, events), k - 1);
      RunThen(c, events, AppSend([0]));
      RunThen(c, events + [AppSend([0])], PickLost);
      events := events + [AppSend([0])] + [PickLost];
      SendOne(c, Reached(c, events), k - 1);
      RunThen(c, events, SendPicked(c.window));
      events := events + [SendPicked(c.window)];
    }
  }

  lemma NoneOut(c: Config)
    requires Sensible(c)
    ensures AllOut(c, Reached(c, []), 0)
  {
    StartHolds(c);
  }

  /** With a first window as large as the receive buffer a run sends one packet more than the
      buffer has slots for. */
  lemma FirstWindowOvershoots(c: Config) returns (events: seq<Event>)
    requires Sensible(c) && 2 < c.window && c.rcvSize <= c.window && c.rcvSize <= c.limit
    ensures var s := Reached(c, events);
            && Inv(c, s) && s.picked == Fresh && s.snd.window == c.window
            && !FindsSlot(c, s, c.rcvSize)
            && var m := Transmit(s.snd, s.picked, c.rcvSize).1;
               m.Some? && m.value.no == Edge(s.rcv) && OnData(s.rcv, m.value.no, m.value.packet.payload).0 == s.rcv
  {
    hide Inv, Step, Reached;
    var k := c.rcvSize - 1;
    events := SendMany(c, k);
    QueueOne(c, Reached(c, events), k);
    RunThen(c, events, AppSend([0]));
    RunThen(c, events + [AppSend([0])], PickLost);
    events := events + [AppSend([0])] + [PickLost];
    Overshoots(c, Reached(c, events));
  }

  lemma Overshoots(c: Config, s: System)
    requires OneWaits(c, s, c.rcvSize - 1) && 2 < c.window && c.rcvSize <= c.window
    ensures !FindsSlot(c, s, c.rcvSize)
    ensures var m := Transmit(s.snd, s.picked, c.rcvSize).1;
            m.Some? && m.value.no == Edge(s.rcv) && OnData(s.rcv, m.value.no, m.value.packet.payload).0 == s.rcv
  {
    hide Honest, Bytes;
  }

  // ---------- acknowledgements and reports ----------

  /** A full acknowledgement that arrives, however late, moves the sender's marks up to it, hands
      over its window unless a later one was heard, and clears just the losses before it. */
  lemma AckIsHeard(c: Config, s: System, ack: int, window: int)
    requires Inv(c, s) && Ack(ack, window) in s.net
    ensures var t := Step(c, s, ToSender(Ack(ack, window)));
            && t == s.(snd := t.snd, heard := s.heard + {ack}) && !t.snd.broken
            && t.snd.lastAck == Max(s.snd.lastAck, ack) && t.snd.acked == Max(s.snd.acked, ack)
            && t.snd.window == (if s.snd.lastAck <= ack then window else s.snd.window)
            && forall x :: x in t.snd.lost <==> x in s.snd.lost && ack <= x
  {
    AckIsCovered(c, s, ack, window);
    EndsHold(c, s);
    AckEffect(s.snd, ack, window);
    hide RcvInv, SndInv, OnAck, Honest, Bytes;
  }

  /** A loss report that arrives, however late, adds to the loss list exactly the numbers it names
      that are not acknowledged, whatever the list held. */
  lemma ReportIsHeard(c: Config, s: System, ranges: seq<Span>)
    requires Inv(c, s) && Loss(ranges) in s.net
    ensures var t := Step(c, s, ToSender(Loss(ranges)));
            && t == s.(snd := s.snd.(lost := t.snd.lost))
            && forall x :: x in t.snd.lost <==> x in s.snd.lost || (s.snd.lastAck <= x && Named(ranges, x))
  {
    hide RcvInv, SndInv, OnLoss, Bytes;
    EndsHold(c, s);
    assert Honest(c, s.snd, s.rcv, Loss(ranges));
    LossEffect(s.snd, ranges, |ranges|);
    assert ranges[..|ranges|] == ranges;
    hide Honest;
  }

  /** A packet that makes numbers missing puts a report under way, and if that arrives every one
      of them that is not acknowledged is known lost to the sender. */
  lemma GapIsHeard(c: Config, s: System, d: Message, x: int)
    requires Inv(c, s) && d in s.net && d.Data?
    requires x in Step(c, s, ToReceiver(d)).rcv.lost && x !in s.rcv.lost && s.snd.lastAck <= x
    ensures var t := Step(c, s, ToReceiver(d));
            exists ranges :: Loss(ranges) in t.net && Inv(c, t) && x in Step(c, t, ToSender(Loss(ranges))).snd.lost
  {
    hide RcvInv, SndInv, OnData, OnLoss, Bytes, Inv;
    EndsHold(c, s);
    var t := Step(c, s, ToReceiver(d));
    StepKeeps(c, s, ToReceiver(d));
    DataEffect(s.rcv, d.no, d.packet.payload);
    var m := OnData(s.rcv, d.no, d.packet.payload).1;
    assert m.Some? && m.value in t.net;
    ReportIsHeard(c, t, m.value.ranges);
    assert m.value == Loss(m.value.ranges);
  }
}

/** The transfer never gets stuck.

    From every state that a run can reach, and even if every message under way is lost, there
    is a continuation after which the receiving application has read everything that was
    accepted from the sending one.  The timeout, the window floor of the acknowledgements and
    the rule for repeating them are what makes this so. */
module Progress {
  import opened Nak
  import opened SndBuffers
  import opened RcvBuffers
  import opened Protocol
  import opened Runs

  /** The sender knows about an acknowledgement, and if it knows of none later its window lets
      it send. */
  predicate Told(snd: Snd, ack: int) {
    ack <= snd.lastAck && (1 <= snd.window || ack < snd.lastAck)
  }

  /** What keeps a reachable state from being stuck. */
  ghost predicate Live(c: Config, s: System) {
    && Inv(c, s)
    && s.rcv.lastAckAck <= s.rcv.acked && Told(s.snd, s.rcv.lastAckAck)
    && (forall a :: a in s.heard ==> a <= s.rcv.acked && Told(s.snd, a))
    && AllArrived(s.rcv, s.snd.lastAck)
    && (forall m :: m in s.net && m.Ack? ==> m.ack <= s.rcv.acked && 2 <= m.window)
  }

  lemma LiveIsInv(c: Config, s: System)
    requires Live(c, s)
    ensures Inv(c, s)
  {
  }

  lemma StartIsLive(c: Config)
    requires Sensible(c) && 1 <= c.window
    ensures Live(c, Start(c))
  {
    StartHolds(c);
  }

  /** Only the sender moved, and not its acknowledgement variables. */
  lemma SenderMoved(c: Config, s: System, t: System)
    requires Live(c, s) && Inv(c, t) && t.rcv == s.rcv && t.heard == s.heard
    requires t.snd.lastAck == s.snd.lastAck && t.snd.window == s.snd.window
    requires forall m :: m in t.net && m.Ack? ==> m in s.net
    ensures Live(c, t)
  {
    hide Inv;
  }

  /** Only the receiver moved, forwards. */
  lemma ReceiverMoved(c: Config, s: System, t: System)
    requires Live(c, s) && Inv(c, t) && t.snd == s.snd && t.heard == s.heard
    requires t.rcv.isn == s.rcv.isn && t.rcv.lastAckAck == s.rcv.lastAckAck && s.rcv.acked <= t.rcv.acked
    requires s.rcv.got.Keys <= t.rcv.got.Keys
    requires forall m :: m in t.net && m.Ack? && m !in s.net ==> m.ack <= t.rcv.acked && 2 <= m.window
    ensures Live(c, t)
  {
    hide Inv;
  }

  /** What a full acknowledgement does to the sender's acknowledgement variables. */
  lemma AckTells(s: Snd, ack: int, window: int)
    requires ack <= s.curr + 1 && 2 <= window
    ensures var t := OnAck(s, ack, window);
      && Told(t, ack) && t.lastAck == Max(s.lastAck, ack)
      && forall a :: Told(s, a) ==> Told(t, a)
  {
  }

  lemma AckKeepsLive(c: Config, s: System, ack: int, window: int)
    requires Live(c, s) && Ack(ack, window) in s.net
    ensures Live(c, Step(c, s, ToSender(Ack(ack, window))))
  {
    hide Inv, Honest, OnAck, Told;
    LiveIsInv(c, s);
    StepKeeps(c, s, ToSender(Ack(ack, window)));
    AckIsSent(c, s, ack, window);
    assert 2 <= Ack(ack, window).window && Ack(ack, window).ack <= s.rcv.acked;
    AckTells(s.snd, ack, window);
  }

  /** An acknowledgement under way names packets that were sent and have arrived. */
  lemma AckIsSent(c: Config, s: System, ack: int, window: int)
    requires Inv(c, s) && Ack(ack, window) in s.net
    ensures ack <= s.snd.curr + 1 && AllArrived(s.rcv, ack)
  {
    hide SndInv, RcvInv;
    assert Honest(c, s.snd, s.rcv, Ack(ack, window));
  }

  /** A light acknowledgement tells the sender of a later packet or changes nothing. */
  lemma LiteAckTells(s: Snd, ack: int)
    ensures var t := OnLiteAck(s, ack);
      && t.lastAck == Max(s.lastAck, ack)
      && forall a :: Told(s, a) ==> Told(t, a)
  {
  }

  lemma LiteAckIsSent(c: Config, s: System, ack: int)
    requires Inv(c, s) && LiteAck(ack) in s.net
    ensures AllArrived(s.rcv, ack)
  {
    hide SndInv, RcvInv;
    assert Honest(c, s.snd, s.rcv, LiteAck(ack));
  }

  lemma LiteAckKeepsLive(c: Config, s: System, ack: int)
    requires Live(c, s) && LiteAck(ack) in s.net
    ensures Live(c, Step(c, s, ToSender(LiteAck(ack))))
  {
    hide Inv, OnLiteAck, Told;
    StepKeeps(c, s, ToSender(LiteAck(ack)));
    LiteAckIsSent(c, s, ack);
    LiteAckTells(s.snd, ack);
  }

  lemma Ack2KeepsLive(c: Config, s: System, ack: int)
    requires Live(c, s)
    ensures Live(c, Step(c, s, Ack2(ack)))
  {
    hide Inv;
    StepKeeps(c, s, Ack2(ack));
  }

  lemma EmitKeepsLive(c: Config, s: System, lite: bool, due: bool)
    requires Live(c, s)
    ensures Live(c, Step(c, s, EmitAck(lite, due)))
  {
    hide Live, Inv, Acknowledge, AckPoint, RcvInv;
    LiveIsInv(c, s);
    EndsHold(c, s);
    StepKeeps(c, s, EmitAck(lite, due));
    AcknowledgeKeeps(s.rcv, lite, due);
    AcknowledgedForwards(s.rcv, lite, due);
    ReceiverMoved(c, s, Step(c, s, EmitAck(lite, due)));
  }

  /** A full acknowledgement names the new acknowledged position. */
  lemma AcknowledgedForwards(r: Rcv, lite: bool, due: bool)
    requires RcvInv(r)
    ensures var (t, m) := Acknowledge(r, lite, due);
      r.acked <= t.acked && (m.Some? && m.value.Ack? ==> m.value.ack == t.acked && 2 <= m.value.window)
  {
    hide AckPoint, RcvInv;
    AckPointIsLeast(r);
  }

  lemma PickKeepsLive(c: Config, s: System)
    requires Live(c, s)
    ensures Live(c, Step(c, s, PickLost))
  {
    hide Live, Inv, Pick, SndInv;
    LiveIsInv(c, s);
    EndsHold(c, s);
    StepKeeps(c, s, PickLost);
    PickKeeps(s.snd);
    SenderMoved(c, s, Step(c, s, PickLost));
  }

  lemma TransmitKeepsLive(c: Config, s: System, cwnd: int)
    requires Live(c, s)
    ensures Live(c, Step(c, s, SendPicked(cwnd)))
  {
    hide Live, Inv, Transmit, SndInv, PickedInv;
    LiveIsInv(c, s);
    EndsHold(c, s);
    StepKeeps(c, s, SendPicked(cwnd));
    TransmitKeeps(s.snd, s.picked, cwnd);
    SenderMoved(c, s, Step(c, s, SendPicked(cwnd)));
  }

  lemma DataKeepsLive(c: Config, s: System, d: Message)
    requires Live(c, s) && d in s.net && d.Data?
    ensures Live(c, Step(c, s, ToReceiver(d)))
  {
    hide Live, Inv, OnData;
    LiveIsInv(c, s);
    StepKeeps(c, s, ToReceiver(d));
    DataShape(s.rcv, d.no, d.packet.payload);
    ReceiverMoved(c, s, Step(c, s, ToReceiver(d)));
  }

  lemma SendKeepsLive(c: Config, s: System, data: seq<byte>)
    requires Live(c, s)
    ensures Live(c, Step(c, s, AppSend(data)))
  {
    hide Live, Inv, Send, Accepted, SndInv;
    LiveIsInv(c, s);
    EndsHold(c, s);
    StepKeeps(c, s, AppSend(data));
    SendShape(s.snd, data);
    SenderMoved(c, s, Step(c, s, AppSend(data)));
  }

  lemma TimeoutKeepsLive(c: Config, s: System)
    requires Live(c, s)
    ensures Live(c, Step(c, s, Expire))
  {
    hide Live, Inv, OnTimeout;
    LiveIsInv(c, s);
    StepKeeps(c, s, Expire);
    TimeoutShape(s.snd);
    SenderMoved(c, s, Step(c, s, Expire));
  }

  /** A loss report, like a data message gone astray, leaves the acknowledgement variables. */
  lemma ReportKeepsLive(c: Config, s: System, m: Message)
    requires Live(c, s) && m in s.net && (m.Data? || m.Loss?)
    ensures Live(c, Step(c, s, ToSender(m)))
  {
    hide Live, Inv, TakenFrom, Secure;
    LiveIsInv(c, s);
    StepKeeps(c, s, ToSender(m));
    SenderMoved(c, s, Step(c, s, ToSender(m)));
  }

  lemma ReadKeepsLive(c: Config, s: System, len: int)
    requires Live(c, s)
    ensures Live(c, Step(c, s, AppRead(len)))
  {
    hide Live, Inv, Consume, Unread, ReadLength, RcvInv;
    LiveIsInv(c, s);
    EndsHold(c, s);
    StepKeeps(c, s, AppRead(len));
    ReceiverMoved(c, s, Step(c, s, AppRead(len)));
  }

  lemma LiveKeeps(c: Config, s: System, e: Event)
    requires Live(c, s)
    ensures Live(c, Step(c, s, e))
  {
    hide Live, Inv;
    LiveIsInv(c, s);
    match e
    case AppSend(data) => SendKeepsLive(c, s, data);
    case PickLost => PickKeepsLive(c, s);
    case SendPicked(cwnd) => TransmitKeepsLive(c, s, cwnd);
    case Expire => TimeoutKeepsLive(c, s);
    case ToReceiver(d) =>
      if d in s.net && d.Data? {
        DataKeepsLive(c, s, d);
      }
    case EmitAck(lite, due) => EmitKeepsLive(c, s, lite, due);
    case ToSender(m) =>
      if m in s.net {
        match m
        case Ack(ack, window) => AckKeepsLive(c, s, ack, window);
        case LiteAck(ack) => LiteAckKeepsLive(c, s, ack);
        case _ => ReportKeepsLive(c, s, m);
      }
    case Ack2(ack) => Ack2KeepsLive(c, s, ack);
    case AppRead(len) => ReadKeepsLive(c, s, len);
  }

  // Continuations

  lemma {:induction false} RunIsLive(c: Config, s: System, events: seq<Event>)
    requires Live(c, s)
    ensures Live(c, Run(c, s, events))
    decreases |events|
  {
    hide Live, Inv;
    LiveIsInv(c, s);
    if |events| > 0 {
      LiveKeeps(c, s, events[0]);
      RunIsLive(c, Step(c, s, events[0]), events[1..]);
    }
  }

  lemma {:induction false} RunTwice(c: Config, s: System, a: seq<Event>, b: seq<Event>)
    requires Inv(c, s)
    ensures Inv(c, Run(c, s, a))
    ensures Run(c, s, a + b) == Run(c, Run(c, s, a), b)
    decreases |a|
  {
    hide Inv, Step;
    RunKeeps(c, s, a);
    if |a| == 0 {
      assert a + b == b;
    } else {
      assert (a + b)[1..] == a[1..] + b;
      StepKeeps(c, s, a[0]);
      RunTwice(c, Step(c, s, a[0]), a[1..], b);
    }
  }

  /** s leads to t by a continuation in which the application sends nothing more. */
  ghost predicate Leads(c: Config, s: System, events: seq<Event>, t: System)
    requires Inv(c, s)
  {
    Run(c, s, events) == t && forall e :: e in events ==> !e.AppSend?
  }

  lemma LeadsOn(c: Config, s: System, a: seq<Event>, t: System, b: seq<Event>, u: System)
    requires Inv(c, s) && Leads(c, s, a, t) && Inv(c, t) && Leads(c, t, b, u)
    ensures Leads(c, s, a + b, u)
  {
    hide Inv, Run;
    RunTwice(c, s, a, b);
  }

  lemma RunOne(c: Config, s: System, e: Event)
    requires Inv(c, s)
    ensures Run(c, s, [e]) == Step(c, s, e)
  {
    hide Inv, Step;
    StepKeeps(c, s, e);
    assert [e][1..] == [] && [e] != [];
    assert Run(c, Step(c, s, e), []) == Step(c, s, e);
  }

  lemma LeadsOne(c: Config, s: System, e: Event)
    requires Inv(c, s) && !e.AppSend?
    ensures Leads(c, s, [e], Step(c, s, e))
  {
    hide Inv, Step, Run;
    RunOne(c, s, e);
  }

  /** One step of a continuation. */
  lemma Go(c: Config, s: System, e: Event) returns (events: seq<Event>, t: System)
    requires Live(c, s) && !e.AppSend?
    ensures Inv(c, s) && Leads(c, s, events, t) && Live(c, t) && t == Step(c, s, e)
  {
    hide Live, Inv, Leads, Step;
    LiveIsInv(c, s);
    events, t := [e], Step(c, s, e);
    LeadsOne(c, s, e);
    LiveKeeps(c, s, e);
  }

  /** Reading more than there is reads everything. */
  lemma {:induction false} ConsumeAll(slots: map<int, seq<byte>>, a: int, b: int, notch: int, len: int)
    requires a <= b && NotchFits(slots, a, b, notch) && forall x :: a <= x < b ==> x in slots
    requires |Unread(slots, a, b, notch)| < len
    ensures Consume(slots, a, b, notch, len) == (b, 0)
    decreases b - a
  {
    NotchInside(slots, a, b, notch);
    if a < b {
      ConsumeAll(slots, a + 1, b, 0, len - (|slots[a]| - notch));
    }
  }

  /** A due acknowledgement names the least missing packet, and is under way if that is news. */
  lemma Acknowledged(c: Config, s: System)
    requires Live(c, s)
    ensures var a, t := AckPoint(s.rcv), Step(c, s, EmitAck(false, true));
      && t == s.(rcv := s.rcv.(acked := a), net := t.net)
      && (s.rcv.lastAckAck < a ==> Ack(a, Advertised(t.rcv)) in t.net)
  {
    hide AckPoint, SndInv, RcvInv, Honest, Advertised;
    AckPointIsLeast(s.rcv);
  }

  /** Asking for more than there is reads up to the acknowledged position. */
  lemma ReadOut(c: Config, s: System, len: int)
    requires Inv(c, s) && |Unread(s.rcv.got, s.rcv.readNo, s.rcv.acked, s.rcv.notch)| < len
    ensures var t := Step(c, s, AppRead(len));
      t == s.(rcv := s.rcv.(readNo := s.rcv.acked, notch := 0, delivered := t.rcv.delivered))
  {
    hide SndInv, Stream, Part, NotchFits, Honest, Consume, Unread, ReadLength;
    ConsumeAll(s.rcv.got, s.rcv.readNo, s.rcv.acked, s.rcv.notch, len);
  }

  /** The receiver acknowledges all it can and the application reads all of that.  If the
      acknowledgement is news, it is under way. */
  lemma ReadAll(c: Config, s: System) returns (events: seq<Event>, t: System, w: int)
    requires Live(c, s)
    ensures Inv(c, s) && Leads(c, s, events, t) && Live(c, t)
    ensures t.snd == s.snd && t.picked == s.picked && t.accepted == s.accepted
    ensures AckPoint(t.rcv) == AckPoint(s.rcv) == t.rcv.acked == t.rcv.readNo
    ensures t.rcv.lastAckAck < AckPoint(t.rcv) ==> Ack(AckPoint(t.rcv), w) in t.net
  {
    hide Live, Inv, RcvInv, Leads, Step, Unread;
    LiveIsInv(c, s);
    var e, u := Go(c, s, EmitAck(false, true));
    Acknowledged(c, s);
    w := Advertised(u.rcv);
    LiveIsInv(c, u);
    var r := u.rcv;
    EndsHold(c, u);
    Readable(r);
    var len := |Unread(r.got, r.readNo, r.acked, r.notch)| + 1;
    var e', t' := Go(c, u, AppRead(len));
    ReadOut(c, u, len);
    LeadsOn(c, s, e, u, e', t');
    events, t := e + e', t';
  }

  /** Acknowledged packets are there to be read. */
  lemma Readable(r: Rcv)
    requires RcvInv(r)
    ensures forall x :: r.readNo <= x < r.acked ==> x in r.got
  {
  }

  /** The transmitting thread finishes what it has picked; its packet may go out once more. */
  lemma Finish(c: Config, s: System) returns (events: seq<Event>, t: System)
    requires Live(c, s)
    ensures Inv(c, s) && Leads(c, s, events, t) && Live(c, t)
    ensures t.picked == Idle && t.rcv == s.rcv && t.accepted == s.accepted
  {
    hide Live, Leads, Inv, Transmit;
    LiveIsInv(c, s);
    events, t := Go(c, s, SendPicked(0));
  }

  /** Transmitting one lost packet puts it under way. */
  lemma FlushOne(c: Config, s: System) returns (events: seq<Event>, t: System, no: int)
    requires Live(c, s) && s.snd.lost != {} && s.picked == Idle
    ensures Inv(c, s) && Leads(c, s, events, t) && Live(c, t)
    ensures t.picked == Idle && t.rcv == s.rcv && t.accepted == s.accepted && s.net <= t.net
    ensures no in s.snd.lost && t.snd == s.snd.(lost := s.snd.lost - {no})
    ensures s.snd.isn <= no < s.snd.isn + |s.snd.history| && Data(no, PacketAt(s.snd, no)) in t.net
  {
    hide Live, Leads, Inv, Run, SndInv;
    LiveIsInv(c, s);
    EndsHold(c, s);
    no := Least(s.snd.lost);
    var e, u := Go(c, s, PickLost);
    LiveIsInv(c, u);
    var e', t' := Go(c, u, SendPicked(0));
    PickedIsSent(c, s, u);
    LeadsOn(c, s, e, u, e', t');
    events, t := e + e', t';
  }

  /** A number just picked is not acknowledged yet, so its packet goes out. */
  lemma PickedIsSent(c: Config, s: System, u: System)
    requires Live(c, s) && s.snd.lost != {} && s.picked == Idle
    requires u == Step(c, s, PickLost) && Inv(c, u)
    ensures var no := Least(s.snd.lost);
      && s.snd.isn <= no < s.snd.isn + |s.snd.history|
      && Step(c, u, SendPicked(0)) == u.(picked := Idle, net := u.net + {Data(no, PacketAt(s.snd, no))})
      && u == s.(snd := s.snd.(lost := s.snd.lost - {no}), picked := Retry(no))
  {
    hide RcvInv, Honest, Least, Bytes;
  }

  /** Transmitting until nothing is known to be lost puts all of it under way. */
  lemma {:induction false} Flush(c: Config, s: System) returns (events: seq<Event>, t: System)
    requires Live(c, s) && s.picked == Idle
    ensures Inv(c, s) && Leads(c, s, events, t) && Live(c, t)
    ensures t.picked == Idle && t.rcv == s.rcv && t.accepted == s.accepted && s.net <= t.net
    ensures t.snd == s.snd.(lost := {})
    ensures forall x :: x in s.snd.lost ==>
      s.snd.isn <= x < s.snd.isn + |s.snd.history| && Data(x, PacketAt(s.snd, x)) in t.net
    decreases |s.snd.lost|
  {
    hide Live, Inv, Leads, Run;
    LiveIsInv(c, s);
    if s.snd.lost == {} {
      events, t := [], s;
      LeadsNowhere(c, s);
    } else {
      var e, u, no := FlushOne(c, s);
      assert s.snd.lost == u.snd.lost + {no};
      var e', t' := Flush(c, u);
      LeadsOn(c, s, e, u, e', t');
      events, t := e + e', t';
    }
  }

  lemma LeadsNowhere(c: Config, s: System)
    requires Inv(c, s)
    ensures Leads(c, s, [], s)
  {
  }

  /** The least missing packet arrives, when there is room for one: the next acknowledgement
      will name a later one. */
  lemma Arrive(c: Config, s: System, packet: Packet) returns (events: seq<Event>, t: System)
    requires Live(c, s) && AckPoint(s.rcv) == s.rcv.acked == s.rcv.readNo
    requires Data(AckPoint(s.rcv), packet) in s.net
    ensures Inv(c, s) && Leads(c, s, events, t) && Live(c, t)
    ensures t.snd == s.snd && t.picked == s.picked && t.accepted == s.accepted
    ensures AckPoint(s.rcv) < AckPoint(t.rcv)
  {
    LiveIsInv(c, s);
    AckPointIsLeast(s.rcv);
    events, t := Go(c, s, ToReceiver(Data(AckPoint(s.rcv), packet)));
    AckPointIsLeast(t.rcv);
    assert AckPoint(s.rcv) in t.rcv.got;
    hide AckPoint, OnData, Live, Leads;
  }

  /** The least missing packet was sent before: after the timeout it is sent again. */
  lemma Resend(c: Config, s: System) returns (events: seq<Event>, t: System)
    requires Live(c, s) && s.picked == Idle && AckPoint(s.rcv) == s.rcv.acked == s.rcv.readNo
    requires AckPoint(s.rcv) <= s.snd.curr
    ensures t.picked == Idle
    ensures Inv(c, s) && Leads(c, s, events, t) && Live(c, t)
    ensures t.snd.isn == s.snd.isn && t.snd.history == s.snd.history && t.accepted == s.accepted
    ensures AckPoint(s.rcv) < AckPoint(t.rcv)
  {
    hide Inv, Leads, Run;
    LiveIsInv(c, s);
    var a := AckPoint(s.rcv);
    var e1, s1 := Flush(c, s);
    LiveIsInv(c, s1);
    var e2, s2 := Go(c, s1, Expire);
    Expired(c, s1);
    LeadsOn(c, s, e1, s1, e2, s2);
    LiveIsInv(c, s2);
    var e3, s3 := Flush(c, s2);
    LeadsOn(c, s, e1 + e2, s2, e3, s3);
    LiveIsInv(c, s3);
    var e4, s4 := Arrive(c, s3, PacketAt(s2.snd, a));
    LeadsOn(c, s, e1 + e2 + e3, s3, e4, s4);
    events, t := e1 + e2 + e3 + e4, s4;
  }

  /** The timeout declares every unacknowledged packet lost, the least missing one among them. */
  lemma Expired(c: Config, s: System)
    requires Live(c, s) && s.snd.lost == {} && AckPoint(s.rcv) <= s.snd.curr
    ensures var t := Step(c, s, Expire);
      AckPoint(s.rcv) in t.snd.lost && t.picked == s.picked && t.rcv == s.rcv && t.accepted == s.accepted
      && t.snd.history == s.snd.history && t.snd.isn == s.snd.isn
  {
    AckPointIsLeast(s.rcv);
    assert s.snd.lastAck <= AckPoint(s.rcv);
  }

  /** Everything sent has arrived: once the sender knows, its window lets it send one more. */
  lemma SendOn(c: Config, s: System, w: int) returns (events: seq<Event>, t: System)
    requires Live(c, s) && s.picked == Idle && AckPoint(s.rcv) == s.rcv.acked == s.rcv.readNo
    requires s.rcv.lastAckAck < AckPoint(s.rcv) ==> Ack(AckPoint(s.rcv), w) in s.net
    requires AckPoint(s.rcv) == s.snd.curr + 1 < s.snd.isn + |s.snd.history|
    ensures t.picked == Idle
    ensures Inv(c, s) && Leads(c, s, events, t) && Live(c, t)
    ensures t.snd.isn == s.snd.isn && t.snd.history == s.snd.history && t.accepted == s.accepted
    ensures AckPoint(s.rcv) < AckPoint(t.rcv)
  {
    hide Inv, Leads, Run;
    LiveIsInv(c, s);
    var a := AckPoint(s.rcv);
    var e1, s1 := Flush(c, s);
    LiveIsInv(c, s1);
    var e2, s2 := Learn(c, s1, w);
    LeadsOn(c, s, e1, s1, e2, s2);
    LiveIsInv(c, s2);
    var e3, s3 := SendNew(c, s2);
    LeadsOn(c, s, e1 + e2, s2, e3, s3);
    LiveIsInv(c, s3);
    var e4, s4 := Arrive(c, s3, PacketAt(s2.snd, a));
    LeadsOn(c, s, e1 + e2 + e3, s3, e4, s4);
    events, t := e1 + e2 + e3 + e4, s4;
  }

  /** The sender hears the latest acknowledgement, unless it knew it already. */
  lemma Learn(c: Config, s: System, w: int) returns (events: seq<Event>, t: System)
    requires Live(c, s) && s.snd.lost == {} && AckPoint(s.rcv) == s.snd.curr + 1
    requires s.rcv.lastAckAck < AckPoint(s.rcv) ==> Ack(AckPoint(s.rcv), w) in s.net
    ensures Inv(c, s) && Leads(c, s, events, t) && Live(c, t)
    ensures t.picked == s.picked && t.rcv == s.rcv && t.accepted == s.accepted && t.snd.lost == {}
    ensures t.snd.isn == s.snd.isn && t.snd.history == s.snd.history && t.snd.curr == s.snd.curr
    ensures t.snd.lastAck == t.snd.curr + 1 && 1 <= t.snd.window
  {
    hide Live, Inv, Leads, AckPoint, OnAck, Step;
    LiveIsInv(c, s);
    var a := AckPoint(s.rcv);
    if s.rcv.lastAckAck < a {
      events, t := Go(c, s, ToSender(Ack(a, w)));
      LearnsAck(c, s, a, w);
    } else {
      Known(c, s);
      events, t := [], s;
      LeadsNowhere(c, s);
    }
  }

  /** The sender hears that all it sent has arrived. */
  lemma LearnsAck(c: Config, s: System, a: int, w: int)
    requires Live(c, s) && s.snd.lost == {} && a == s.snd.curr + 1 && Ack(a, w) in s.net
    ensures var t := Step(c, s, ToSender(Ack(a, w)));
      && t.picked == s.picked && t.rcv == s.rcv && t.accepted == s.accepted && t.snd.lost == {}
      && t.snd.isn == s.snd.isn && t.snd.history == s.snd.history && t.snd.curr == s.snd.curr
      && t.snd.lastAck == t.snd.curr + 1 && 1 <= t.snd.window
  {
    hide RcvInv, Honest;
    assert 2 <= Ack(a, w).window;
  }

  /** An acknowledgement of everything sent that was confirmed is known to the sender. */
  lemma Known(c: Config, s: System)
    requires Live(c, s) && AckPoint(s.rcv) == s.snd.curr + 1 <= s.rcv.lastAckAck
    ensures s.snd.lastAck == s.snd.curr + 1 && 1 <= s.snd.window
  {
    hide AckPoint, RcvInv, Honest;
    AckPointIsLeast(s.rcv);
  }

  /** With everything acknowledged and a window of one, a new packet goes out. */
  lemma SendNew(c: Config, s: System) returns (events: seq<Event>, t: System)
    requires Live(c, s) && s.picked == Idle && s.snd.lost == {}
    requires s.snd.lastAck == s.snd.curr + 1 && 1 <= s.snd.window
    requires s.snd.curr + 1 < s.snd.isn + |s.snd.history|
    ensures Inv(c, s) && Leads(c, s, events, t) && Live(c, t)
    ensures s.snd.isn <= s.snd.curr + 1 && Data(s.snd.curr + 1, PacketAt(s.snd, s.snd.curr + 1)) in t.net
    ensures t.picked == Idle && t.rcv == s.rcv && t.accepted == s.accepted
    ensures t.snd.history == s.snd.history && t.snd.isn == s.snd.isn
  {
    hide Live, Leads, Inv, Run;
    LiveIsInv(c, s);
    var e, u := Go(c, s, PickLost);
    LiveIsInv(c, u);
    var e', t' := Go(c, u, SendPicked(1));
    FirstNew(c, s, u);
    LeadsOn(c, s, e, u, e', t');
    events, t := e + e', t';
  }

  lemma FirstNew(c: Config, s: System, u: System)
    requires Live(c, s) && s.picked == Idle && s.snd.lost == {}
    requires s.snd.lastAck == s.snd.curr + 1 && 1 <= s.snd.window
    requires s.snd.curr + 1 < s.snd.isn + |s.snd.history|
    requires u == Step(c, s, PickLost) && Inv(c, u)
    ensures s.snd.isn <= s.snd.curr + 1
    ensures var t := Step(c, u, SendPicked(1));
      && Data(s.snd.curr + 1, PacketAt(s.snd, s.snd.curr + 1)) in t.net
      && t.picked == Idle && t.rcv == s.rcv && t.accepted == s.accepted
      && t.snd.history == s.snd.history && t.snd.isn == s.snd.isn
  {
    hide RcvInv, Honest, Bytes;
  }

  /** From a live state the rest of the stream can always be delivered. */
  lemma {:induction false} Drain(c: Config, s: System) returns (events: seq<Event>, t: System)
    requires Live(c, s) && s.picked == Idle
    ensures Inv(c, s) && Leads(c, s, events, t) && Live(c, t)
    ensures t.accepted == s.accepted == t.rcv.delivered
    decreases s.snd.isn + |s.snd.history| - AckPoint(s.rcv)
  {
    hide Leads, Run;
    LiveIsInv(c, s);
    AckPointIsLeast(s.rcv);
    var e1, s1, w := ReadAll(c, s);
    LiveIsInv(c, s1);
    var a := AckPoint(s1.rcv);
    if a == s1.snd.isn + |s1.snd.history| {
      DeliveredIsPrefix(s1.snd, s1.rcv);
      events, t := e1, s1;
    } else {
      var e2, s2;
      if a <= s1.snd.curr {
        e2, s2 := Resend(c, s1);
      } else {
        e2, s2 := SendOn(c, s1, w);
      }
      LeadsOn(c, s, e1, s1, e2, s2);
      LiveIsInv(c, s2);
      AckPointIsLeast(s2.rcv);
      var e3, s3 := Drain(c, s2);
      LeadsOn(c, s, e1 + e2, s2, e3, s3);
      events, t := e1 + e2 + e3, s3;
    }
  }

  /** All messages under way are lost. */
  function Blackout(s: System): System {
    s.(net := {})
  }

  /** Whatever happened before, and even if nothing under way arrives any more, a continuation
      without further sends delivers everything that was accepted. */
  lemma NeverStuck(c: Config, before: seq<Event>) returns (events: seq<Event>, t: System)
    requires Sensible(c) && 1 <= c.window
    ensures var s := Reached(c, before);
      && Inv(c, Blackout(s)) && Leads(c, Blackout(s), events, t)
      && t.rcv.delivered == s.accepted
  {
    hide Leads;
    StartIsLive(c);
    LiveIsInv(c, Start(c));
    RunIsLive(c, Start(c), before);
    var s := Reached(c, before);
    assert Live(c, Blackout(s));
    var e1, s1 := Finish(c, Blackout(s));
    LiveIsInv(c, s1);
    var e2, s2 := Drain(c, s1);
    LeadsOn(c, Blackout(s), e1, s1, e2, s2);
    events, t := e1 + e2, s2;
  }

  /** Nothing was ever transmitted, and the window does not allow it. */
  ghost predicate Silent(c: Config, s: System) {
    && Inv(c, s) && s.net == {} && s.heard == {} && !s.picked.Retry?
    && s.snd.window < 1 && s.snd.lost == {} && s.snd.lastAck == s.snd.curr + 1
    && s.rcv == Start(c).rcv
  }

  lemma StaysSilent(c: Config, s: System, e: Event)
    requires Silent(c, s)
    ensures Silent(c, Step(c, s, e))
  {
    hide Inv, Send, Accepted;
    StepKeeps(c, s, e);
    match e
    case AppSend(data) =>
      EndsHold(c, s);
      SendShape(s.snd, data);
    case AppRead(len) =>
      assert Unread(s.rcv.got, s.rcv.readNo, s.rcv.acked, 0) == [];
    case _ =>
  }

  lemma {:induction false} RunIsSilent(c: Config, s: System, events: seq<Event>)
    requires Silent(c, s)
    ensures Silent(c, Run(c, s, events))
    decreases |events|
  {
    if |events| > 0 {
      StaysSilent(c, s, events[0]);
      hide Inv, Step;
      RunIsSilent(c, Step(c, s, events[0]), events[1..]);
    }
  }

  /** The first window must be at least one: without it no run ever delivers a byte. */
  lemma WindowIsNeeded(c: Config, events: seq<Event>)
    requires Sensible(c) && c.window < 1
    ensures Reached(c, events).rcv.delivered == []
  {
    StartHolds(c);
    RunIsSilent(c, Start(c), events);
  }
}

/** Both halves of a connection driven along a run: the code's handlers, called in any order with
    messages delivered late, repeatedly or never, take the steps of `Runs`, so that what holds of
    all runs holds of what they return. */
module Endpoints {
  import opened Basics
  import opened SeqNo
  import opened LossCells
  import opened Nak
  import opened SndLossLists
  import opened SndBuffers
  import opened RcvBuffers
  import opened Protocol
  import opened Senders
  import opened Receivers
  import opened Runs
  import Progress

  /** The number is less than the comparison threshold behind what the sender sends next. */
  predicate Alive(s: System, x: int) {
    s.snd.curr + 1 - x < SEQ_TH
  }

  predicate AllAlive(s: System, ranges: seq<Span>) {
    forall k :: 0 <= k < |ranges| ==> Alive(s, ranges[k].lo)
  }

  /** The lifetime of packets: what is delivered was sent, and every number in it, a number picked
      for retransmission and the last acknowledgement confirmed are alive. */
  ghost predicate Timely(s: System, e: Event) {
    match e
    case AppSend(_) => true
    case PickLost => true
    case SendPicked(_) => s.picked.Retry? ==> Alive(s, s.picked.no)
    case Expire => true
    case ToReceiver(d) => d in s.net && d.Data? && Alive(s, d.no)
    case EmitAck(_, _) => Alive(s, s.rcv.lastAckAck)
    case ToSender(m) => m in s.net && (
      match m
      case Data(_, _) => false
      case Ack(ack, _) => Alive(s, ack)
      case LiteAck(ack) => Alive(s, ack)
      case Loss(ranges) => AllAlive(s, ranges))
    case Ack2(ack) => ack in s.heard && Alive(s, ack) && Alive(s, s.rcv.lastAckAck)
    case AppRead(_) => true
  }

  /** Parameters as the handshake agrees them: a receive buffer within the flight window, which
      fits the comparison window. */
  predicate Agreed(c: Config) {
    IsSeq(c.isn) && 0 < c.mss && 2 <= c.rcvSize <= c.window < SEQ_TH
  }

  lemma StartIs(c: Config)
    requires Agreed(c)
    ensures var s := Start(c);
            && Progress.Live(c, s) && s.picked == Idle && s.accepted == [] && s.rcv.delivered == []
            && s.snd == Snd(c.isn, c.mss, c.limit, [], 1, c.isn, c.isn, c.isn - 1, c.window, c.window, {}, false)
            && s.rcv == Rcv(c.isn, c.rcvSize, map[], c.isn, 0, c.isn, c.isn - 1, {}, c.isn, [])
  {
    hide Progress.Live;
    Progress.StartIsLive(c);
  }

  ghost function SenderRepr(s: Sender): set<object>
    reads s.buffer
  {
    {s, s.lossList, s.lossList.data1, s.lossList.data2, s.lossList.next, s.buffer} + s.buffer.repr
  }

  ghost function ReceiverRepr(r: Receiver): set<object>
    reads r.buffer
  {
    {r, r.lossList, r.lossList.data1, r.lossList.data2, r.lossList.next, r.lossList.prior}
    + {r.buffer, r.buffer.units, r.buffer.unitQueue} + r.buffer.repr
  }

  class Connection {
    const sender: Sender
    const receiver: Receiver
    var idle: bool
    var picked: int          // what the transmitting thread took from the loss list
    var taken: seq<byte>     // all bytes taken by `send`
    var read: seq<byte>      // all bytes returned by `recv`

    ghost const c: Config
    ghost var sys: System

    ghost predicate Apart() {
      {sender.lossList.data1, sender.lossList.data2, sender.lossList.next}
      !! {receiver.lossList.data1, receiver.lossList.data2, receiver.lossList.next, receiver.lossList.prior}
    }

    ghost function Repr(): set<object>
      reads sender.buffer, receiver.buffer
    {
      {this} + SenderRepr(sender) + ReceiverRepr(receiver)
    }

    ghost predicate Picks(p: Picked)
      reads this
    {
      match p
      case Idle => idle
      case Retry(no) => !idle && picked == Wire(no)
      case Fresh => !idle && picked < 0
    }

    /** The objects are in the state that the run has reached. */
    ghost predicate Valid()
      reads this, sender, sender.lossList, sender.lossList.data1, sender.lossList.data2, sender.lossList.next,
            sender.buffer, sender.buffer.repr,
            receiver, receiver.lossList, receiver.lossList.data1, receiver.lossList.data2, receiver.lossList.next,
            receiver.lossList.prior, receiver.buffer, receiver.buffer.units, receiver.buffer.repr
    {
      && sender.Valid() && receiver.Valid() && Apart()
      && Agreed(c) && Progress.Live(c, sys) && sender.st == sys.snd && receiver.st == sys.rcv
      && sender.lossList.size == 2 * c.window && Picks(sys.picked)
      && taken == sys.accepted && read == sys.rcv.delivered
    }

    constructor (isn: int, mss: int, limit: int, rcvSize: int, window: int)
      requires Agreed(Config(isn, mss, limit, rcvSize, window))
      ensures Valid() && fresh(Repr()) && c == Config(isn, mss, limit, rcvSize, window) && sys == Start(c)
    {
      hide Sender.Valid, Receiver.Valid, Progress.Live, Wire, Start;
      StartIs(Config(isn, mss, limit, rcvSize, window));
      sender := new Sender(isn, mss, window, limit);
      var queue := new UnitQueue();
      receiver := new Receiver(isn, rcvSize, window, queue);
      idle, picked, taken, read := true, -1, [], [];
      c := Config(isn, mss, limit, rcvSize, window);
      sys := Start(Config(isn, mss, limit, rcvSize, window));
      new;
      assert fresh(SenderRepr(sender));
      assert fresh(ReceiverRepr(receiver));
      hide SenderRepr, ReceiverRepr;
    }

    lemma Counted()
      requires Valid()
      ensures taken == sys.accepted && read == sys.rcv.delivered
    {
    }

    /** Takes note of the state reached. */
    ghost method Reach(t: System)
      requires sender.Valid() && receiver.Valid() && Apart()
      requires Agreed(c) && Progress.Live(c, t) && sender.st == t.snd && receiver.st == t.rcv
      requires sender.lossList.size == 2 * c.window && Picks(t.picked)
      requires taken == t.accepted && read == t.rcv.delivered
      modifies this`sys
      ensures Valid() && sys == t
    {
      hide Sender.Valid, Receiver.Valid, Progress.Live, Wire;
      sys := t;
    }

    /** The application sends. */
    method DoSend(data: seq<byte>)
      requires Valid()
      modifies Repr()
      ensures Valid() && fresh(Repr() - old(Repr())) && sys == Step(c, old(sys), AppSend(data))
    {
      hide Sender.Valid, Receiver.Valid, Progress.Live, Wire, Inv, Protocol.Send, Accepted, SndInv;
      Progress.LiveIsInv(c, sys);
      Progress.LiveKeeps(c, sys, AppSend(data));
      EndsHold(c, sys);
      AcceptedFits(sys.snd, data);
      var n := sender.Send(data);
      taken := taken + data[..n];
      Reach(Step(c, sys, AppSend(data)));
    }

    /** The transmitting thread looks for a lost packet, unless it has one in hand. */
    method DoPick()
      requires Valid()
      modifies Repr()
      ensures Valid() && fresh(Repr() - old(Repr())) && sys == Step(c, old(sys), PickLost)
    {
      hide Sender.Valid, Receiver.Valid, Progress.Live, Wire, Inv, Pick;
      Progress.LiveIsInv(c, sys);
      Progress.LiveKeeps(c, sys, PickLost);
      if idle {
        ghost var p;
        picked, p := sender.PickLost();
        idle := false;
      }
      Reach(Step(c, sys, PickLost));
    }

    /** It sends what it has picked: the packet of a message of the run, with its number on the wire. */
    method DoTransmit(cwnd: int) returns (ok: bool, seqno: int, payload: seq<byte>, header: Header, ghost no: int)
      requires Valid() && Timely(sys, SendPicked(cwnd))
      modifies Repr()
      ensures Valid() && fresh(Repr() - old(Repr())) && sys == Step(c, old(sys), SendPicked(cwnd))
      ensures ok ==> seqno == Wire(no) && Data(no, Packet(payload, header)) in sys.net
    {
      hide Sender.Valid, Receiver.Valid, Progress.Live, Wire, Inv, Transmit, SndInv;
      Progress.LiveIsInv(c, sys);
      Progress.LiveKeeps(c, sys, SendPicked(cwnd));
      EndsHold(c, sys);
      ok, seqno, payload, header, no := false, -1, [], Header(false, false, false, 0), 0;
      if !idle {
        PickedAlive(c, sys);
        ok, seqno, payload, header, no := sender.SendPicked(picked, cwnd, sys.picked);
        idle := true;
      } else {
        IdleSendsNothing(sys.snd, cwnd);
      }
      Reach(Step(c, sys, SendPicked(cwnd)));
    }

    /** The retransmission timer expires. */
    method DoExpire()
      requires Valid()
      modifies Repr()
      ensures Valid() && fresh(Repr() - old(Repr())) && sys == Step(c, old(sys), Expire)
    {
      hide Sender.Valid, Receiver.Valid, Progress.Live, Wire, Inv, OnTimeout;
      Progress.LiveIsInv(c, sys);
      Progress.LiveKeeps(c, sys, Expire);
      sender.CheckTimers();
      Reach(Step(c, sys, Expire));
    }

    /** A data packet arrives; a report goes out at once when packets before it are missing. */
    method DoData(d: Message) returns (report: seq<int>)
      requires Valid() && Timely(sys, ToReceiver(d))
      modifies Repr()
      ensures Valid() && fresh(Repr() - old(Repr())) && sys == Step(c, old(sys), ToReceiver(d))
      ensures report != [] ==> exists ranges :: Loss(ranges) in sys.net && report == Encode(ranges)
    {
      hide Sender.Valid, Receiver.Valid, Progress.Live, Wire, Inv, OnData, RcvInv, DataIndex;
      Progress.LiveIsInv(c, sys);
      Progress.LiveKeeps(c, sys, ToReceiver(d));
      DataAlive(c, sys, d);
      EndsHold(c, sys);
      DataOfIndex(sys.rcv, d.no, d.packet.payload);
      DataShape(sys.rcv, d.no, d.packet.payload);
      var unit := new Unit(d.packet.payload);
      var accepted;
      accepted, report := receiver.ProcessData(unit, Wire(d.no));
      Reach(Step(c, sys, ToReceiver(d)));
    }

    /** The receiver acknowledges, if it has to. */
    method DoAck(lite: bool, due: bool) returns (ok: bool, ack: int, window: int, ghost no: int)
      requires Valid() && Timely(sys, EmitAck(lite, due))
      modifies Repr()
      ensures Valid() && fresh(Repr() - old(Repr())) && sys == Step(c, old(sys), EmitAck(lite, due))
      ensures ok ==> ack == Wire(no) && (if lite then LiteAck(no) else Ack(no, window)) in sys.net
    {
      hide Sender.Valid, Receiver.Valid, Progress.Live, Wire, Inv, Acknowledge, AckPoint, RcvInv;
      Progress.LiveIsInv(c, sys);
      Progress.LiveKeeps(c, sys, EmitAck(lite, due));
      ConfirmedAlive(c, sys);
      EndsHold(c, sys);
      AcknowledgeKeeps(sys.rcv, lite, due);
      ok, ack, window, no := receiver.SendAck(lite, due);
      Reach(Step(c, sys, EmitAck(lite, due)));
    }

    /** A full acknowledgement reaches the sender. */
    method DoHearAck(no: int, window: int)
      requires Valid() && Timely(sys, ToSender(Ack(no, window)))
      modifies Repr()
      ensures Valid() && fresh(Repr() - old(Repr())) && sys == Step(c, old(sys), ToSender(Ack(no, window)))
    {
      hide Sender.Valid, Receiver.Valid, Progress.Live, Wire, Inv, OnAck, AckSound, AckIndex, SndInv;
      Progress.LiveIsInv(c, sys);
      Progress.LiveKeeps(c, sys, ToSender(Ack(no, window)));
      AckAlive(c, sys, no, window);
      EndsHold(c, sys);
      AckOfIndex(sys.snd, no, window);
      sender.ProcessAck(Wire(no), window);
      Reach(Step(c, sys, ToSender(Ack(no, window))));
    }

    lemma HearsLite(no: int)
      requires sender.Valid() && Abs(no - sender.st.lastAck) < SEQ_TH && no <= sender.st.curr + 1
      ensures IsSeq(Wire(no)) && OnLiteAck(sender.st, LiteIndex(sender.st, Wire(no))) == OnLiteAck(sender.st, no)
      ensures SeqCmp(Wire(no), sender.sndLastAck) >= 0 ==>
                Ahead(sender.sndLastAck, Wire(no)) <= sender.st.curr + 1 - sender.st.lastAck
    {
      hide SndLossList.Valid, SndBuffer.Valid, SndLossList.Lost, Tail, Wire, SeqCmp, Ahead, OnLiteAck, LiteIndex,
        NoneEmpty;
      LiteOfIndex(sender.st, no);
      StepAgrees(no);
    }

    /** A light acknowledgement reaches the sender. */
    method DoHearLite(no: int)
      requires Valid() && Timely(sys, ToSender(LiteAck(no)))
      modifies Repr()
      ensures Valid() && fresh(Repr() - old(Repr())) && sys == Step(c, old(sys), ToSender(LiteAck(no)))
    {
      hide Sender.Valid, Receiver.Valid, Progress.Live, Wire, Inv, OnLiteAck, LiteIndex, Ahead, SeqCmp;
      Progress.LiveIsInv(c, sys);
      Progress.LiveKeeps(c, sys, ToSender(LiteAck(no)));
      LiteAlive(c, sys, no);
      HearsLite(no);
      sender.ProcessLiteAck(Wire(no));
      Reach(Step(c, sys, ToSender(LiteAck(no))));
    }

    /** A report of ranges near the sender's own is sound, and is read as these ranges. */
    lemma HearsLoss(ranges: seq<Span>)
      requires sender.Valid() && Reports(Encode(ranges), ranges)
      requires forall k :: 0 <= k < |ranges| ==> NearBoth(ranges[k], sender.st.lastAck, sender.st.curr)
      ensures var items := Decode(Encode(ranges)).items;
              && Decode(Encode(ranges)).Report? && AllWords(Encode(ranges))
              && AllSound(items, sender.sndLastAck, Outstanding(sender.st), sender.sndCurrSeqNo)
              && OnLoss(sender.st, Readings(items, sender.st.lastAck, sender.sndCurrSeqNo)) == OnLoss(sender.st, ranges)
    {
      hide SndLossList.Valid, SndBuffer.Valid, SndLossList.Lost, Tail, Wire, IsLast, NearBoth, AllSound, AllWords,
        Decode, Encode, Items, Readings, TakenFrom, Secure, NoneEmpty, IsCurrent;
      sender.LastInFlight();
      HonestReadings(ranges, sender.st.lastAck, sender.st.curr, sender.sndCurrSeqNo);
    }

    /** A loss report reaches the sender, as the words that encode it. */
    method DoHearLoss(ranges: seq<Span>)
      requires Valid() && Timely(sys, ToSender(Loss(ranges)))
      modifies Repr()
      ensures Valid() && fresh(Repr() - old(Repr())) && sys == Step(c, old(sys), ToSender(Loss(ranges)))
    {
      hide Sender.Valid, Receiver.Valid, Progress.Live, Wire, Inv, OnLoss, AllSound, Readings, Decode, Encode,
        AllWords, SndInv;
      Progress.LiveIsInv(c, sys);
      Progress.LiveKeeps(c, sys, ToSender(Loss(ranges)));
      LossAlive(c, sys, ranges);
      EndsHold(c, sys);
      EncodeReports(ranges);
      HearsLoss(ranges);
      sender.ProcessNak(Encode(ranges));
      Reach(Step(c, sys, ToSender(Loss(ranges))));
    }

    /** The sender's confirmation of an acknowledgement reaches the receiver. */
    method DoAck2(no: int)
      requires Valid() && Timely(sys, Ack2(no))
      modifies Repr()
      ensures Valid() && fresh(Repr() - old(Repr())) && sys == Step(c, old(sys), Ack2(no))
    {
      hide Sender.Valid, Receiver.Valid, Progress.Live, Wire, Inv, OnAck2, RcvInv;
      Progress.LiveIsInv(c, sys);
      Progress.LiveKeeps(c, sys, Ack2(no));
      Ack2Alive(c, sys, no);
      EndsHold(c, sys);
      Ack2Keeps(sys.rcv, no);
      receiver.ProcessAck2(Wire(no), no);
      Reach(Step(c, sys, Ack2(no)));
    }

    /** The application reads. */
    method DoRead(len: int)
      requires Valid()
      modifies Repr()
      ensures Valid() && fresh(Repr() - old(Repr())) && sys == Step(c, old(sys), AppRead(len))
    {
      hide Sender.Valid, Receiver.Valid, Progress.Live, Wire, Inv, Read;
      Progress.LiveIsInv(c, sys);
      Progress.LiveKeeps(c, sys, AppRead(len));
      var data := receiver.Recv(len);
      read := read + data;
      Reach(Step(c, sys, AppRead(len)));
    }

    /** Any event of a run. */
    method Do(e: Event)
      requires Valid() && Timely(sys, e)
      modifies Repr()
      ensures Valid() && fresh(Repr() - old(Repr())) && sys == Step(c, old(sys), e)
    {
      hide Valid, Repr, Step, Inv;
      match e
      case AppSend(data) => DoSend(data);
      case PickLost => DoPick();
      case SendPicked(cwnd) => var _, _, _, _, _ := DoTransmit(cwnd);
      case Expire => DoExpire();
      case ToReceiver(d) => var _ := DoData(d);
      case EmitAck(lite, due) => var _, _, _, _ := DoAck(lite, due);
      case ToSender(m) =>
        match m {
          case Ack(no, window) => DoHearAck(no, window);
          case LiteAck(no) => DoHearLite(no);
          case Loss(ranges) => DoHearLoss(ranges);
          case Data(_, _) => assert false;
        }
      case Ack2(no) => DoAck2(no);
      case AppRead(len) => DoRead(len);
    }
  }

  /** The parameters and each event in its state: nothing outlives half the number space. */
  ghost predicate AllTimely(c: Config, events: seq<Event>)
    requires Agreed(c)
  {
    forall i :: 0 <= i < |events| ==> Timely(Reached(c, events[..i]), events[i])
  }

  lemma ReachedNext(c: Config, events: seq<Event>, i: nat)
    requires Agreed(c) && i < |events|
    ensures Inv(c, Reached(c, events[..i]))
    ensures Reached(c, events[..i + 1]) == Step(c, Reached(c, events[..i]), events[i])
  {
    hide Inv, Step, Run;
    StartHolds(c);
    RunKeeps(c, Start(c), events[..i]);
    var s := Reached(c, events[..i]);
    Progress.RunTwice(c, Start(c), events[..i], [events[i]]);
    assert events[..i + 1] == events[..i] + [events[i]];
    Progress.RunOne(c, s, events[i]);
  }

  /** End to end, for the code's own objects: whatever run they are driven along, the bytes that
      `recv` returned are a prefix of the bytes that `send` took, and all of them once every packet
      was read. */
  method Drive(isn: int, mss: int, limit: int, rcvSize: int, window: int, events: seq<Event>)
    returns (taken: seq<byte>, read: seq<byte>, ghost s: System)
    requires Agreed(Config(isn, mss, limit, rcvSize, window))
    requires AllTimely(Config(isn, mss, limit, rcvSize, window), events)
    ensures s == Reached(Config(isn, mss, limit, rcvSize, window), events)
    ensures taken == s.accepted && read == s.rcv.delivered
    ensures read <= taken && (s.rcv.readNo == s.snd.isn + |s.snd.history| ==> read == taken)
  {
    hide Connection.Valid, Reached, Step, Timely, Inv;
    ghost var c := Config(isn, mss, limit, rcvSize, window);
    var connection := new Connection(isn, mss, limit, rcvSize, window);
    NothingReached(c);
    for i := 0 to |events|
      invariant connection.Valid() && fresh(connection.Repr()) && connection.c == c
      invariant connection.sys == Reached(c, events[..i])
    {
      ReachedNext(c, events, i);
      connection.Do(events[i]);
    }
    assert events[..|events|] == events;
    StreamIsPrefix(c, events);
    connection.Counted();
    taken, read, s := connection.taken, connection.read, connection.sys;
  }

  lemma NothingReached(c: Config)
    requires Agreed(c)
    ensures Reached(c, []) == Start(c)
  {
  }

  lemma AcceptedFits(s: Snd, data: seq<byte>)
    requires SndInv(s)
    ensures Accepted(s, data) <= |data|
  {
  }

  lemma IdleSendsNothing(s: Snd, cwnd: int)
    requires SndInv(s)
    ensures Transmit(s, Idle, cwnd) == (s, None)
  {
  }

  // ---------- what the lifetime gives the handlers ----------

  lemma PickedAlive(c: Config, s: System)
    requires Progress.Live(c, s) && Timely(s, SendPicked(0))
    ensures PickedInv(s.snd, s.picked) && (s.picked.Retry? ==> s.snd.acked - s.picked.no < SEQ_TH)
  {
  }

  /** No more than two windows lie between what the receiver has acknowledged and what the sender
      sends. */
  lemma DataAlive(c: Config, s: System, d: Message)
    requires Progress.Live(c, s) && Agreed(c) && Timely(s, ToReceiver(d))
    ensures s.rcv.acked - (MODULUS - s.rcv.size) < d.no < s.rcv.acked + MODULUS && s.rcv.size < SEQ_TH
  {
    ArrivesHonest(c, s, d);
    LastAckArrived(c, s);
    hide Honest, NotchFits, Stream, Part, Bytes;
  }

  lemma LastAckArrived(c: Config, s: System)
    requires Progress.Live(c, s)
    ensures s.snd.lastAck <= s.rcv.curr + 1
  {
    hide Honest, NotchFits, Stream, Part, Bytes;
    assert s.rcv.isn < s.snd.lastAck ==> s.snd.lastAck - 1 in s.rcv.got;
  }

  lemma ConfirmedAlive(c: Config, s: System)
    requires Progress.Live(c, s) && Alive(s, s.rcv.lastAckAck)
    ensures Abs(s.rcv.acked - s.rcv.lastAckAck) < SEQ_TH && Abs(s.rcv.curr + 1 - s.rcv.lastAckAck) < SEQ_TH
  {
    hide Honest, NotchFits, Stream, Part, Bytes;
  }

  lemma SenderSpan(c: Config, s: System)
    requires Progress.Live(c, s) && Agreed(c)
    ensures s.snd.granted < SEQ_TH
    ensures s.snd.acked <= s.snd.lastAck <= s.snd.curr + 1 < s.snd.acked + SEQ_TH
  {
    hide Honest, RcvInv, Bytes;
  }

  lemma AckAlive(c: Config, s: System, no: int, window: int)
    requires Progress.Live(c, s) && Agreed(c) && Timely(s, ToSender(Ack(no, window)))
    ensures AckNear(s.snd, no) && s.snd.granted < SEQ_TH
    ensures window <= 2 * c.window && window < SEQ_TH
  {
    SenderSpan(c, s);
    AckTruth(c, s, Ack(no, window));
    hide Progress.Live;
  }

  /** What an acknowledgement under way says. */
  lemma AckTruth(c: Config, s: System, m: Message)
    requires Progress.Live(c, s) && m in s.net && (m.Ack? || m.LiteAck?)
    ensures m.ack <= s.snd.curr + 1 && (m.Ack? ==> m.window <= WindowBound(c)) && c.rcvSize == s.rcv.size
  {
    hide SndInv, RcvInv, Bytes;
    assert Honest(c, s.snd, s.rcv, m);
  }

  lemma LiteAlive(c: Config, s: System, no: int)
    requires Progress.Live(c, s) && Agreed(c) && Timely(s, ToSender(LiteAck(no)))
    ensures Abs(no - s.snd.lastAck) < SEQ_TH && no <= s.snd.curr + 1
  {
    SenderSpan(c, s);
    AckTruth(c, s, LiteAck(no));
    hide Progress.Live;
  }

  lemma LossAlive(c: Config, s: System, ranges: seq<Span>)
    requires Progress.Live(c, s) && Agreed(c) && Timely(s, ToSender(Loss(ranges)))
    ensures s.snd.granted < SEQ_TH
    ensures forall k :: 0 <= k < |ranges| ==> NearBoth(ranges[k], s.snd.lastAck, s.snd.curr)
  {
    SenderSpan(c, s);
    LossTruth(c, s, ranges);
    hide Progress.Live;
    assert forall k :: 0 <= k < |ranges| ==> Alive(s, ranges[k].lo);
  }

  lemma LossTruth(c: Config, s: System, ranges: seq<Span>)
    requires Progress.Live(c, s) && Loss(ranges) in s.net
    ensures forall k :: 0 <= k < |ranges| ==> ranges[k].lo <= ranges[k].hi <= s.snd.curr
  {
    hide SndInv, RcvInv, Bytes;
    assert Honest(c, s.snd, s.rcv, Loss(ranges));
  }

  lemma Ack2Alive(c: Config, s: System, no: int)
    requires Progress.Live(c, s) && Timely(s, Ack2(no))
    ensures Abs(no - s.rcv.lastAckAck) < SEQ_TH
  {
    hide Honest, NotchFits, Stream, Part, Bytes;
  }
}

/** Runs of the whole system: any sequence of sends, transmissions, timeouts, deliveries,
    acknowledgements and reads over a channel that loses, repeats and reorders messages.

    A message once sent stays in the channel and may be delivered at any later time, any
    number of times, or never. */
module Runs {
  import opened Basics
  import opened LossCells
  import opened SndBuffers
  import opened RcvBuffers
  import opened Protocol
  import opened Effects

  /** Both ends, what the transmitting thread has picked, every message sent so far, all bytes
      taken from the application, and the full acknowledgements the sender has heard, any of
      which it may have confirmed by an ACK2. */
  datatype System = System(
    snd: Snd, picked: Picked, rcv: Rcv, net: set<Message>, accepted: seq<byte>, heard: set<int>)

  /** One step; deliveries name the message they deliver, an ACK2 the number it confirms. */
  datatype Event =
    | AppSend(data: seq<byte>)
    | PickLost
    | SendPicked(cwnd: int)
    | Expire
    | ToReceiver(message: Message)
    | EmitAck(lite: bool, due: bool)
    | ToSender(message: Message)
    | Ack2(ack: int)
    | AppRead(len: int)

  /** The agreed parameters: first number, payload size, buffer sizes and first window. */
  datatype Config = Config(isn: int, mss: int, limit: int, rcvSize: int, window: int)

  predicate Sensible(c: Config) {
    0 < c.mss && 2 <= c.rcvSize && 0 <= c.window
  }

  function Start(c: Config): System {
    System(Snd(c.isn, c.mss, c.limit, [], 1, c.isn, c.isn, c.isn - 1, c.window, c.window, {}, false), Idle,
           Rcv(c.isn, c.rcvSize, map[], c.isn, 0, c.isn, c.isn - 1, {}, c.isn, []), {}, [], {})
  }

  function Post(net: set<Message>, m: Option<Message>): set<Message> {
    if m.Some? then net + {m.value} else net
  }

  /** The state after one event; delivering what was never sent does nothing. */
  ghost function Step(c: Config, s: System, e: Event): System
    requires Inv(c, s)
  {
    match e
    case AppSend(data) =>
      s.(snd := Send(s.snd, data), accepted := s.accepted + data[..Accepted(s.snd, data)])
    case PickLost =>
      if s.picked.Idle? then
        var (t, p) := Pick(s.snd);
        s.(snd := t, picked := p)
      else s
    case SendPicked(cwnd) =>
      var (t, m) := Transmit(s.snd, s.picked, cwnd);
      s.(snd := t, picked := Idle, net := Post(s.net, m))
    case Expire =>
      s.(snd := OnTimeout(s.snd))
    case ToReceiver(d) =>
      if d !in s.net || !d.Data? then s
      else
        var (t, m) := OnData(s.rcv, d.no, d.packet.payload);
        s.(rcv := t, net := Post(s.net, m))
    case EmitAck(lite, due) =>
      var (t, m) := Acknowledge(s.rcv, lite, due);
      s.(rcv := t, net := Post(s.net, m))
    case ToSender(m) =>
      if m !in s.net then s
      else s.(snd := Hear(s.snd, m), heard := if m.Ack? then s.heard + {m.ack} else s.heard)
    case Ack2(ack) =>
      if ack !in s.heard then s else s.(rcv := OnAck2(s.rcv, ack))
    case AppRead(len) =>
      s.(rcv := Read(s.rcv, len))
  }

  /** A control message at the sender. */
  function Hear(s: Snd, m: Message): Snd {
    match m
    case Data(_, _) => s
    case Ack(ack, window) => OnAck(s, ack, window)
    case LiteAck(ack) => OnLiteAck(s, ack)
    case Loss(ranges) => OnLoss(s, ranges)
  }

  ghost function Run(c: Config, s: System, events: seq<Event>): System
    requires Inv(c, s)
    decreases |events|
  {
    if events == [] then s
    else
      StepKeeps(c, s, events[0]);
      Run(c, Step(c, s, events[0]), events[1..])
  }

  // ---------- what every reachable state satisfies ----------

  /** The largest window a sender of this connection can ever be granted. */
  function WindowBound(c: Config): int {
    Max(c.window, Max(c.rcvSize - 1, 2))
  }

  /** A message tells the truth about both ends: packets carry the queued bytes, acknowledgements
      and loss reports only speak of what happened, and a window above the floor ends within the
      receive buffer. */
  predicate Honest(c: Config, snd: Snd, rcv: Rcv, m: Message) {
    match m
    case Data(no, packet) =>
      snd.isn <= no <= snd.curr && no < snd.isn + |snd.history| && packet == snd.history[no - snd.isn]
    case Ack(ack, window) =>
      && rcv.isn <= ack <= rcv.curr + 1 && window <= WindowBound(c) && AllArrived(rcv, ack)
      && (ack + window <= Edge(rcv) || window == 2)
    case LiteAck(ack) =>
      rcv.isn <= ack <= rcv.curr + 1 && AllArrived(rcv, ack)
    case Loss(ranges) =>
      forall k :: 0 <= k < |ranges| ==> rcv.isn <= ranges[k].lo <= ranges[k].hi <= rcv.curr
  }

  predicate AllArrived(rcv: Rcv, ack: int) {
    forall x :: rcv.isn <= x < ack ==> x in rcv.got
  }

  predicate SameBytes(snd: Snd, rcv: Rcv) {
    forall x :: x in rcv.got ==>
      snd.isn <= x < snd.isn + |snd.history| && rcv.got[x] == snd.history[x - snd.isn].payload
  }

  ghost predicate Inv(c: Config, s: System) {
    && SndInv(s.snd) && PickedInv(s.snd, s.picked) && RcvInv(s.rcv)
    && s.snd.isn == s.rcv.isn == c.isn && s.snd.mss == c.mss
    && s.rcv.size == c.rcvSize && 2 <= c.rcvSize
    && s.rcv.curr <= s.snd.curr
    && s.snd.granted <= WindowBound(c) && !s.snd.broken
    && Bytes(s.snd.history) == s.accepted
    && SameBytes(s.snd, s.rcv)
    && forall m :: m in s.net ==> Honest(c, s.snd, s.rcv, m)
  }

  lemma EndsHold(c: Config, s: System)
    requires Inv(c, s)
    ensures SndInv(s.snd) && PickedInv(s.snd, s.picked) && RcvInv(s.rcv)
  {
  }

  // ---------- one step ----------

  /** What was true of a message stays true as both ends move on. */
  lemma HonestStays(c: Config, snd: Snd, rcv: Rcv, snd': Snd, rcv': Rcv, m: Message)
    requires Honest(c, snd, rcv, m)
    requires snd.isn == snd'.isn && rcv.isn == rcv'.isn && snd.history <= snd'.history && snd.curr <= snd'.curr
    requires rcv.curr <= rcv'.curr && rcv.got.Keys <= rcv'.got.Keys && Edge(rcv) <= Edge(rcv')
    ensures Honest(c, snd', rcv', m)
  {
  }

  lemma StepKeeps(c: Config, s: System, e: Event)
    requires Inv(c, s)
    ensures Inv(c, Step(c, s, e))
  {
    hide Inv;
    match e
    case AppSend(data) => SendStep(c, s, data);
    case PickLost => PickStep(c, s);
    case SendPicked(cwnd) => TransmitStep(c, s, cwnd);
    case Expire => TimeoutStep(c, s);
    case ToReceiver(d) =>
      if d in s.net && d.Data? {
        DataStep(c, s, d);
      }
    case EmitAck(lite, due) => AckStep(c, s, lite, due);
    case ToSender(m) =>
      if m in s.net {
        ControlStep(c, s, m);
      }
    case Ack2(ack) => Ack2Step(c, s, ack);
    case AppRead(len) => ReadStep(c, s, len);
  }

  lemma StillHonest(c: Config, s: System, t: System)
    requires Inv(c, s) && t.net == s.net
    requires s.snd.isn == t.snd.isn && s.rcv.isn == t.rcv.isn && s.snd.history <= t.snd.history
    requires s.snd.curr <= t.snd.curr && s.rcv.curr <= t.rcv.curr && s.rcv.got.Keys <= t.rcv.got.Keys
    requires Edge(s.rcv) <= Edge(t.rcv)
    ensures forall m :: m in t.net ==> Honest(c, t.snd, t.rcv, m)
  {
    forall m | m in t.net ensures Honest(c, t.snd, t.rcv, m) {
      HonestStays(c, s.snd, s.rcv, t.snd, t.rcv, m);
    }
  }

  lemma SendStep(c: Config, s: System, data: seq<byte>)
    requires Inv(c, s)
    ensures Inv(c, Step(c, s, AppSend(data)))
  {
    hide SndInv, RcvInv, Honest, Bytes, Send, Accepted;
    SendKeeps(s.snd, data);
    SendShape(s.snd, data);
    StillHonest(c, s, Step(c, s, AppSend(data)));
  }

  lemma PickStep(c: Config, s: System)
    requires Inv(c, s)
    ensures Inv(c, Step(c, s, PickLost))
  {
    hide Pick, SndInv, RcvInv, Honest;
    PickKeeps(s.snd);
    StillHonest(c, s, Step(c, s, PickLost));
  }

  /** A transmitted packet carries the queued bytes of its number. */
  lemma PackedIsHonest(c: Config, s: System, cwnd: int)
    requires SndInv(s.snd) && PickedInv(s.snd, s.picked)
    ensures var (t, m) := Transmit(s.snd, s.picked, cwnd);
            m.Some? ==> Honest(c, t, s.rcv, m.value)
  {
    hide Transmit;
    TransmitKeeps(s.snd, s.picked, cwnd);
  }

  lemma TransmitStep(c: Config, s: System, cwnd: int)
    requires Inv(c, s)
    ensures Inv(c, Step(c, s, SendPicked(cwnd)))
  {
    hide Transmit, SndInv, RcvInv, Honest;
    TransmitKeeps(s.snd, s.picked, cwnd);
    PackedIsHonest(c, s, cwnd);
    StillHonest(c, s, s.(snd := Transmit(s.snd, s.picked, cwnd).0));
  }

  lemma TimeoutStep(c: Config, s: System)
    requires Inv(c, s)
    ensures Inv(c, Step(c, s, Expire))
  {
    hide OnTimeout, SndInv, RcvInv, Honest;
    TimeoutKeeps(s.snd);
    TimeoutShape(s.snd);
    StillHonest(c, s, s.(snd := OnTimeout(s.snd)));
  }

  /** A packet that arrives carries the bytes its sender queued, and was sent. */
  lemma ArrivesHonest(c: Config, s: System, d: Message)
    requires Inv(c, s) && d in s.net && d.Data?
    ensures d.no <= s.snd.curr && s.snd.isn <= d.no < s.snd.isn + |s.snd.history|
            && d.packet == s.snd.history[d.no - s.snd.isn]
  {
    hide SndInv, RcvInv;
    assert Honest(c, s.snd, s.rcv, d);
  }

  /** A gap report only names numbers between the last packet seen and the new one. */
  lemma ReportIsHonest(c: Config, s: System, d: Message)
    requires GapsInv(s.rcv) && d.Data?
    ensures var (t, m) := OnData(s.rcv, d.no, d.packet.payload);
            m.Some? ==> Honest(c, s.snd, t, m.value)
  {
    hide OnData;
    DataShape(s.rcv, d.no, d.packet.payload);
  }

  lemma DataStep(c: Config, s: System, d: Message)
    requires Inv(c, s) && d in s.net && d.Data?
    ensures Inv(c, Step(c, s, ToReceiver(d)))
  {
    hide OnData, GapsInv, NotchFits, Stream, Part, SndInv, Honest;
    var t := OnData(s.rcv, d.no, d.packet.payload).0;
    ArrivesHonest(c, s, d);
    DataShape(s.rcv, d.no, d.packet.payload);
    DataKeeps(s.rcv, d.no, d.packet.payload);
    ReportIsHonest(c, s, d);
    StillHonest(c, s, s.(rcv := t));
  }

  /** An acknowledgement names the least packet missing and a window within the bound. */
  lemma AcknowledgedIsHonest(c: Config, s: System, lite: bool, due: bool)
    requires RcvInv(s.rcv) && s.rcv.size == c.rcvSize
    ensures var (t, m) := Acknowledge(s.rcv, lite, due);
            m.Some? ==> Honest(c, s.snd, t, m.value)
  {
    hide Acknowledge, NotchFits, Stream, Part;
    AckPointIsLeast(s.rcv);
    AcknowledgeKeeps(s.rcv, lite, due);
    GrantsToEdge(s.rcv, lite, due);
    hide AckPoint;
  }

  lemma AckStep(c: Config, s: System, lite: bool, due: bool)
    requires Inv(c, s)
    ensures Inv(c, Step(c, s, EmitAck(lite, due)))
  {
    hide Acknowledge, AckPoint, SndInv, RcvInv, Honest;
    AcknowledgeKeeps(s.rcv, lite, due);
    AcknowledgedIsHonest(c, s, lite, due);
    StillHonest(c, s, s.(rcv := Acknowledge(s.rcv, lite, due).0));
  }

  lemma Ack2Step(c: Config, s: System, ack: int)
    requires Inv(c, s)
    ensures Inv(c, Step(c, s, Ack2(ack)))
  {
    hide OnAck2, SndInv, RcvInv, Honest;
    Ack2Keeps(s.rcv, ack);
    StillHonest(c, s, Step(c, s, Ack2(ack)));
  }

  lemma ReadStep(c: Config, s: System, len: int)
    requires Inv(c, s)
    ensures Inv(c, Step(c, s, AppRead(len)))
  {
    hide Consume, ReadLength, Unread, SndInv, RcvInv, Honest;
    ReadKeeps(s.rcv, len);
    StillHonest(c, s, Step(c, s, AppRead(len)));
  }

  lemma ControlStep(c: Config, s: System, m: Message)
    requires Inv(c, s) && m in s.net
    ensures Inv(c, Step(c, s, ToSender(m)))
  {
    assert Honest(c, s.snd, s.rcv, m);
    match m
    case Data(_, _) =>
    case Ack(ack, window) =>
      AckKeeps(s.snd, ack, window);
      HeardKeeps(c, s, m);
    case LiteAck(ack) =>
      LiteAckKeeps(s.snd, ack);
      HeardKeeps(c, s, m);
    case Loss(ranges) =>
      LossKeeps(s.snd, ranges);
      HeardKeeps(c, s, m);
  }

  /** A control message that tells the truth moves only the sender's window variables and its
      loss list. */
  lemma HeardShape(c: Config, snd: Snd, rcv: Rcv, m: Message)
    requires Honest(c, snd, rcv, m) && rcv.curr <= snd.curr && snd.granted <= WindowBound(c) && !snd.broken
    ensures var t := Hear(snd, m);
            && t == snd.(acked := t.acked, lastAck := t.lastAck, window := t.window, granted := t.granted,
                         lost := t.lost)
            && t.granted <= WindowBound(c)
  {
    hide WindowBound, AllArrived;
  }

  lemma HeardKeeps(c: Config, s: System, m: Message)
    requires Inv(c, s) && m in s.net && SndInv(Hear(s.snd, m))
    requires Honest(c, s.snd, s.rcv, m)
    ensures Inv(c, s.(snd := Hear(s.snd, m), heard := if m.Ack? then s.heard + {m.ack} else s.heard))
  {
    hide SndInv, RcvInv, Hear, Honest;
    HeardShape(c, s.snd, s.rcv, m);
    StillHonest(c, s, s.(snd := Hear(s.snd, m)));
  }

  // ---------- all runs ----------

  lemma StartHolds(c: Config)
    requires Sensible(c)
    ensures Inv(c, Start(c))
  {
  }

  lemma {:induction false} RunKeeps(c: Config, s: System, events: seq<Event>)
    requires Inv(c, s)
    ensures Inv(c, Run(c, s, events))
    decreases |events|
  {
    if events != [] {
      StepKeeps(c, s, events[0]);
      RunKeeps(c, Step(c, s, events[0]), events[1..]);
    }
  }

  /** A state reached from the start by some events. */
  ghost function Reached(c: Config, events: seq<Event>): System
    requires Sensible(c)
  {
    StartHolds(c);
    Run(c, Start(c), events)
  }

  /** End to end: whatever happens in the channel, the bytes the receiving application has
      read are a prefix of the bytes taken from the sending application; and once every
      packet was read they are all of them. */
  lemma StreamIsPrefix(c: Config, events: seq<Event>)
    requires Sensible(c)
    ensures var s := Reached(c, events);
            && s.rcv.delivered <= s.accepted
            && (s.rcv.readNo == s.snd.isn + |s.snd.history| ==> s.rcv.delivered == s.accepted)
  {
    StartHolds(c);
    RunKeeps(c, Start(c), events);
    var s := Reached(c, events);
    DeliveredIsPrefix(s.snd, s.rcv);
  }

  lemma DeliveredIsPrefix(snd: Snd, rcv: Rcv)
    requires SndInv(snd) && RcvInv(rcv) && snd.isn == rcv.isn && SameBytes(snd, rcv) && rcv.curr <= snd.curr
    ensures rcv.delivered <= Bytes(snd.history)
    ensures rcv.readNo == snd.isn + |snd.history| ==> rcv.delivered == Bytes(snd.history)
  {
    hide SndInv, RcvInv, SameBytes, Stream, Bytes, Part;
    DeliveredSoFar(snd, rcv);
    var n := rcv.readNo - rcv.isn;
    StreamIsHistory(snd, rcv, n);
    BytesAround(snd.history, n);
    if n < |snd.history| {
      PrefixInside(Bytes(snd.history[..n]), Part(rcv.got, rcv.readNo, rcv.notch), snd.history[n].payload,
                   Bytes(snd.history[n + 1..]));
    } else {
      assert rcv.delivered == Bytes(snd.history[..n]);
    }
  }

  /** What was delivered: all packets before the read position and a part of the next one. */
  lemma DeliveredSoFar(snd: Snd, rcv: Rcv)
    requires SndInv(snd) && RcvInv(rcv) && snd.isn == rcv.isn && SameBytes(snd, rcv) && rcv.curr <= snd.curr
    ensures snd.isn <= rcv.readNo <= snd.isn + |snd.history| && forall x :: rcv.isn <= x < rcv.readNo ==> x in rcv.got
    ensures rcv.delivered == Stream(rcv.got, rcv.isn, rcv.readNo) + Part(rcv.got, rcv.readNo, rcv.notch)
    ensures if rcv.readNo < snd.isn + |snd.history|
            then Part(rcv.got, rcv.readNo, rcv.notch) <= snd.history[rcv.readNo - snd.isn].payload
            else Part(rcv.got, rcv.readNo, rcv.notch) == []
  {
    hide Stream, Bytes;
  }

  lemma PrefixInside(x: seq<byte>, p: seq<byte>, y: seq<byte>, z: seq<byte>)
    requires p <= y
    ensures x + p <= x + (y + z)
  {
  }

  /** The bytes before, of, and behind the n-th packet. */
  lemma BytesAround(h: seq<Packet>, n: nat)
    requires n <= |h|
    ensures Bytes(h) == Bytes(h[..n]) + Bytes(h[n..])
    ensures n < |h| ==> Bytes(h) == Bytes(h[..n]) + (h[n].payload + Bytes(h[n + 1..]))
    ensures n == |h| ==> h[..n] == h
  {
    CutAt(h, n);
    BytesConcat(h[..n], h[n..]);
    if n < |h| {
      assert h[n..][1..] == h[n + 1..];
    }
  }

  lemma {:induction false} StreamIsHistory(snd: Snd, rcv: Rcv, n: nat)
    requires n <= |snd.history| && snd.isn == rcv.isn && SameBytes(snd, rcv)
    requires forall x :: rcv.isn <= x < rcv.isn + n ==> x in rcv.got
    ensures Stream(rcv.got, rcv.isn, rcv.isn + n) == Bytes(snd.history[..n])
  {
    if n > 0 {
      StreamIsHistory(snd, rcv, n - 1);
      StreamSnoc(rcv.got, rcv.isn, rcv.isn + n - 1);
      BytesSnoc(snd.history, n - 1);
      assert rcv.got[rcv.isn + n - 1] == snd.history[n - 1].payload;
      hide Stream, Bytes, SameBytes;
    }
  }

  lemma StreamSnoc(slots: map<int, seq<byte>>, a: int, b: int)
    requires a <= b && forall x :: a <= x <= b ==> x in slots
    ensures Stream(slots, a, b + 1) == Stream(slots, a, b) + slots[b]
  {
    StreamSplit(slots, a, b, b + 1);
    assert Stream(slots, b, b + 1) == slots[b] + Stream(slots, b + 1, b + 1);
  }

  lemma BytesSnoc(h: seq<Packet>, n: nat)
    requires n < |h|
    ensures Bytes(h[..n + 1]) == Bytes(h[..n]) + h[n].payload
  {
    assert h[..n + 1] == h[..n] + [h[n]];
    BytesConcat(h[..n], [h[n]]);
    assert [h[n]][1..] == [];
  }

  /** The receiver's loss list is exactly what is missing; an acknowledgement names the least
      missing packet; acknowledged and unread slots are all full. */
  lemma GapsAreExact(c: Config, events: seq<Event>)
    requires Sensible(c)
    ensures var r := Reached(c, events).rcv;
            && (forall x :: x in r.lost <==> r.isn <= x <= r.curr && x !in r.got)
            && AckPoint(r) !in r.got && (forall x :: r.isn <= x < AckPoint(r) ==> x in r.got)
            && (forall x :: r.readNo <= x < r.acked ==> x in r.got)
            && r.curr - r.readNo < r.size - 1
  {
    StartHolds(c);
    RunKeeps(c, Start(c), events);
    AckPointIsLeast(Reached(c, events).rcv);
  }

  /** Every transmission of a number carries the same packet. */
  lemma PayloadsAreStable(c: Config, events: seq<Event>, m1: Message, m2: Message)
    requires Sensible(c)
    requires m1.Data? && m2.Data? && m1.no == m2.no
    requires m1 in Reached(c, events).net && m2 in Reached(c, events).net
    ensures m1 == m2
  {
    StartHolds(c);
    RunKeeps(c, Start(c), events);
    var s := Reached(c, events);
    assert Honest(c, s.snd, s.rcv, m1) && Honest(c, s.snd, s.rcv, m2);
  }

  /** The unacknowledged packets never outnumber the largest window granted, which is bounded;
      lost packets are unacknowledged ones; the connection is never declared broken. */
  lemma SpanIsBounded(c: Config, events: seq<Event>)
    requires Sensible(c)
    ensures var s := Reached(c, events).snd;
            && s.curr + 1 - s.acked <= s.granted <= WindowBound(c)
            && (forall x :: x in s.lost ==> s.acked <= x <= s.curr)
            && !s.broken
  {
    StartHolds(c);
    RunKeeps(c, Start(c), events);
  }

  /** When the receive buffer is no larger than the first window, as the source requires of its
      options, no window ever granted exceeds the loss list, which is made for twice the first
      window. */
  lemma LossListSuffices(c: Config, events: seq<Event>)
    requires Sensible(c) && 1 <= c.window && c.rcvSize <= c.window
    ensures var s := Reached(c, events).snd;
            s.granted <= 2 * c.window && s.curr + 1 - s.acked <= 2 * c.window
  {
    SpanIsBounded(c, events);
  }
}

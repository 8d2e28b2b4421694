/** The transfer of one direction of a connection, in packet indices.

    A sender and a receiver exchange messages over a channel that may lose, repeat and
    reorder them.  Each step of either side is a function on its state; the classes
    `Sender` and `Receiver` show that the code, working on wire numbers, takes these steps.
    Here the steps are put together into runs. */
module Protocol {
  import opened Basics
  import opened LossCells
  import opened Nak
  import opened SndBuffers
  import opened RcvBuffers

  datatype Message =
    | Data(no: int, packet: Packet)
    | Ack(ack: int, window: int)
    | LiteAck(ack: int)
    | Loss(ranges: seq<Span>)

  function Max(a: int, b: int): int {
    if a < b then b else a
  }

  function Min(a: int, b: int): int {
    if a < b then a else b
  }

  // ---------- sender ----------

  /** `history` lists every packet ever queued, packet `isn` first.  Packets below `acked`
      were released from the buffer, those up to `curr` were sent.  `granted` is the largest
      flow window so far. */
  datatype Snd = Snd(
    isn: int, mss: int, limit: int,
    history: seq<Packet>, number: int,
    acked: int, lastAck: int, curr: int,
    window: int, granted: int, lost: set<int>, broken: bool)

  function NextNumber(number: int): int {
    if number + 1 == MAX_MSG then 1 else number + 1
  }

  /** Packets in the buffer. */
  function Queued(s: Snd): int {
    s.isn + |s.history| - s.acked
  }

  /** How many bytes of a send call are taken: none when the buffer is at its limit. */
  function Accepted(s: Snd, data: seq<byte>): nat
    requires 0 < s.mss
  {
    if s.limit <= Queued(s) then 0
    else if (s.limit - Queued(s)) * s.mss < |data| then (s.limit - Queued(s)) * s.mss
    else |data|
  }

  function Send(s: Snd, data: seq<byte>): Snd
    requires 0 < s.mss
  {
    if Accepted(s, data) == 0 then s else Queue(s, data[..Accepted(s, data)])
  }

  /** The data cut into packets behind the ones queued before. */
  function Queue(s: Snd, data: seq<byte>): Snd
    requires 0 < s.mss
  {
    s.(history := s.history + Chunks(data, s.mss, true, false, s.number), number := NextNumber(s.number))
  }

  function PacketAt(s: Snd, no: int): Packet
    requires s.isn <= no < s.isn + |s.history|
  {
    s.history[no - s.isn]
  }

  /** What the transmitting thread does next: nothing yet, send this lost packet again, or send
      a new one because none was lost. */
  datatype Picked = Idle | Retry(no: int) | Fresh

  predicate PickedInv(s: Snd, p: Picked) {
    p.Retry? ==> s.isn <= p.no <= s.curr
  }

  /** First locked section: the smallest lost number is taken from the loss list. */
  ghost function Pick(s: Snd): (Snd, Picked) {
    if s.lost != {} then
      var no := Least(s.lost);
      (s.(lost := s.lost - {no}), Retry(no))
    else (s, Fresh)
  }

  /** Second section: a number acknowledged in the meantime is dropped; else its packet goes out.
      A new packet needs both windows to allow it. */
  function Transmit(s: Snd, p: Picked, cwnd: int): (Snd, Option<Message>)
    requires SndInv(s) && PickedInv(s, p)
  {
    match p
    case Idle => (s, None)
    case Retry(no) => (s, if no < s.acked then None else Some(Data(no, PacketAt(s, no))))
    case Fresh =>
      if s.curr + 2 - s.lastAck <= Min(s.window, cwnd) && s.curr + 1 < s.isn + |s.history|
      then (s.(curr := s.curr + 1), Some(Data(s.curr + 1, PacketAt(s, s.curr + 1))))
      else (s, None)
  }

  /** A full acknowledgement; one beyond what was sent breaks the connection. */
  function OnAck(s: Snd, ack: int, window: int): Snd {
    if s.curr + 1 < ack then s.(broken := true)
    else
      var t := if s.lastAck <= ack
               then s.(lastAck := ack, window := window, granted := Max(s.granted, window))
               else s;
      if ack <= s.acked then t else t.(acked := ack, lost := Above(s.lost, ack - 1))
  }

  function OnLiteAck(s: Snd, ack: int): Snd {
    if s.lastAck <= ack then s.(window := s.window - (ack - s.lastAck), lastAck := ack) else s
  }

  function OnLoss(s: Snd, ranges: seq<Span>): Snd {
    s.(lost := s.lost + TakenFrom(ranges, s.lastAck, s.curr),
       broken := s.broken || !Secure(ranges, s.lastAck, s.curr))
  }

  /** Retransmission timeout: all unacknowledged packets are lost, if none is known lost. */
  function OnTimeout(s: Snd): Snd {
    if Queued(s) > 0 && s.lastAck <= s.curr && s.lost == {}
    then s.(lost := Range(Interval(s.lastAck, s.curr)))
    else s
  }

  predicate NoneEmpty(packets: seq<Packet>) {
    forall k :: 0 <= k < |packets| ==> 0 < |packets[k].payload|
  }

  predicate SndInv(s: Snd) {
    && 0 < s.mss && 0 < s.number < MAX_MSG
    && s.isn <= s.acked <= s.lastAck <= s.curr + 1 <= s.isn + |s.history|
    && NoneEmpty(s.history)
    && (forall x :: x in s.lost ==> s.acked <= x <= s.curr)
    && s.lastAck + s.window <= s.acked + s.granted
    && s.curr + 1 <= s.acked + s.granted
  }

  ghost function Least(s: set<int>): (m: int)
    requires s != {}
    ensures m in s && forall x :: x in s ==> m <= x
  {
    LeastExists(s);
    var m :| m in s && forall x :: x in s ==> m <= x;
    m
  }

  lemma LeastUnique(s: set<int>, m: int)
    requires m in s && forall x :: x in s ==> m <= x
    ensures m == Least(s)
  {
  }

  lemma {:induction false} LeastExists(s: set<int>)
    ensures s == {} || exists m :: m in s && forall x :: x in s ==> m <= x
    decreases |s|
  {
    if y :| y in s {
      var rest := s - {y};
      assert forall x :: x in s && x != y ==> x in rest;
      LeastExists(rest);
      if m :| m in rest && forall x :: x in rest ==> m <= x {
        LeastOfTwo(s, y, m);
      } else {
        assert forall x :: x in s ==> y <= x;
      }
    } else {
      assert forall x :: x in s <==> x in {};
    }
  }

  lemma LeastOfTwo(s: set<int>, y: int, m: int)
    requires y in s && m in s && forall x :: x in s && x != y ==> m <= x
    ensures exists k :: k in s && forall x :: x in s ==> k <= x
  {
    var k := Min(m, y);
    assert k in s && forall x :: x in s ==> k <= x;
  }

  // ---------- receiver ----------

  /** `got` holds every packet ever accepted.  Packets below `readNo` were read by the
      application, those below `acked` were acknowledged, `curr` is the largest seen. */
  datatype Rcv = Rcv(
    isn: int, size: int, got: map<int, seq<byte>>,
    readNo: int, notch: int, acked: int, curr: int,
    lost: set<int>, lastAckAck: int, delivered: seq<byte>)

  function Avail(r: Rcv): int {
    r.readNo + r.size - 1 - r.acked
  }

  /** A data packet: refused outside the free slots or when its slot is taken; a gap before
      it is reported at once. */
  function OnData(r: Rcv, no: int, payload: seq<byte>): (Rcv, Option<Message>) {
    if no < r.acked || r.acked + Avail(r) <= no || no in r.got then (r, None)
    else
      var t := r.(got := r.got[no := payload]);
      if r.curr + 1 < no then
        (t.(curr := no, lost := r.lost + Range(Interval(r.curr + 1, no - 1))),
         Some(Loss([Interval(r.curr + 1, no - 1)])))
      else if r.curr < no then (t.(curr := no), None)
      else (t.(lost := r.lost - {no}), None)
  }

  /** What an acknowledgement says: everything before this number has arrived. */
  ghost function AckPoint(r: Rcv): int {
    if r.lost == {} then r.curr + 1 else Least(r.lost)
  }

  /** The advertised window, never below 2. */
  function Advertised(r: Rcv): int {
    Max(Avail(r), 2)
  }

  /** A light or full acknowledgement, if one is due. */
  ghost function Acknowledge(r: Rcv, lite: bool, due: bool): (Rcv, Option<Message>) {
    var ack := AckPoint(r);
    if ack == r.lastAckAck then (r, None)
    else if lite then (r, Some(LiteAck(ack)))
    else if ack < r.acked || (ack == r.acked && !due) then (r, None)
    else
      var t := r.(acked := ack);
      (t, if r.lastAckAck < ack then Some(Ack(ack, Advertised(t))) else None)
  }

  /** The sender has seen an acknowledgement. */
  function OnAck2(r: Rcv, ack: int): Rcv {
    if r.lastAckAck < ack then r.(lastAckAck := ack) else r
  }

  /** The application reads up to len bytes. */
  function Read(r: Rcv, len: int): Rcv
    requires RcvInv(r)
  {
    var n := ReadLength(r.got, r.readNo, r.acked, r.notch, len);
    var (no, notch) := Consume(r.got, r.readNo, r.acked, r.notch, len);
    r.(readNo := no, notch := notch,
       delivered := r.delivered + Unread(r.got, r.readNo, r.acked, r.notch)[..n])
  }

  /** The loss list is exactly the packets up to `curr` that have not arrived, and everything
      acknowledged has arrived. */
  predicate GapsInv(r: Rcv) {
    && r.isn <= r.readNo <= r.acked <= r.curr + 1 <= r.readNo + r.size - 1
    && (forall x :: x in r.got ==> r.isn <= x <= r.curr)
    && (forall x :: x in r.lost ==> r.isn <= x <= r.curr && x !in r.got)
    && (forall x :: r.isn <= x <= r.curr ==> x in r.got || x in r.lost)
    && (forall x :: r.isn <= x < r.acked ==> x in r.got)
  }

  predicate RcvInv(r: Rcv) {
    && GapsInv(r)
    && NotchFits(r.got, r.readNo, r.acked, r.notch)
    && r.delivered == Stream(r.got, r.isn, r.readNo) + Part(r.got, r.readNo, r.notch)
  }

  // ---------- each step keeps the invariants ----------

  lemma QueueKeeps(s: Snd, data: seq<byte>)
    requires SndInv(s)
    ensures SndInv(Queue(s, data)) && Bytes(Queue(s, data).history) == Bytes(s.history) + data
  {
    var packets := Chunks(data, s.mss, true, false, s.number);
    BytesConcat(s.history, packets);
    ChunksHoldData(data, s.mss, true, false, s.number);
  }

  lemma SendShape(s: Snd, data: seq<byte>)
    requires SndInv(s)
    ensures var t := Send(s, data);
            t == s.(history := t.history, number := t.number) && s.history <= t.history
  {
  }

  lemma SendKeeps(s: Snd, data: seq<byte>)
    requires SndInv(s)
    ensures SndInv(Send(s, data))
    ensures Bytes(Send(s, data).history) == Bytes(s.history) + data[..Accepted(s, data)]
  {
    QueueKeeps(s, data[..Accepted(s, data)]);
  }

  /** Picking takes the smallest lost number, which was sent, and nothing else. */
  lemma PickKeeps(s: Snd)
    requires SndInv(s)
    ensures var (t, p) := Pick(s);
            && SndInv(t) && PickedInv(t, p) && t == s.(lost := t.lost)
            && (p.Retry? <==> s.lost != {})
            && (p.Retry? ==> p.no in s.lost && t.lost == s.lost - {p.no} && forall x :: x in t.lost ==> p.no < x)
  {
  }

  /** Whatever happened since the number was picked, a transmitted packet is one of the queued
      packets that are not acknowledged, with its own bytes, and was sent by then; only the
      current number may change. */
  lemma TransmitKeeps(s: Snd, p: Picked, cwnd: int)
    requires SndInv(s) && PickedInv(s, p)
    ensures var (t, m) := Transmit(s, p, cwnd);
            && SndInv(t) && t.history == s.history && s.curr <= t.curr
            && t == s.(curr := t.curr)
            && (m.Some? ==> m.value.Data? && t.acked <= m.value.no <= t.curr
                            && m.value.packet == PacketAt(t, m.value.no) && 0 < |m.value.packet.payload|)
  {
  }

  /** Whatever a full acknowledgement says, the sender's state stays consistent. */
  lemma AckKeeps(s: Snd, ack: int, window: int)
    requires SndInv(s)
    ensures SndInv(OnAck(s, ack, window))
    ensures ack <= s.curr + 1 ==> OnAck(s, ack, window).broken == s.broken
                                  && OnAck(s, ack, window).acked == Max(s.acked, ack)
  {
  }

  /** A light acknowledgement is not checked: the state stays consistent exactly when the
      number acknowledged was sent. */
  lemma LiteAckKeeps(s: Snd, ack: int)
    requires SndInv(s)
    ensures SndInv(OnLiteAck(s, ack)) <==> ack <= s.curr + 1
  {
  }

  lemma LossKeeps(s: Snd, ranges: seq<Span>)
    requires SndInv(s)
    ensures SndInv(OnLoss(s, ranges))
  {
    forall x | x in TakenFrom(ranges, s.lastAck, s.curr) ensures s.acked <= x <= s.curr {
      TakenIsSent(ranges, s.lastAck, s.curr, x);
    }
  }

  lemma TimeoutKeeps(s: Snd)
    requires SndInv(s)
    ensures SndInv(OnTimeout(s))
  {
  }

  lemma TimeoutShape(s: Snd)
    ensures OnTimeout(s) == s.(lost := OnTimeout(s).lost)
  {
  }

  lemma DataShape(r: Rcv, no: int, payload: seq<byte>)
    ensures var (t, m) := OnData(r, no, payload);
            && (t == r || (no !in r.got && r.acked <= no && t.got == r.got[no := payload]))
            && t == r.(got := t.got, curr := t.curr, lost := t.lost)
            && t.curr == (if t == r then r.curr else Max(r.curr, no))
            && (m.Some? ==> m.value == Loss([Interval(r.curr + 1, no - 1)]) && r.curr + 1 <= no - 1 < t.curr)
  {
  }

  lemma DataKeepsGaps(r: Rcv, no: int, payload: seq<byte>)
    requires GapsInv(r)
    ensures GapsInv(OnData(r, no, payload).0)
  {
  }

  lemma DataKeeps(r: Rcv, no: int, payload: seq<byte>)
    requires RcvInv(r)
    ensures RcvInv(OnData(r, no, payload).0)
  {
    DataShape(r, no, payload);
    DataKeepsGaps(r, no, payload);
    var t := OnData(r, no, payload).0;
    if t != r {
      FillKeeps(r.got, no, payload, r.readNo, r.acked, r.notch);
      StreamSame(r.got, t.got, r.isn, r.readNo);
    }
    hide OnData, Stream, NotchFits;
  }

  /** The acknowledged number is the least one that has not arrived. */
  lemma AckPointIsLeast(r: Rcv)
    requires RcvInv(r)
    ensures AckPoint(r) !in r.got && r.acked <= AckPoint(r) <= r.curr + 1
    ensures forall x :: r.isn <= x < AckPoint(r) ==> x in r.got
  {
  }

  lemma Ack2Keeps(r: Rcv, ack: int)
    requires RcvInv(r)
    ensures var t := OnAck2(r, ack);
            RcvInv(t) && t == r.(lastAckAck := Max(r.lastAckAck, ack))
  {
    hide NotchFits, Stream, Part;
  }

  lemma AcknowledgeKeeps(r: Rcv, lite: bool, due: bool)
    requires RcvInv(r)
    ensures var (t, m) := Acknowledge(r, lite, due);
            && RcvInv(t) && t == r.(acked := t.acked) && t.acked + Avail(t) == r.acked + Avail(r)
            && (m.Some? ==> m.value == LiteAck(AckPoint(r)) || m.value == Ack(AckPoint(r), Advertised(t)))
  {
    AckPointIsLeast(r);
    var t := Acknowledge(r, lite, due).0;
    assert t.acked == r.acked || t.acked == AckPoint(r);
  }

  lemma ReadKeeps(r: Rcv, len: int)
    requires RcvInv(r)
    ensures RcvInv(Read(r, len))
    ensures r.acked + Avail(r) <= Read(r, len).acked + Avail(Read(r, len))
  {
    hide Stream, Consume, Unread, ReadLength, Part, NotchFits;
    ReadJoins(r.got, r.isn, r.readNo, r.acked, r.notch, len);
  }
}

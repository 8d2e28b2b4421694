/** What each step of the protocol does, said without regard to how it computes it: which bytes
    are taken, when a packet, a report or an acknowledgement goes out and what it says, and what
    an arriving message leaves in the sender's variables. */
module Effects {
  import opened Arith
  import opened LossCells
  import opened Nak
  import opened SndBuffers
  import opened RcvBuffers
  import opened Protocol

  // ---------- sending ----------

  /** Data of a length needs at most k packets exactly when it fits into k payloads. */
  lemma BlocksFit(len: int, mss: int, k: int)
    requires 0 < mss && 0 <= len && 0 <= k
    ensures BlockCount(len, mss) <= k <==> len <= k * mss
    ensures BlockCount(k * mss, mss) == k
  {
    var q, r := len / mss, len % mss;
    if q < k {
      ProductGrows(q + 1, k, mss);
      ProductGrows(q, q + 1, mss);
    } else {
      ProductGrows(k, q, mss);
    }
    DivMod(k * mss, mss, k, 0);
  }

  /** A send queues as many packets as its bytes need, never goes beyond the limit, takes all the
      data when there is room for it, and takes less only by filling the buffer. */
  lemma SendFits(s: Snd, data: seq<byte>)
    requires SndInv(s)
    ensures var n, t := Accepted(s, data), Send(s, data);
            && n <= |data| && Queued(t) == Queued(s) + BlockCount(n, s.mss)
            && (Queued(t) <= s.limit || t == s)
            && (Queued(s) + BlockCount(|data|, s.mss) <= s.limit ==> n == |data|)
            && (n < |data| ==> s.limit <= Queued(t))
  {
    var n, room := Accepted(s, data), s.limit - Queued(s);
    ChunksCount(data[..n], s.mss, true, false, s.number);
    BlockCountStep(|data|, s.mss);
    BlockCountStep(n, s.mss);
    if room > 0 {
      ProductPositive(room, s.mss);
      BlocksFit(|data|, s.mss, room);
    }
    hide BlockCount, Chunks, NoneEmpty;
  }

  /** The number of the k-th call from now. */
  function NumberAfter(number: int, k: nat): int {
    if k == 0 then number else NextNumber(NumberAfter(number, k - 1))
  }

  /** Message numbers run through 1 .. 0x1FFFFFFE in turn and start again. */
  lemma {:induction false} NumbersCycle(number: int, k: nat)
    requires 0 < number < MAX_MSG
    ensures NumberAfter(number, k) == 1 + (number - 1 + k) % 0x1FFF_FFFE
  {
    if k > 0 {
      NumbersCycle(number, k - 1);
    }
  }

  /** When and what the transmitting thread sends.  A packet picked for retransmission goes out
      unless it was acknowledged.  A new packet is the next one, and with it no more are
      unacknowledged than either window allows; none goes out only when nothing unsent is queued
      or one of the windows is full. */
  lemma TransmitAnswers(s: Snd, p: Picked, cwnd: int)
    requires SndInv(s) && PickedInv(s, p)
    ensures var (t, m) := Transmit(s, p, cwnd);
            && (p.Idle? ==> m.None?)
            && (p.Retry? ==> t == s && (m.Some? <==> s.acked <= p.no) && (m.Some? ==> m.value.no == p.no))
            && (p.Fresh? && m.Some? ==>
                  && m.value.no == t.curr == s.curr + 1
                  && t.curr + 1 - t.lastAck <= cwnd && t.curr + 1 - t.lastAck <= s.window)
            && (p.Fresh? && m.None? ==>
                  || s.curr + 1 == s.isn + |s.history|
                  || cwnd <= s.curr + 1 - s.lastAck || s.window <= s.curr + 1 - s.lastAck)
            && (m.None? ==> t == s)
  {
  }

  // ---------- what the sender hears ----------

  /** A full acknowledgement beyond what was sent breaks the connection and changes nothing else.
      Any other moves both marks up to it unless they are there, takes its window over unless a
      later one was heard, and clears just the losses before it. */
  lemma AckEffect(s: Snd, ack: int, window: int)
    requires SndInv(s)
    ensures var t := OnAck(s, ack, window);
            if s.curr + 1 < ack then t == s.(broken := true)
            else
              && t.lastAck == Max(s.lastAck, ack) && t.acked == Max(s.acked, ack)
              && t.window == (if s.lastAck <= ack then window else s.window)
              && (forall x :: x in t.lost <==> x in s.lost && ack <= x)
              && t == s.(lastAck := t.lastAck, acked := t.acked, window := t.window, granted := t.granted,
                         lost := t.lost)
              && t.granted == (if s.lastAck <= ack then Max(s.granted, window) else s.granted)
  {
  }

  /** A light acknowledgement moves the sender's mark up and leaves the right edge of its window
      where it was. */
  lemma LiteAckEffect(s: Snd, ack: int)
    ensures var t := OnLiteAck(s, ack);
            && t.lastAck == Max(s.lastAck, ack) && t.lastAck + t.window == s.lastAck + s.window
            && t == s.(lastAck := t.lastAck, window := t.window)
  {
  }

  /** A number lies in one of the ranges. */
  predicate Named(ranges: seq<Span>, x: int) {
    exists k :: 0 <= k < |ranges| && ranges[k].lo <= x <= ranges[k].hi
  }

  /** The range is in order and names only packets that were sent. */
  predicate Sent(v: Span, curr: int) {
    v.lo <= v.hi <= curr
  }

  /** A loss report breaks the connection exactly when one of its ranges is reversed or names a
      packet never sent.  Whatever was known lost before, it adds exactly the unacknowledged
      numbers named before the first such range. */
  lemma LossEffect(s: Snd, ranges: seq<Span>, n: nat)
    requires SndInv(s) && n <= |ranges|
    requires (forall k :: 0 <= k < n ==> Sent(ranges[k], s.curr)) && (n < |ranges| ==> !Sent(ranges[n], s.curr))
    ensures var t := OnLoss(s, ranges);
            && t == s.(lost := t.lost, broken := t.broken)
            && (t.broken <==> s.broken || n < |ranges|)
            && forall x :: x in t.lost <==> x in s.lost || (s.lastAck <= x && Named(ranges[..n], x))
  {
    hide TakenFrom, NoneEmpty;
    TakenNames(ranges, n, s.lastAck, s.curr);
    if n < |ranges| {
      SentIsTaken(ranges[n], s.lastAck, s.curr);
      assert !Secure(ranges, s.lastAck, s.curr);
    } else {
      forall k | 0 <= k < |ranges|
        ensures !Refused(ranges[k], s.lastAck, s.curr)
      {
        SentIsTaken(ranges[k], s.lastAck, s.curr);
      }
    }
  }

  lemma SentIsTaken(v: Span, lastAck: int, curr: int)
    requires lastAck <= curr + 1
    ensures Refused(v, lastAck, curr) <==> !Sent(v, curr)
    ensures Sent(v, curr) ==> forall x :: x in Taken(v, lastAck) <==> lastAck <= x && v.lo <= x <= v.hi
  {
  }

  lemma {:induction false} TakenNames(ranges: seq<Span>, n: nat, lastAck: int, curr: int)
    requires lastAck <= curr + 1 && n <= |ranges|
    requires (forall k :: 0 <= k < n ==> Sent(ranges[k], curr)) && (n < |ranges| ==> !Sent(ranges[n], curr))
    ensures forall x :: x in TakenFrom(ranges, lastAck, curr) <==> lastAck <= x && Named(ranges[..n], x)
  {
    if |ranges| > 0 {
      hide Refused, Taken, Sent;
      SentIsTaken(ranges[0], lastAck, curr);
      if n > 0 {
        TakenNames(ranges[1..], n - 1, lastAck, curr);
        forall x
          ensures Named(ranges[..n], x) <==> ranges[0].lo <= x <= ranges[0].hi || Named(ranges[1..][..n - 1], x)
        {
          NamedNext(ranges, n, x);
        }
      }
    }
  }

  lemma NamedNext(ranges: seq<Span>, n: nat, x: int)
    requires 0 < n <= |ranges|
    ensures Named(ranges[..n], x) <==> ranges[0].lo <= x <= ranges[0].hi || Named(ranges[1..][..n - 1], x)
  {
    var all, rest := ranges[..n], ranges[1..][..n - 1];
    assert forall k :: 0 <= k < |rest| ==> rest[k] == all[k + 1];
    if Named(all, x) {
      var k :| 0 <= k < |all| && all[k].lo <= x <= all[k].hi;
      assert k > 0 ==> rest[k - 1] == all[k];
    }
    if Named(rest, x) {
      var k :| 0 <= k < |rest| && rest[k].lo <= x <= rest[k].hi;
      assert all[k + 1] == rest[k];
    }
    assert all[0] == ranges[0];
  }

  /** The retransmission timeout declares every unacknowledged packet lost when nothing is known
      lost, and does nothing otherwise. */
  lemma TimeoutEffect(s: Snd)
    requires SndInv(s)
    ensures var t := OnTimeout(s);
            && t == s.(lost := t.lost)
            && forall x :: x in t.lost <==> x in s.lost || (s.lost == {} && s.lastAck <= x <= s.curr)
  {
  }

  // ---------- what the receiver does ----------

  /** The first packet index for which there is no slot. */
  function Edge(r: Rcv): int {
    r.readNo + r.size - 1
  }

  /** A data packet is accepted exactly when it is not there yet and its slot is one of the free
      ones.  A report goes out exactly when the packet makes numbers missing, and names exactly
      the numbers that are missing now and were not before. */
  lemma DataEffect(r: Rcv, no: int, payload: seq<byte>)
    requires RcvInv(r)
    ensures var (t, m) := OnData(r, no, payload);
            && (t != r <==> r.acked <= no < Edge(r) && no !in r.got)
            && (t != r ==> t.got == r.got[no := payload] && t.curr == Max(r.curr, no))
            && (t == r ==> m.None?)
            && (m.Some? <==> exists x :: x in t.lost && x !in r.lost)
            && (m.Some? ==> m.value.Loss? && forall x :: x in t.lost && x !in r.lost <==> Named(m.value.ranges, x))
            && (forall x :: x in r.lost ==> (x in t.lost <==> t == r || x != no))
  {
    hide NotchFits, Stream, Part;
    var (t, m) := OnData(r, no, payload);
    if r.acked <= no < Edge(r) && no !in r.got {
      assert t.got != r.got;
      if r.curr + 1 < no {
        assert r.curr + 1 in t.lost && r.curr + 1 !in r.lost;
        var v := Interval(r.curr + 1, no - 1);
        forall x
          ensures Named([v], x) <==> v.lo <= x <= v.hi
        {
          assert [v][0] == v;
        }
      }
    }
  }

  /** When an acknowledgement is sent, and which: a light one whenever the least missing number is
      not the one last confirmed, a full one whenever it is later than that and is either new or
      due again.  A full one moves the acknowledged position to it. */
  lemma AcknowledgeAnswers(r: Rcv, lite: bool, due: bool)
    requires RcvInv(r) && r.lastAckAck <= r.acked
    ensures var (t, m) := Acknowledge(r, lite, due);
            && (lite ==>
                  && t == r && (m.Some? <==> AckPoint(r) != r.lastAckAck)
                  && (m.Some? ==> m.value == LiteAck(AckPoint(r))))
            && (!lite ==>
                  && (m.Some? <==> r.lastAckAck < AckPoint(r) && (r.acked < AckPoint(r) || due))
                  && t == r.(acked := AckPoint(r)))
  {
    hide AckPoint, NotchFits, Stream, Part;
    AckPointIsLeast(r);
  }

  /** What a full acknowledgement grants: its number and its window together are the right edge of
      the receive buffer, or the window is the floor of 2 and fewer than two slots are free. */
  lemma GrantsToEdge(r: Rcv, lite: bool, due: bool)
    requires RcvInv(r)
    ensures var (t, m) := Acknowledge(r, lite, due);
            && (m.Some? && lite ==> m.value.LiteAck?)
            && (m.Some? && !lite ==>
                  && m.value.Ack? && m.value.ack == t.acked
                  && if Edge(t) - t.acked < 2 then m.value.window == 2 else m.value.ack + m.value.window == Edge(t))
  {
    hide AckPoint, NotchFits, Stream, Part;
    AckPointIsLeast(r);
  }

  /** A read hands over as many acknowledged bytes as there are, up to the number asked for. */
  lemma ReadEffect(r: Rcv, len: int)
    requires RcvInv(r)
    ensures var t, unread := Read(r, len), Unread(r.got, r.readNo, r.acked, r.notch);
            && t.got == r.got && t.acked == r.acked && r.readNo <= t.readNo
            && |t.delivered| == |r.delivered| + (if len < 0 then 0 else Min(len, |unread|))
            && r.delivered <= t.delivered && t.delivered[|r.delivered|..] <= unread
            && Unread(t.got, t.readNo, t.acked, t.notch) == unread[|t.delivered| - |r.delivered|..]
            && t == r.(readNo := t.readNo, notch := t.notch, delivered := t.delivered)
  {
    hide Consume, Stream, Part, NotchFits, Unread;
    ConsumeReads(r.got, r.readNo, r.acked, r.notch, len);
  }
}

/** The sending half of a connection (`CUDT`): the handlers that move the sequence variables
    and keep the buffer and the loss list in step with them.

    Every method takes the step of `Protocol` on the ghost state.  Messages arrive as wire
    numbers, which may lie anywhere on the ring; the functions at the end give the packet indices
    that the code takes them for, and say when these are numbers it sent. */
module Senders {
  import opened Arith
  import opened Basics
  import opened SeqNo
  import opened LossCells
  import opened Nak
  import opened SndLossLists
  import opened SndBuffers
  import opened Protocol

  /** The packets from the k-th on. */
  function Tail(packets: seq<Packet>, k: nat): seq<Packet>
    requires k <= |packets|
  {
    packets[k..]
  }

  lemma TailConcat(a: seq<Packet>, b: seq<Packet>, k: nat)
    requires k <= |a|
    ensures Tail(a + b, k) == Tail(a, k) + b
  {
  }

  lemma TailTail(a: seq<Packet>, k: nat, n: nat)
    requires k + n <= |a|
    ensures |Tail(a, k)| == |a| - k && Tail(a, k)[n..] == Tail(a, k + n)
    ensures n < |Tail(a, k)| ==> Tail(a, k)[n] == a[k + n]
  {
  }

  /** The first number is its own index, and the one before it stands before the first packet. */
  lemma FirstNumbers(isn: int)
    requires IsSeq(isn)
    ensures Wire(isn) == isn && IsCurrent(isn - 1, isn - 1)
  {
  }

  lemma FirstState(isn: int, payloadSize: int, window: int, sndBufSize: int)
    requires 0 < payloadSize && 0 < window
    ensures SndInv(Snd(isn, payloadSize, sndBufSize, [], 1, isn, isn, isn - 1, window, window, {}, false))
    ensures Tail([], 0) == []
  {
  }

  /** How many packets were sent and not acknowledged. */
  function Outstanding(s: Snd): nat {
    if s.lastAck <= s.curr + 1 then s.curr + 1 - s.lastAck else 0
  }

  class Sender {
    const lossList: SndLossList
    const buffer: SndBuffer
    const sndBufSize: int
    var sndLastAck: int
    var sndLastDataAck: int
    var sndCurrSeqNo: int
    var flowWindowSize: int
    var broken: bool

    ghost var st: Snd

    /** The sequence variables are the wire forms of the indices. */
    ghost predicate Numbers()
      reads this
    {
      && sndLastAck == Wire(st.lastAck) && sndLastDataAck == Wire(st.acked)
      && IsCurrent(sndCurrSeqNo, st.curr) && (st.isn <= st.curr ==> sndCurrSeqNo == Wire(st.curr))
      && flowWindowSize == st.window && broken == st.broken && sndBufSize == st.limit
    }

    /** The buffer starts at the first unacknowledged packet and was read up to `curr`. */
    ghost predicate Buffered()
      reads this, buffer
    {
      && 0 < st.mss && st.isn <= st.acked <= st.curr + 1 <= st.isn + |st.history|
      && buffer.queue == Tail(st.history, st.acked - st.isn) && buffer.taken == st.curr + 1 - st.acked
      && buffer.mss == st.mss && buffer.nextMsgNo == st.number
    }

    /** Every window granted fits the loss list and the comparison window. */
    ghost predicate Valid()
      reads this, lossList, lossList.data1, lossList.data2, lossList.next, buffer, buffer.repr
    {
      && lossList.Valid() && buffer.Valid()
      && SndInv(st) && Numbers() && Buffered()
      && lossList.Lost() == st.lost
      && st.granted <= lossList.size && st.granted < SEQ_TH
    }

    /** The sender's state after the handshake: the loss list has twice the agreed window. */
    constructor (isn: int, payloadSize: int, window: int, sndBufSize: int)
      requires IsSeq(isn) && 0 < payloadSize && 0 < window < SEQ_TH
      ensures Valid() && fresh(lossList) && fresh(buffer) && fresh(buffer.repr)
      ensures fresh(lossList.data1) && fresh(lossList.data2) && fresh(lossList.next)
      ensures lossList.size == 2 * window
      ensures st == Snd(isn, payloadSize, sndBufSize, [], 1, isn, isn, isn - 1, window, window, {}, false)
    {
      hide SndLossList.Valid, SndBuffer.Valid, SndLossList.Lost, Wire, SndInv, Tail, IsCurrent;
      FirstNumbers(isn);
      FirstState(isn, payloadSize, window, sndBufSize);
      this.sndBufSize := sndBufSize;
      lossList := new SndLossList(2 * window);
      buffer := new SndBuffer(32, payloadSize);
      sndLastAck, sndLastDataAck, sndCurrSeqNo := isn, isn, isn - 1;
      flowWindowSize, broken := window, false;
      st := Snd(isn, payloadSize, sndBufSize, [], 1, isn, isn, isn - 1, window, window, {}, false);
    }

    /** `send`: queues as much of the data as the buffer limit allows. */
    method Send(data: seq<byte>) returns (taken: int)
      requires Valid()
      modifies this`st, buffer, buffer.repr
      ensures Valid() && st == old(Protocol.Send(st, data)) && taken == old(Accepted(st, data))
      ensures old(buffer.repr) <= buffer.repr && fresh(buffer.repr - old(buffer.repr))
    {
      hide NoneEmpty, Tail, SndLossList.Valid, SndBuffer.Valid, SndLossList.Lost, Bytes, Wire, Queue, SndInv;
      if |data| <= 0 {
        return 0;
      }
      TailTail(st.history, st.acked - st.isn, 0);
      var count := buffer.GetCurrBufSize();
      if sndBufSize <= count {
        return 0;
      }
      ProductPositive(sndBufSize - count, buffer.mss);
      taken := (sndBufSize - count) * buffer.mss;
      if taken > |data| {
        taken := |data|;
      }
      assert taken == Accepted(st, data);
      QueueKeeps(st, data[..taken]);
      Enqueue(data[..taken]);
    }

    /** Puts the packets of one call into the buffer. */
    method Enqueue(data: seq<byte>)
      requires Valid() && 0 < st.mss && SndInv(Queue(st, data))
      modifies this`st, buffer, buffer.repr
      ensures Valid() && st == old(Queue(st, data))
      ensures old(buffer.repr) <= buffer.repr && fresh(buffer.repr - old(buffer.repr))
    {
      hide NoneEmpty, Tail, SndLossList.Valid, SndBuffer.Valid, SndLossList.Lost, Chunks, Bytes, Wire, SndInv;
      TailConcat(st.history, Chunks(data, st.mss, true, false, st.number), st.acked - st.isn);
      buffer.AddBuffer(data, false);
      st := Queue(st, data);
    }

    /** Records what the loss list holds now. */
    ghost method RecordLost(lost: set<int>)
      requires lossList.Valid() && buffer.Valid() && Numbers() && Buffered() && SndInv(st.(lost := lost))
      requires lossList.Lost() == lost && st.granted <= lossList.size && st.granted < SEQ_TH
      modifies this`st
      ensures Valid() && st == old(st.(lost := lost))
    {
      hide SndInv, Tail, SndLossList.Valid, SndBuffer.Valid, SndLossList.Lost, Wire;
      st := st.(lost := lost);
    }

    /** Declares the connection broken. */
    method Break()
      requires Valid()
      modifies this`broken, this`st
      ensures Valid() && st == old(st.(broken := true))
    {
      hide NoneEmpty, Tail, SndLossList.Valid, SndBuffer.Valid, SndLossList.Lost, Wire;
      broken := true;
      st := st.(broken := true);
    }

    /** Counts the packet just read from the buffer as sent. */
    method CountSent()
      requires lossList.Valid() && buffer.Valid() && Numbers() && SndInv(st.(curr := st.curr + 1))
      requires st.isn - 1 <= st.curr
      requires lossList.Lost() == st.lost && st.granted <= lossList.size && st.granted < SEQ_TH
      requires buffer.queue == Tail(st.history, st.acked - st.isn) && buffer.taken == st.curr + 2 - st.acked
      requires buffer.mss == st.mss && buffer.nextMsgNo == st.number
      modifies this`sndCurrSeqNo, this`st
      ensures Valid() && st == old(st.(curr := st.curr + 1)) && sndCurrSeqNo == Wire(st.curr)
    {
      hide NoneEmpty, Tail, SndLossList.Valid, SndBuffer.Valid, SndLossList.Lost, Wire, IncSeq;
      CurrentAgrees(sndCurrSeqNo, st.curr, st.curr);
      sndCurrSeqNo := IncSeq(sndCurrSeqNo);
      st := st.(curr := st.curr + 1);
    }

    /** `packData`: a lost packet if there is one, else a new one if both windows allow it.  Other
        handlers may run between its two sections, so these are specified each on its own. */
    method PackData(cwnd: int) returns (ok: bool, seqno: int, payload: seq<byte>, header: Header, ghost no: int)
      requires Valid()
      modifies this`st, this`sndCurrSeqNo, lossList, lossList.data1, lossList.data2, lossList.next,
               buffer`currBlock, buffer`taken
      ensures Valid()
      ensures var (s, p) := old(Pick(st));
              && SndInv(s) && PickedInv(s, p)
              && var (t, m) := Transmit(s, p, cwnd);
              && st == t
              && m == (if ok then Some(Data(no, Packet(payload, header))) else None)
              && (ok ==> seqno == Wire(no))
    {
      hide NoneEmpty, Tail, SndLossList.Valid, SndBuffer.Valid, SndLossList.Lost, Least, Wire, Pick, Transmit;
      PickKeeps(st);
      ghost var p;
      seqno, p := PickLost();
      ok, seqno, payload, header, no := SendPicked(seqno, cwnd, p);
    }

    /** The first section: takes the smallest number from the loss list, -1 when there is none. */
    method PickLost() returns (seqno: int, ghost p: Picked)
      requires Valid()
      modifies this`st, lossList, lossList.data1, lossList.data2, lossList.next
      ensures Valid() && (st, p) == old(Pick(st))
      ensures match p
        case Idle => false
        case Retry(no) => seqno == Wire(no)
        case Fresh => seqno < 0
    {
      hide NoneEmpty, Tail, SndLossList.Valid, SndBuffer.Valid, SndLossList.Lost, Least, Wire, SeqCmp;
      PickKeeps(st);
      seqno := lossList.GetLostSeq();
      if seqno >= 0 {
        ghost var no :| no in st.lost && (forall x :: x in st.lost ==> no <= x)
                        && seqno == Wire(no) && lossList.Lost() == st.lost - {no};
        LeastUnique(st.lost, no);
        RecordLost(st.lost - {no});
        p := Retry(no);
      } else {
        p := Fresh;
      }
    }

    /** The second section: sends the packet picked, unless it was acknowledged in the meantime,
        or a new one. */
    method SendPicked(picked: int, cwnd: int, ghost p: Picked)
      returns (ok: bool, seqno: int, payload: seq<byte>, header: Header, ghost no: int)
      requires Valid() && PickedInv(st, p)
      requires match p
        case Idle => false
        case Retry(no) => picked == Wire(no) && st.acked - no < SEQ_TH
        case Fresh => picked < 0
      modifies this`st, this`sndCurrSeqNo, buffer`currBlock, buffer`taken
      ensures Valid()
      ensures var (t, m) := old(Transmit(st, p, cwnd));
              && st == t
              && m == (if ok then Some(Data(no, Packet(payload, header))) else None)
              && (ok ==> seqno == Wire(no))
    {
      hide NoneEmpty, Tail, SndLossList.Valid, SndBuffer.Valid, SndLossList.Lost, SeqCmp, IncSeq;
      if picked >= 0 {
        no, seqno := p.no, picked;
        ok, payload, header := Retransmit(seqno, no);
      } else {
        ok, seqno, payload, header, no := TransmitNew(cwnd);
      }
    }

    /** Reads a lost packet from the buffer, unless it was acknowledged. */
    method Retransmit(seqno: int, ghost no: int) returns (ok: bool, payload: seq<byte>, header: Header)
      requires buffer.Valid() && SndInv(st) && Numbers() && Buffered() && st.granted < SEQ_TH
      requires st.isn <= no <= st.curr && st.acked - no < SEQ_TH && seqno == Wire(no)
      ensures ok <==> st.acked <= no
      ensures ok ==> Packet(payload, header) == PacketAt(st, no)
    {
      hide SndBuffer.Valid, Wire, SeqOff, Tail;
      payload, header := [], Header(false, false, false, 0);
      WindowAgrees(st.acked, no);
      var offset := SeqOff(sndLastDataAck, seqno);
      if offset < 0 {
        return false, payload, header;
      }
      TailTail(st.history, st.acked - st.isn, no - st.acked);
      payload, header := buffer.ReadAt(offset);
      ok := |payload| > 0;
    }

    /** A packet that was never sent, if the flow and congestion windows allow one. */
    method TransmitNew(cwnd: int) returns (ok: bool, seqno: int, payload: seq<byte>, header: Header, ghost no: int)
      requires Valid()
      modifies this`st, this`sndCurrSeqNo, buffer`currBlock, buffer`taken
      ensures Valid()
      ensures var (t, m) := old(Transmit(st, Fresh, cwnd));
              && st == t
              && m == (if ok then Some(Data(no, Packet(payload, header))) else None)
              && (ok ==> seqno == Wire(no))
    {
      hide NoneEmpty, Tail, SndLossList.Valid, SndBuffer.Valid, SndLossList.Lost, Wire, SeqLen, SeqOff, SeqCmp, IncSeq;
      TransmitKeeps(st, Fresh, cwnd);
      CurrentAgrees(sndCurrSeqNo, st.curr, st.curr);
      WindowAgrees(st.lastAck, st.curr + 1);
      TailTail(st.history, st.acked - st.isn, st.curr + 1 - st.acked);
      ok, seqno, payload, header, no := false, -1, [], Header(false, false, false, 0), 0;
      var w := if flowWindowSize < cwnd then flowWindowSize else cwnd;
      if w >= SeqLen(sndLastAck, IncSeq(sndCurrSeqNo)) {
        var more;
        payload, header, more := buffer.ReadNew();
        if |payload| > 0 {
          CountSent();
          ok, seqno, no := true, sndCurrSeqNo, st.curr;
        }
      }
    }

    // ---------- acknowledgements ----------

    /** A full acknowledgement of everything before the number `ack`, whichever it is, granting a
        window.  The number must be sound, which `AckIsExact` shows to be just what keeps the
        sender within what it sent. */
    method ProcessAck(ack: int, window: int)
      requires Valid() && IsSeq(ack) && AckSound(st, ack)
      requires window <= lossList.size && window < SEQ_TH
      modifies this, lossList, lossList.data1, lossList.data2, lossList.next,
               buffer`firstBlock, buffer`count, buffer`ring, buffer`queue, buffer`taken
      ensures Valid() && st == old(OnAck(st, AckIndex(st, ack), window))
    {
      hide NoneEmpty, Tail, SndLossList.Valid, SndBuffer.Valid, SndLossList.Lost, Wire, SeqLen, SeqOff, SeqCmp, IncSeq,
        DecSeq, AckSound, AckIndex, SndInv;
      ghost var no := AckIndex(st, ack);
      AckKeeps(st, no, window);
      AckRead(st, ack);
      CurrentAgrees(sndCurrSeqNo, st.curr, st.curr);
      if SeqCmp(ack, IncSeq(sndCurrSeqNo)) > 0 {
        Break();
        return;
      }
      if SeqCmp(ack, sndLastAck) >= 0 {
        flowWindowSize := window;
        sndLastAck := ack;
      }
      ReleaseData(ack, window, no);
    }

    /** Releases the acknowledged packets from the buffer and the loss list. */
    method ReleaseData(ack: int, window: int, ghost no: int)
      requires lossList.Valid() && buffer.Valid() && Buffered() && SndInv(st)
      requires lossList.Lost() == st.lost && st.granted <= lossList.size && st.granted < SEQ_TH
      requires window <= lossList.size && window < SEQ_TH
      requires no <= st.curr + 1 && (st.acked < no ==> ack == Wire(no))
      requires if st.acked < no then SeqOff(sndLastDataAck, ack) == no - st.acked else SeqOff(sndLastDataAck, ack) <= 0
      requires IsCurrent(sndCurrSeqNo, st.curr) && (st.isn <= st.curr ==> sndCurrSeqNo == Wire(st.curr))
      requires sndLastDataAck == Wire(st.acked) && broken == st.broken
      requires sndBufSize == st.limit
      requires flowWindowSize == (if st.lastAck <= no then window else st.window)
      requires sndLastAck == Wire(if st.lastAck <= no then no else st.lastAck)
      modifies this`sndLastDataAck, this`st, lossList, lossList.data1, lossList.data2, lossList.next,
               buffer`firstBlock, buffer`count, buffer`ring, buffer`queue, buffer`taken
      ensures Valid() && st == old(OnAck(st, no, window))
    {
      hide NoneEmpty, Tail, SndLossList.Valid, SndBuffer.Valid, SndLossList.Lost, Wire, SeqLen, SeqOff, SeqCmp, IncSeq,
        DecSeq;
      AckKeeps(st, no, window);
      StepAgrees(no);
      var offset := SeqOff(sndLastDataAck, ack);
      if offset > 0 {
        TailTail(st.history, st.acked - st.isn, offset);
        buffer.AckData(offset);
        sndLastDataAck := ack;
        lossList.Remove(DecSeq(sndLastDataAck), no - 1);
      }
      st := OnAck(st, no, window);
    }

    /** A light acknowledgement; it is not checked, so the number must have been sent. */
    method ProcessLiteAck(ack: int)
      requires Valid() && IsSeq(ack)
      requires SeqCmp(ack, sndLastAck) >= 0 ==> Ahead(sndLastAck, ack) <= st.curr + 1 - st.lastAck
      modifies this`sndLastAck, this`flowWindowSize, this`st
      ensures Valid() && st == old(OnLiteAck(st, LiteIndex(st, ack)))
    {
      hide NoneEmpty, Tail, SndLossList.Valid, SndBuffer.Valid, SndLossList.Lost, Wire, SeqOff, SeqCmp, Ahead;
      ghost var no := LiteIndex(st, ack);
      LiteAckKeeps(st, no);
      AheadOfIndex(st.lastAck, ack);
      WindowAgrees(st.lastAck, no);
      if SeqCmp(ack, sndLastAck) >= 0 {
        flowWindowSize := flowWindowSize - SeqOff(sndLastAck, ack);
        sndLastAck := ack;
      }
      st := OnLiteAck(st, no);
    }

    // ---------- losses ----------

    /** Retransmission timeout. */
    method CheckTimers()
      requires Valid()
      modifies this`st, lossList, lossList.data1, lossList.data2, lossList.next
      ensures Valid() && st == old(OnTimeout(st))
    {
      hide NoneEmpty, Tail, SndLossList.Valid, SndBuffer.Valid, SndLossList.Lost, Wire, SeqLen, SeqOff, SeqCmp, IncSeq;
      CurrentAgrees(sndCurrSeqNo, st.curr, st.curr);
      WindowAgrees(st.lastAck, st.curr + 1);
      TailTail(st.history, st.acked - st.isn, 0);
      var queued := buffer.GetCurrBufSize();
      if queued > 0 {
        var losses := lossList.GetLossLength();
        if IncSeq(sndCurrSeqNo) != sndLastAck && losses == 0 {
          LoseAll();
        }
      }
    }

    /** Inserts every unacknowledged packet into the empty loss list. */
    method LoseAll()
      requires Valid() && st.lost == {} && st.lastAck <= st.curr
      modifies this`st, lossList, lossList.data1, lossList.data2, lossList.next
      ensures Valid() && st == old(st.(lost := Range(Interval(st.lastAck, st.curr))))
    {
      hide NoneEmpty, Tail, SndLossList.Valid, SndBuffer.Valid, SndLossList.Lost, Wire, Range;
      var csn := sndCurrSeqNo;
      ghost var v := Interval(st.lastAck, st.curr);
      EmptyUnion(Range(v));
      var added := lossList.Insert(sndLastAck, csn, v, st.acked);
      RecordLost(Range(v));
    }

    /** Adds a range of sent, unacknowledged packets to the loss list. */
    method TakeRange(seqno1: int, seqno2: int, ghost v: Interval)
      requires Valid() && seqno1 == Wire(v.lo) && seqno2 == Wire(v.hi) && st.lastAck <= v.lo && v.hi <= st.curr
      modifies this`st, lossList, lossList.data1, lossList.data2, lossList.next
      ensures Valid() && st == old(st.(lost := st.lost + Range(v)))
    {
      hide NoneEmpty, Tail, SndLossList.Valid, SndBuffer.Valid, SndLossList.Lost, Wire, Range;
      var num := lossList.Insert(seqno1, seqno2, v, st.acked);
      RecordLost(st.lost + Range(v));
    }

    /** The largest number sent is the last one in flight. */
    lemma LastInFlight()
      requires Numbers() && SndInv(st) && st.granted < SEQ_TH
      ensures IsLast(sndLastAck, st.curr + 1 - st.lastAck, sndCurrSeqNo)
    {
      WireOfLast(st.lastAck, st.curr);
      StepAgrees(st.lastAck);
    }

    /** What the code must make of an entry of a report. */
    ghost predicate Fit(item: Item)
      reads this
    {
      && OnRing(item)
      && (Judge(item, sndLastAck, sndCurrSeqNo).Take? ==> Sound(item, sndLastAck, Outstanding(st), sndCurrSeqNo))
    }

    /** What a fit entry is read as. */
    lemma ReadFit(item: Item)
      requires Numbers() && SndInv(st) && st.granted < SEQ_TH && Fit(item)
      ensures var v, r := Judge(item, sndLastAck, sndCurrSeqNo), Reading(item, st.lastAck, sndCurrSeqNo);
              && (v.Reject? <==> Refused(r, st.lastAck, st.curr))
              && (v.Skip? ==> Taken(r, st.lastAck) == {})
              && (v.Take? ==> st.lastAck <= r.lo <= r.hi <= st.curr && Taken(r, st.lastAck) == Range(r)
                              && v.first == Wire(r.lo) && v.last == Wire(r.hi))
    {
      hide Judge, Sound, IsLast, Range, Misread, NoneEmpty;
      LastInFlight();
      ReadingIs(item, st.lastAck, st.curr, sndCurrSeqNo);
      if Judge(item, sndLastAck, sndCurrSeqNo).Take? {
        ItemIsExact(item, sndLastAck, st.curr + 1 - st.lastAck, sndCurrSeqNo);
        VerdictOnRing(item, st.lastAck, sndCurrSeqNo);
        AheadOfIndex(st.lastAck, Judge(item, sndLastAck, sndCurrSeqNo).first);
        AheadOfIndex(st.lastAck, Judge(item, sndLastAck, sndCurrSeqNo).last);
      }
    }

    /** A two-word range of the report. */
    method TakePair(a: int, b: int) returns (ok: bool)
      requires Valid() && Fit(Pair(a, b))
      modifies this`st, lossList, lossList.data1, lossList.data2, lossList.next
      ensures Valid()
      ensures var r := old(Reading(Pair(a, b), st.lastAck, sndCurrSeqNo));
              && ok == !old(Refused(r, st.lastAck, st.curr))
              && st == if ok then old(st.(lost := st.lost + Taken(r, st.lastAck))) else old(st)
    {
      hide NoneEmpty, Tail, SndLossList.Valid, SndBuffer.Valid, SndLossList.Lost, Wire, SeqCmp, Range, Sound,
        Refused, Taken, Reading;
      ReadFit(Pair(a, b));
      ghost var r := Reading(Pair(a, b), st.lastAck, sndCurrSeqNo);
      if SeqCmp(a, b) > 0 || SeqCmp(b, sndCurrSeqNo) > 0 {
        return false;
      }
      if SeqCmp(a, sndLastAck) >= 0 {
        TakeRange(a, b, r);
      } else if SeqCmp(b, sndLastAck) >= 0 {
        TakeRange(sndLastAck, b, r);
      } else {
        UnionEmpty(st.lost);
      }
      ok := true;
    }

    /** A one-word number of the report. */
    method TakeSingle(a: int) returns (ok: bool)
      requires Valid() && Fit(One(a))
      modifies this`st, lossList, lossList.data1, lossList.data2, lossList.next
      ensures Valid()
      ensures var r := old(Reading(One(a), st.lastAck, sndCurrSeqNo));
              && ok == !old(Refused(r, st.lastAck, st.curr))
              && st == if ok then old(st.(lost := st.lost + Taken(r, st.lastAck))) else old(st)
    {
      hide NoneEmpty, Tail, SndLossList.Valid, SndBuffer.Valid, SndLossList.Lost, Wire, SeqCmp, Range, Sound,
        Refused, Taken, Reading;
      ReadFit(One(a));
      ghost var r := Reading(One(a), st.lastAck, sndCurrSeqNo);
      UnionEmpty(st.lost);
      if SeqCmp(a, sndLastAck) >= 0 {
        if SeqCmp(a, sndCurrSeqNo) > 0 {
          return false;
        }
        TakeRange(a, a, r);
      }
      ok := true;
    }

    /** A loss report of any words: takes the entries in order, and breaks the connection at the
        first one that is reversed or names a packet never sent.  Its entries must be sound, which
        `ReportIsExact` shows to be just what keeps everything taken among the packets in flight. */
    method ProcessNak(words: seq<int>)
      requires Valid() && AllWords(words) && Decode(words).Report?
      requires AllSound(Decode(words).items, sndLastAck, Outstanding(st), sndCurrSeqNo)
      modifies this`st, this`broken, lossList, lossList.data1, lossList.data2, lossList.next
      ensures Valid() && st == old(OnLoss(st, Readings(Decode(words).items, st.lastAck, sndCurrSeqNo)))
    {
      hide NoneEmpty, Tail, SndLossList.Valid, SndBuffer.Valid, SndLossList.Lost, Wire, SeqLen, SeqOff, SeqCmp, IncSeq,
        Decode, Judge, Sound, AllSound, Reading, TakenFrom, Taken, Refused, IsFlagged, Number, AllWords, Ahead;
      ghost var items := Decode(words).items;
      ghost var ranges := Readings(items, st.lastAck, sndCurrSeqNo);
      DecodedOnRing(words);
      ReadingsAt(items, st.lastAck, sndCurrSeqNo, 0);
      LossKeeps(st, ranges);
      ghost var s, k := st, 0;
      var secure := true;
      var i := 0;
      assert words[0..] == words && items[0..] == items && ranges[0..] == ranges;
      while i < |words|
        invariant Valid() && 0 <= i <= |words| && 0 <= k <= |items| && Decode(words[i..]) == Report(items[k..])
        invariant secure && st == s.(lost := st.lost)
        invariant AllSound(items[k..], sndLastAck, Outstanding(s), sndCurrSeqNo)
        invariant st.lost + TakenFrom(ranges[k..], s.lastAck, s.curr) == s.lost + TakenFrom(ranges, s.lastAck, s.curr)
        invariant forall j :: 0 <= j < k ==> !Refused(ranges[j], s.lastAck, s.curr)
        decreases |words| - i
      {
        NextWords(words, i, items, k);
        SoundNext(items, k, sndLastAck, Outstanding(s), sndCurrSeqNo);
        ReadingsAt(items, s.lastAck, sndCurrSeqNo, k);
        TakenNext(ranges, k, s.lastAck, s.curr);
        ReadFit(items[k]);
        ghost var before := st.lost;
        if IsFlagged(words[i]) {
          secure := TakePair(Number(words[i]), words[i + 1]);
          i := i + 1;
        } else {
          secure := TakeSingle(words[i]);
        }
        if !secure {
          break;
        }
        UnionAssociative(before, Taken(ranges[k], s.lastAck), TakenFrom(ranges[k + 1..], s.lastAck, s.curr));
        i := i + 1;
        k := k + 1;
      }
      UnionEmpty(st.lost);
      if !secure {
        Break();
      } else {
        NextWords(words, i, items, k);
        NothingLeft(ranges, k, s.lastAck, s.curr);
      }
    }
  }

  // ---------- acknowledgements by wire numbers ----------

  /** The packet index that the code takes an acknowledged number for. */
  function AckIndex(s: Snd, ack: int): int {
    if SeqCmp(ack, Wire(s.curr + 1)) > 0 then s.curr + 2
    else if Ahead(Wire(s.acked), ack) <= s.curr + 1 - s.acked then s.acked + Ahead(Wire(s.acked), ack)
    else s.acked - 1
  }

  /** The number is refused, or neither of the tests that follow misjudges it. */
  predicate AckSound(s: Snd, ack: int) {
    SeqCmp(ack, Wire(s.curr + 1)) > 0
    || (s.acked <= s.lastAck <= s.curr + 1
        && !Misread(Wire(s.lastAck), Wire(s.curr + 1), s.curr + 2 - s.lastAck, ack)
        && !Misread(Wire(s.acked), Wire(s.curr + 1), s.curr + 2 - s.acked, ack))
  }

  /** What the code takes over from an acknowledgement was sent: the number it remembers as the
      last acknowledgement, and the packets it releases. */
  predicate AckWithin(s: Snd, ack: int) {
    SeqCmp(ack, Wire(s.curr + 1)) > 0
    || ((SeqCmp(ack, Wire(s.lastAck)) >= 0 ==> Ahead(Wire(s.lastAck), ack) <= s.curr + 1 - s.lastAck)
        && (SeqOff(Wire(s.acked), ack) > 0 ==> SeqOff(Wire(s.acked), ack) <= s.curr + 1 - s.acked))
  }

  lemma LastOfRun(i: int, n: nat)
    requires 0 < n <= SEQ_TH
    ensures IsLast(Wire(i), n, Wire(i + n - 1))
  {
    StepAgrees(i);
  }

  /** The offset of a number that is not before i is how far it lies ahead, or it lies beyond the
      threshold. */
  lemma OffsetAhead(i: int, x: int)
    requires IsSeq(x)
    ensures SeqOff(Wire(i), x) > 0 ==> SeqOff(Wire(i), x) == Ahead(Wire(i), x)
    ensures 0 < Ahead(Wire(i), x) < SEQ_TH ==> SeqOff(Wire(i), x) == Ahead(Wire(i), x)
    ensures SeqOff(Wire(i), x) > 0 <==> SeqCmp(x, Wire(i)) > 0
    ensures SeqCmp(x, Wire(i)) == 0 <==> Ahead(Wire(i), x) == 0
  {
    StepAgrees(i);
    hide Wire;
  }

  /** For every number on the ring: the sender stays within what it sent exactly when the
      acknowledgement is sound. */
  lemma AckIsExact(s: Snd, ack: int)
    requires SndInv(s) && s.granted < SEQ_TH && IsSeq(ack)
    ensures AckWithin(s, ack) <==> AckSound(s, ack)
  {
    hide Wire, SeqCmp, SeqOff, Ahead, IsLast, Misread;
    LastOfRun(s.lastAck, s.curr + 2 - s.lastAck);
    LastOfRun(s.acked, s.curr + 2 - s.acked);
    BetweenIsExact(Wire(s.lastAck), s.curr + 2 - s.lastAck, Wire(s.curr + 1), ack);
    BetweenIsExact(Wire(s.acked), s.curr + 2 - s.acked, Wire(s.curr + 1), ack);
    OffsetAhead(s.acked, ack);
  }

  /** What each test of the code says of a sound number, in terms of its index. */
  lemma AckRead(s: Snd, ack: int)
    requires SndInv(s) && s.granted < SEQ_TH && IsSeq(ack) && AckSound(s, ack)
    ensures var no := AckIndex(s, ack);
            if SeqCmp(ack, Wire(s.curr + 1)) > 0 then no == s.curr + 2
            else
              && no <= s.curr + 1 && (s.acked <= no ==> ack == Wire(no))
              && (SeqCmp(ack, Wire(s.lastAck)) >= 0 <==> s.lastAck <= no)
              && if s.acked < no then SeqOff(Wire(s.acked), ack) == no - s.acked else SeqOff(Wire(s.acked), ack) <= 0
  {
    hide Wire, SeqCmp, SeqOff, Ahead, IsLast, Misread, NoneEmpty;
    LastOfRun(s.lastAck, s.curr + 2 - s.lastAck);
    LastOfRun(s.acked, s.curr + 2 - s.acked);
    BetweenIsExact(Wire(s.lastAck), s.curr + 2 - s.lastAck, Wire(s.curr + 1), ack);
    BetweenIsExact(Wire(s.acked), s.curr + 2 - s.acked, Wire(s.curr + 1), ack);
    OffsetAhead(s.acked, ack);
    AheadOfIndex(s.acked, ack);
    AheadOfIndex(s.lastAck, ack);
    AheadFrom(s.acked, s.lastAck - s.acked, ack);
  }

  /** The number acknowledged lies within one comparison window of the sender's own. */
  predicate AckNear(s: Snd, no: int) {
    Abs(no - s.acked) < SEQ_TH && Abs(no - s.lastAck) < SEQ_TH && Abs(no - s.curr - 1) < SEQ_TH
  }

  /** A number near the sender's own is sound and is taken for its index. */
  lemma AckOfIndex(s: Snd, no: int, window: int)
    requires SndInv(s) && s.granted < SEQ_TH && AckNear(s, no)
    ensures IsSeq(Wire(no)) && AckSound(s, Wire(no)) && OnAck(s, AckIndex(s, Wire(no)), window) == OnAck(s, no, window)
  {
    hide SeqCmp, SeqOff, Ahead, AckSound, NoneEmpty;
    StepAgrees(no);
    WindowAgrees(no, s.curr + 1);
    WindowAgrees(no, s.lastAck);
    WindowAgrees(s.acked, no);
    if s.acked <= no {
      AheadOfSelf(s.acked, no - s.acked);
    }
    if s.lastAck <= no {
      AheadOfSelf(s.lastAck, no - s.lastAck);
    }
    AckIsExact(s, Wire(no));
    AheadBehind(s.acked, no);
  }

  /** A number before i lies almost a whole ring ahead of it. */
  lemma AheadBehind(i: int, j: int)
    requires i - SEQ_TH < j
    ensures j < i ==> Ahead(Wire(i), Wire(j)) == MODULUS + j - i
  {
  }

  /** An acknowledgement that is not sound: everything up to the largest number was acknowledged
      and one packet is in flight, and a number half a ring away passes as one not beyond it. */
  lemma AckReachesAhead()
    ensures var s := Snd(0x7FFF_FFFF, 1, 1, [Packet([0], Header(true, true, false, 1))], 2,
                         0x7FFF_FFFF, 0x7FFF_FFFF, 0x7FFF_FFFF, 1, 1, {}, false);
            && SndInv(s) && s.granted < SEQ_TH && SeqCmp(0x3FFF_FFFF, Wire(s.curr + 1)) <= 0
            && SeqOff(Wire(s.acked), 0x3FFF_FFFF) == HALF && !AckWithin(s, 0x3FFF_FFFF)
  {
  }

  /** The packet index that the code takes a light acknowledgement for. */
  function LiteIndex(s: Snd, ack: int): int {
    if SeqCmp(ack, Wire(s.lastAck)) >= 0 then s.lastAck + Ahead(Wire(s.lastAck), ack) else s.lastAck - 1
  }

  lemma LiteOfIndex(s: Snd, no: int)
    requires Abs(no - s.lastAck) < SEQ_TH
    ensures OnLiteAck(s, LiteIndex(s, Wire(no))) == OnLiteAck(s, no)
    ensures s.lastAck <= no ==> Ahead(Wire(s.lastAck), Wire(no)) == no - s.lastAck
    ensures SeqCmp(Wire(no), Wire(s.lastAck)) >= 0 <==> s.lastAck <= no
  {
    WindowAgrees(no, s.lastAck);
    if s.lastAck <= no {
      AheadOfSelf(s.lastAck, no - s.lastAck);
    }
    hide Wire, SeqCmp, Ahead;
  }

  lemma WireOfLast(lastAck: int, curr: int)
    requires 0 <= curr + 1 - lastAck < SEQ_TH
    ensures Wire(curr) == LastOf(Wire(lastAck), curr + 1 - lastAck)
  {
  }

  lemma VerdictOnRing(item: Item, lastAck: int, hi: int)
    requires OnRing(item) && Judge(item, Wire(lastAck), hi).Take?
    ensures var v := Judge(item, Wire(lastAck), hi); IsSeq(v.first) && IsSeq(v.last)
  {
    StepAgrees(lastAck);
  }

  lemma EmptyUnion<T>(s: set<T>)
    ensures {} + s == s
  {
    assert forall x :: x in {} + s <==> x in s;
  }

  lemma UnionEmpty<T>(s: set<T>)
    ensures s + {} == s
  {
    assert forall x :: x in s + {} <==> x in s;
  }

  lemma UnionAssociative<T>(a: set<T>, b: set<T>, c: set<T>)
    ensures a + (b + c) == a + b + c
  {
    assert forall x :: x in a + (b + c) <==> x in a + b + c;
  }

  lemma NothingLeft(ranges: seq<Span>, k: nat, lastAck: int, curr: int)
    requires k == |ranges|
    ensures TakenFrom(ranges[k..], lastAck, curr) == {}
  {
  }
}

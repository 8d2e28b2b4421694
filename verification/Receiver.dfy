/** The receiving half of a connection (`CUDT`): the handlers that accept data packets, keep
    the loss list, acknowledge and hand bytes to the application.

    Every method takes the step of `Protocol` on the ghost state; `DataIndex` is the packet index
    that the code takes the number of a data packet for. */
module Receivers {
  import opened Basics
  import opened SeqNo
  import opened LossCells
  import opened Nak
  import opened RcvLossLists
  import opened SndBuffers
  import opened RcvBuffers
  import opened Protocol

  class Receiver {
    const buffer: RcvBuffer
    const lossList: RcvLossList
    var rcvLastAck: int
    var rcvLastAckAck: int
    var rcvCurrSeqNo: int

    ghost var st: Rcv

    ghost predicate Numbers()
      reads this
    {
      && rcvLastAck == Wire(st.acked) && rcvLastAckAck == Wire(st.lastAckAck)
      && IsCurrent(rcvCurrSeqNo, st.curr)
    }

    /** The buffer holds what was accepted and not read. */
    ghost predicate Buffered()
      reads this`st, buffer
    {
      && buffer.readNo == st.readNo && buffer.ackNo == st.acked && buffer.notch == st.notch
      && buffer.slots == From(st.got, st.readNo)
    }

    /** The receive buffer is not larger than the flight size the loss list was made for. */
    ghost predicate Valid()
      reads this, lossList, lossList.data1, lossList.data2, lossList.next, lossList.prior,
            buffer, buffer.units, buffer.repr
    {
      && lossList.Valid() && buffer.Valid()
      && RcvInv(st) && Numbers() && Buffered()
      && lossList.Lost() == st.lost
      && buffer.size == st.size <= lossList.size && st.size < SEQ_TH
    }

    constructor (isn: int, rcvBufSize: int, flightFlagSize: int, unitQueue: UnitQueue)
      requires IsSeq(isn) && 2 <= rcvBufSize <= flightFlagSize && rcvBufSize < SEQ_TH
      ensures Valid() && fresh(lossList) && fresh(buffer) && fresh(buffer.units) && buffer.repr == {}
      ensures fresh(lossList.data1) && fresh(lossList.data2) && fresh(lossList.next) && fresh(lossList.prior)
      ensures buffer.unitQueue == unitQueue
      ensures st == Rcv(isn, rcvBufSize, map[], isn, 0, isn, isn - 1, {}, isn, [])
    {
      hide RcvLossList.Valid, RcvBuffer.Valid, RcvLossList.Lost, RcvInv, From;
      buffer := new RcvBuffer(rcvBufSize, unitQueue, isn);
      lossList := new RcvLossList(flightFlagSize);
      rcvLastAck, rcvLastAckAck, rcvCurrSeqNo := isn, isn, isn - 1;
      st := Rcv(isn, rcvBufSize, map[], isn, 0, isn, isn - 1, {}, isn, []);
      new;
      StartInv(st);
    }

    // ---------- data ----------

    /** `processData`: a packet in a unit of the pool, with any number on the ring.  A packet
        accepted ahead of others returns the words of the loss report sent at once. */
    method ProcessData(unit: Unit, seqno: int) returns (accepted: bool, report: seq<int>)
      requires Valid() && unit.flag == 0 && IsSeq(seqno)
      modifies this`st, this`rcvCurrSeqNo, lossList, lossList.data1, lossList.data2, lossList.next, lossList.prior,
               buffer`maxPos, buffer`slots, buffer`repr, buffer.units, unit`flag, buffer.unitQueue
      ensures Valid() && buffer.repr <= old(buffer.repr) + {unit}
      ensures var no := old(DataIndex(st, seqno));
              var (t, m) := OnData(old(st), no, unit.data);
              && st == t
              && report == (if m.Some? then Encode(m.value.ranges) else [])
              && (accepted <==> old(no !in st.got) && no in st.got)
    {
      hide RcvLossList.Valid, RcvBuffer.Valid, RcvLossList.Lost, RcvInv, Wire, SeqOff, SeqCmp, IncSeq, DecSeq, From,
        OnData, DataIndex;
      ghost var no := DataIndex(st, seqno);
      DataRead(st, seqno);
      SlotIsGot(st, no);
      var offset := SeqOff(rcvLastAck, seqno);
      var avail := buffer.GetAvailBufSize();
      if offset < 0 || offset >= avail {
        NotTaken(st, no, unit.data);
        return false, [];
      }
      var added := buffer.AddData(unit, offset);
      if !added {
        NotTaken(st, no, unit.data);
        return false, [];
      }
      accepted := true;
      FromInsert(st, no, unit.data);
      Arrives(st, no, unit.data);
      DataKeeps(st, no, unit.data);
      report := NoteArrival(seqno, no, unit.data);
    }

    /** Loss detection and the largest number seen, for a packet just put into its slot. */
    method NoteArrival(seqno: int, ghost no: int, ghost payload: seq<byte>) returns (report: seq<int>)
      requires lossList.Valid() && lossList.Lost() == st.lost && RcvInv(st) && Numbers()
      requires st.size <= lossList.size && st.size < SEQ_TH
      requires seqno == Wire(no) && Abs(no - st.curr) < SEQ_TH - 1
      requires st.acked <= no < st.acked + Avail(st) && no !in st.got
      modifies this`st, this`rcvCurrSeqNo, lossList, lossList.data1, lossList.data2, lossList.next, lossList.prior
      ensures lossList.Valid() && lossList.Lost() == st.lost && Numbers()
      ensures var (t, m) := OnData(old(st), no, payload);
              && st == t
              && report == (if m.Some? then Encode(m.value.ranges) else [])
    {
      hide RcvLossList.Valid, RcvLossList.Lost, RcvInv, Wire, SeqLen, SeqOff, SeqCmp, IncSeq, DecSeq;
      CurrentAgrees(rcvCurrSeqNo, st.curr, no);
      WindowAgrees(no, st.curr + 1);
      StepAgrees(no);
      LossWindow(st, no, lossList.size);
      report := [];
      if SeqCmp(seqno, IncSeq(rcvCurrSeqNo)) > 0 {
        report := ReportGap(seqno, no);
      }
      if SeqCmp(seqno, rcvCurrSeqNo) > 0 {
        rcvCurrSeqNo := seqno;
      } else {
        var found := lossList.Remove(seqno, no, st.acked);
        assert found;
      }
      st := OnData(st, no, payload).0;
    }

    /** Inserts the packets skipped by a packet ahead of the others and words the report:
        one word for a single packet, two for a range. */
    method ReportGap(seqno: int, ghost no: int) returns (report: seq<int>)
      requires lossList.Valid() && lossList.Lost() == st.lost && RcvInv(st) && Numbers()
      requires st.size <= lossList.size && st.size < SEQ_TH
      requires seqno == Wire(no) && st.curr + 1 < no < st.acked + Avail(st) && no - st.curr < SEQ_TH - 1
      modifies lossList, lossList.data1, lossList.data2, lossList.next, lossList.prior
      ensures lossList.Valid() && lossList.Lost() == st.lost + Range(Interval(st.curr + 1, no - 1))
      ensures report == Encode([Interval(st.curr + 1, no - 1)])
    {
      hide RcvLossList.Valid, RcvLossList.Lost, Wire, SeqCmp, IncSeq, DecSeq, Range;
      ghost var v := Interval(st.curr + 1, no - 1);
      CurrentAgrees(rcvCurrSeqNo, st.curr, no);
      StepAgrees(no);
      WindowAgrees(st.curr + 1, no - 1);
      GapWindow(st, no, lossList.size);
      lossList.Insert(IncSeq(rcvCurrSeqNo), DecSeq(seqno), v, st.acked);
      if IncSeq(rcvCurrSeqNo) == DecSeq(seqno) {
        report := [DecSeq(seqno)];
      } else {
        report := [IncSeq(rcvCurrSeqNo) + FLAG, DecSeq(seqno)];
      }
      EncodeSnoc([], v);
      assert [] + [v] == [v];
    }

    // ---------- acknowledgements ----------

    /** `sendCtrl` for acknowledgements: the number acknowledged and, for a full one, the
        window.  `due` tells whether a repeated acknowledgement may be sent again. */
    method SendAck(lite: bool, due: bool) returns (ok: bool, ack: int, window: int, ghost no: int)
      requires Valid()
      requires Abs(st.acked - st.lastAckAck) < SEQ_TH && Abs(st.curr + 1 - st.lastAckAck) < SEQ_TH
      modifies this`st, this`rcvLastAck, buffer`lastAckPos, buffer`maxPos, buffer`ackNo
      ensures Valid()
      ensures var (t, m) := old(Acknowledge(st, lite, due));
              && st == t
              && m == (if !ok then None else if lite then Some(LiteAck(no)) else Some(Ack(no, window)))
              && (ok ==> ack == Wire(no))
    {
      hide RcvLossList.Valid, RcvBuffer.Valid, RcvLossList.Lost, RcvInv, Wire, SeqOff, SeqCmp, IncSeq, Least;
      ok, window := false, 0;
      AcknowledgeKeeps(st, lite, due);
      AckPointIsLeast(st);
      no := AckPoint(st);
      ack := ChooseAck();
      WindowAgrees(no, st.lastAckAck);
      if ack == rcvLastAckAck {
        return;
      }
      if lite {
        ok := true;
        return;
      }
      Bounds(st);
      WindowAgrees(no, st.acked);
      if SeqCmp(ack, rcvLastAck) > 0 {
        MoveAck(ack, no);
      } else if ack == rcvLastAck {
        if !due {
          return;
        }
      } else {
        return;
      }
      if SeqCmp(rcvLastAck, rcvLastAckAck) > 0 {
        window := buffer.GetAvailBufSize();
        if window < 2 {
          window := 2;
        }
        ok := true;
      }
    }

    /** The smallest missing packet, or the one after the largest seen. */
    method ChooseAck() returns (ack: int)
      requires Valid()
      ensures ack == Wire(AckPoint(st))
    {
      hide RcvLossList.Valid, RcvBuffer.Valid, RcvInv, Wire, IncSeq;
      CurrentAgrees(rcvCurrSeqNo, st.curr, st.curr);
      var losses := lossList.GetLossLength();
      if losses == 0 {
        ack := IncSeq(rcvCurrSeqNo);
      } else {
        ack := lossList.GetFirstLostSeq();
        ghost var m :| m in st.lost && (forall x :: x in st.lost ==> m <= x) && ack == Wire(m);
        LeastUnique(st.lost, m);
      }
    }

    /** Moves the acknowledged point up over packets that have all arrived. */
    method MoveAck(ack: int, ghost no: int)
      requires Valid() && ack == Wire(no) && no == AckPoint(st) && st.acked < no && no - st.acked < SEQ_TH
      modifies this`st, this`rcvLastAck, buffer`lastAckPos, buffer`maxPos, buffer`ackNo
      ensures Valid() && st == old(st).(acked := no) && rcvLastAck == ack
    {
      hide RcvLossList.Valid, RcvBuffer.Valid, RcvLossList.Lost, RcvInv, Wire, SeqOff, From, AckPoint;
      WindowAgrees(st.acked, no);
      MoveKeeps(st);
      ArrivedInSlots(st, no);
      var acksize := SeqOff(rcvLastAck, ack);
      rcvLastAck := ack;
      buffer.AckData(acksize);
      st := st.(acked := no);
    }

    /** `processCtrl` for ACK2: the sender has seen this acknowledgement. */
    method ProcessAck2(ack: int, ghost no: int)
      requires Valid() && ack == Wire(no) && Abs(no - st.lastAckAck) < SEQ_TH
      modifies this`st, this`rcvLastAckAck
      ensures Valid() && st == OnAck2(old(st), no)
    {
      hide RcvLossList.Valid, RcvBuffer.Valid, RcvLossList.Lost, Wire, SeqCmp, From;
      WindowAgrees(no, st.lastAckAck);
      if SeqCmp(ack, rcvLastAckAck) > 0 {
        rcvLastAckAck := ack;
      }
      st := OnAck2(st, no);
    }

    // ---------- reading ----------

    /** `recv`: the next bytes of the stream, at most `len`. */
    method Recv(len: int) returns (data: seq<byte>)
      requires Valid()
      modifies this`st, buffer`startPos, buffer`notch, buffer`readNo, buffer`slots, buffer`repr,
               buffer.units, buffer.repr, buffer.unitQueue
      ensures Valid() && buffer.repr <= old(buffer.repr)
      ensures st == Read(old(st), len) && st.delivered == old(st.delivered) + data
    {
      hide RcvLossList.Valid, RcvBuffer.Valid, RcvLossList.Lost, RcvInv, Wire, From, Unread, Consume;
      ReadKeeps(st, len);
      ReadFromSlots(st, len);
      ghost var unread := buffer.Pending();
      data := buffer.ReadBuffer(len);
      FrontOf(unread, data, buffer.Pending());
      st := Read(st, len);
    }
  }

  /** The packet index that the code takes a number for: the next one that has it. */
  function DataIndex(r: Rcv, seqno: int): int {
    r.acked + Ahead(Wire(r.acked), seqno)
  }

  /** The offset of the code finds the free slots and no others, wherever the number lies. */
  lemma DataRead(r: Rcv, seqno: int)
    requires RcvInv(r) && r.size < SEQ_TH && IsSeq(seqno)
    ensures var no, offset := DataIndex(r, seqno), SeqOff(Wire(r.acked), seqno);
            && r.acked <= no && seqno == Wire(no)
            && (0 <= offset < Avail(r) <==> no < r.acked + Avail(r))
            && (0 <= offset < Avail(r) ==> offset == no - r.acked && Abs(no - r.curr) < SEQ_TH - 1)
  {
    AheadOfIndex(r.acked, seqno);
    Bounds(r);
    StepAgrees(r.acked);
    hide Wire, RcvInv;
  }

  /** A packet not older than almost a whole turn of the ring is taken for itself, or refused as
      it would be by its index. */
  lemma DataOfIndex(r: Rcv, no: int, payload: seq<byte>)
    requires RcvInv(r) && r.size < SEQ_TH && r.acked - (MODULUS - r.size) < no < r.acked + MODULUS
    ensures IsSeq(Wire(no)) && OnData(r, DataIndex(r, Wire(no)), payload) == OnData(r, no, payload)
  {
    StepAgrees(no);
    if r.acked <= no {
      AheadOfSelf(r.acked, no - r.acked);
    } else {
      AheadOfSelf(r.acked, no - r.acked + MODULUS);
      SameOnRing(no);
      Bounds(r);
    }
    hide Wire, RcvInv;
  }

  lemma SameOnRing(i: int)
    ensures Wire(i + MODULUS) == Wire(i)
  {
  }

  /** Every missing packet, and the one that arrived, is in the window that starts at the
      acknowledged point; a late one is missing. */
  lemma LossWindow(r: Rcv, no: int, size: int)
    requires RcvInv(r) && r.acked <= no < r.acked + Avail(r) && no !in r.got
    requires r.size <= size && r.size < SEQ_TH
    ensures InOneWindow(size, r.lost + {no}, r.acked)
    ensures no <= r.curr ==> no in r.lost
    ensures r.curr < no ==> no !in r.lost
  {
  }

  lemma GapWindow(r: Rcv, no: int, size: int)
    requires RcvInv(r) && r.curr + 1 < no < r.acked + Avail(r)
    requires r.size <= size && r.size < SEQ_TH
    ensures InOneWindow(size, r.lost + Range(Interval(r.curr + 1, no - 1)), r.acked)
    ensures forall x :: x in r.lost ==> x < r.curr + 1
  {
  }

  /** What an accepted packet changes. */
  lemma Arrives(r: Rcv, no: int, payload: seq<byte>)
    requires r.acked <= no < r.acked + Avail(r) && no !in r.got
    ensures var t := OnData(r, no, payload).0;
            t == r.(got := r.got[no := payload], curr := t.curr, lost := t.lost)
  {
  }

  lemma FromInsert(r: Rcv, no: int, payload: seq<byte>)
    requires RcvInv(r) && r.acked <= no
    ensures From(r.got[no := payload], r.readNo) == From(r.got, r.readNo)[no := payload]
  {
  }

  lemma StartInv(r: Rcv)
    requires r.got == map[] && r.readNo == r.acked == r.isn && r.curr == r.isn - 1 && r.notch == 0
    requires r.lost == {} && r.delivered == [] && 2 <= r.size
    ensures RcvInv(r) && From(r.got, r.readNo) == map[]
  {
  }

  /** A number from the read position on is in a slot exactly when it was accepted. */
  lemma SlotIsGot(r: Rcv, no: int)
    requires RcvInv(r)
    ensures r.readNo <= no ==> (no in From(r.got, r.readNo) <==> no in r.got)
    ensures r.isn <= r.readNo <= r.acked
  {
  }

  lemma NotTaken(r: Rcv, no: int, payload: seq<byte>)
    requires no < r.acked || r.acked + Avail(r) <= no || no in r.got
    ensures OnData(r, no, payload) == (r, None)
  {
  }

  lemma Bounds(r: Rcv)
    requires RcvInv(r)
    ensures r.acked <= r.curr + 1 && r.curr + 1 - r.acked < r.size
  {
  }

  lemma MoveKeeps(r: Rcv)
    requires RcvInv(r)
    ensures RcvInv(r.(acked := AckPoint(r)))
  {
    AckPointIsLeast(r);
  }

  lemma ArrivedInSlots(r: Rcv, no: int)
    requires RcvInv(r) && no == AckPoint(r)
    ensures forall x :: r.acked <= x < no ==> x in From(r.got, r.readNo)
  {
    AckPointIsLeast(r);
  }

  /** Reading from the slots is reading from everything accepted. */
  lemma ReadFromSlots(r: Rcv, len: int)
    requires RcvInv(r)
    ensures forall x :: r.readNo <= x < r.acked ==> x in From(r.got, r.readNo) && x in r.got
    ensures Unread(From(r.got, r.readNo), r.readNo, r.acked, r.notch) == Unread(r.got, r.readNo, r.acked, r.notch)
    ensures Consume(From(r.got, r.readNo), r.readNo, r.acked, r.notch, len)
         == Consume(r.got, r.readNo, r.acked, r.notch, len)
    ensures From(From(r.got, r.readNo), Read(r, len).readNo) == From(r.got, Read(r, len).readNo)
  {
    Ordered(r);
    hide From, RcvInv, Stream, Consume, ReadLength, NotchFits;
    FromAgrees(r.got, r.readNo, r.acked);
    StreamSame(From(r.got, r.readNo), r.got, r.readNo, r.acked);
    ConsumeSame(From(r.got, r.readNo), r.got, r.readNo, r.acked, r.notch, len);
    ConsumeReads(r.got, r.readNo, r.acked, r.notch, len);
    FromFrom(r.got, r.readNo, Read(r, len).readNo);
  }

  lemma FromAgrees(got: map<int, seq<byte>>, a: int, b: int)
    requires forall x :: a <= x < b ==> x in got
    ensures forall x :: a <= x < b ==> x in From(got, a) && x in got && From(got, a)[x] == got[x]
  {
  }

  lemma FrontOf(all: seq<byte>, front: seq<byte>, rest: seq<byte>)
    requires all == front + rest
    ensures all[..|front|] == front
  {
  }

  lemma Ordered(r: Rcv)
    requires RcvInv(r)
    ensures r.readNo <= r.acked && (forall x :: r.readNo <= x < r.acked ==> x in r.got)
    ensures NotchFits(r.got, r.readNo, r.acked, r.notch)
  {
  }
}

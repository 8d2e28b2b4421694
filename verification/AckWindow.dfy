/** The history of sent acknowledgements (`CACKWindow`): a ring of records searched by the
    number that the peer returns.

    The ring is proved to be a queue that forgets its oldest record when full. */
module AckWindows {
  import opened Arith
  import opened Basics

  /** The number of an acknowledgement, the data acknowledged, and when it was sent. */
  datatype Entry = Entry(seqNo: int, ack: int, time: int)

  /** A new record goes to the end; the oldest makes room. */
  function Stored(q: seq<Entry>, e: Entry, capacity: nat): (r: seq<Entry>)
    ensures |q| <= capacity ==> |r| <= capacity
  {
    if |q| < capacity then q + [e] else (q + [e])[1..]
  }

  function NumberOf(e: Entry): int {
    e.seqNo
  }

  /** The place of the oldest record with a number, or the length. */
  function Find(q: seq<Entry>, seqNo: int): (i: nat)
    ensures i <= |q| && (i < |q| ==> q[i].seqNo == seqNo)
    ensures forall j :: 0 <= j < i ==> q[j].seqNo != seqNo
  {
    First(NumberOf, q, seqNo)
  }

  /** What remains: everything up to the record found is discarded. */
  function Acknowledged(q: seq<Entry>, seqNo: int): seq<Entry> {
    var i := Find(q, seqNo);
    if i < |q| then q[i + 1..] else q
  }

  lemma FindIs(q: seq<Entry>, seqNo: int, i: nat)
    requires i <= |q| && (i < |q| ==> q[i].seqNo == seqNo)
    requires forall j :: 0 <= j < i ==> q[j].seqNo != seqNo
    ensures Find(q, seqNo) == i
  {
    FirstIs(NumberOf, q, seqNo, i);
  }

  /** A run of stores. */
  function StoredAll(q: seq<Entry>, es: seq<Entry>, capacity: nat): seq<Entry> {
    if |es| == 0 then q else Stored(StoredAll(q, es[..|es| - 1], capacity), es[|es| - 1], capacity)
  }

  function Last(q: seq<Entry>, n: nat): seq<Entry> {
    if |q| <= n then q else q[|q| - n..]
  }

  /** However many are stored, the window holds the most recent ones, oldest first. */
  lemma {:induction false} MostRecentAreKept(q: seq<Entry>, es: seq<Entry>, capacity: nat)
    requires |q| <= capacity
    ensures StoredAll(q, es, capacity) == Last(q + es, capacity)
  {
    hide StoredAll, Stored, Last;
    StoredAllIs(q, es, capacity);
    if |es| > 0 {
      var init, e := es[..|es| - 1], es[|es| - 1];
      MostRecentAreKept(q, init, capacity);
      StoredLast(q + init, e, capacity);
    }
  }

  lemma StoredAllIs(q: seq<Entry>, es: seq<Entry>, capacity: nat)
    ensures |es| == 0 ==> StoredAll(q, es, capacity) == q && q + es == q && (|q| <= capacity ==> Last(q, capacity) == q)
    ensures |es| > 0 ==>
      && StoredAll(q, es, capacity) == Stored(StoredAll(q, es[..|es| - 1], capacity), es[|es| - 1], capacity)
      && q + es == (q + es[..|es| - 1]) + [es[|es| - 1]]
  {
  }

  lemma StoredLast(w: seq<Entry>, e: Entry, capacity: nat)
    ensures Stored(Last(w, capacity), e, capacity) == Last(w + [e], capacity)
  {
    var k := |w|;
    if k > capacity {
      assert w[k - capacity..] + [e] == (w + [e])[k - capacity..];
    }
  }

  /** Acknowledgements are numbered in the order they are sent. */
  ghost predicate Numbered(q: seq<Entry>) {
    forall i, j :: 0 <= i < j < |q| ==> q[i].seqNo < q[j].seqNo
  }

  /** Storing a later number keeps the records numbered in order, and the window forgets only
      its oldest record. */
  lemma StoredNumbered(q: seq<Entry>, e: Entry, capacity: nat)
    requires Numbered(q) && (|q| > 0 ==> q[|q| - 1].seqNo < e.seqNo)
    ensures Numbered(Stored(q, e, capacity))
  {
  }

  /** An acknowledgement takes away a record of its number, unless there is none, and everything
      before it, where no record has that number. */
  lemma AcknowledgedIsSuffix(q: seq<Entry>, seqNo: int)
    ensures (exists i :: 0 <= i < |q| && q[i].seqNo == seqNo) ==>
      exists i :: 0 <= i < |q| && q[i].seqNo == seqNo && Acknowledged(q, seqNo) == q[i + 1..]
        && forall j :: 0 <= j < i ==> q[j].seqNo != seqNo
    ensures (forall i :: 0 <= i < |q| ==> q[i].seqNo != seqNo) ==> Acknowledged(q, seqNo) == q
  {
    assert Find(q, seqNo) < |q| ==> q[Find(q, seqNo)].seqNo == seqNo;
  }

  /** What remains after an acknowledgement are exactly the records sent after the one found, so
      each can be acknowledged at most once and none after a later one; an unknown number changes
      nothing. */
  lemma AcknowledgedOnce(q: seq<Entry>, seqNo: int)
    requires Numbered(q)
    ensures Numbered(Acknowledged(q, seqNo))
    ensures Find(q, seqNo) < |q| <==> exists e :: e in q && e.seqNo == seqNo
    ensures Find(q, seqNo) < |q| ==> forall e :: e in Acknowledged(q, seqNo) <==> e in q && seqNo < e.seqNo
    ensures Find(q, seqNo) == |q| ==> Acknowledged(q, seqNo) == q
    ensures forall s :: s <= seqNo && Find(q, seqNo) < |q| ==>
      Find(Acknowledged(q, seqNo), s) == |Acknowledged(q, seqNo)|
  {
    var i, r := Find(q, seqNo), Acknowledged(q, seqNo);
    hide Find;
    if i < |q| {
      LaterRemain(q, i, r);
      assert q[i] in q;
      forall s | s <= seqNo
        ensures Find(r, s) == |r|
      {
        FindIs(r, s, |r|);
      }
    }
  }

  /** The records behind the i-th are those with larger numbers. */
  lemma LaterRemain(q: seq<Entry>, i: nat, r: seq<Entry>)
    requires Numbered(q) && i < |q| && r == q[i + 1..]
    ensures Numbered(r)
    ensures forall e :: e in r <==> e in q && q[i].seqNo < e.seqNo
    ensures forall j :: 0 <= j < |r| ==> q[i].seqNo < r[j].seqNo
  {
    forall e | e in q && q[i].seqNo < e.seqNo
      ensures e in r
    {
      var j :| 0 <= j < |q| && q[j] == e;
      assert i < j && r[j - i - 1] == e;
    }
  }

  /** The place k steps after another in the ring. */
  function Slot(at: nat, k: nat, size: nat): (s: nat)
    requires at < size && k <= size
    ensures s < size
  {
    if at + k < size then at + k else at + k - size
  }

  lemma Wrap(i: nat, size: nat)
    requires i < 2 * size
    ensures Mod(i, size) == if i < size then i else i - size
  {
    if i < size {
      DivMod(i, size, 0, i);
    } else {
      DivMod(i, size, 1, i - size);
    }
  }

  /** How many records lie between tail and head. */
  function Held(head: nat, tail: nat, size: nat): int {
    if head >= tail then head - tail else head + size - tail
  }

  /** How the count changes when a record is added and when the oldest goes. */
  lemma Steps(head: nat, tail: nat, size: nat)
    requires head < size && tail < size
    ensures var h := Slot(head, 1, size);
      && Held(head, tail, size) < size
      && (h == tail <==> Held(head, tail, size) == size - 1)
      && (h != tail ==> Held(h, tail, size) == Held(head, tail, size) + 1)
      && Held(tail, Slot(tail, 1, size), size) == size - 1
      && Slot(head, 1, size) == (if head + 1 < size then head + 1 else head + 1 - size)
      && Slot(tail, 1, size) == (if tail + 1 < size then tail + 1 else tail + 1 - size)
  {
  }

  /** The head is the place after the records, and no record is there. */
  lemma Behind(head: nat, tail: nat, size: nat, k: nat)
    requires head < size && tail < size && k <= Held(head, tail, size) && 0 <= Held(head, tail, size) < size
    ensures Slot(tail, k, size) == head <==> k == Held(head, tail, size)
  {
  }

  lemma Shifted(tail: nat, k: nat, size: nat)
    requires tail < size && k < size
    ensures Slot(Slot(tail, 1, size), k, size) == Slot(tail, k + 1, size)
  {
  }

  class AckWindow {
    var seqNos: array<int>
    var acks: array<int>
    var times: array<int>
    const size: nat
    var head: nat
    var tail: nat

    /** The records from the oldest to the latest. */
    ghost var queue: seq<Entry>

    ghost predicate Valid()
      reads this, seqNos, acks, times
    {
      && 0 < size == seqNos.Length == acks.Length == times.Length
      && seqNos != acks && seqNos != times && acks != times
      && head < size && tail < size && |queue| == Held(head, tail, size)
      && forall k :: 0 <= k < |queue| ==> Record(Slot(tail, k, size)) == queue[k]
    }

    ghost function Record(i: nat): Entry
      requires i < seqNos.Length && i < acks.Length && i < times.Length
      reads this, seqNos, acks, times
    {
      Entry(seqNos[i], acks[i], times[i])
    }

    constructor (n: nat)
      requires 0 < n
      ensures Valid() && queue == [] && size == n && fresh(seqNos) && fresh(acks) && fresh(times)
    {
      size, head, tail, queue := n, 0, 0, [];
      seqNos := new int[n];
      acks := new int[n];
      times := new int[n];
      new;
      seqNos[0] := -1;
    }

    /** Records an acknowledgement just sent. */
    method Store(seqNo: int, ack: int, now: int)
      requires Valid()
      modifies this`head, this`tail, this`queue, seqNos, acks, times
      ensures Valid() && queue == Stored(old(queue), Entry(seqNo, ack, now), size - 1)
    {
      hide Held, Slot;
      Wrap(head + 1, size);
      Wrap(tail + 1, size);
      var h, t := head, tail;
      Steps(h, t, size);
      seqNos[head] := seqNo;
      acks[head] := ack;
      times[head] := now;
      head := Mod(head + 1, size);
      if head == tail {
        tail := Mod(tail + 1, size);
      }
      ghost var q := queue;
      queue := Stored(queue, Entry(seqNo, ack, now), size - 1);
      forall k | 0 <= k < |queue|
        ensures Record(Slot(tail, k, size)) == queue[k]
      {
        Behind(h, t, size, if tail == t then k else k + 1);
        if tail != t {
          Shifted(t, k, size);
        }
      }
    }

    /** The k-th oldest record is k places after the tail. */
    lemma RecordAt(k: nat)
      requires Valid() && k < |queue|
      ensures tail + k < size ==> Record(tail + k) == queue[k]
      ensures tail + k >= size ==> Record(tail + k - size) == queue[k]
      ensures |queue| == if head >= tail then head - tail else head + size - tail
    {
      assert Record(Slot(tail, k, size)) == queue[k];
    }

    /** Discards the records up to the one at place i, when the head is not behind the tail. */
    method DiscardStraight(i: nat, ghost k: nat)
      requires Valid() && k < |queue| && head >= tail && i == tail + k
      modifies this`head, this`tail, this`queue, seqNos
      ensures Valid() && queue == old(queue)[k + 1..]
    {
      Wrap(i + 1, size);
      if i + 1 == head {
        tail, head := 0, 0;
        seqNos[0] := -1;
      } else {
        tail := Mod(i + 1, size);
      }
      queue := queue[k + 1..];
    }

    /** The same when the head has gone around.  The source also tests here whether the record
        was at the head and would reset the window; no record ever is, and an empty window is
        left where it is. */
    method DiscardWrapped(j: nat, ghost k: nat)
      requires Valid() && k < |queue| && head < tail && j == Slot(tail, k, size)
      modifies this`tail, this`queue
      ensures Valid() && queue == old(queue)[k + 1..]
    {
      assert j != head;
      Wrap(j + 1, size);
      tail := Mod(j + 1, size);
      queue := queue[k + 1..];
    }

    /** Finds what an acknowledgement number stands for.  Returns the time since it was sent and
        the data acknowledged, or -1 and the given value. */
    method Acknowledge(seqNo: int, now: int, given: int) returns (rtt: int, ack: int)
      requires Valid()
      modifies this`head, this`tail, this`queue, seqNos
      ensures Valid() && queue == Acknowledged(old(queue), seqNo)
      ensures var i := Find(old(queue), seqNo);
        if i < |old(queue)| then ack == old(queue)[i].ack && rtt == now - old(queue)[i].time
        else ack == given && rtt == -1
    {
      hide Find;
      ghost var k := 0;
      if head >= tail {
        var i := tail;
        while i < head
          invariant Valid() && queue == old(queue)
          invariant tail <= i <= head && k == i - tail
          invariant forall x :: 0 <= x < k ==> queue[x].seqNo != seqNo
        {
          RecordAt(k);
          if seqNo == seqNos[i] {
            FindIs(queue, seqNo, k);
            ack := acks[i];
            rtt := now - times[i];
            DiscardStraight(i, k);
            return;
          }
          i := i + 1;
          k := k + 1;
        }
        FindIs(queue, seqNo, |queue|);
        return -1, given;
      }
      var j := tail;
      while j < head + size
        invariant Valid() && queue == old(queue) && head < tail
        invariant tail <= j <= head + size && k == j - tail
        invariant forall x :: 0 <= x < k ==> queue[x].seqNo != seqNo
      {
        Wrap(j, size);
        RecordAt(k);
        if seqNo == seqNos[Mod(j, size)] {
          FindIs(queue, seqNo, k);
          j := Mod(j, size);
          ack := acks[j];
          rtt := now - times[j];
          DiscardWrapped(j, k);
          return;
        }
        j := j + 1;
        k := k + 1;
      }
      FindIs(queue, seqNo, |queue|);
      return -1, given;
    }
  }
}

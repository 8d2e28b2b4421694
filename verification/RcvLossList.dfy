/** The receiver's loss list (`CRcvLossList`): the packets still missing.

    Same layout as the sender's list, with a second link from each interval to the one
    before it.  Numbers arrive in increasing order and are removed one at a time, in any
    order. */
module RcvLossLists {
  import opened Arith
  import opened SeqNo
  import opened LossCells
  import opened Nak

  // ---------- the backward links ----------

  /** The cell of the interval before interval k, or -1. */
  function PriorCell(ring: Ring, runs: seq<Interval>, k: nat): int
    requires 0 < ring.size && k < |runs|
  {
    if k == 0 then -1 else Cell(ring, runs[k - 1].lo)
  }

  ghost predicate Priors(ring: Ring, prior: seq<int>, runs: seq<Interval>) {
    && 0 < ring.size == |prior|
    && forall k {:trigger PriorCell(ring, runs, k)} ::
         0 <= k < |runs| ==> prior[Cell(ring, runs[k].lo)] == PriorCell(ring, runs, k)
  }

  lemma PriorAt(ring: Ring, prior: seq<int>, runs: seq<Interval>, k: nat)
    requires Priors(ring, prior, runs) && k < |runs|
    ensures prior[Cell(ring, runs[k].lo)] == PriorCell(ring, runs, k)
  {
  }

  /** An interval linked in behind interval k - 1. */
  lemma PriorsInsert(ring: Ring, prior: seq<int>, runs: seq<Interval>, k: nat, v: Interval)
    requires Priors(ring, prior, runs) && 0 < k <= |runs| && Fits(ring, InsertAt(runs, k, v))
    ensures var t := Cell(ring, v.lo);
            var w := prior[t := Cell(ring, runs[k - 1].lo)];
            Priors(ring, if k < |runs| then w[Cell(ring, runs[k].lo) := t] else w, InsertAt(runs, k, v))
  {
    hide Cell;
    var runs' := InsertAt(runs, k, v);
    var t := Cell(ring, v.lo);
    var w := prior[t := Cell(ring, runs[k - 1].lo)];
    var w' := if k < |runs| then w[Cell(ring, runs[k].lo) := t] else w;
    CellsDistinct(ring, runs');
    assert runs'[k] == v && runs'[k - 1] == runs[k - 1];
    forall j | 0 <= j < |runs'| ensures w'[Cell(ring, runs'[j].lo)] == PriorCell(ring, runs', j) {
      if j < k {
        PriorAt(ring, prior, runs, j);
        assert runs'[j] == runs[j] && (j > 0 ==> runs'[j - 1] == runs[j - 1]);
        assert k < |runs| ==> runs'[k + 1] == runs[k];
      } else if j > k {
        PriorAt(ring, prior, runs, j - 1);
        assert runs'[j] == runs[j - 1] && (j > k + 1 ==> runs'[j - 1] == runs[j - 2]);
        assert runs'[k + 1] == runs[k];
      } else {
        assert k < |runs| ==> runs'[k + 1] == runs[k];
      }
    }
  }

  /** An interval taken out: the one behind it inherits its backward link. */
  lemma PriorsDelete(ring: Ring, prior: seq<int>, runs: seq<Interval>, k: nat)
    requires Priors(ring, prior, runs) && k < |runs| && Fits(ring, runs)
    ensures Priors(ring,
                   if k + 1 < |runs| then prior[Cell(ring, runs[k + 1].lo) := PriorCell(ring, runs, k)] else prior,
                   DeleteAt(runs, k))
  {
    hide Cell;
    var runs' := DeleteAt(runs, k);
    var w := if k + 1 < |runs| then prior[Cell(ring, runs[k + 1].lo) := PriorCell(ring, runs, k)] else prior;
    CellsDistinct(ring, runs);
    forall j | 0 <= j < |runs'| ensures w[Cell(ring, runs'[j].lo)] == PriorCell(ring, runs', j) {
      if j < k {
        PriorAt(ring, prior, runs, j);
        assert runs'[j] == runs[j] && (j > 0 ==> runs'[j - 1] == runs[j - 1]);
        assert k + 1 < |runs| ==> Cell(ring, runs[j].lo) != Cell(ring, runs[k + 1].lo);
      } else if j == k {
        assert runs'[j] == runs[k + 1] && (k > 0 ==> runs'[k - 1] == runs[k - 1]);
      } else {
        PriorAt(ring, prior, runs, j + 1);
        assert runs'[j] == runs[j + 1] && runs'[j - 1] == runs[j];
        assert Cell(ring, runs[j + 1].lo) != Cell(ring, runs[k + 1].lo);
      }
    }
  }

  /** An interval whose start moved one number on. */
  lemma PriorsAdvance(ring: Ring, prior: seq<int>, runs: seq<Interval>, k: nat)
    requires Priors(ring, prior, runs) && k < |runs| && runs[k].lo < runs[k].hi
    requires Fits(ring, runs) && Fits(ring, Advance(runs, k))
    ensures var t := Cell(ring, runs[k].lo + 1);
            var w := prior[t := PriorCell(ring, runs, k)];
            Priors(ring, if k + 1 < |runs| then w[Cell(ring, runs[k + 1].lo) := t] else w, Advance(runs, k))
  {
    hide Cell;
    var runs' := Advance(runs, k);
    var t := Cell(ring, runs[k].lo + 1);
    var w := prior[t := PriorCell(ring, runs, k)];
    var w' := if k + 1 < |runs| then w[Cell(ring, runs[k + 1].lo) := t] else w;
    CellsDistinct(ring, runs');
    forall j | 0 <= j < |runs'| ensures w'[Cell(ring, runs'[j].lo)] == PriorCell(ring, runs', j) {
      PriorAt(ring, prior, runs, j);
      assert runs'[k].lo == runs[k].lo + 1;
      assert j != k ==> runs'[j] == runs[j];
      assert j > 0 && j - 1 != k ==> runs'[j - 1] == runs[j - 1];
      assert k + 1 < |runs| ==> runs'[k + 1] == runs[k + 1];
    }
  }

  /** A changed end moves no start. */
  lemma PriorsUntil(ring: Ring, prior: seq<int>, runs: seq<Interval>, k: nat, hi: int)
    requires Priors(ring, prior, runs) && k < |runs| && runs[k].lo <= hi
    ensures Priors(ring, prior, Until(runs, k, hi))
  {
    hide Cell;
    var runs' := Until(runs, k, hi);
    forall j | 0 <= j < |runs'| ensures prior[Cell(ring, runs'[j].lo)] == PriorCell(ring, runs', j) {
      PriorAt(ring, prior, runs, j);
      assert runs'[j].lo == runs[j].lo && (j > 0 ==> runs'[j - 1].lo == runs[j - 1].lo);
    }
  }

  /** Where the links of interval k lead, and which of its neighbours' cells differ. */
  lemma NeighbourCells(ring: Ring, c: Cells, prior: seq<int>, runs: seq<Interval>, k: nat)
    requires Stores(ring, c, runs) && Priors(ring, prior, runs) && k < |runs|
    ensures |prior| == ring.size && prior[Cell(ring, runs[k].lo)] == PriorCell(ring, runs, k)
    ensures StartCell(ring, runs, 0) == Cell(ring, runs[k].lo) <==> k == 0
    ensures Cell(ring, runs[|runs| - 1].lo) == Cell(ring, runs[k].lo) <==> k + 1 == |runs|
    ensures k > 0 ==> PriorCell(ring, runs, k) != Cell(ring, runs[k].lo)
  {
    CellsDistinct(ring, runs);
  }

  /** The ends and the backward links after interval k is deleted. */
  lemma DeleteEnds(ring: Ring, c: Cells, prior: seq<int>, runs: seq<Interval>, k: nat)
    requires Stores(ring, c, runs) && Priors(ring, prior, runs) && k < |runs|
    ensures Priors(ring,
                   if k + 1 < |runs| then prior[Cell(ring, runs[k + 1].lo) := PriorCell(ring, runs, k)] else prior,
                   DeleteAt(runs, k))
    ensures var runs' := DeleteAt(runs, k);
            && StartCell(ring, runs', 0) == (if k == 0 then StartCell(ring, runs, 1) else StartCell(ring, runs, 0))
            && (|runs'| > 0 ==>
                  Cell(ring, runs'[|runs'| - 1].lo)
                  == (if k > 0 && k + 1 == |runs| then PriorCell(ring, runs, k) else Cell(ring, runs[|runs| - 1].lo)))
  {
    PriorsDelete(ring, prior, runs, k);
  }

  /** The ends and the backward links after interval k moved one number on. */
  lemma AdvanceEnds(ring: Ring, c: Cells, prior: seq<int>, runs: seq<Interval>, k: nat)
    requires Stores(ring, c, runs) && Disjoint(runs) && Priors(ring, prior, runs)
    requires k < |runs| && runs[k].lo < runs[k].hi
    ensures var t := Cell(ring, runs[k].lo + 1);
            var runs' := Advance(runs, k);
            var w := prior[t := PriorCell(ring, runs, k)];
            && Priors(ring, if k + 1 < |runs| then w[Cell(ring, runs[k + 1].lo) := t] else w, runs')
            && StartCell(ring, runs', 0) == (if k == 0 then t else StartCell(ring, runs, 0))
            && Cell(ring, runs'[|runs'| - 1].lo) == (if k + 1 == |runs| then t else Cell(ring, runs[|runs| - 1].lo))
            && (k > 0 ==> PriorCell(ring, runs, k) != t)
            && (k + 1 < |runs| ==> Cell(ring, runs[k + 1].lo) != t)
  {
    AdvanceFits(ring, runs, k);
    assert Fits(ring, runs);
    hide Cell, Stores, Fits, Disjoint;
    PriorsAdvance(ring, prior, runs, k);
    CellsDistinct(ring, Advance(runs, k));
    hide Priors;
    assert forall j :: 0 <= j < |runs| && j != k ==> Advance(runs, k)[j] == runs[j];
    assert Advance(runs, k)[k].lo == runs[k].lo + 1;
  }

  /** The ends and the backward links after interval k was split around s. */
  lemma PunchEnds(ring: Ring, c: Cells, prior: seq<int>, runs: seq<Interval>, k: nat, s: int)
    requires Stores(ring, c, runs) && Disjoint(runs) && Priors(ring, prior, runs)
    requires k < |runs| && runs[k].lo < s < runs[k].hi
    ensures var t := Cell(ring, s + 1);
            var runs' := Punch(runs, k, s);
            var w := prior[t := Cell(ring, runs[k].lo)];
            && Priors(ring, if k + 1 < |runs| then w[Cell(ring, runs[k + 1].lo) := t] else w, runs')
            && StartCell(ring, runs', 0) == StartCell(ring, runs, 0)
            && Cell(ring, runs'[|runs'| - 1].lo) == (if k + 1 == |runs| then t else Cell(ring, runs[|runs| - 1].lo))
  {
    PunchFits(ring, runs, k, s);
    PunchShape(runs, k, s);
    hide Cell, Stores, Fits, Disjoint, Punch, Priors;
    var v := Interval(s + 1, runs[k].hi);
    var cut := Until(runs, k, s - 1);
    PriorsUntil(ring, prior, runs, k, s - 1);
    PriorsInsert(ring, prior, cut, k + 1, v);
  }

  lemma BetweenCells(ring: Ring, c: Cells, runs: seq<Interval>, k: nat, x: int)
    requires Stores(ring, c, runs) && Disjoint(runs) && k < |runs|
    requires runs[k].hi < x && (k + 1 < |runs| ==> x < runs[k + 1].lo)
    ensures x !in Members(runs)
  {
    Between(runs, k, x);
  }

  // ---------- the list ----------

  class RcvLossList {
    const size: int
    const data1: array<int>
    const data2: array<int>
    const next: array<int>
    const prior: array<int>
    var head: int
    var tail: int
    var length: int

    ghost var ring: Ring
    ghost var runs: seq<Interval>

    ghost function View(): Cells
      reads data1, data2, next
    {
      Cells(data1[..], data2[..], next[..])
    }

    ghost predicate Shape()
      reads this
    {
      && data1 != data2 && data2 != next && next != data1
      && prior != data1 && prior != data2 && prior != next
      && 0 < data1.Length == data2.Length == next.Length == prior.Length == size == ring.size
    }

    /** The forward links, the words and the count; the two ends and the backward links agree. */
    ghost predicate Valid()
      reads this, data1, data2, next, prior
    {
      && Shape()
      && Stores(ring, View(), runs) && Disjoint(runs)
      && Priors(ring, prior[..], runs)
      && length == Total(runs)
      && head == StartCell(ring, runs, 0)
      && (|runs| > 0 ==> tail == Cell(ring, runs[|runs| - 1].lo))
    }

    /** The missing packet indices. */
    ghost function Lost(): set<int>
      reads this
    {
      Members(runs)
    }

    constructor (size: int)
      requires 0 < size
      ensures Valid() && this.size == size && Lost() == {}
      ensures fresh(data1) && fresh(data2) && fresh(next) && fresh(prior)
    {
      this.size := size;
      data1 := new int[size](_ => -1);
      data2 := new int[size](_ => -1);
      next := new int[size];
      prior := new int[size];
      head, tail, length := -1, -1, 0;
      ring, runs := Ring(size, 0), [];
    }

    /** Adds the packets seqno1 .. seqno2, all above the ones in the list. */
    method Insert(seqno1: int, seqno2: int, ghost v: Interval, ghost base: int)
      requires Valid() && InOneWindow(size, Lost() + Range(v), base)
      requires seqno1 == Wire(v.lo) && seqno2 == Wire(v.hi)
      requires forall x :: x in Lost() ==> x < v.lo
      modifies this, data1, data2, next, prior
      ensures Valid() && ring.size == old(ring.size)
      ensures Lost() == old(Lost()) + Range(v)
    {
      hide Stores, Live, Total, Members, Wire, SeqLen, SeqOff, SeqCmp, Cell, Range, Priors, Disjoint, Mod;
      TotalPositive(runs);
      assert v.lo in Range(v) && v.hi in Range(v);
      if length == 0 {
        InsertIntoEmpty(seqno1, seqno2, v);
        MembersOne(v);
        return;
      }
      ghost var k := |runs| - 1;
      ReadNode(ring, View(), runs, 0);
      ReadNode(ring, View(), runs, k);
      WindowBounds(ring, runs, base, 0);
      WindowBounds(ring, runs, base, k);
      MemberOf(runs, k, runs[k].hi);
      StepAgrees(runs[k].hi);
      WindowAgrees(runs[0].lo, v.lo);
      WindowAgrees(runs[k].hi + 1, v.lo);
      var offset := SeqOff(data1[head], seqno1);
      CellShift(ring, runs[0].lo, offset);
      var loc := Mod(head + offset, size);
      if data2[tail] != -1 && IncSeq(data2[tail]) == seqno1 {
        ExtendTail(seqno1, seqno2, v);
      } else {
        WindowHasRoom(ring, runs, k + 1, v, base);
        Append(seqno1, seqno2, loc, v);
      }
    }

    method InsertIntoEmpty(seqno1: int, seqno2: int, ghost v: Interval)
      requires Valid() && runs == []
      requires seqno1 == Wire(v.lo) && seqno2 == Wire(v.hi)
      requires v.hi - v.lo < size && v.hi - v.lo < SEQ_TH
      modifies this, data1, data2, next, prior
      ensures Valid() && ring.size == old(ring.size) && runs == [v]
    {
      hide Stores, Live, Total, Members, Wire, SeqLen, SeqOff, SeqCmp, Cell;
      StoreFirst(ring, View(), v);
      MembersOne(v);
      WindowAgrees(v.lo, v.hi);
      TotalPositive(runs);
      CellOrigin(Ring(size, v.lo));
      ghost var w := Put(View(), 0, v, -1);
      head := 0;
      tail := 0;
      data1[head] := seqno1;
      if seqno2 != seqno1 {
        data2[head] := seqno2;
      }
      next[head] := -1;
      prior[head] := -1;
      length := length + SeqLen(seqno1, seqno2);
      ring, runs := Ring(size, v.lo), [v];
      assert data1[..] == w.data1 && data2[..] == w.data2 && next[..] == w.next;
    }

    /** The new numbers continue the last interval. */
    method ExtendTail(seqno1: int, seqno2: int, ghost v: Interval)
      requires Valid() && |runs| > 0 && runs[|runs| - 1].hi + 1 == v.lo
      requires runs[|runs| - 1].lo < runs[|runs| - 1].hi
      requires seqno1 == Wire(v.lo) && seqno2 == Wire(v.hi)
      requires v.hi - runs[0].lo < size && v.hi - runs[0].lo < SEQ_TH
      modifies this`length, this`runs, data2
      ensures Valid() && Lost() == old(Lost()) + Range(v)
    {
      hide Stores, Live, Total, Members, Wire, SeqLen, SeqOff, SeqCmp, Cell, Range, Priors;
      ghost var k := |runs| - 1;
      ReadNode(ring, View(), runs, k);
      Lengthened(ring, View(), runs, k, v.hi);
      Extended(runs, k, v);
      PriorsUntil(ring, prior[..], runs, k, v.hi);
      WindowAgrees(v.lo, v.hi);
      ghost var w := data2[..][tail := Wire(v.hi)];
      data2[tail] := seqno2;
      length := length + SeqLen(seqno1, seqno2);
      runs := Until(runs, k, v.hi);
      assert data2[..] == w;
    }

    /** Writes the words of a node at the end of the list. */
    method AppendWords(seqno1: int, seqno2: int, loc: int, ghost v: Interval)
      requires Shape() && 0 <= loc < size && 0 <= tail < size && loc != tail
      requires seqno1 == Wire(v.lo) && seqno2 == Wire(v.hi) && v.hi - v.lo < SEQ_TH && data2[loc] == -1
      modifies this`tail, data1, data2, next, prior
      ensures var w := old(Put(View(), loc, v, -1));
              View() == w.(next := w.next[old(tail) := loc])
      ensures prior[..] == old(prior[..][loc := tail]) && tail == loc
    {
      hide Wire;
      WindowAgrees(v.lo, v.hi);
      data1[loc] := seqno1;
      if seqno2 != seqno1 {
        data2[loc] := seqno2;
      }
      next[tail] := loc;
      prior[loc] := tail;
      next[loc] := -1;
      tail := loc;
    }

    /** The new numbers become the last interval. */
    method Append(seqno1: int, seqno2: int, loc: int, ghost v: Interval)
      requires Valid() && |runs| > 0 && HasRoom(ring, runs, |runs|, v)
      requires loc == Cell(ring, v.lo) && seqno1 == Wire(v.lo) && seqno2 == Wire(v.hi)
      requires v.hi - v.lo < SEQ_TH
      modifies this`tail, this`length, this`runs, data1, data2, next, prior
      ensures Valid() && Lost() == old(Lost()) + Range(v)
    {
      hide Stores, Live, Total, Members, Wire, SeqLen, SeqOff, SeqCmp, Cell, Range, Priors, Put;
      ghost var k := |runs|;
      ReadNode(ring, View(), runs, k - 1);
      Linked(ring, View(), runs, k, v);
      AppendKeeps(ring, View(), runs, v);
      PriorsInsert(ring, prior[..], runs, k, v);
      WindowAgrees(v.lo, v.hi);
      AppendWords(seqno1, seqno2, loc, v);
      length := length + SeqLen(seqno1, seqno2);
      runs := InsertAt(runs, k, v);
    }

    // ---------- remove ----------

    /** Walks back from the cell before x to the last interval that starts below x. */
    method ScanBack(start: int, ghost x: int) returns (i: int, ghost k: nat)
      requires Valid() && |runs| > 0 && runs[0].lo < x < runs[0].lo + size
      requires start == Cell(ring, x - 1)
      ensures k < |runs| && i == Cell(ring, runs[k].lo)
      ensures runs[k].lo < x && (k + 1 < |runs| ==> x <= runs[k + 1].lo)
    {
      hide Stores, Live, Total, Members, Wire, Cell, Priors, Disjoint, Mod;
      i := start;
      ghost var y := x - 1;
      ReadOccupied(ring, View(), runs, y);
      while data1[i] == -1
        invariant runs[0].lo <= y < x && i == Cell(ring, y)
        invariant forall j :: 0 <= j < |runs| ==> runs[j].lo <= y || x <= runs[j].lo
        invariant data1[i] == -1 <==> forall j :: 0 <= j < |runs| ==> runs[j].lo != y
        decreases y - runs[0].lo
      {
        CellShift(ring, y, -1);
        i := Mod(i - 1 + size, size);
        y := y - 1;
        ReadOccupied(ring, View(), runs, y);
      }
      k :| 0 <= k < |runs| && runs[k].lo == y;
      if k + 1 < |runs| {
        ReadNode(ring, View(), runs, k);
      }
    }

    /** Unlinks the single number held by interval k, in cell loc. */
    method DeleteNode(loc: int, ghost k: nat)
      requires Valid() && k < |runs| && loc == Cell(ring, runs[k].lo) && runs[k].lo == runs[k].hi
      modifies this`head, this`tail, this`length, this`runs, data1, data2, next, prior
      ensures Valid() && Lost() == old(Lost() - {runs[k].lo})
    {
      hide Stores, Live, Total, Members, Wire, Cell, Priors, Disjoint, Range;
      ReadNode(ring, View(), runs, k);
      NeighbourCells(ring, View(), prior[..], runs, k);
      DeleteKeeps(ring, View(), runs, k);
      DeleteEnds(ring, View(), prior[..], runs, k);
      assert Range(runs[k]) == {runs[k].lo};
      DeleteWords(loc, k);
      length := length - 1;
      runs := DeleteAt(runs, k);
    }

    /** The words and links changed when the node in cell loc goes. */
    method DeleteWords(loc: int, ghost k: nat)
      requires Shape() && k < |runs|
      requires 0 <= loc < size && loc == Cell(ring, runs[k].lo) && data2[loc] == -1
      requires next[loc] == StartCell(ring, runs, k + 1) && prior[loc] == PriorCell(ring, runs, k)
      requires head == loc <==> k == 0
      modifies this`head, this`tail, data1, next, prior
      ensures var w := old(Clear(View(), loc));
              View() == if k == 0 then w else w.(next := w.next[PriorCell(ring, runs, k) := old(next[loc])])
      ensures prior[..] == old(if k + 1 < |runs| then prior[..][Cell(ring, runs[k + 1].lo) := PriorCell(ring, runs, k)]
                               else prior[..])
      ensures head == if k == 0 then StartCell(ring, runs, 1) else old(head)
      ensures tail == if k > 0 && k + 1 == |runs| then PriorCell(ring, runs, k) else old(tail)
    {
      hide Cell;
      if head == loc {
        head := next[head];
        if head != -1 {
          prior[head] := -1;
        }
      } else {
        next[prior[loc]] := next[loc];
        if next[loc] != -1 {
          prior[next[loc]] := prior[loc];
        } else {
          tail := prior[loc];
        }
      }
      data1[loc] := -1;
    }

    /** Takes the first number from interval k: its node moves one cell on. */
    method AdvanceNode(loc: int, ghost k: nat)
      requires Valid() && k < |runs| && loc == Cell(ring, runs[k].lo) && runs[k].lo < runs[k].hi
      modifies this`head, this`tail, this`length, this`runs, data1, data2, next, prior
      ensures Valid() && Lost() == old(Lost() - {runs[k].lo})
    {
      hide Stores, Live, Total, Members, Wire, Cell, Priors, Disjoint, Range, Put, Clear, Mod;
      ReadNode(ring, View(), runs, k);
      NeighbourCells(ring, View(), prior[..], runs, k);
      MoveStart(ring, View(), runs, k);
      AdvanceKeeps(ring, View(), runs, k);
      AdvanceEnds(ring, View(), prior[..], runs, k);
      CellShift(ring, runs[k].lo, 1);
      var i := Mod(loc + 1, size);
      AdvanceWords(loc, i, k);
      length := length - 1;
      runs := Advance(runs, k);
    }

    /** The words and links changed when the node in cell loc moves to cell i. */
    method AdvanceWords(loc: int, i: int, ghost k: nat)
      requires Shape() && k < |runs| && runs[k].lo < runs[k].hi && runs[k].hi - runs[k].lo < SEQ_TH
      requires 0 <= loc < size && loc == Cell(ring, runs[k].lo) && i == Cell(ring, runs[k].lo + 1) && i != loc
      requires data1[loc] == Wire(runs[k].lo) && data2[loc] == Wire(runs[k].hi) && data2[i] == -1
      requires next[loc] == StartCell(ring, runs, k + 1) && prior[loc] == PriorCell(ring, runs, k)
      requires head == loc <==> k == 0
      requires tail == loc <==> k + 1 == |runs|
      requires k > 0 ==> PriorCell(ring, runs, k) != i && PriorCell(ring, runs, k) != loc
      requires k + 1 < |runs| ==> Cell(ring, runs[k + 1].lo) != i
      modifies this`head, this`tail, data1, data2, next, prior
      ensures var w := old(Clear(Put(View(), i, Interval(runs[k].lo + 1, runs[k].hi), next[loc]), loc));
              View() == if k == 0 then w else w.(next := w.next[PriorCell(ring, runs, k) := i])
      ensures var p := old(prior[..][i := PriorCell(ring, runs, k)]);
              prior[..] == if k + 1 < |runs| then p[Cell(ring, runs[k + 1].lo) := i] else p
      ensures head == (if k == 0 then i else old(head)) && tail == (if k + 1 == |runs| then i else old(tail))
    {
      hide Cell, Wire;
      MoveWords(loc, i, k);
      assert next[i] == View().next[i] == old(next[loc]) && prior[i] == prior[..][i] == old(prior[loc]);
      RelinkAround(loc, i);
    }

    /** The words and the links of a node move to another cell. */
    method MoveWords(loc: int, i: int, ghost k: nat)
      requires Shape() && k < |runs| && runs[k].lo < runs[k].hi && runs[k].hi - runs[k].lo < SEQ_TH
      requires 0 <= loc < size && 0 <= i < size && i != loc
      requires data1[loc] == Wire(runs[k].lo) && data2[loc] == Wire(runs[k].hi) && data2[i] == -1
      modifies data1, data2, next, prior
      ensures View() == old(Clear(Put(View(), i, Interval(runs[k].lo + 1, runs[k].hi), next[loc]), loc))
      ensures prior[..] == old(prior[..][i := prior[loc]])
    {
      hide Wire, SeqCmp;
      StepAgrees(runs[k].lo);
      WindowAgrees(runs[k].hi, runs[k].lo + 1);
      data1[i] := IncSeq(data1[loc]);
      if SeqCmp(data2[loc], IncSeq(data1[loc])) > 0 {
        data2[i] := data2[loc];
      }
      data1[loc] := -1;
      data2[loc] := -1;
      next[i] := next[loc];
      prior[i] := prior[loc];
    }

    /** The neighbours of a node that moved from loc to i, or the ends of the list, follow it. */
    method RelinkAround(loc: int, i: int)
      requires Shape() && 0 <= i < size
      requires head != loc ==> 0 <= prior[i] < size
      requires tail != loc ==> 0 <= next[i] < size && (head != loc ==> prior[i] != i)
      modifies this`head, this`tail, next, prior
      ensures data1[..] == old(data1[..]) && data2[..] == old(data2[..])
      ensures next[..] == if old(head) == loc then old(next[..]) else old(next[..][prior[i] := i])
      ensures prior[..] == if old(tail) == loc then old(prior[..]) else old(prior[..][next[i] := i])
      ensures head == (if old(head) == loc then i else old(head)) && tail == (if old(tail) == loc then i else old(tail))
    {
      if head == loc {
        head := i;
      } else {
        next[prior[i]] := i;
      }
      if tail == loc {
        tail := i;
      } else {
        prior[next[i]] := i;
      }
    }

    /** Removes one packet; tells whether it was in the list. */
    method Remove(seqno: int, ghost s: int, ghost base: int) returns (found: bool)
      requires Valid() && seqno == Wire(s) && InOneWindow(size, Lost() + {s}, base)
      modifies this, data1, data2, next, prior
      ensures Valid() && ring.size == old(ring.size)
      ensures Lost() == old(Lost()) - {s}
      ensures found <==> s in old(Lost())
    {
      hide Stores, Live, Total, Members, Wire, SeqLen, SeqOff, SeqCmp, Cell, Priors, Disjoint, Mod;
      TotalPositive(runs);
      if length == 0 {
        return false;
      }
      ReadNode(ring, View(), runs, 0);
      FirstIsLeast(ring, View(), runs);
      assert runs[0].lo in Lost() + {s} && s in Lost() + {s};
      WindowAgrees(runs[0].lo, s);
      var offset := SeqOff(data1[head], seqno);
      if offset < 0 {
        return false;
      }
      CellShift(ring, runs[0].lo, offset);
      var loc := Mod(head + offset, size);
      ReadStart(ring, View(), runs, s);
      if seqno == data1[loc] {
        ghost var k :| 0 <= k < |runs| && runs[k].lo == s;
        RemoveStart(seqno, loc, k);
        return true;
      }
      CellShift(ring, s, -1);
      var i;
      ghost var k;
      var start := Mod(loc - 1 + size, size);
      i, k := ScanBack(start, s);
      ReadNode(ring, View(), runs, k);
      found := RemoveInside(seqno, loc, i, k, s);
    }

    /** The packet starts interval k. */
    method RemoveStart(seqno: int, loc: int, ghost k: nat)
      requires Valid() && k < |runs| && loc == Cell(ring, runs[k].lo) && seqno == Wire(runs[k].lo)
      modifies this, data1, data2, next, prior
      ensures Valid() && ring == old(ring) && Lost() == old(Lost() - {runs[k].lo})
      ensures old(runs[k].lo in Lost())
    {
      hide Stores, Live, Total, Members, Wire, Cell, Priors, Disjoint;
      ReadNode(ring, View(), runs, k);
      MemberOf(runs, k, runs[k].lo);
      if data2[loc] == -1 {
        DeleteNode(loc, k);
      } else {
        AdvanceNode(loc, k);
      }
    }

    /** The packet is behind the start of interval k, in cell i, and before interval k + 1. */
    method RemoveInside(seqno: int, loc: int, i: int, ghost k: nat, ghost s: int) returns (found: bool)
      requires Valid() && k < |runs| && i == Cell(ring, runs[k].lo) && loc == Cell(ring, s) && seqno == Wire(s)
      requires runs[k].lo < s < runs[k].lo + SEQ_TH && (k + 1 < |runs| ==> s < runs[k + 1].lo)
      modifies this, data1, data2, next, prior
      ensures Valid() && ring == old(ring) && Lost() == old(Lost()) - {s}
      ensures found <==> s in old(Lost())
    {
      hide Stores, Live, Total, Members, Wire, SeqLen, SeqOff, SeqCmp, Cell, Priors, Disjoint;
      ReadNode(ring, View(), runs, k);
      WindowAgrees(s, runs[k].hi);
      StepAgrees(runs[k].lo);
      WindowAgrees(s, runs[k].lo + 1);
      if data2[i] == -1 || SeqCmp(seqno, data2[i]) > 0 {
        BetweenCells(ring, View(), runs, k, s);
        return false;
      }
      MemberOf(runs, k, s);
      if seqno == data2[i] {
        ShortenNode(seqno, i, k);
      } else {
        PunchNode(seqno, loc, i, k, s);
      }
      found := true;
    }

    /** Takes the last number from interval k. */
    method ShortenNode(seqno: int, i: int, ghost k: nat)
      requires Valid() && k < |runs| && i == Cell(ring, runs[k].lo)
      requires runs[k].lo < runs[k].hi && seqno == Wire(runs[k].hi)
      modifies this`length, this`runs, data2
      ensures Valid() && Lost() == old(Lost() - {runs[k].hi})
    {
      hide Stores, Live, Total, Members, Wire, Cell, Priors, Disjoint;
      ghost var hi := runs[k].hi;
      ReadNode(ring, View(), runs, k);
      ShortenKeeps(ring, View(), runs, k);
      PriorsUntil(ring, prior[..], runs, k, hi - 1);
      StepAgrees(runs[k].lo);
      StepAgrees(hi);
      WindowAgrees(runs[k].lo + 1, hi);
      ghost var w := data2[..][i := End(Interval(runs[k].lo, hi - 1))];
      if seqno == IncSeq(data1[i]) {
        data2[i] := -1;
      } else {
        data2[i] := DecSeq(seqno);
      }
      length := length - 1;
      runs := Until(runs, k, hi - 1);
      assert data2[..] == w;
    }

    /** Splits interval k around the number s. */
    method PunchNode(seqno: int, loc: int, i: int, ghost k: nat, ghost s: int)
      requires Valid() && k < |runs| && i == Cell(ring, runs[k].lo) && loc == Cell(ring, s)
      requires runs[k].lo < s < runs[k].hi && seqno == Wire(s)
      modifies this`tail, this`length, this`runs, data1, data2, next, prior
      ensures Valid() && Lost() == old(Lost()) - {s}
    {
      hide Stores, Live, Total, Members, Wire, Cell, Priors, Disjoint, Put, Mod;
      ReadNode(ring, View(), runs, k);
      NeighbourCells(ring, View(), prior[..], runs, k);
      PunchKeeps(ring, View(), runs, k, s);
      PunchEnds(ring, View(), prior[..], runs, k, s);
      CellShift(ring, s, 1);
      var at := Mod(loc + 1, size);
      PunchWords(seqno, at, i, k, s);
      length := length - 1;
      runs := Punch(runs, k, s);
    }

    /** The words and links changed when the node in cell i is split around s. */
    method PunchWords(seqno: int, loc: int, i: int, ghost k: nat, ghost s: int)
      requires Shape() && k < |runs| && runs[k].lo < s < runs[k].hi && runs[k].hi - runs[k].lo < SEQ_TH
      requires 0 <= i < size && i == Cell(ring, runs[k].lo) && loc == Cell(ring, s + 1) && i != loc
      requires seqno == Wire(s)
      requires data1[i] == Wire(runs[k].lo) && data2[i] == Wire(runs[k].hi) && data2[loc] == -1
      requires next[i] == StartCell(ring, runs, k + 1)
      requires tail == i <==> k + 1 == |runs|
      modifies this`tail, data1, data2, next, prior
      ensures var w := old(Put(View(), loc, Interval(s + 1, runs[k].hi), next[i]));
              var cut := w.(next := w.next[i := loc]);
              View() == cut.(data2 := cut.data2[i := End(Interval(runs[k].lo, s - 1))])
      ensures var p := old(prior[..][loc := i]);
              prior[..] == if k + 1 < |runs| then p[Cell(ring, runs[k + 1].lo) := loc] else p
      ensures tail == if k + 1 == |runs| then loc else old(tail)
    {
      hide Cell, Wire, SeqCmp;
      StepAgrees(s);
      StepAgrees(runs[k].lo);
      WindowAgrees(runs[k].hi, s + 1);
      WindowAgrees(runs[k].lo + 1, s);
      data1[loc] := IncSeq(seqno);
      if SeqCmp(data2[i], data1[loc]) > 0 {
        data2[loc] := data2[i];
      }
      if seqno == IncSeq(data1[i]) {
        data2[i] := -1;
      } else {
        data2[i] := DecSeq(seqno);
      }
      next[loc] := next[i];
      next[i] := loc;
      prior[loc] := i;
      if tail == i {
        tail := loc;
      } else {
        prior[next[loc]] := loc;
      }
    }

    // ---------- queries ----------

    method GetLossLength() returns (n: int)
      requires Valid()
      ensures n == |Lost()|
    {
      SizeIsTotal(ring, View(), runs);
      n := length;
    }

    /** The smallest missing packet, or -1. */
    method GetFirstLostSeq() returns (seqno: int)
      requires Valid()
      ensures Lost() == {} ==> seqno == -1
      ensures Lost() != {} ==>
                exists m :: m in Lost() && (forall x :: x in Lost() ==> m <= x) && seqno == Wire(m)
    {
      hide Stores, Total, Members, Wire, Cell, Priors, Disjoint;
      TotalPositive(runs);
      if length == 0 {
        return -1;
      }
      ReadNode(ring, View(), runs, 0);
      FirstIsLeast(ring, View(), runs);
      seqno := data1[head];
    }

    /** Whether any missing packet lies in [a, b]. */
    method Find(seqno1: int, seqno2: int, ghost v: Interval, ghost base: int) returns (found: bool)
      requires Valid() && seqno1 == Wire(v.lo) && seqno2 == Wire(v.hi)
      requires InOneWindow(size, Lost() + Range(v), base)
      ensures found <==> exists x :: x in Lost() && v.lo <= x <= v.hi
    {
      hide Stores, Total, Members, Wire, Cell, Priors, Disjoint, SeqCmp, Range;
      TotalPositive(runs);
      if length == 0 {
        return false;
      }
      ghost var k: nat := 0;
      var p := head;
      assert v.lo in Range(v) && v.hi in Range(v);
      while p != -1
        invariant k <= |runs| && p == StartCell(ring, runs, k)
        invariant p == -1 <==> k == |runs|
        invariant forall j :: 0 <= j < k ==> runs[j].hi < v.lo || v.hi < runs[j].lo
        decreases |runs| - k
      {
        ReadNode(ring, View(), runs, k);
        WindowBounds(ring, runs, base, k);
        WindowAgrees(v.lo, runs[k].lo);
        WindowAgrees(runs[k].lo, v.lo);
        WindowAgrees(runs[k].lo, v.hi);
        WindowAgrees(runs[k].hi, v.lo);
        StartDistinct(ring, View(), runs, k + 1);
        if SeqCmp(data1[p], seqno1) == 0
          || (SeqCmp(data1[p], seqno1) > 0 && SeqCmp(data1[p], seqno2) <= 0)
          || (SeqCmp(data1[p], seqno1) < 0 && data2[p] != -1 && SeqCmp(data2[p], seqno1) >= 0)
        {
          ghost var x := if runs[k].lo < v.lo then v.lo else runs[k].lo;
          MemberOf(runs, k, x);
          assert x in Lost() && v.lo <= x <= v.hi;
          return true;
        }
        p := next[p];
        k := k + 1;
      }
      if x :| x in Lost() && v.lo <= x <= v.hi {
        var j := MemberWitness(runs, x);
      }
      found := false;
    }

    /** Appends the one or two words of the interval in cell i. */
    method WriteNode(words: array<int>, len0: int, i: int, ghost v: Interval) returns (len: int)
      requires Shape() && 0 <= i < size && 0 <= len0 && len0 + 2 <= words.Length
      requires words != data1 && words != data2 && words != next && words != prior
      requires data1[i] == Wire(v.lo) && data2[i] == End(v)
      modifies words
      ensures len0 < len <= len0 + 2 && words[..len] == old(words[..len0]) + EncodeOne(v)
    {
      StepAgrees(v.hi);
      len := len0;
      words[len] := data1[i];
      if data2[i] != -1 {
        words[len] := words[len] + FLAG;
        len := len + 1;
        words[len] := data2[i];
      }
      len := len + 1;
    }

    /** Writes the list as report words, at most `limit` of them, whole intervals first to
        last; stops early only for lack of room. */
    method GetLossArray(words: array<int>, limit: int) returns (len: int)
      requires Valid() && limit <= words.Length
      requires words != data1 && words != data2 && words != next && words != prior
      modifies words
      ensures Valid() && Lost() == old(Lost()) && 0 <= len <= words.Length
      ensures exists m :: 0 <= m <= |runs| && words[..len] == Encode(runs[..m])
                          && (m == |runs| || limit - 1 <= len)
    {
      hide Stores, Total, Members, Wire, Cell, Priors, Disjoint;
      len := 0;
      var i := head;
      ghost var m: nat := 0;
      StartDistinct(ring, View(), runs, 0);
      assert runs[..0] == [];
      hide Encode, EncodeOne;
      while len < limit - 1 && i != -1
        invariant Valid() && m <= |runs| && 0 <= len <= words.Length && len <= (if limit < 0 then 0 else limit)
        invariant i == StartCell(ring, runs, m) && (i == -1 <==> m == |runs|)
        invariant words[..len] == Encode(runs[..m])
        decreases |runs| - m
      {
        ReadNode(ring, View(), runs, m);
        StartDistinct(ring, View(), runs, m + 1);
        assert runs[..m + 1] == runs[..m] + [runs[m]];
        EncodeSnoc(runs[..m], runs[m]);
        len := WriteNode(words, len, i, runs[m]);
        i := next[i];
        m := m + 1;
      }
    }

    /** From one end to the other: of the words written for the first m intervals a sender takes
        exactly the missing numbers in them that it has not had acknowledged; with all intervals
        written these are all of them. */
    lemma ReportIsTaken(words: seq<int>, m: nat, lastAck: int, curr: int)
      requires Valid() && m <= |runs| && words == Encode(runs[..m])
      requires forall x :: x in Lost() ==> x <= curr
      requires forall x, y :: x in Lost() && y in Lost() ==> Abs(x - y) < SEQ_TH
      ensures Reports(words, runs[..m]) && Secure(runs[..m], lastAck, curr)
      ensures forall x :: x in TakenFrom(runs[..m], lastAck, curr)
                     <==> x in Lost() && lastAck <= x && (m < |runs| ==> x < runs[m].lo)
    {
      hide Stores, Total, Members, Wire, Cell, Priors, TakenFrom, Encode, Reports, Secure;
      forall k | 0 <= k < |runs|
        ensures runs[k].hi in Lost() && runs[k].lo in Lost()
      {
        MemberOf(runs, k, runs[k].hi);
        MemberOf(runs, k, runs[k].lo);
      }
      EncodeReports(runs[..m]);
      HonestReport(runs[..m], lastAck, curr);
      forall x
        ensures x in Members(runs[..m]) <==> x in Lost() && (m < |runs| ==> x < runs[m].lo)
      {
        FirstMembers(runs, m, x);
      }
    }
  }

  /** The members of the first intervals are those before the next one. */
  lemma FirstMembers(runs: seq<Interval>, m: nat, x: int)
    requires Disjoint(runs) && m <= |runs|
    ensures x in Members(runs[..m]) <==> x in Members(runs) && (m < |runs| ==> x < runs[m].lo)
  {
    hide Members;
    if x in Members(runs[..m]) {
      var k := MemberWitness(runs[..m], x);
      MemberOf(runs, k, x);
    }
    if x in Members(runs) && (m < |runs| ==> x < runs[m].lo) {
      var k := MemberWitness(runs, x);
      assert k < m;
      MemberOf(runs[..m], k, x);
    }
  }
}

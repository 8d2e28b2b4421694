/** The sender's loss list (`CSndLossList`): the packets to send again.

    The class keeps the C++ arrays; the ghost fields say which intervals of packet indices
    the arrays hold.  Every operation is specified by what it does to the set of lost
    indices.  Parameters marked ghost give the indices behind the wire numbers. */
module SndLossLists {
  import opened Arith
  import opened SeqNo
  import opened LossCells

  class SndLossList {
    const size: int
    const data1: array<int>
    const data2: array<int>
    const next: array<int>
    var head: int
    var length: int
    var lastInsertPos: int

    ghost var ring: Ring
    ghost var runs: seq<Interval>

    ghost function View(): Cells
      reads data1, data2, next
    {
      Cells(data1[..], data2[..], next[..])
    }

    /** The arrays hold the intervals; the head may be elsewhere. */
    ghost predicate Listed()
      reads this, data1, data2, next
    {
      && data1 != data2 && data2 != next && next != data1
      && 0 < data1.Length == data2.Length == next.Length == size == ring.size
      && Stores(ring, View(), runs)
      && length == Total(runs)
      && (lastInsertPos == -1 || Live(ring, runs, lastInsertPos))
    }

    /** All of the invariant except that the intervals are disjoint. */
    ghost predicate Stored()
      reads this, data1, data2, next
    {
      Listed() && head == StartCell(ring, runs, 0)
    }

    ghost predicate Valid()
      reads this, data1, data2, next
    {
      Stored() && Disjoint(runs)
    }

    /** The lost packet indices. */
    ghost function Lost(): set<int>
      reads this
    {
      Members(runs)
    }

    constructor (size: int)
      requires 0 < size
      ensures Valid() && this.size == size && Lost() == {}
      ensures fresh(data1) && fresh(data2) && fresh(next)
    {
      this.size := size;
      data1 := new int[size](_ => -1);
      data2 := new int[size](_ => -1);
      next := new int[size];
      head, length, lastInsertPos := -1, 0, -1;
      ring, runs := Ring(size, 0), [];
    }

    // ---------- insert ----------

    /** Moves the end of interval k up to `hi`; `from` is the wire form of its old end. */
    method Lengthen(loc: int, from: int, seqno2: int, ghost k: nat, ghost hi: int)
      requires Stored() && k < |runs| && loc == Cell(ring, runs[k].lo)
      requires from == Wire(runs[k].hi) && seqno2 == Wire(hi) && runs[k].hi < hi
      requires hi - runs[0].lo < size && hi - runs[0].lo < SEQ_TH
      modifies this`length, this`runs, data2
      ensures Stored() && runs == old(Until(runs, k, hi))
      ensures Lost() == old(Lost() + Range(Interval(runs[k].lo, hi)))
    {
      hide Stores, Live, Total, Members, Wire, SeqLen, SeqOff, SeqCmp, Cell;
      Lengthened(ring, View(), runs, k, hi);
      WindowAgrees(runs[k].hi, hi);
      length := length + SeqLen(from, seqno2) - 1;
      data2[loc] := seqno2;
      runs := Until(runs, k, hi);
      assert View() == old(View().(data2 := data2[..][loc := seqno2]));
    }

    /** First interval of an empty list, placed at cell 0. */
    method InsertIntoEmpty(seqno1: int, seqno2: int, ghost v: Interval)
      requires Valid() && runs == []
      requires seqno1 == Wire(v.lo) && seqno2 == Wire(v.hi)
      requires v.hi - v.lo < size && v.hi - v.lo < SEQ_TH
      modifies this, data1, data2, next
      ensures Valid() && runs == [v]
    {
      hide Stores, Live, Total, Members, Wire, SeqLen, SeqOff, SeqCmp, Cell;
      StoreFirst(ring, View(), v);
      MembersOne(v);
      WindowAgrees(v.lo, v.hi);
      TotalPositive(runs);
      InsertLive(Ring(size, v.lo), [], 0, v);
      CellOrigin(Ring(size, v.lo));
      assert InsertAt([], 0, v) == [v];
      head := 0;
      data1[head] := seqno1;
      if seqno2 != seqno1 {
        data2[head] := seqno2;
      }
      next[head] := -1;
      lastInsertPos := head;
      length := length + SeqLen(seqno1, seqno2);
      ring, runs := Ring(size, v.lo), [v];
      assert View() == old(Put(View(), 0, v, -1));
    }

    /** A new interval before the head. */
    method InsertBeforeHead(seqno1: int, seqno2: int, loc: int, ghost v: Interval)
      requires Valid() && |runs| > 0 && HasRoom(ring, runs, 0, v)
      requires loc == Cell(ring, v.lo) && seqno1 == Wire(v.lo) && seqno2 == Wire(v.hi)
      requires v.hi - v.lo < SEQ_TH
      modifies this, data1, data2, next
      ensures Stored() && ring == old(ring) && runs == old(InsertAt(runs, 0, v))
      ensures DisjointExcept(runs, 0) && Lost() == old(Lost()) + Range(v) && lastInsertPos == loc
    {
      hide Stores, Live, Total, Members, Wire, SeqLen, SeqOff, SeqCmp, Cell;
      LinkedFirst(ring, View(), runs, v);
      WindowAgrees(v.lo, v.hi);
      data1[loc] := seqno1;
      if seqno2 != seqno1 {
        data2[loc] := seqno2;
      }
      next[loc] := head;
      head := loc;
      lastInsertPos := loc;
      length := length + SeqLen(seqno1, seqno2);
      runs := InsertAt(runs, 0, v);
      assert View() == old(Put(View(), loc, v, head));
    }

    /** A new interval behind interval k - 1, which is stored in cell i. */
    method InsertAfter(seqno1: int, seqno2: int, loc: int, i: int, ghost k: nat, ghost v: Interval)
      requires Valid() && 0 < k <= |runs| && HasRoom(ring, runs, k, v)
      requires i == Cell(ring, runs[k - 1].lo)
      requires loc == Cell(ring, v.lo) && seqno1 == Wire(v.lo) && seqno2 == Wire(v.hi)
      requires v.hi - v.lo < SEQ_TH
      modifies this, data1, data2, next
      ensures Stored() && ring == old(ring) && runs == old(InsertAt(runs, k, v))
      ensures DisjointExcept(runs, k) && Lost() == old(Lost()) + Range(v) && lastInsertPos == loc
    {
      hide Stores, Live, Total, Members, Wire, SeqLen, SeqOff, SeqCmp, Cell;
      Linked(ring, View(), runs, k, v);
      WindowAgrees(v.lo, v.hi);
      lastInsertPos := loc;
      data1[loc] := seqno1;
      if seqno2 != seqno1 {
        data2[loc] := seqno2;
      }
      next[loc] := next[i];
      next[i] := loc;
      length := length + SeqLen(seqno1, seqno2);
      runs := InsertAt(runs, k, v);
      ghost var w := old(Put(View(), loc, v, next[i]));
      assert View() == w.(next := w.next[i := loc]);
    }

    /** Walks from interval k0 to the last interval that starts before x. */
    method ScanPrior(start: int, seqno: int, ghost k0: nat, ghost x: int) returns (i: int, ghost k: nat)
      requires Stored() && k0 < |runs| && start == Cell(ring, runs[k0].lo)
      requires runs[k0].lo < x < runs[0].lo + SEQ_TH && seqno == Wire(x)
      ensures k < |runs| && i == Cell(ring, runs[k].lo)
      ensures runs[k].lo < x && (k + 1 < |runs| ==> x <= runs[k + 1].lo)
    {
      hide Stores, Live, Total, Members, Wire, SeqLen, SeqOff, SeqCmp, Cell;
      i, k := start, k0;
      ReadNode(ring, View(), runs, k);
      while next[i] != -1 && SeqCmp(data1[next[i]], seqno) < 0
        invariant k < |runs| && i == Cell(ring, runs[k].lo) && runs[k].lo < x
        invariant next[i] == StartCell(ring, runs, k + 1)
        decreases |runs| - k
      {
        i := next[i];
        k := k + 1;
        ReadNode(ring, View(), runs, k);
        WindowAgrees(runs[k].lo, x);
      }
      if k + 1 < |runs| {
        ReadNode(ring, View(), runs, k + 1);
        WindowAgrees(runs[k + 1].lo, x);
      }
    }

    /** The new interval starts where interval k starts: keep the longer of the two. */
    method InsertAtStart(seqno1: int, seqno2: int, loc: int, ghost k: nat, ghost v: Interval)
      returns (covered: bool)
      requires Valid() && k < |runs| && runs[k].lo == v.lo && loc == Cell(ring, v.lo)
      requires seqno1 == Wire(v.lo) && seqno2 == Wire(v.hi)
      requires v.hi - runs[0].lo < size && v.hi - runs[0].lo < SEQ_TH
      modifies this`length, this`runs, data2
      ensures covered ==> Valid() && runs == old(runs) && Range(v) <= Lost()
      ensures !covered ==> Stored() && k < |runs| && runs[k].lo == v.lo && DisjointExcept(runs, k)
      ensures Lost() == old(Lost()) + Range(v)
    {
      hide Stores, Live, Total, Members, Wire, SeqLen, SeqOff, SeqCmp, Cell;
      ReadNode(ring, View(), runs, k);
      WindowAgrees(v.lo, v.hi);
      WindowAgrees(v.hi, runs[k].hi);
      Extended(runs, k, v);
      if v.hi <= runs[k].hi {
        Covered(runs, k, v);
      } else {
        UntilDisjoint(runs, k, v.hi);
      }
      if data2[loc] == -1 {
        if seqno2 != seqno1 {
          Lengthen(loc, seqno1, seqno2, k, v.hi);
        }
        covered := false;
      } else if SeqCmp(seqno2, data2[loc]) > 0 {
        Lengthen(loc, data2[loc], seqno2, k, v.hi);
        covered := false;
      } else {
        covered := true;
      }
    }

    /** The new interval starts behind interval k - 1, in cell i, and before interval k. */
    method InsertBehind(seqno1: int, seqno2: int, loc: int, i: int, ghost k: nat, ghost v: Interval, ghost base: int)
      returns (at: int, covered: bool)
      requires Valid() && InOneWindow(size, Lost() + Range(v), base)
      requires 0 < k <= |runs| && i == Cell(ring, runs[k - 1].lo) && loc == Cell(ring, v.lo)
      requires runs[k - 1].lo < v.lo && (k < |runs| ==> v.lo < runs[k].lo)
      requires seqno1 == Wire(v.lo) && seqno2 == Wire(v.hi)
      modifies this, data1, data2, next
      ensures ring == old(ring) && Lost() == old(Lost()) + Range(v)
      ensures covered ==> Valid() && runs == old(runs) && Range(v) <= Lost()
      ensures !covered ==> Stored() && exists k :: 0 <= k < |runs| && at == Cell(ring, runs[k].lo)
                                                   && DisjointExcept(runs, k)
      ensures !covered ==> lastInsertPos == at
    {
      hide Stores, Live, Total, Members, Wire, SeqLen, SeqOff, SeqCmp, Cell, Range;
      ReadNode(ring, View(), runs, k - 1);
      WindowBounds(ring, runs, base, k - 1);
      WindowBounds(ring, runs, base, 0);
      assert v.lo in Range(v) && v.hi in Range(v);
      WindowAgrees(runs[k - 1].hi, v.lo);
      WindowAgrees(runs[k - 1].hi, v.hi);
      if data2[i] == -1 || SeqCmp(data2[i], seqno1) < 0 {
        WindowHasRoom(ring, runs, k, v, base);
        InsertAfter(seqno1, seqno2, loc, i, k, v);
        return loc, false;
      }
      lastInsertPos := i;
      Extended(runs, k - 1, v);
      if SeqCmp(data2[i], seqno2) < 0 {
        UntilDisjoint(runs, k - 1, v.hi);
        Lengthen(i, data2[i], seqno2, k - 1, v.hi);
        assert runs[k - 1].lo == old(runs)[k - 1].lo;
        return i, false;
      }
      Covered(runs, k - 1, v);
      return loc, true;
    }

    /** Combines the ends and the counts of interval k and the one after it. */
    method MergeEnds(loc: int, i: int, ghost u: Interval, ghost v: Interval)
      requires data1 != data2 && 0 <= loc < data2.Length == data1.Length && 0 <= i < data2.Length && loc != i
      requires data1[i] == Wire(v.lo) && data2[i] == End(v) && data2[loc] == Wire(u.hi)
      requires u.lo < v.lo <= u.hi + 1
      requires v.hi - u.lo < SEQ_TH && u.hi - u.lo < SEQ_TH
      modifies this`length, data2
      ensures data2[..] == old(data2[..])[loc := Wire(if u.hi < v.hi then v.hi else u.hi)]
      ensures length == old(length) - (if u.hi < v.hi then u.hi - v.lo + 1 else v.hi - v.lo + 1)
    {
      hide SeqLen, SeqOff, SeqCmp, Wire;
      StepAgrees(u.hi);
      StepAgrees(v.hi);
      WindowAgrees(v.hi, u.hi);
      WindowAgrees(u.hi, v.lo);
      WindowAgrees(v.lo, u.hi);
      WindowAgrees(v.lo, u.hi + 1);
      WindowAgrees(v.lo, v.hi);
      if data2[i] != -1 {
        if SeqCmp(data2[i], data2[loc]) > 0 {
          if SeqCmp(data2[loc], data1[i]) >= 0 {
            length := length - SeqLen(data1[i], data2[loc]);
          }
          data2[loc] := data2[i];
        } else {
          length := length - SeqLen(data1[i], data2[i]);
        }
      } else {
        if data1[i] == IncSeq(data2[loc]) {
          data2[loc] := data1[i];
        } else {
          length := length - 1;
        }
      }
    }

    /** Joins interval k with the next one, which it overlaps or touches. */
    method AbsorbNext(loc: int, i: int, ghost k: nat)
      requires Stored() && DisjointExcept(runs, k) && k + 1 < |runs|
      requires loc == Cell(ring, runs[k].lo) && i == Cell(ring, runs[k + 1].lo)
      requires runs[k].lo < runs[k].hi && runs[k + 1].lo <= runs[k].hi + 1
      requires lastInsertPos == loc
      modifies this`length, this`runs, data1, data2, next
      ensures Stored() && runs == old(Absorb(runs, k)) && DisjointExcept(runs, k)
      ensures Lost() == old(Lost())
    {
      hide Stores, Live, Total, Members, Wire, Cell, DisjointExcept;
      ghost var hi := if runs[k].hi < runs[k + 1].hi then runs[k + 1].hi else runs[k].hi;
      ghost var wide := View().(data2 := data2[..][loc := Wire(hi)]);
      ReadNode(ring, View(), runs, k);
      ReadNode(ring, View(), runs, k + 1);
      Absorbed(ring, View(), runs, k);
      AbsorbKeepsMembers(runs, k);
      AbsorbIsDisjoint(ring, View(), runs, k);
      MergeEnds(loc, i, runs[k], runs[k + 1]);
      data1[i] := -1;
      data2[i] := -1;
      next[loc] := next[i];
      runs := Absorb(runs, k);
      assert View() == Clear(wide, i).(next := wide.next[loc := wide.next[i]]);
    }

    /** Joins interval k, in cell loc, with every later interval it overlaps or touches. */
    method Coalesce(loc: int, ghost k: nat)
      requires Stored() && k < |runs| && loc == Cell(ring, runs[k].lo) && DisjointExcept(runs, k)
      requires lastInsertPos == loc
      modifies this`length, this`runs, data1, data2, next
      ensures Valid() && Lost() == old(Lost())
    {
      hide Stores, Live, Total, Members, Wire, SeqLen, SeqOff, SeqCmp, Cell, DisjointExcept, Disjoint;
      ReadNode(ring, View(), runs, k);
      while next[loc] != -1 && data2[loc] != -1
        invariant Stored() && k < |runs| && loc == Cell(ring, runs[k].lo) && DisjointExcept(runs, k)
        invariant Lost() == old(Lost()) && 0 <= loc < size
        invariant next[loc] == StartCell(ring, runs, k + 1)
        invariant data2[loc] == -1 <==> runs[k].lo == runs[k].hi
        decreases |runs|
      {
        var i := next[loc];
        ReadNode(ring, View(), runs, k);
        ReadNode(ring, View(), runs, k + 1);
        StepAgrees(runs[k].hi);
        WindowAgrees(runs[k + 1].lo, runs[k].hi + 1);
        if SeqCmp(data1[i], IncSeq(data2[loc])) <= 0 {
          AbsorbIsDisjoint(ring, View(), runs, k);
          AbsorbNext(loc, i, k);
          ReadNode(ring, View(), runs, k);
        } else {
          AllDisjoint(ring, View(), runs, k);
          return;
        }
      }
      if k + 1 < |runs| {
        ReadNode(ring, View(), runs, k);
      }
      AllDisjoint(ring, View(), runs, k);
    }

    /** Adds the packets seqno1 .. seqno2 and returns how many of them are new. */
    method Insert(seqno1: int, seqno2: int, ghost v: Interval, ghost base: int) returns (added: int)
      requires Valid() && InOneWindow(size, Lost() + Range(v), base)
      requires seqno1 == Wire(v.lo) && seqno2 == Wire(v.hi)
      modifies this, data1, data2, next
      ensures Valid() && ring.size == old(ring.size)
      ensures Lost() == old(Lost()) + Range(v)
      ensures added == |Lost()| - |old(Lost())|
    {
      hide Stores, Live, Total, Members, Wire, SeqLen, SeqOff, SeqCmp, Cell, DisjointExcept, Range;
      TotalPositive(runs);
      assert v.lo in Range(v) && v.hi in Range(v);
      SizeIsTotal(ring, View(), runs);
      if length == 0 {
        InsertIntoEmpty(seqno1, seqno2, v);
        SizeIsTotal(ring, View(), runs);
        MembersOne(v);
        return length;
      }
      var origlen := length;
      var at, covered := Place(seqno1, seqno2, v, base);
      if covered {
        return 0;
      }
      ghost var k :| 0 <= k < |runs| && at == Cell(ring, runs[k].lo) && DisjointExcept(runs, k);
      Coalesce(at, k);
      SizeIsTotal(ring, View(), runs);
      added := length - origlen;
    }

    /** Puts the new interval in its place; it may then overlap intervals behind it. */
    method Place(seqno1: int, seqno2: int, ghost v: Interval, ghost base: int) returns (at: int, covered: bool)
      requires Valid() && |runs| > 0 && InOneWindow(size, Lost() + Range(v), base)
      requires seqno1 == Wire(v.lo) && seqno2 == Wire(v.hi)
      modifies this, data1, data2, next
      ensures ring == old(ring) && Lost() == old(Lost()) + Range(v)
      ensures covered ==> Valid() && runs == old(runs) && Range(v) <= Lost()
      ensures !covered ==> Stored() && exists k :: 0 <= k < |runs| && at == Cell(ring, runs[k].lo)
                                                   && DisjointExcept(runs, k)
      ensures !covered ==> lastInsertPos == at
    {
      hide Stores, Live, Total, Members, Wire, SeqLen, SeqOff, SeqCmp, Cell, DisjointExcept, Disjoint, Range;
      ReadNode(ring, View(), runs, 0);
      WindowBounds(ring, runs, base, 0);
      assert v.lo in Range(v) && v.hi in Range(v);
      WindowAgrees(runs[0].lo, v.lo);
      WindowAgrees(v.lo, v.hi);
      var offset := SeqOff(data1[head], seqno1);
      CellShift(ring, runs[0].lo, offset);
      var loc := Mod(head + offset + size, size);
      if offset < 0 {
        WindowHasRoom(ring, runs, 0, v, base);
        InsertBeforeHead(seqno1, seqno2, loc, v);
        at, covered := loc, false;
      } else if offset > 0 {
        ReadStart(ring, View(), runs, v.lo);
        if seqno1 == data1[loc] {
          ghost var k :| 0 <= k < |runs| && runs[k].lo == v.lo;
          lastInsertPos := loc;
          ReadNode(ring, View(), runs, k);
          covered := InsertAtStart(seqno1, seqno2, loc, k, v);
          at := loc;
        } else {
          at, covered := InsertInside(seqno1, seqno2, loc, v, base);
        }
      } else {
        lastInsertPos := head;
        if seqno2 != seqno1 {
          covered := InsertAtStart(seqno1, seqno2, loc, 0, v);
          at := loc;
        } else {
          Covered(runs, 0, v);
          at, covered := loc, true;
        }
      }
    }

    /** No interval starts where the new one does: find the one before it. */
    method InsertInside(seqno1: int, seqno2: int, loc: int, ghost v: Interval, ghost base: int)
      returns (at: int, covered: bool)
      requires Valid() && |runs| > 0 && InOneWindow(size, Lost() + Range(v), base)
      requires seqno1 == Wire(v.lo) && seqno2 == Wire(v.hi) && loc == Cell(ring, v.lo)
      requires runs[0].lo < v.lo && forall k :: 0 <= k < |runs| ==> runs[k].lo != v.lo
      modifies this, data1, data2, next
      ensures ring == old(ring) && Lost() == old(Lost()) + Range(v)
      ensures covered ==> Valid() && runs == old(runs) && Range(v) <= Lost()
      ensures !covered ==> Stored() && exists k :: 0 <= k < |runs| && at == Cell(ring, runs[k].lo)
                                                   && DisjointExcept(runs, k)
      ensures !covered ==> lastInsertPos == at
    {
      hide Stores, Total, Members, Wire, SeqLen, SeqOff, SeqCmp, Cell, DisjointExcept, Disjoint, Range;
      WindowBounds(ring, runs, base, 0);
      assert v.lo in Range(v) && v.hi in Range(v);
      var i := head;
      ghost var k0: nat := 0;
      if lastInsertPos != -1 {
        ghost var j :| 0 <= j < |runs| && lastInsertPos == Cell(ring, runs[j].lo);
        ReadNode(ring, View(), runs, j);
        WindowBounds(ring, runs, base, j);
        WindowAgrees(runs[j].lo, v.lo);
        if SeqCmp(data1[lastInsertPos], seqno1) < 0 {
          i := lastInsertPos;
          k0 := j;
        }
      }
      ghost var k;
      i, k := ScanPrior(i, seqno1, k0, v.lo);
      at, covered := InsertBehind(seqno1, seqno2, loc, i, k + 1, v, base);
    }

    // ---------- remove ----------

    /** Clears the head interval and returns the cell of the one behind it. */
    method DropHead(h: int) returns (after: int)
      requires Listed() && Disjoint(runs) && |runs| > 0 && h == Cell(ring, runs[0].lo)
      modifies this`length, this`lastInsertPos, this`runs, data1, data2
      ensures Listed() && Disjoint(runs) && runs == old(runs)[1..] && after == StartCell(ring, runs, 0)
      ensures Lost() == old(Lost() - Range(runs[0])) && after == old(StartCell(ring, runs, 1))
    {
      hide Stores, Live, Total, Members, Wire, SeqLen, SeqOff, SeqCmp, Cell, DisjointExcept, Disjoint;
      ReadNode(ring, View(), runs, 0);
      Dropped(ring, View(), runs);
      WindowAgrees(runs[0].lo, runs[0].hi);
      if data2[h] != -1 {
        length := length - SeqLen(data1[h], data2[h]);
        data2[h] := -1;
      } else {
        length := length - 1;
      }
      data1[h] := -1;
      if lastInsertPos == h {
        lastInsertPos := -1;
      }
      after := next[h];
      runs := runs[1..];
      assert View() == old(Clear(View(), h));
    }

    /** Moves the words of the head node, all but its first number, to the next cell. */
    method MoveHeadWords(seqno: int, loc: int, ghost v: Interval)
      requires data1 != data2 && data2 != next && next != data1
      requires data1.Length == data2.Length == next.Length
      requires 0 <= head < data1.Length && 0 <= loc < data1.Length && loc != head
      requires v.lo < v.hi && v.hi - v.lo < SEQ_TH && seqno == Wire(v.lo)
      requires data2[head] == Wire(v.hi) && data2[loc] == -1
      modifies data1, data2, next
      ensures View() == old(Clear(Put(View(), loc, Interval(v.lo + 1, v.hi), next[head]), head))
    {
      hide Wire, SeqCmp, SeqLen, SeqOff;
      StepAgrees(v.lo);
      WindowAgrees(v.hi, v.lo + 1);
      data1[loc] := IncSeq(seqno);
      if SeqCmp(data2[head], data1[loc]) > 0 {
        data2[loc] := data2[head];
      }
      data1[head] := -1;
      data2[head] := -1;
      next[loc] := next[head];
    }

    /** Takes the first number from a head interval of several: its node moves one cell on. */
    method ShiftHead(seqno: int)
      requires Valid() && |runs| > 0 && runs[0].lo < runs[0].hi && seqno == Wire(runs[0].lo)
      modifies this`head, this`length, this`lastInsertPos, this`runs, data1, data2, next
      ensures Valid() && Lost() == old(Lost() - {runs[0].lo})
    {
      hide Stores, Live, Total, Members, Wire, Cell, Disjoint, Put, Clear;
      ReadNode(ring, View(), runs, 0);
      MoveStart(ring, View(), runs, 0);
      AdvanceKeeps(ring, View(), runs, 0);
      CellShift(ring, runs[0].lo, 1);
      if lastInsertPos == head {
        lastInsertPos := -1;
      }
      var loc := Mod(head + 1, size);
      MoveHeadWords(seqno, loc, runs[0]);
      head := loc;
      length := length - 1;
      runs := Advance(runs, 0);
    }

    method GetLossLength() returns (n: int)
      requires Valid()
      ensures n == |Lost()| && (n == 0 <==> Lost() == {})
    {
      SizeIsTotal(ring, View(), runs);
      TotalPositive(runs);
      n := length;
    }

    /** Removes and returns the smallest lost number, or returns -1 when there is none. */
    method GetLostSeq() returns (seqno: int)
      requires Valid()
      modifies this, data1, data2, next
      ensures Valid() && ring.size == old(ring.size)
      ensures old(Lost()) == {} ==> seqno == -1 && Lost() == {}
      ensures old(Lost()) != {} ==>
                && 0 <= seqno
                && exists m :: m in old(Lost()) && (forall x :: x in old(Lost()) ==> m <= x)
                               && seqno == Wire(m) && Lost() == old(Lost()) - {m}
    {
      hide Stores, Live, Total, Wire, SeqLen, SeqOff, SeqCmp, Cell, DisjointExcept, Disjoint;
      TotalPositive(runs);
      if length == 0 {
        return -1;
      }
      ReadNode(ring, View(), runs, 0);
      FirstIsLeast(ring, View(), runs);
      ghost var lo := runs[0].lo;
      StepAgrees(lo);
      seqno := data1[head];
      if data2[head] == -1 {
        assert Range(runs[0]) == {lo};
        var after := DropHead(head);
        head := after;
      } else {
        ShiftHead(seqno);
      }
      assert Lost() == old(Lost()) - {lo};
    }

    /** Cuts interval k, in cell i, behind the number s; its rest goes to cell loc. */
    method SplitNode(i: int, loc: int, seqno: int, end: int, ghost k: nat, ghost s: int)
      requires Valid() && k < |runs| && runs[k].lo <= s < runs[k].hi && seqno == Wire(s)
      requires i == Cell(ring, runs[k].lo) && loc == Cell(ring, s + 1)
      requires end == End(Interval(runs[k].lo, s))
      modifies this`runs, data1, data2, next
      ensures Valid() && runs == old(Split(runs, k, s)) && Lost() == old(Lost())
    {
      hide Stores, Live, Total, Members, Wire, SeqLen, SeqOff, SeqCmp, Cell, DisjointExcept, Disjoint;
      ghost var v := Interval(s + 1, runs[k].hi);
      ReadNode(ring, View(), runs, k);
      SplitStored(ring, View(), runs, k, s);
      SplitKeeps(ring, View(), runs, k, s);
      StepAgrees(s);
      WindowAgrees(runs[k].hi, s + 1);
      ghost var p := Put(View().(data2 := data2[..][i := end]), loc, v, next[i]);
      ghost var w := p.(next := p.next[i := loc]);
      data1[loc] := IncSeq(seqno);
      if SeqCmp(data2[i], data1[loc]) > 0 {
        data2[loc] := data2[i];
      }
      data2[i] := end;
      next[loc] := next[i];
      next[i] := loc;
      runs := Split(runs, k, s);
      assert data1[..] == w.data1 && data2[..] == w.data2 && next[..] == w.next;
    }

    /** Clears every interval before the new head, which is interval t. */
    method DropPrior(h0: int, ghost t: nat)
      requires Listed() && Disjoint(runs) && t <= |runs|
      requires h0 == StartCell(ring, runs, 0) && head == StartCell(ring, runs, t)
      modifies this`length, this`lastInsertPos, this`runs, data1, data2
      ensures Valid() && runs == old(runs)[t..]
    {
      hide Stores, Live, Total, Members, Wire, Cell, DisjointExcept, Disjoint, Range;
      var h := h0;
      ghost var j: nat := 0;
      StartDistinct(ring, View(), runs, t);
      while h != head
        invariant Listed() && Disjoint(runs) && j <= t && runs == old(runs)[j..]
        invariant h == StartCell(ring, runs, 0) && head == StartCell(ring, runs, t - j)
        invariant h == head <==> j == t
        decreases t - j
      {
        h := DropHead(h);
        j := j + 1;
        StartDistinct(ring, View(), runs, t - j);
      }
    }

    /** Removes every lost packet up to and including seqno. */
    method Remove(seqno: int, ghost s: int)
      requires Valid() && seqno == Wire(s)
      requires forall x :: x in Lost() ==> Abs(s - x) < SEQ_TH
      modifies this, data1, data2, next
      ensures Valid() && ring.size == old(ring.size)
      ensures Lost() == Above(old(Lost()), s)
    {
      hide Stores, Live, Total, Members, Wire, SeqLen, SeqOff, SeqCmp, Cell, DisjointExcept, Range;
      TotalPositive(runs);
      if length == 0 {
        return;
      }
      ReadNode(ring, View(), runs, 0);
      FirstIsLeast(ring, View(), runs);
      assert runs[0].lo in Lost();
      WindowAgrees(runs[0].lo, s);
      var offset := SeqOff(data1[head], seqno);
      if offset == 0 {
        RemoveHeadNumber(seqno);
      } else if offset > 0 {
        CellShift(ring, runs[0].lo, offset);
        var loc := Mod(head + offset + size, size);
        var h := head;
        ghost var t := RemoveBehind(seqno, loc, s);
        ghost var before := runs;
        TailMembers(before, t, s);
        DropPrior(h, t);
      }
    }

    /** The bound is the head number itself: only that number goes. */
    method RemoveHeadNumber(seqno: int)
      requires Valid() && |runs| > 0 && seqno == Wire(runs[0].lo)
      modifies this, data1, data2, next
      ensures Valid() && ring == old(ring) && Lost() == Above(old(Lost()), old(runs[0].lo))
    {
      hide Stores, Live, Total, Members, Wire, SeqLen, SeqOff, SeqCmp, Cell, DisjointExcept, Disjoint;
      ReadNode(ring, View(), runs, 0);
      FirstIsLeast(ring, View(), runs);
      if data2[head] == -1 {
        assert Range(runs[0]) == {runs[0].lo};
        var after := DropHead(head);
        head := after;
      } else {
        ShiftHead(seqno);
      }
    }

    /** Finds the new head, cutting the interval that holds the bound if there is one. */
    method RemoveBehind(seqno: int, loc: int, ghost s: int) returns (ghost t: nat)
      requires Valid() && |runs| > 0 && seqno == Wire(s) && loc == Cell(ring, s)
      requires runs[0].lo < s < runs[0].lo + SEQ_TH
      modifies this, data1, data2, next
      ensures Listed() && Disjoint(runs) && ring == old(ring) && Lost() == old(Lost())
      ensures Parts(runs, t, s) && head == StartCell(ring, runs, t) && StartCell(ring, runs, 0) == old(head)
    {
      hide Stores, Live, Total, Members, Wire, SeqLen, SeqOff, SeqCmp, Cell, Disjoint, Parts;
      ReadStart(ring, View(), runs, s);
      CellShift(ring, s, 1);
      var after := Mod(loc + 1, size);
      if seqno == data1[loc] {
        ghost var k :| 0 <= k < |runs| && runs[k].lo == s;
        ReadNode(ring, View(), runs, k);
        t := CutNode(loc, after, seqno, -1, k, s);
      } else {
        var i;
        ghost var k;
        i, k := ScanPrior(head, seqno, 0, s);
        ReadNode(ring, View(), runs, k);
        t := CutNode(i, after, seqno, seqno, k, s);
      }
    }

    /** Interval k, in cell i, is the last one to start by s: the head moves behind s. */
    method CutNode(i: int, after: int, seqno: int, end: int, ghost k: nat, ghost s: int) returns (ghost t: nat)
      requires Valid() && k < |runs| && runs[k].lo <= s && seqno == Wire(s)
      requires s - runs[k].lo < SEQ_TH
      requires k + 1 < |runs| ==> s < runs[k + 1].lo
      requires i == Cell(ring, runs[k].lo) && after == Cell(ring, s + 1)
      requires end == End(Interval(runs[k].lo, s))
      modifies this`head, this`runs, data1, data2, next
      ensures Listed() && Disjoint(runs) && Lost() == old(Lost())
      ensures Parts(runs, t, s) && head == StartCell(ring, runs, t) && StartCell(ring, runs, 0) == old(head)
    {
      hide Stores, Live, Total, Members, Wire, SeqLen, SeqOff, SeqCmp, Cell, Disjoint, Parts;
      ReadNode(ring, View(), runs, k);
      WindowAgrees(runs[k].hi, s);
      t := k + 1;
      if runs[k].hi <= s {
        EndsBy(ring, View(), runs, k, s);
      } else {
        SplitKeeps(ring, View(), runs, k, s);
      }
      if data2[i] == -1 {
        head := next[i];
      } else if SeqCmp(data2[i], seqno) > 0 {
        SplitNode(i, after, seqno, end, k, s);
        head := after;
      } else {
        head := next[i];
      }
    }
  }
}

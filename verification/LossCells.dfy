/** A sorted list of intervals of packet indices kept in circular arrays.

    Both loss lists store an interval [lo, hi] in the cell whose distance from the head cell
    is the distance of lo from the first lost number: `data1` holds lo, `data2` holds hi or
    -1 for a single number, `next` holds the cell of the next interval or -1.  Cells that
    hold no interval hold -1.  This module states that layout on plain sequences and proves
    what each elementary change of the arrays does to it. */
module LossCells {
  import opened Arith
  import opened SeqNo

  datatype Span = Interval(lo: int, hi: int)

  /** A non-empty range of packet indices, both ends included. */
  type Interval = v: Span | v.lo <= v.hi witness Interval(0, 0)

  // ---------- interval lists as sets ----------

  function Range(v: Span): (s: set<int>)
    requires v.lo <= v.hi + 1
    ensures forall x :: x in s <==> v.lo <= x <= v.hi
    decreases v.hi - v.lo
  {
    if v.lo <= v.hi then Range(Interval(v.lo, v.hi - 1)) + {v.hi} else {}
  }

  function Members(runs: seq<Interval>): set<int> {
    if runs == [] then {} else Range(runs[0]) + Members(runs[1..])
  }

  function Total(runs: seq<Interval>): int {
    if runs == [] then 0 else runs[0].hi - runs[0].lo + 1 + Total(runs[1..])
  }

  /** The starts increase. */
  ghost predicate Increasing(runs: seq<Interval>) {
    forall j, k :: 0 <= j < k < |runs| ==> runs[j].lo < runs[k].lo
  }

  ghost predicate Disjoint(runs: seq<Interval>) {
    forall j, k :: 0 <= j < k < |runs| ==> runs[j].hi < runs[k].lo
  }

  /** All numbers fit between the first start and the limit above it. */
  ghost predicate Within(runs: seq<Interval>, span: int) {
    forall k :: 0 <= k < |runs| ==> runs[k].hi - runs[0].lo < span
  }

  lemma {:induction false} MembersConcat(a: seq<Interval>, b: seq<Interval>)
    ensures Members(a + b) == Members(a) + Members(b)
    ensures Total(a + b) == Total(a) + Total(b)
  {
    if a == [] {
      assert a + b == b;
    } else {
      assert (a + b)[1..] == a[1..] + b;
      MembersConcat(a[1..], b);
    }
  }

  lemma MembersOne(v: Interval)
    ensures Members([v]) == Range(v)
    ensures Total([v]) == v.hi - v.lo + 1
  {
    assert [v][1..] == [];
  }

  /** Members and total of a list cut in three. */
  lemma MembersSplice(a: seq<Interval>, mid: seq<Interval>, b: seq<Interval>)
    ensures Members(a + mid + b) == Members(a) + Members(mid) + Members(b)
    ensures Total(a + mid + b) == Total(a) + Total(mid) + Total(b)
  {
    MembersConcat(a + mid, b);
    MembersConcat(a, mid);
  }

  lemma {:induction false} MemberOf(runs: seq<Interval>, k: nat, x: int)
    requires k < |runs| && runs[k].lo <= x <= runs[k].hi
    ensures x in Members(runs)
  {
    if k > 0 {
      MemberOf(runs[1..], k - 1, x);
    }
  }

  lemma {:induction false} MemberWitness(runs: seq<Interval>, x: int) returns (k: nat)
    requires x in Members(runs)
    ensures k < |runs| && runs[k].lo <= x <= runs[k].hi
  {
    k := 0;
    if x !in Range(runs[0]) {
      var rest := runs[1..];
      var j := MemberWitness(rest, x);
      assert rest[j] == runs[j + 1];
      k := j + 1;
    }
  }

  lemma {:induction false} RangeSize(v: Span)
    requires v.lo <= v.hi + 1
    ensures |Range(v)| == v.hi - v.lo + 1
    decreases v.hi - v.lo
  {
    if v.lo <= v.hi {
      RangeSize(Interval(v.lo, v.hi - 1));
    }
  }

  /** With disjoint intervals the stored total is the number of members. */
  lemma {:induction false} TotalIsSize(runs: seq<Interval>)
    requires Increasing(runs) && Disjoint(runs)
    ensures |Members(runs)| == Total(runs)
  {
    if runs != [] {
      var rest := runs[1..];
      TotalIsSize(rest);
      RangeSize(runs[0]);
      assert Range(runs[0]) !! Members(rest) by {
        forall x | x in Members(rest) ensures x !in Range(runs[0]) {
          var k := MemberWitness(rest, x);
        }
      }
    }
  }

  // ---------- positions in the ring ----------

  /** The cell of index x in a ring of n cells whose cell 0 belongs to the origin. */
  function Cell(ring: Ring, x: int): (r: int)
    requires 0 < ring.size
    ensures 0 <= r < ring.size
  {
    (x - ring.origin) % ring.size
  }

  datatype Ring = Ring(size: int, origin: int)

  /** Cells are distinct for indices less than a ring apart. */
  lemma CellUnique(ring: Ring, x: int, y: int)
    requires 0 < ring.size && Abs(x - y) < ring.size
    ensures Cell(ring, x) == Cell(ring, y) <==> x == y
  {
    var n := ring.size;
    var a, b := x - ring.origin, y - ring.origin;
    if a % n == b % n {
      var q := a / n - b / n;
      assert q * n == a - b;
      LargeMultiple(q, n);
    }
  }

  /** Walking d cells from the cell of x, with or without one spare turn of the ring,
      reaches the cell of x + d. */
  lemma CellShift(ring: Ring, x: int, d: int)
    requires 0 < ring.size
    ensures -ring.size < d ==> Mod(Cell(ring, x) + d + ring.size, ring.size) == Cell(ring, x + d)
    ensures 0 <= d ==> Mod(Cell(ring, x) + d, ring.size) == Cell(ring, x + d)
  {
    var n, a := ring.size, x - ring.origin;
    ModShift(a, d, n);
  }

  lemma CellOrigin(ring: Ring)
    requires 0 < ring.size
    ensures Cell(ring, ring.origin) == 0
  {
  }

  // ---------- the layout ----------

  datatype Cells = Cells(data1: seq<int>, data2: seq<int>, next: seq<int>)

  /** Second word of an interval: its last number, or -1 when it is a single number. */
  function End(v: Interval): int {
    if v.lo == v.hi then -1 else Wire(v.hi)
  }

  /** The cell of interval k, or -1 past the last one. */
  function StartCell(ring: Ring, runs: seq<Interval>, k: nat): int
    requires 0 < ring.size
  {
    if k < |runs| then Cell(ring, runs[k].lo) else -1
  }

  ghost predicate Sized(ring: Ring, c: Cells) {
    0 < ring.size == |c.data1| == |c.data2| == |c.next|
  }

  /** Increasing intervals that fit in the ring and in one comparison window. */
  ghost predicate Fits(ring: Ring, runs: seq<Interval>) {
    Increasing(runs) && Within(runs, ring.size) && Within(runs, SEQ_TH)
  }

  ghost predicate Live(ring: Ring, runs: seq<Interval>, s: int)
    requires 0 < ring.size
  {
    exists k :: 0 <= k < |runs| && s == Cell(ring, runs[k].lo)
  }

  ghost predicate Holds(ring: Ring, c: Cells, runs: seq<Interval>, k: nat)
    requires Sized(ring, c) && k < |runs|
  {
    var s := Cell(ring, runs[k].lo);
    && c.data1[s] == Wire(runs[k].lo)
    && c.data2[s] == End(runs[k])
    && c.next[s] == StartCell(ring, runs, k + 1)
  }

  ghost predicate FreeElsewhere(ring: Ring, c: Cells, runs: seq<Interval>)
    requires Sized(ring, c)
  {
    forall s :: 0 <= s < ring.size && !Live(ring, runs, s) ==> c.data1[s] == -1 && c.data2[s] == -1
  }

  /** The arrays hold exactly these intervals, in this order. */
  ghost predicate Stores(ring: Ring, c: Cells, runs: seq<Interval>) {
    && Sized(ring, c) && Fits(ring, runs)
    && (forall k :: 0 <= k < |runs| ==> Holds(ring, c, runs, k))
    && FreeElsewhere(ring, c, runs)
  }

  lemma CellsDistinct(ring: Ring, runs: seq<Interval>)
    requires 0 < ring.size && Fits(ring, runs)
    ensures forall j, k :: 0 <= j < k < |runs| ==> Cell(ring, runs[j].lo) != Cell(ring, runs[k].lo)
  {
    forall j, k | 0 <= j < k < |runs| ensures Cell(ring, runs[j].lo) != Cell(ring, runs[k].lo) {
      assert runs[0].lo <= runs[j].lo;
      CellUnique(ring, runs[j].lo, runs[k].lo);
    }
  }

  /** A cell inside the ring is live exactly when an interval starts at its index. */
  lemma LiveAt(ring: Ring, runs: seq<Interval>, x: int)
    requires 0 < ring.size && Fits(ring, runs)
    requires |runs| > 0 && runs[0].lo <= x < runs[0].lo + ring.size
    ensures Live(ring, runs, Cell(ring, x)) <==> exists k :: 0 <= k < |runs| && runs[k].lo == x
  {
    forall k | 0 <= k < |runs| ensures Cell(ring, x) == Cell(ring, runs[k].lo) <==> runs[k].lo == x {
      assert runs[0].lo <= runs[k].lo;
      CellUnique(ring, x, runs[k].lo);
    }
  }

  // ---------- what each elementary change does ----------

  function Put(c: Cells, s: nat, v: Interval, next: int): Cells
    requires s < |c.data1| == |c.data2| == |c.next|
  {
    Cells(c.data1[s := Wire(v.lo)], c.data2[s := End(v)], c.next[s := next])
  }

  function Clear(c: Cells, s: nat): Cells
    requires s < |c.data1| == |c.data2| == |c.next|
  {
    c.(data1 := c.data1[s := -1], data2 := c.data2[s := -1])
  }

  function InsertAt(runs: seq<Interval>, k: nat, v: Interval): seq<Interval>
    requires k <= |runs|
  {
    runs[..k] + [v] + runs[k..]
  }

  function DeleteAt(runs: seq<Interval>, k: nat): seq<Interval>
    requires k < |runs|
  {
    runs[..k] + runs[k + 1..]
  }

  /** Writing an interval into an empty list places the origin at cell 0. */
  lemma StoreFirst(ring: Ring, c: Cells, v: Interval)
    requires Stores(ring, c, [])
    requires v.hi - v.lo < ring.size && v.hi - v.lo < SEQ_TH
    ensures Stores(Ring(ring.size, v.lo), Put(c, 0, v, -1), [v]) && c.data2[0] == -1
  {
    var ring' := Ring(ring.size, v.lo);
    CellOrigin(ring');
    forall s | 0 <= s < ring.size && !Live(ring', [v], s) ensures s != 0 && !Live(ring, [], s) {
      assert [v][0].lo == v.lo;
    }
  }

  /** The cell of an interval to be inserted is free. */
  lemma InsertTargetFree(ring: Ring, c: Cells, runs: seq<Interval>, k: nat, v: Interval)
    requires Stores(ring, c, runs) && k <= |runs| && Fits(ring, InsertAt(runs, k, v))
    ensures !Live(ring, runs, Cell(ring, v.lo)) && c.data2[Cell(ring, v.lo)] == -1
  {
    hide Cell, Wire;
    var runs' := InsertAt(runs, k, v);
    CellsDistinct(ring, runs');
    assert runs'[k] == v;
    forall j | 0 <= j < |runs| ensures Cell(ring, v.lo) != Cell(ring, runs[j].lo) {
      assert runs'[if j < k then j else j + 1] == runs[j];
    }
  }

  /** Writing an interval that starts before all others makes it the head. */
  lemma LinkFirst(ring: Ring, c: Cells, runs: seq<Interval>, v: Interval)
    requires Stores(ring, c, runs) && |runs| > 0 && v.lo < runs[0].lo && Fits(ring, [v] + runs)
    ensures Stores(ring, Put(c, Cell(ring, v.lo), v, Cell(ring, runs[0].lo)), [v] + runs)
    ensures c.data2[Cell(ring, v.lo)] == -1
  {
    hide Cell, Wire;
    var runs' := [v] + runs;
    var s := Cell(ring, v.lo);
    var c' := Put(c, s, v, Cell(ring, runs[0].lo));
    CellsDistinct(ring, runs');
    assert runs' == InsertAt(runs, 0, v);
    InsertTargetFree(ring, c, runs, 0, v);
    forall k | 0 <= k < |runs'| ensures Holds(ring, c', runs', k) {
      if k > 0 {
        assert runs'[k] == runs[k - 1];
        assert Holds(ring, c, runs, k - 1);
        assert s == Cell(ring, runs'[0].lo);
      }
    }
    forall t | 0 <= t < ring.size && !Live(ring, runs', t) ensures t != s && !Live(ring, runs, t) {
      assert runs'[0] == v;
      forall k | 0 <= k < |runs| ensures t != Cell(ring, runs[k].lo) {
        assert runs'[k + 1] == runs[k];
      }
    }
  }

  /** Writing an interval and linking it from the one before it inserts it there. */
  lemma LinkAfter(ring: Ring, c: Cells, runs: seq<Interval>, k: nat, v: Interval)
    requires Stores(ring, c, runs) && 0 < k <= |runs| && Fits(ring, InsertAt(runs, k, v))
    ensures var s, p := Cell(ring, v.lo), Cell(ring, runs[k - 1].lo);
            var w := Put(c, s, v, c.next[p]);
            s != p && c.data2[s] == -1 && Stores(ring, w.(next := w.next[p := s]), InsertAt(runs, k, v))
  {
    hide Cell, Wire, Holds;
    var runs' := InsertAt(runs, k, v);
    var s, p := Cell(ring, v.lo), Cell(ring, runs[k - 1].lo);
    var w := Put(c, s, v, c.next[p]);
    var c' := w.(next := w.next[p := s]);
    CellsDistinct(ring, runs');
    assert runs'[k] == v && runs'[k - 1] == runs[k - 1];
    assert s != p;
    InsertTargetFree(ring, c, runs, k, v);
    forall j | 0 <= j < |runs'| ensures Holds(ring, c', runs', j) {
      LinkAfterHolds(ring, c, runs, k, v, j);
    }
    forall t | 0 <= t < ring.size && !Live(ring, runs', t) ensures t != s && !Live(ring, runs, t) {
      forall j | 0 <= j < |runs| ensures t != Cell(ring, runs[j].lo) {
        assert runs[j] == runs'[if j < k then j else j + 1];
      }
    }
  }

  /** Each interval is held where it was; the one before the new one is linked to it. */
  lemma LinkAfterHolds(ring: Ring, c: Cells, runs: seq<Interval>, k: nat, v: Interval, j: nat)
    requires Stores(ring, c, runs) && 0 < k <= |runs| && Fits(ring, InsertAt(runs, k, v)) && j <= |runs|
    ensures var s, p := Cell(ring, v.lo), Cell(ring, runs[k - 1].lo);
            var w := Put(c, s, v, c.next[p]);
            |InsertAt(runs, k, v)| == |runs| + 1 && Holds(ring, w.(next := w.next[p := s]), InsertAt(runs, k, v), j)
  {
    hide Cell, Wire, Live;
    var runs' := InsertAt(runs, k, v);
    CellsDistinct(ring, runs');
    assert runs'[k] == v && runs'[k - 1] == runs[k - 1];
    assert Holds(ring, c, runs, k - 1);
    if j < k {
      assert runs'[j] == runs[j];
      assert Holds(ring, c, runs, j);
    } else if j > k {
      assert runs'[j] == runs[j - 1];
      assert Holds(ring, c, runs, j - 1);
    }
  }

  /** Rewriting the second word of an interval changes where it ends. */
  lemma SetEnd(ring: Ring, c: Cells, runs: seq<Interval>, k: nat, v: Interval)
    requires Stores(ring, c, runs) && k < |runs| && v.lo == runs[k].lo && Fits(ring, runs[k := v])
    ensures Stores(ring, c.(data2 := c.data2[Cell(ring, v.lo) := End(v)]), runs[k := v])
  {
    hide Cell, Wire;
    var runs' := runs[k := v];
    var c' := c.(data2 := c.data2[Cell(ring, v.lo) := End(v)]);
    CellsDistinct(ring, runs);
    forall j | 0 <= j < |runs'| ensures Holds(ring, c', runs', j) {
      assert Holds(ring, c, runs, j);
    }
    forall t | 0 <= t < ring.size && !Live(ring, runs', t) ensures t != Cell(ring, v.lo) && !Live(ring, runs, t) {
      assert runs'[k] == v;
      forall j | 0 <= j < |runs| ensures t != Cell(ring, runs[j].lo) {
        assert runs'[j].lo == runs[j].lo;
      }
    }
  }

  /** Bypassing an interval and clearing its cell deletes it. */
  lemma Unlink(ring: Ring, c: Cells, runs: seq<Interval>, k: nat)
    requires Stores(ring, c, runs) && 0 < k < |runs|
    ensures var s, p := Cell(ring, runs[k].lo), Cell(ring, runs[k - 1].lo);
            var w := Clear(c, s);
            Stores(ring, w.(next := w.next[p := c.next[s]]), DeleteAt(runs, k))
  {
    hide Cell, Wire;
    var runs' := DeleteAt(runs, k);
    var s, p := Cell(ring, runs[k].lo), Cell(ring, runs[k - 1].lo);
    var w := Clear(c, s);
    var c' := w.(next := w.next[p := c.next[s]]);
    CellsDistinct(ring, runs);
    assert Holds(ring, c, runs, k);
    forall j | 0 <= j < |runs'| ensures Holds(ring, c', runs', j) {
      var i := if j < k then j else j + 1;
      assert runs'[j] == runs[i];
      assert Holds(ring, c, runs, i);
      assert j == k - 1 ==> StartCell(ring, runs', k) == StartCell(ring, runs, k + 1);
    }
    forall t | 0 <= t < ring.size && !Live(ring, runs', t) && t != s ensures !Live(ring, runs, t) {
      forall j | 0 <= j < |runs| ensures t != Cell(ring, runs[j].lo) {
        if j != k {
          assert runs[j] == runs'[if j < k then j else j - 1];
        }
      }
    }
  }

  /** Clearing the head cell leaves the rest of the list. */
  lemma DropFirst(ring: Ring, c: Cells, runs: seq<Interval>)
    requires Stores(ring, c, runs) && |runs| > 0
    ensures Stores(ring, Clear(c, Cell(ring, runs[0].lo)), runs[1..])
    ensures c.next[Cell(ring, runs[0].lo)] == StartCell(ring, runs[1..], 0)
  {
    hide Cell, Wire;
    var runs' := runs[1..];
    var s := Cell(ring, runs[0].lo);
    var c' := Clear(c, s);
    CellsDistinct(ring, runs);
    assert Holds(ring, c, runs, 0);
    forall j | 0 <= j < |runs'| ensures Holds(ring, c', runs', j) {
      assert runs'[j] == runs[j + 1];
      assert Holds(ring, c, runs, j + 1);
    }
    forall t | 0 <= t < ring.size && !Live(ring, runs', t) && t != s ensures !Live(ring, runs, t) {
      forall j | 0 <= j < |runs| ensures t != Cell(ring, runs[j].lo) {
        if j > 0 {
          assert runs[j] == runs'[j - 1];
        }
      }
    }
  }

  // ---------- what each change does to the set ----------

  lemma CutAt<T>(s: seq<T>, k: nat)
    requires k <= |s|
    ensures s[..k] + s[k..] == s
    ensures k < |s| ==> s[..k] + [s[k]] + s[k + 1..] == s
  {
  }

  lemma MembersAround(a: seq<Interval>, v: Interval, b: seq<Interval>)
    ensures Members(a + [v] + b) == Members(a + b) + Range(v)
    ensures Total(a + [v] + b) == Total(a + b) + v.hi - v.lo + 1
  {
    MembersSplice(a, [v], b);
    MembersConcat(a, b);
    MembersOne(v);
  }

  lemma InsertMembers(runs: seq<Interval>, k: nat, v: Interval)
    requires k <= |runs|
    ensures Members(InsertAt(runs, k, v)) == Members(runs) + Range(v)
    ensures Total(InsertAt(runs, k, v)) == Total(runs) + v.hi - v.lo + 1
  {
    CutAt(runs, k);
    MembersAround(runs[..k], v, runs[k..]);
  }

  lemma DeleteMembers(runs: seq<Interval>, k: nat)
    requires k < |runs|
    ensures Members(runs) == Members(DeleteAt(runs, k)) + Range(runs[k])
    ensures Total(runs) == Total(DeleteAt(runs, k)) + runs[k].hi - runs[k].lo + 1
  {
    CutAt(runs, k);
    MembersAround(runs[..k], runs[k], runs[k + 1..]);
  }

  lemma ReplaceMembers(runs: seq<Interval>, k: nat, v: Interval)
    requires k < |runs|
    ensures Members(runs[k := v]) == Members(DeleteAt(runs, k)) + Range(v)
    ensures Total(runs[k := v]) == Total(runs) - runs[k].hi + runs[k].lo + v.hi - v.lo
    ensures Range(runs[k]) <= Range(v) ==> Members(runs[k := v]) == Members(runs) + Range(v)
  {
    DeleteMembers(runs, k);
    var runs' := runs[k := v];
    DeleteMembers(runs', k);
    assert runs'[..k] == runs[..k] && runs'[k + 1..] == runs[k + 1..];
  }

  lemma {:induction false} TotalPositive(runs: seq<Interval>)
    ensures |runs| <= Total(runs)
    ensures Total(runs) == 0 <==> runs == []
    ensures runs == [] ==> Members(runs) == {}
  {
    if runs != [] {
      TotalPositive(runs[1..]);
    }
  }

  // ---------- the steps of the two lists ----------

  function Until(runs: seq<Interval>, k: nat, hi: int): seq<Interval>
    requires k < |runs| && runs[k].lo <= hi
  {
    runs[k := Interval(runs[k].lo, hi)]
  }

  /** Every live cell of one list is live in the other. */
  ghost predicate KeepsLive(ring: Ring, runs: seq<Interval>, runs': seq<Interval>)
    requires 0 < ring.size
  {
    forall s :: Live(ring, runs, s) ==> Live(ring, runs', s)
  }

  lemma Lengthened(ring: Ring, c: Cells, runs: seq<Interval>, k: nat, hi: int)
    requires Stores(ring, c, runs) && k < |runs| && runs[k].hi <= hi
    requires hi - runs[0].lo < ring.size && hi - runs[0].lo < SEQ_TH
    ensures hi - runs[k].hi < SEQ_TH && KeepsLive(ring, runs, Until(runs, k, hi))
    ensures var v := Interval(runs[k].lo, hi);
            && Stores(ring, c.(data2 := c.data2[Cell(ring, v.lo) := End(v)]), Until(runs, k, hi))
            && Members(Until(runs, k, hi)) == Members(runs) + Range(v)
            && Total(Until(runs, k, hi)) == Total(runs) + hi - runs[k].hi
  {
    var v := Interval(runs[k].lo, hi);
    var runs' := runs[k := v];
    assert Increasing(runs');
    SetEnd(ring, c, runs, k, v);
    ReplaceMembers(runs, k, v);
    forall s | Live(ring, runs, s) ensures Live(ring, runs', s) {
      var j :| 0 <= j < |runs| && s == Cell(ring, runs[j].lo);
      assert runs'[j].lo == runs[j].lo;
    }
  }

  /** Only interval k may overlap intervals after it. */
  ghost predicate DisjointExcept(runs: seq<Interval>, k: nat) {
    forall i, j :: 0 <= i < j < |runs| && i != k ==> runs[i].hi < runs[j].lo
  }

  /** There is room for v between intervals k - 1 and k, within the limits of the ring. */
  ghost predicate HasRoom(ring: Ring, runs: seq<Interval>, k: nat, v: Interval)
    requires k <= |runs|
  {
    && (k > 0 ==> runs[k - 1].hi < v.lo)
    && (k < |runs| ==> v.lo < runs[k].lo)
    && Within(InsertAt(runs, k, v), ring.size) && Within(InsertAt(runs, k, v), SEQ_TH)
  }

  lemma InsertFits(ring: Ring, runs: seq<Interval>, k: nat, v: Interval)
    requires Increasing(runs) && Disjoint(runs) && k <= |runs| && HasRoom(ring, runs, k, v)
    ensures Fits(ring, InsertAt(runs, k, v)) && DisjointExcept(InsertAt(runs, k, v), k)
  {
    var runs' := InsertAt(runs, k, v);
    forall i, j | 0 <= i < j < |runs'|
      ensures runs'[i].lo < runs'[j].lo && (i != k ==> runs'[i].hi < runs'[j].lo)
    {
      assert i < k ==> runs[i].hi < v.lo;
      assert j > k ==> v.lo < runs[j - 1].lo;
    }
  }

  lemma InsertLive(ring: Ring, runs: seq<Interval>, k: nat, v: Interval)
    requires 0 < ring.size && k <= |runs|
    ensures KeepsLive(ring, runs, InsertAt(runs, k, v))
    ensures Live(ring, InsertAt(runs, k, v), Cell(ring, v.lo))
  {
    var runs' := InsertAt(runs, k, v);
    assert runs'[k] == v;
    forall s | Live(ring, runs, s) ensures Live(ring, runs', s) {
      var j :| 0 <= j < |runs| && s == Cell(ring, runs[j].lo);
      assert runs'[if j < k then j else j + 1] == runs[j];
    }
  }

  /** Deleting one interval takes one cell from the live ones. */
  lemma DeleteLive(ring: Ring, runs: seq<Interval>, k: nat, s: int)
    requires 0 < ring.size && k < |runs| && Live(ring, runs, s) && s != Cell(ring, runs[k].lo)
    ensures Live(ring, DeleteAt(runs, k), s)
  {
    var j :| 0 <= j < |runs| && s == Cell(ring, runs[j].lo);
    assert DeleteAt(runs, k)[if j < k then j else j - 1] == runs[j];
  }

  /** A new interval before all others. */
  lemma LinkedFirst(ring: Ring, c: Cells, runs: seq<Interval>, v: Interval)
    requires Stores(ring, c, runs) && Disjoint(runs) && |runs| > 0 && HasRoom(ring, runs, 0, v)
    ensures var runs' := InsertAt(runs, 0, v);
            && Stores(ring, Put(c, Cell(ring, v.lo), v, Cell(ring, runs[0].lo)), runs')
            && c.data2[Cell(ring, v.lo)] == -1
            && DisjointExcept(runs', 0) && Live(ring, runs', Cell(ring, v.lo))
            && Members(runs') == Members(runs) + Range(v)
            && Total(runs') == Total(runs) + v.hi - v.lo + 1
  {
    InsertFits(ring, runs, 0, v);
    assert InsertAt(runs, 0, v) == [v] + runs;
    LinkFirst(ring, c, runs, v);
    InsertLive(ring, runs, 0, v);
    InsertMembers(runs, 0, v);
  }

  /** A new interval after interval k - 1. */
  lemma Linked(ring: Ring, c: Cells, runs: seq<Interval>, k: nat, v: Interval)
    requires Stores(ring, c, runs) && Disjoint(runs) && 0 < k <= |runs| && HasRoom(ring, runs, k, v)
    ensures var runs' := InsertAt(runs, k, v);
            var s, p := Cell(ring, v.lo), Cell(ring, runs[k - 1].lo);
            var w := Put(c, s, v, c.next[p]);
            && s != p && c.data2[s] == -1 && Stores(ring, w.(next := w.next[p := s]), runs')
            && DisjointExcept(runs', k)
            && KeepsLive(ring, runs, runs') && Live(ring, runs', s)
            && Members(runs') == Members(runs) + Range(v)
            && Total(runs') == Total(runs) + v.hi - v.lo + 1
  {
    assert Increasing(runs);
    hide Stores, Live, Members, Total, Cell, Put;
    InsertFits(ring, runs, k, v);
    LinkAfter(ring, c, runs, k, v);
    InsertLive(ring, runs, k, v);
    InsertMembers(runs, k, v);
  }

  /** Interval k joined with the one after it. */
  function Absorb(runs: seq<Interval>, k: nat): seq<Interval>
    requires k + 1 < |runs| && runs[k].lo < runs[k + 1].lo
  {
    var hi := if runs[k].hi < runs[k + 1].hi then runs[k + 1].hi else runs[k].hi;
    DeleteAt(Until(runs, k, hi), k + 1)
  }

  /** Joining two touching or overlapping intervals keeps the set. */
  lemma AbsorbKeepsMembers(runs: seq<Interval>, k: nat)
    requires k + 1 < |runs| && runs[k].lo < runs[k + 1].lo <= runs[k].hi + 1
    ensures Members(Absorb(runs, k)) == Members(runs)
    ensures Total(Absorb(runs, k)) == Total(runs)
              - (if runs[k].hi < runs[k + 1].hi then runs[k].hi - runs[k + 1].lo + 1
                 else runs[k + 1].hi - runs[k + 1].lo + 1)
  {
    hide Members, Total, Range;
    var hi := if runs[k].hi < runs[k + 1].hi then runs[k + 1].hi else runs[k].hi;
    var a, b := runs[..k], runs[k + 2..];
    AbsorbShape(runs, k);
    TwoAround(a, runs[k], runs[k + 1], b);
    MembersAround(a, Interval(runs[k].lo, hi), b);
    assert Range(Interval(runs[k].lo, hi)) == Range(runs[k]) + Range(runs[k + 1]);
  }

  lemma AbsorbShape(runs: seq<Interval>, k: nat)
    requires k + 1 < |runs| && runs[k].lo < runs[k + 1].lo
    ensures runs == runs[..k] + [runs[k], runs[k + 1]] + runs[k + 2..]
    ensures var hi := if runs[k].hi < runs[k + 1].hi then runs[k + 1].hi else runs[k].hi;
            Absorb(runs, k) == runs[..k] + [Interval(runs[k].lo, hi)] + runs[k + 2..]
  {
  }

  lemma TwoAround(a: seq<Interval>, u: Interval, v: Interval, b: seq<Interval>)
    ensures Members(a + [u, v] + b) == Members(a + b) + Range(u) + Range(v)
    ensures Total(a + [u, v] + b) == Total(a + b) + u.hi - u.lo + 1 + v.hi - v.lo + 1
  {
    hide Members, Total, Range;
    assert a + [u, v] + b == a + [u] + ([v] + b);
    assert a + ([v] + b) == a + [v] + b;
    MembersAround(a, u, [v] + b);
    MembersAround(a, v, b);
  }

  lemma AbsorbIsDisjoint(ring: Ring, c: Cells, runs: seq<Interval>, k: nat)
    requires Stores(ring, c, runs) && DisjointExcept(runs, k) && k + 1 < |runs|
    ensures runs[k].lo < runs[k + 1].lo
    ensures DisjointExcept(Absorb(runs, k), k) && StartCell(ring, Absorb(runs, k), 0) == StartCell(ring, runs, 0)
    ensures |Absorb(runs, k)| == |runs| - 1 && Absorb(runs, k)[k].lo == runs[k].lo
  {
    AbsorbDisjoint(runs, k);
  }

  lemma AbsorbDisjoint(runs: seq<Interval>, k: nat)
    requires Increasing(runs) && DisjointExcept(runs, k) && k + 1 < |runs|
    ensures Increasing(Absorb(runs, k)) && DisjointExcept(Absorb(runs, k), k)
  {
    var runs' := Absorb(runs, k);
    forall i, j | 0 <= i < j < |runs'|
      ensures runs'[i].lo < runs'[j].lo && (i != k ==> runs'[i].hi < runs'[j].lo)
    {
      var i', j' := if i <= k then i else i + 1, if j <= k then j else j + 1;
      assert runs'[i].lo == runs[i'].lo && runs'[j].lo == runs[j'].lo;
      assert i != k ==> runs'[i] == runs[i'];
    }
  }

  /** Extending interval k over its successor and unlinking that successor. */
  lemma Absorbed(ring: Ring, c: Cells, runs: seq<Interval>, k: nat)
    requires Stores(ring, c, runs) && DisjointExcept(runs, k)
    requires k + 1 < |runs| && runs[k + 1].lo <= runs[k].hi + 1
    ensures var hi := if runs[k].hi < runs[k + 1].hi then runs[k + 1].hi else runs[k].hi;
            var p, s := Cell(ring, runs[k].lo), Cell(ring, runs[k + 1].lo);
            var wide := c.(data2 := c.data2[p := Wire(hi)]);
            var w := Clear(wide, s);
            && p != s && Stores(ring, w.(next := w.next[p := c.next[s]]), Absorb(runs, k))
            && Live(ring, Absorb(runs, k), p)
  {
    var hi := if runs[k].hi < runs[k + 1].hi then runs[k + 1].hi else runs[k].hi;
    var p, s := Cell(ring, runs[k].lo), Cell(ring, runs[k + 1].lo);
    assert runs[k].lo < runs[k + 1].lo <= hi;
    assert hi - runs[0].lo < ring.size && hi - runs[0].lo < SEQ_TH;
    CellsDistinct(ring, runs);
    Lengthened(ring, c, runs, k, hi);
    var wide := Until(runs, k, hi);
    Unlink(ring, c.(data2 := c.data2[p := Wire(hi)]), wide, k + 1);
    assert Absorb(runs, k)[k].lo == runs[k].lo;
  }

  /** Interval k cut after s into two intervals. */
  function Split(runs: seq<Interval>, k: nat, s: int): seq<Interval>
    requires k < |runs| && runs[k].lo <= s < runs[k].hi
  {
    InsertAt(Until(runs, k, s), k + 1, Interval(s + 1, runs[k].hi))
  }

  lemma SplitKeepsMembers(runs: seq<Interval>, k: nat, s: int)
    requires k < |runs| && runs[k].lo <= s < runs[k].hi
    ensures Members(Split(runs, k, s)) == Members(runs)
    ensures Total(Split(runs, k, s)) == Total(runs)
  {
    hide Members, Total, Range;
    var u, v := Interval(runs[k].lo, s), Interval(s + 1, runs[k].hi);
    var a, b := runs[..k], runs[k + 1..];
    SplitShape(runs, k, s);
    TwoAround(a, u, v, b);
    MembersAround(a, runs[k], b);
    assert Range(runs[k]) == Range(u) + Range(v);
  }

  lemma SplitShape(runs: seq<Interval>, k: nat, s: int)
    requires k < |runs| && runs[k].lo <= s < runs[k].hi
    ensures runs == runs[..k] + [runs[k]] + runs[k + 1..]
    ensures Split(runs, k, s)
         == runs[..k] + [Interval(runs[k].lo, s), Interval(s + 1, runs[k].hi)] + runs[k + 1..]
  {
  }

  lemma SplitDisjoint(runs: seq<Interval>, k: nat, s: int)
    requires Increasing(runs) && Disjoint(runs) && k < |runs| && runs[k].lo <= s < runs[k].hi
    ensures Increasing(Split(runs, k, s)) && Disjoint(Split(runs, k, s))
  {
    var runs' := Split(runs, k, s);
    forall i, j | 0 <= i < j < |runs'| ensures runs'[i].hi < runs'[j].lo {
      assert i != k && i != k + 1 ==> runs'[i] == runs[if i < k then i else i - 1];
      assert j != k && j != k + 1 ==> runs'[j] == runs[if j < k then j else j - 1];
    }
  }

  /** Shortening interval k to end at s and linking the rest of it behind it. */
  lemma SplitStored(ring: Ring, c: Cells, runs: seq<Interval>, k: nat, s: int)
    requires Stores(ring, c, runs) && Disjoint(runs) && k < |runs| && runs[k].lo <= s < runs[k].hi
    ensures var v := Interval(s + 1, runs[k].hi);
            var p, t := Cell(ring, runs[k].lo), Cell(ring, s + 1);
            var cut := c.(data2 := c.data2[p := End(Interval(runs[k].lo, s))]);
            var w := Put(cut, t, v, c.next[p]);
            && p != t && c.data2[t] == -1
            && Stores(ring, w.(next := w.next[p := t]), Split(runs, k, s))
            && KeepsLive(ring, runs, Split(runs, k, s))
  {
    var v := Interval(s + 1, runs[k].hi);
    var cut := Until(runs, k, s);
    SplitFits(ring, runs, k, s);
    SetEnd(ring, c, runs, k, cut[k]);
    LinkAfter(ring, c.(data2 := c.data2[Cell(ring, runs[k].lo) := End(cut[k])]), cut, k + 1, v);
    SplitTargetFree(ring, c, runs, k, s + 1);
    InsertLive(ring, cut, k + 1, v);
    forall t | Live(ring, runs, t) ensures Live(ring, cut, t) {
      var j :| 0 <= j < |runs| && t == Cell(ring, runs[j].lo);
      assert cut[j].lo == runs[j].lo;
    }
  }

  lemma SplitFits(ring: Ring, runs: seq<Interval>, k: nat, s: int)
    requires Fits(ring, runs) && Disjoint(runs) && k < |runs| && runs[k].lo <= s < runs[k].hi
    ensures Fits(ring, Until(runs, k, s)) && Fits(ring, Split(runs, k, s))
  {
    SplitDisjoint(runs, k, s);
    var runs' := Split(runs, k, s);
    forall j | 0 <= j < |runs'|
      ensures runs'[j].hi - runs'[0].lo < ring.size && runs'[j].hi - runs'[0].lo < SEQ_TH
    {
      assert runs'[0].lo == runs[0].lo;
      assert runs'[j].hi <= runs[if j <= k then j else j - 1].hi;
    }
  }

  /** No interval starts inside another, so the cells inside an interval are free. */
  lemma SplitTargetFree(ring: Ring, c: Cells, runs: seq<Interval>, k: nat, x: int)
    requires Stores(ring, c, runs) && Disjoint(runs) && k < |runs| && runs[k].lo < x <= runs[k].hi
    ensures c.data1[Cell(ring, x)] == -1 && c.data2[Cell(ring, x)] == -1
    ensures Cell(ring, x) != Cell(ring, runs[k].lo)
  {
    assert runs[0].lo <= runs[k].lo;
    LiveAt(ring, runs, x);
    CellUnique(ring, x, runs[k].lo);
  }

  /** Deleting an interval of a disjoint list takes exactly its numbers from the set. */
  lemma DeleteDisjoint(runs: seq<Interval>, k: nat)
    requires Increasing(runs) && Disjoint(runs) && k < |runs|
    ensures Increasing(DeleteAt(runs, k)) && Disjoint(DeleteAt(runs, k))
    ensures Members(DeleteAt(runs, k)) == Members(runs) - Range(runs[k])
    ensures Total(DeleteAt(runs, k)) == Total(runs) - (runs[k].hi - runs[k].lo + 1)
  {
    DeleteSorted(runs, k);
    hide Members, Total, Range, DeleteAt, Increasing, Disjoint;
    DeleteMembers(runs, k);
    DeleteApart(runs, k);
    Cancel(Members(DeleteAt(runs, k)), Range(runs[k]));
  }

  lemma DeleteSorted(runs: seq<Interval>, k: nat)
    requires Increasing(runs) && Disjoint(runs) && k < |runs|
    ensures Increasing(DeleteAt(runs, k)) && Disjoint(DeleteAt(runs, k))
  {
  }

  lemma Cancel(a: set<int>, r: set<int>)
    requires forall x :: x in a ==> x !in r
    ensures a + r - r == a
  {
    assert forall x :: x in a + r - r <==> x in a;
  }

  lemma DeleteApart(runs: seq<Interval>, k: nat)
    requires Disjoint(runs) && k < |runs|
    ensures forall x :: x in Members(DeleteAt(runs, k)) ==> x !in Range(runs[k])
  {
    hide Members, Range;
    forall x | x in Members(DeleteAt(runs, k)) ensures x !in Range(runs[k]) {
      var j := MemberWitness(DeleteAt(runs, k), x);
      assert DeleteAt(runs, k)[j] == runs[if j < k then j else j + 1];
    }
  }

  /** The head cell can be cleared: what remains is the rest of the list. */
  lemma Dropped(ring: Ring, c: Cells, runs: seq<Interval>)
    requires Stores(ring, c, runs) && Disjoint(runs) && |runs| > 0
    ensures Stores(ring, Clear(c, Cell(ring, runs[0].lo)), runs[1..]) && Disjoint(runs[1..])
    ensures c.next[Cell(ring, runs[0].lo)] == StartCell(ring, runs, 1) == StartCell(ring, runs[1..], 0)
    ensures Members(runs[1..]) == Members(runs) - Range(runs[0])
    ensures Total(runs[1..]) == Total(runs) - (runs[0].hi - runs[0].lo + 1)
    ensures forall s :: Live(ring, runs, s) && s != Cell(ring, runs[0].lo) ==> Live(ring, runs[1..], s)
  {
    hide Stores, Disjoint, Live, Members, Total, Cell;
    StoresFits(ring, c, runs);
    DropFirst(ring, c, runs);
    assert runs[1..] == DeleteAt(runs, 0);
    DeleteDisjoint(runs, 0);
    forall s | Live(ring, runs, s) && s != Cell(ring, runs[0].lo) ensures Live(ring, runs[1..], s) {
      DeleteLive(ring, runs, 0, s);
    }
  }

  /** Interval k without its first number. */
  function Advance(runs: seq<Interval>, k: nat): seq<Interval>
    requires k < |runs| && runs[k].lo < runs[k].hi
  {
    runs[k := Interval(runs[k].lo + 1, runs[k].hi)]
  }

  /** Moving interval k one cell on, re-linked from the interval before it if there is one. */
  lemma MoveStart(ring: Ring, c: Cells, runs: seq<Interval>, k: nat)
    requires Stores(ring, c, runs) && Disjoint(runs) && k < |runs| && runs[k].lo < runs[k].hi
    ensures var s, t := Cell(ring, runs[k].lo), Cell(ring, runs[k].lo + 1);
            var w := Clear(Put(c, t, Interval(runs[k].lo + 1, runs[k].hi), c.next[s]), s);
            && s != t && c.data2[t] == -1
            && Stores(ring, if k == 0 then w else w.(next := w.next[Cell(ring, runs[k - 1].lo) := t]),
                      Advance(runs, k))
  {
    var s, t := Cell(ring, runs[k].lo), Cell(ring, runs[k].lo + 1);
    var runs' := Advance(runs, k);
    var w := Clear(Put(c, t, runs'[k], c.next[s]), s);
    var c' := if k == 0 then w else w.(next := w.next[Cell(ring, runs[k - 1].lo) := t]);
    SplitTargetFree(ring, c, runs, k, runs[k].lo + 1);
    AdvanceFits(ring, runs, k);
    CellsDistinct(ring, runs);
    CellsDistinct(ring, runs');
    hide Cell, Wire;
    forall j | 0 <= j < |runs'| ensures Holds(ring, c', runs', j) {
      MovedHolds(ring, c, runs, k, j);
    }
    forall x | 0 <= x < ring.size && !Live(ring, runs', x) && x != s
      ensures !Live(ring, runs, x) && x != t
    {
      assert runs'[k].lo == runs[k].lo + 1;
      forall j | 0 <= j < |runs| ensures x != Cell(ring, runs[j].lo) {
        assert j != k ==> runs'[j] == runs[j];
      }
    }
  }

  lemma MovedHolds(ring: Ring, c: Cells, runs: seq<Interval>, k: nat, j: nat)
    requires Stores(ring, c, runs) && k < |runs| && runs[k].lo < runs[k].hi && j < |runs|
    requires Fits(ring, Advance(runs, k))
    ensures var s, t := Cell(ring, runs[k].lo), Cell(ring, runs[k].lo + 1);
            var w := Clear(Put(c, t, Interval(runs[k].lo + 1, runs[k].hi), c.next[s]), s);
            Holds(ring, if k == 0 then w else w.(next := w.next[Cell(ring, runs[k - 1].lo) := t]),
                  Advance(runs, k), j)
  {
    hide Cell, Wire, Live, FreeElsewhere;
    var runs' := Advance(runs, k);
    CellsDistinct(ring, runs);
    CellsDistinct(ring, runs');
    CellUnique(ring, runs[k].lo, runs[k].lo + 1);
    assert Holds(ring, c, runs, k) && Holds(ring, c, runs, j);
    assert runs'[k].lo == runs[k].lo + 1;
    assert j != k ==> runs'[j] == runs[j] && Cell(ring, runs[j].lo) != Cell(ring, runs'[k].lo);
    assert j != k ==> Cell(ring, runs[j].lo) != Cell(ring, runs[k].lo);
    if k > 0 {
      assert runs'[k - 1] == runs[k - 1];
      assert Cell(ring, runs[k - 1].lo) != Cell(ring, runs[k].lo);
      assert j != k - 1 ==> Cell(ring, runs'[j].lo) != Cell(ring, runs[k - 1].lo);
    }
    assert j + 1 < |runs'| && j + 1 != k ==> runs'[j + 1] == runs[j + 1];
  }

  lemma AdvanceFits(ring: Ring, runs: seq<Interval>, k: nat)
    requires Fits(ring, runs) && Disjoint(runs) && k < |runs| && runs[k].lo < runs[k].hi
    ensures Fits(ring, Advance(runs, k)) && Disjoint(Advance(runs, k))
  {
    var runs' := Advance(runs, k);
    forall i, j | 0 <= i < j < |runs'| ensures runs'[i].hi < runs'[j].lo {
      assert runs[i].hi < runs[j].lo;
    }
    forall j | 0 <= j < |runs'| ensures runs'[j].hi - runs'[0].lo <= runs[j].hi - runs[0].lo {
    }
  }

  lemma AdvanceMembers(runs: seq<Interval>, k: nat)
    requires Increasing(runs) && Disjoint(runs) && k < |runs| && runs[k].lo < runs[k].hi
    ensures Members(Advance(runs, k)) == Members(runs) - {runs[k].lo}
    ensures Total(Advance(runs, k)) == Total(runs) - 1
  {
    hide Members, Total, Range, DeleteAt;
    AdvanceShape(runs, k);
    var runs' := Advance(runs, k);
    DeleteApart(runs, k);
    DeleteMembers(runs, k);
    DeleteMembers(runs', k);
    WithoutOne(Members(DeleteAt(runs, k)), Range(runs[k]), Range(runs'[k]), runs[k].lo);
  }

  lemma AdvanceShape(runs: seq<Interval>, k: nat)
    requires k < |runs| && runs[k].lo < runs[k].hi
    ensures DeleteAt(Advance(runs, k), k) == DeleteAt(runs, k)
  {
  }

  lemma AdvanceLive(ring: Ring, runs: seq<Interval>, k: nat, s: int)
    requires 0 < ring.size && k < |runs| && runs[k].lo < runs[k].hi
    requires Live(ring, runs, s) && s != Cell(ring, runs[k].lo)
    ensures Live(ring, Advance(runs, k), s)
  {
    var j :| 0 <= j < |runs| && s == Cell(ring, runs[j].lo);
    assert Advance(runs, k)[j] == runs[j];
  }

  // ---------- reading the arrays ----------

  lemma ReadNode(ring: Ring, c: Cells, runs: seq<Interval>, k: nat)
    requires Stores(ring, c, runs) && k < |runs|
    ensures Sized(ring, c) && runs[0].lo <= runs[k].lo
    ensures runs[k].hi - runs[0].lo < ring.size && runs[k].hi - runs[0].lo < SEQ_TH
    ensures var s := Cell(ring, runs[k].lo);
            && c.data1[s] == Wire(runs[k].lo) && c.data2[s] == End(runs[k])
            && c.next[s] == StartCell(ring, runs, k + 1) && Live(ring, runs, s)
            && (c.data2[s] == -1 <==> runs[k].lo == runs[k].hi)
    ensures k + 1 < |runs| ==> runs[k].lo < runs[k + 1].lo
  {
    assert Holds(ring, c, runs, k);
  }

  /** Looking at the cell of x tells whether an interval starts at x. */
  lemma ReadStart(ring: Ring, c: Cells, runs: seq<Interval>, x: int)
    requires Stores(ring, c, runs) && |runs| > 0 && runs[0].lo <= x < runs[0].lo + SEQ_TH
    ensures Sized(ring, c)
    ensures c.data1[Cell(ring, x)] == Wire(x) <==> exists k :: 0 <= k < |runs| && runs[k].lo == x
  {
    var s := Cell(ring, x);
    if c.data1[s] == Wire(x) {
      StepAgrees(x);
      assert Live(ring, runs, s);
      var k :| 0 <= k < |runs| && s == Cell(ring, runs[k].lo);
      ReadNode(ring, c, runs, k);
      WindowAgrees(runs[k].lo, x);
    } else if k :| 0 <= k < |runs| && runs[k].lo == x {
      ReadNode(ring, c, runs, k);
    }
  }

  /** The set lies in a window of numbers that the ring and the comparison can tell apart. */
  ghost predicate InOneWindow(size: int, s: set<int>, base: int) {
    forall x :: x in s ==> base <= x < base + size && x < base + SEQ_TH
  }

  lemma WindowBounds(ring: Ring, runs: seq<Interval>, base: int, k: nat)
    requires InOneWindow(ring.size, Members(runs), base) && k < |runs|
    ensures base <= runs[k].lo && runs[k].hi < base + ring.size && runs[k].hi < base + SEQ_TH
  {
    MemberOf(runs, k, runs[k].lo);
    MemberOf(runs, k, runs[k].hi);
  }

  /** With all numbers in one window there is room for v at its place. */
  lemma WindowHasRoom(ring: Ring, runs: seq<Interval>, k: nat, v: Interval, base: int)
    requires InOneWindow(ring.size, Members(runs) + Range(v), base) && k <= |runs|
    requires k > 0 ==> runs[k - 1].hi < v.lo
    requires k < |runs| ==> v.lo < runs[k].lo
    ensures HasRoom(ring, runs, k, v)
  {
    var runs' := InsertAt(runs, k, v);
    assert v.lo in Range(v) && v.hi in Range(v);
    forall j | 0 <= j < |runs'|
      ensures base <= runs'[j].lo && runs'[j].hi < base + ring.size && runs'[j].hi < base + SEQ_TH
    {
      if j != k {
        WindowBounds(ring, runs, base, if j < k then j else j - 1);
      }
    }
  }

  // ---------- where a new interval goes ----------

  lemma UntilDisjoint(runs: seq<Interval>, k: nat, hi: int)
    requires Disjoint(runs) && k < |runs| && runs[k].lo <= hi
    ensures DisjointExcept(Until(runs, k, hi), k)
  {
  }

  /** An interval inside another adds nothing. */
  lemma Covered(runs: seq<Interval>, k: nat, v: Interval)
    requires k < |runs| && runs[k].lo <= v.lo && v.hi <= runs[k].hi
    ensures Range(v) <= Members(runs)
  {
    hide Members, Range;
    DeleteMembers(runs, k);
  }

  /** Extending the interval that holds or touches the start of v adds exactly v. */
  lemma Extended(runs: seq<Interval>, k: nat, v: Interval)
    requires k < |runs| && runs[k].lo <= v.lo <= runs[k].hi + 1
    ensures Members(runs) + Range(Interval(runs[k].lo, v.hi)) == Members(runs) + Range(v)
  {
    hide Members, Range;
    DeleteMembers(runs, k);
  }

  lemma AllDisjoint(ring: Ring, c: Cells, runs: seq<Interval>, k: nat)
    requires Stores(ring, c, runs) && DisjointExcept(runs, k) && k < |runs|
    requires k + 1 < |runs| ==> runs[k].hi < runs[k + 1].lo
    ensures Disjoint(runs)
  {
  }

  /** The stored count is the number of lost packets. */
  lemma SizeIsTotal(ring: Ring, c: Cells, runs: seq<Interval>)
    requires Stores(ring, c, runs) && Disjoint(runs)
    ensures |Members(runs)| == Total(runs)
  {
    TotalIsSize(runs);
  }

  // ---------- dropping everything up to a number ----------

  /** The part of a set above a bound. */
  function Above(s: set<int>, bound: int): set<int> {
    set x | x in s && x > bound
  }

  /** Dropping the intervals that end by the bound, when the others start after it. */
  lemma TailMembers(runs: seq<Interval>, t: nat, bound: int)
    requires Parts(runs, t, bound)
    ensures Members(runs[t..]) == Above(Members(runs), bound)
  {
    CutAt(runs, t);
    MembersConcat(runs[..t], runs[t..]);
    forall x | x in Members(runs[..t]) ensures x <= bound {
      var k := MemberWitness(runs[..t], x);
    }
    forall x | x in Members(runs[t..]) ensures x > bound {
      var k := MemberWitness(runs[t..], x);
    }
  }

  /** Two positions share a start cell only if they are the same. */
  lemma StartDistinct(ring: Ring, c: Cells, runs: seq<Interval>, k: nat)
    requires Stores(ring, c, runs) && k <= |runs|
    ensures StartCell(ring, runs, 0) == StartCell(ring, runs, k) <==> k == 0
    ensures k < |runs| ==> StartCell(ring, runs, k) >= 0
  {
    CellsDistinct(ring, runs);
  }

  /** Moving the start of interval k on keeps the list sorted, and removes one number. */
  lemma AdvanceKeeps(ring: Ring, c: Cells, runs: seq<Interval>, k: nat)
    requires Stores(ring, c, runs) && Disjoint(runs) && k < |runs| && runs[k].lo < runs[k].hi
    ensures Disjoint(Advance(runs, k))
    ensures Members(Advance(runs, k)) == Members(runs) - {runs[k].lo}
    ensures Total(Advance(runs, k)) == Total(runs) - 1
    ensures forall s :: Live(ring, runs, s) && s != Cell(ring, runs[k].lo) ==> Live(ring, Advance(runs, k), s)
  {
    AdvanceFits(ring, runs, k);
    AdvanceMembers(runs, k);
    forall s | Live(ring, runs, s) && s != Cell(ring, runs[k].lo) ensures Live(ring, Advance(runs, k), s) {
      AdvanceLive(ring, runs, k, s);
    }
  }

  lemma FirstIsLeast(ring: Ring, c: Cells, runs: seq<Interval>)
    requires Stores(ring, c, runs) && |runs| > 0
    ensures runs[0].lo in Members(runs)
    ensures forall x :: x in Members(runs) ==> runs[0].lo <= x
  {
    MemberOf(runs, 0, runs[0].lo);
    forall x | x in Members(runs) ensures runs[0].lo <= x {
      var k := MemberWitness(runs, x);
      ReadNode(ring, c, runs, k);
    }
  }

  lemma SplitKeeps(ring: Ring, c: Cells, runs: seq<Interval>, k: nat, s: int)
    requires Stores(ring, c, runs) && Disjoint(runs) && k < |runs| && runs[k].lo <= s < runs[k].hi
    ensures Members(Split(runs, k, s)) == Members(runs) && Total(Split(runs, k, s)) == Total(runs)
    ensures Disjoint(Split(runs, k, s)) && StartCell(ring, Split(runs, k, s), 0) == StartCell(ring, runs, 0)
    ensures Parts(Split(runs, k, s), k + 1, s) && StartCell(ring, Split(runs, k, s), k + 1) == Cell(ring, s + 1)
  {
    PartsSplit(runs, k, s);
    SplitKeepsMembers(runs, k, s);
    SplitDisjoint(runs, k, s);
  }

  /** Every interval before the t-th ends by s, all others start behind it. */
  ghost predicate Parts(runs: seq<Interval>, t: nat, s: int) {
    && t <= |runs|
    && (forall j :: 0 <= j < t ==> runs[j].hi <= s)
    && (forall j :: t <= j < |runs| ==> s < runs[j].lo)
  }

  lemma PartsAfter(runs: seq<Interval>, k: nat, s: int)
    requires Increasing(runs) && Disjoint(runs) && k < |runs| && runs[k].hi <= s
    requires k + 1 < |runs| ==> s < runs[k + 1].lo
    ensures Parts(runs, k + 1, s)
  {
  }

  lemma PartsSplit(runs: seq<Interval>, k: nat, s: int)
    requires Increasing(runs) && Disjoint(runs) && k < |runs| && runs[k].lo <= s < runs[k].hi
    ensures Parts(Split(runs, k, s), k + 1, s)
    ensures Split(runs, k, s)[k + 1].lo == s + 1
  {
    SplitDisjoint(runs, k, s);
    var runs' := Split(runs, k, s);
    assert runs'[k].hi == s && runs'[k + 1].lo == s + 1;
  }

  lemma EndsBy(ring: Ring, c: Cells, runs: seq<Interval>, k: nat, s: int)
    requires Stores(ring, c, runs) && Disjoint(runs) && k < |runs| && runs[k].hi <= s
    requires k + 1 < |runs| ==> s < runs[k + 1].lo
    ensures Parts(runs, k + 1, s)
  {
    PartsAfter(runs, k, s);
  }

  lemma AppendKeeps(ring: Ring, c: Cells, runs: seq<Interval>, v: Interval)
    requires Stores(ring, c, runs) && Disjoint(runs) && |runs| > 0 && HasRoom(ring, runs, |runs|, v)
    ensures var runs' := InsertAt(runs, |runs|, v);
            && Fits(ring, runs') && Disjoint(runs')
            && |runs'| == |runs| + 1 && runs'[|runs|] == v && runs'[0] == runs[0]
  {
    InsertFits(ring, runs, |runs|, v);
  }

  /** Inside the ring, a cell is occupied exactly when an interval starts at its index. */
  lemma ReadOccupied(ring: Ring, c: Cells, runs: seq<Interval>, x: int)
    requires Stores(ring, c, runs) && |runs| > 0 && runs[0].lo <= x < runs[0].lo + ring.size
    ensures Sized(ring, c)
    ensures c.data1[Cell(ring, x)] == -1 <==> forall k :: 0 <= k < |runs| ==> runs[k].lo != x
  {
    LiveAt(ring, runs, x);
    if k :| 0 <= k < |runs| && runs[k].lo == x {
      ReadNode(ring, c, runs, k);
      StepAgrees(x);
    }
  }

  /** A number between two neighbouring intervals is in none. */
  lemma Between(runs: seq<Interval>, k: nat, x: int)
    requires Increasing(runs) && Disjoint(runs) && k < |runs|
    requires runs[k].hi < x && (k + 1 < |runs| ==> x < runs[k + 1].lo)
    ensures x !in Members(runs)
  {
    if x in Members(runs) {
      var j := MemberWitness(runs, x);
    }
  }

  /** Interval k without its last number. */
  lemma ShortenKeeps(ring: Ring, c: Cells, runs: seq<Interval>, k: nat)
    requires Stores(ring, c, runs) && Disjoint(runs) && k < |runs| && runs[k].lo < runs[k].hi
    ensures var runs' := Until(runs, k, runs[k].hi - 1);
            && Stores(ring, c.(data2 := c.data2[Cell(ring, runs[k].lo) := End(runs'[k])]), runs')
            && Disjoint(runs') && Members(runs') == Members(runs) - {runs[k].hi}
            && Total(runs') == Total(runs) - 1
  {
    hide Members, Total, Stores, Cell, Wire, Disjoint, Increasing, Fits;
    StoresFits(ring, c, runs);
    var hi := runs[k].hi;
    var runs' := Until(runs, k, hi - 1);
    ShortenFits(ring, runs, k, hi - 1);
    SetEnd(ring, c, runs, k, runs'[k]);
    ShortenMembers(runs, k);
  }

  lemma StoresFits(ring: Ring, c: Cells, runs: seq<Interval>)
    requires Stores(ring, c, runs)
    ensures 0 < ring.size && Sized(ring, c) && Fits(ring, runs) && Increasing(runs)
  {
  }

  lemma ShortenFits(ring: Ring, runs: seq<Interval>, k: nat, hi: int)
    requires Fits(ring, runs) && Disjoint(runs) && k < |runs| && runs[k].lo <= hi <= runs[k].hi
    ensures Fits(ring, Until(runs, k, hi)) && Disjoint(Until(runs, k, hi))
  {
    var runs' := Until(runs, k, hi);
    forall i | 0 <= i < |runs'| ensures runs'[i].lo == runs[i].lo && runs'[i].hi <= runs[i].hi {
    }
  }

  lemma ShortenMembers(runs: seq<Interval>, k: nat)
    requires Increasing(runs) && Disjoint(runs) && k < |runs| && runs[k].lo < runs[k].hi
    ensures Members(Until(runs, k, runs[k].hi - 1)) == Members(runs) - {runs[k].hi}
    ensures Total(Until(runs, k, runs[k].hi - 1)) == Total(runs) - 1
  {
    hide Members, Total, Range, DeleteAt;
    var v := Interval(runs[k].lo, runs[k].hi - 1);
    DeleteApart(runs, k);
    DeleteMembers(runs, k);
    ReplaceMembers(runs, k, v);
    WithoutOne(Members(DeleteAt(runs, k)), Range(runs[k]), Range(v), runs[k].hi);
  }

  lemma WithoutOne(a: set<int>, r: set<int>, q: set<int>, x: int)
    requires forall y :: y in a ==> y !in r
    requires x in r && forall y :: y in q <==> y in r && y != x
    ensures a + q == a + r - {x}
  {
    assert forall y :: y in a + q <==> y in a + r - {x};
  }

  /** Interval k without the number s inside it. */
  function Punch(runs: seq<Interval>, k: nat, s: int): seq<Interval>
    requires k < |runs| && runs[k].lo < s < runs[k].hi
  {
    Until(Split(runs, k, s), k, s - 1)
  }

  lemma PunchKeeps(ring: Ring, c: Cells, runs: seq<Interval>, k: nat, s: int)
    requires Stores(ring, c, runs) && Disjoint(runs) && k < |runs| && runs[k].lo < s < runs[k].hi
    ensures var p, t := Cell(ring, runs[k].lo), Cell(ring, s + 1);
            var w := Put(c, t, Interval(s + 1, runs[k].hi), c.next[p]);
            var cut := w.(next := w.next[p := t]);
            && p != t && c.data2[t] == -1
            && Stores(ring, cut.(data2 := cut.data2[p := End(Interval(runs[k].lo, s - 1))]), Punch(runs, k, s))
    ensures Disjoint(Punch(runs, k, s)) && Members(Punch(runs, k, s)) == Members(runs) - {s}
    ensures Total(Punch(runs, k, s)) == Total(runs) - 1
  {
    hide Members, Total, Stores, Cell, Wire, End, Disjoint, KeepsLive, Live, Split, Punch;
    ReadNode(ring, c, runs, k);
    var p, t := Cell(ring, runs[k].lo), Cell(ring, s + 1);
    SplitStored(ring, c, runs, k, s);
    SplitKeeps(ring, c, runs, k, s);
    PunchShape(runs, k, s);
    var first := c.(data2 := c.data2[p := End(Interval(runs[k].lo, s))]);
    var w := Put(first, t, Interval(s + 1, runs[k].hi), c.next[p]);
    var split := w.(next := w.next[p := t]);
    ShortenKeeps(ring, split, Split(runs, k, s), k);
    assert split.data2[p := End(Interval(runs[k].lo, s - 1))]
        == c.data2[t := End(Interval(s + 1, runs[k].hi))][p := End(Interval(runs[k].lo, s - 1))];
  }

  lemma PunchShape(runs: seq<Interval>, k: nat, s: int)
    requires k < |runs| && runs[k].lo < s < runs[k].hi
    ensures var runs' := Split(runs, k, s);
            k < |runs'| && runs'[k] == Interval(runs[k].lo, s) && Punch(runs, k, s) == Until(runs', k, s - 1)
    ensures Punch(runs, k, s) == InsertAt(Until(runs, k, s - 1), k + 1, Interval(s + 1, runs[k].hi))
    ensures |Punch(runs, k, s)| == |runs| + 1
  {
  }

  /** Taking interval k out of the list; the head moves on when k is the first. */
  lemma DeleteKeeps(ring: Ring, c: Cells, runs: seq<Interval>, k: nat)
    requires Stores(ring, c, runs) && Disjoint(runs) && k < |runs|
    ensures Sized(ring, c)
    ensures var s := Cell(ring, runs[k].lo);
            var w := Clear(c, s);
            Stores(ring, if k == 0 then w else w.(next := w.next[Cell(ring, runs[k - 1].lo) := c.next[s]]),
                   DeleteAt(runs, k))
    ensures Disjoint(DeleteAt(runs, k)) && Members(DeleteAt(runs, k)) == Members(runs) - Range(runs[k])
    ensures Total(DeleteAt(runs, k)) == Total(runs) - (runs[k].hi - runs[k].lo + 1)
  {
    DeleteDisjoint(runs, k);
    if k == 0 {
      DropFirst(ring, c, runs);
      assert runs[1..] == DeleteAt(runs, 0);
    } else {
      Unlink(ring, c, runs, k);
    }
  }

  lemma PunchFits(ring: Ring, runs: seq<Interval>, k: nat, s: int)
    requires Fits(ring, runs) && Disjoint(runs) && k < |runs| && runs[k].lo < s < runs[k].hi
    ensures Fits(ring, Punch(runs, k, s))
  {
    SplitFits(ring, runs, k, s);
    SplitDisjoint(runs, k, s);
    ShortenFits(ring, Split(runs, k, s), k, s - 1);
  }
}

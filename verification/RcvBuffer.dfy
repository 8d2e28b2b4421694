/** The receiver's buffer (`CRcvBuffer`) in stream mode: a ring of slots for packet units.

    Packet x of the connection has its slot at a fixed place of the ring.  The slots from
    the read position up to the acknowledged position are full and wait to be read; later
    ones may be filled in any order. */
module RcvBuffers {
  import opened Arith
  import opened Basics
  import opened LossCells
  import opened SndBuffers

  /** A packet unit of the shared pool; flag 0 is free, 1 is occupied. */
  class Unit {
    var flag: int
    var data: seq<byte>

    constructor (data: seq<byte>)
      ensures flag == 0 && this.data == data
    {
      flag, this.data := 0, data;
    }
  }

  /** The pool's count of units in use, shared by all sockets of the pool. */
  class UnitQueue {
    var count: int

    constructor ()
      ensures count == 0
    {
      count := 0;
    }
  }

  /** The bytes of packets a .. b - 1. */
  function Stream(slots: map<int, seq<byte>>, a: int, b: int): seq<byte>
    requires forall x :: a <= x < b ==> x in slots
    decreases b - a
  {
    if a >= b then [] else slots[a] + Stream(slots, a + 1, b)
  }

  /** Only the packets in the range matter. */
  lemma {:induction false} StreamSame(s: map<int, seq<byte>>, t: map<int, seq<byte>>, a: int, b: int)
    requires forall x :: a <= x < b ==> x in s && x in t && s[x] == t[x]
    ensures Stream(s, a, b) == Stream(t, a, b)
    decreases b - a
  {
    if a < b {
      StreamSame(s, t, a + 1, b);
    }
  }

  lemma {:induction false} StreamSplit(s: map<int, seq<byte>>, a: int, m: int, b: int)
    requires a <= m <= b && forall x :: a <= x < b ==> x in s
    ensures Stream(s, a, b) == Stream(s, a, m) + Stream(s, m, b)
    decreases m - a
  {
    if a < m {
      StreamSplit(s, a + 1, m, b);
      assert Stream(s, a, b) == s[a] + (Stream(s, a + 1, m) + Stream(s, m, b));
    }
  }

  /** The bytes of packets a .. b - 1 without the first `notch`, which were read before. */
  function Unread(slots: map<int, seq<byte>>, a: int, b: int, notch: int): seq<byte>
    requires forall x :: a <= x < b ==> x in slots
  {
    var s := Stream(slots, a, b);
    if 0 <= notch <= |s| then s[notch..] else []
  }

  /** The first packet still has bytes beyond the notch, unless the notch is 0. */
  predicate NotchFits(slots: map<int, seq<byte>>, a: int, b: int, notch: int) {
    0 <= notch && (notch > 0 ==> a < b && a in slots && notch < |slots[a]|)
  }

  /** The bytes of packet a before the notch, which were read. */
  function Part(slots: map<int, seq<byte>>, a: int, notch: int): seq<byte> {
    if notch > 0 && a in slots && notch <= |slots[a]| then slots[a][..notch] else []
  }

  lemma NotchInside(slots: map<int, seq<byte>>, a: int, b: int, notch: int)
    requires NotchFits(slots, a, b, notch) && forall x :: a <= x < b ==> x in slots
    ensures notch <= |Stream(slots, a, b)|
    ensures a < b ==> Stream(slots, a, b) == slots[a] + Stream(slots, a + 1, b)
  {
  }

  lemma UnreadExtend(slots: map<int, seq<byte>>, a: int, m: int, b: int, notch: int)
    requires a <= m <= b && NotchFits(slots, a, m, notch)
    requires forall x :: a <= x < b ==> x in slots
    ensures Unread(slots, a, b, notch) == Unread(slots, a, m, notch) + Stream(slots, m, b)
    ensures NotchFits(slots, a, b, notch)
  {
    NotchInside(slots, a, m, notch);
    StreamSplit(slots, a, m, b);
    hide Stream;
    TailOfSum(Stream(slots, a, m), Stream(slots, m, b), notch);
  }

  lemma TailOfSum(x: seq<byte>, y: seq<byte>, n: nat)
    requires n <= |x|
    ensures (x + y)[n..] == x[n..] + y
  {
  }

  /** A packet filled in behind the acknowledged ones changes nothing before it. */
  lemma FillKeeps(slots: map<int, seq<byte>>, x: int, data: seq<byte>, a: int, b: int, notch: int)
    requires b <= x && NotchFits(slots, a, b, notch) && forall y :: a <= y < b ==> y in slots
    ensures var slots' := slots[x := data];
            && (forall y :: a <= y < b ==> y in slots')
            && NotchFits(slots', a, b, notch) && Unread(slots', a, b, notch) == Unread(slots, a, b, notch)
            && (x !in slots ==> |slots'| == |slots| + 1)
  {
    StreamSame(slots, slots[x := data], a, b);
  }

  /** Reading the first packet to its end takes its bytes from the front. */
  lemma UnreadFront(slots: map<int, seq<byte>>, a: int, b: int, notch: int)
    requires a < b && NotchFits(slots, a, b, notch) && forall x :: a <= x < b ==> x in slots
    ensures var rest := slots - {a};
            && notch <= |slots[a]| && (forall x :: a + 1 <= x < b ==> x in rest)
            && NotchFits(rest, a + 1, b, 0)
            && Unread(slots, a, b, notch) == slots[a][notch..] + Unread(rest, a + 1, b, 0)
            && |rest| == |slots| - 1
    ensures 0 <= notch
  {
    NotchInside(slots, a, b, notch);
    StreamSame(slots, slots - {a}, a + 1, b);
    RemoveSize(slots, a);
  }

  lemma UnreadPartly(slots: map<int, seq<byte>>, a: int, b: int, notch: int, n: int)
    requires a < b && NotchFits(slots, a, b, notch) && forall x :: a <= x < b ==> x in slots
    requires 0 <= n < |slots[a]| - notch
    ensures NotchFits(slots, a, b, notch + n)
    ensures Unread(slots, a, b, notch) == slots[a][notch..notch + n] + Unread(slots, a, b, notch + n)
  {
    NotchInside(slots, a, b, notch);
    NotchInside(slots, a, b, notch + n);
  }

  /** Where reading len bytes leaves the first packet and the notch. */
  function Consume(slots: map<int, seq<byte>>, a: int, b: int, notch: int, len: int): (int, int)
    requires forall x :: a <= x < b ==> x in slots
    decreases b - a
  {
    if a >= b || len <= 0 then (a, notch)
    else if |slots[a]| - notch <= len then Consume(slots, a + 1, b, 0, len - (|slots[a]| - notch))
    else (a, notch + len)
  }

  lemma {:induction false} ConsumeSame(s: map<int, seq<byte>>, t: map<int, seq<byte>>, a: int, b: int, notch: int,
                                       len: int)
    requires forall x :: a <= x < b ==> x in s && x in t && s[x] == t[x]
    ensures Consume(s, a, b, notch, len) == Consume(t, a, b, notch, len)
    decreases b - a
  {
    if a < b && len > 0 && |s[a]| - notch <= len {
      ConsumeSame(s, t, a + 1, b, 0, len - (|s[a]| - notch));
    }
  }

  /** How many bytes a read of `len` returns. */
  function ReadLength(slots: map<int, seq<byte>>, a: int, b: int, notch: int, len: int): nat
    requires forall x :: a <= x < b ==> x in slots
  {
    var unread := |Unread(slots, a, b, notch)|;
    if len < 0 then 0 else if len < unread then len else unread
  }

  lemma {:induction false} ConsumeCount(slots: map<int, seq<byte>>, a: int, b: int, notch: int, len: int)
    requires a <= b && NotchFits(slots, a, b, notch) && forall x :: a <= x < b ==> x in slots
    ensures var (no, left) := Consume(slots, a, b, notch, len);
            && a <= no <= b && NotchFits(slots, no, b, left)
            && |Stream(slots, a, no)| + left == notch + ReadLength(slots, a, b, notch, len)
    decreases b - a
  {
    NotchInside(slots, a, b, notch);
    if a < b && len > 0 {
      var here := |slots[a]| - notch;
      if here <= len {
        ConsumeCount(slots, a + 1, b, 0, len - here);
        NotchInside(slots, a + 1, b, 0);
      }
    }
  }

  /** Reading returns the next bytes of the stream, in order, and leaves the others. */
  lemma ConsumeReads(slots: map<int, seq<byte>>, a: int, b: int, notch: int, len: int)
    requires a <= b && NotchFits(slots, a, b, notch) && forall x :: a <= x < b ==> x in slots
    ensures var (no, left) := Consume(slots, a, b, notch, len);
            var unread, n := Unread(slots, a, b, notch), ReadLength(slots, a, b, notch, len);
            && a <= no <= b && NotchFits(slots, no, b, left)
            && Unread(slots, no, b, left) == unread[n..]
            && Stream(slots, a, no) + Part(slots, no, left) == Part(slots, a, notch) + unread[..n]
  {
    var (no, left) := Consume(slots, a, b, notch, len);
    var n := ReadLength(slots, a, b, notch, len);
    ConsumeCount(slots, a, b, notch, len);
    NotchFront(slots, a, b, notch);
    NotchFront(slots, no, b, left);
    StreamSplit(slots, a, no, b);
    hide Consume, Stream, NotchFits, ReadLength, Part;
    Cuts(Stream(slots, a, no), Stream(slots, no, b), notch, n, left);
  }

  /** With the packets from o on: what was read before and what is read now is what was read
      afterwards. */
  lemma ReadJoins(slots: map<int, seq<byte>>, o: int, a: int, b: int, notch: int, len: int)
    requires o <= a <= b && NotchFits(slots, a, b, notch) && forall x :: o <= x < b ==> x in slots
    ensures var (no, left) := Consume(slots, a, b, notch, len);
            a <= no <= b && NotchFits(slots, no, b, left)
            && Stream(slots, o, a) + Part(slots, a, notch)
                 + Unread(slots, a, b, notch)[..ReadLength(slots, a, b, notch, len)]
               == Stream(slots, o, no) + Part(slots, no, left)
  {
    hide Consume, Stream, NotchFits, Part, Unread;
    ConsumeReads(slots, a, b, notch, len);
    var (no, left) := Consume(slots, a, b, notch, len);
    StreamSplit(slots, o, a, no);
    Rejoin(Stream(slots, o, a), Part(slots, a, notch),
           Unread(slots, a, b, notch)[..ReadLength(slots, a, b, notch, len)],
           Stream(slots, a, no), Part(slots, no, left));
  }

  lemma Rejoin(a: seq<byte>, front: seq<byte>, u: seq<byte>, b: seq<byte>, back: seq<byte>)
    requires b + back == front + u
    ensures a + front + u == a + b + back
  {
    assert a + front + u == a + (front + u);
    assert a + b + back == a + (b + back);
  }

  /** The part of the first packet that was read is a prefix of the stream. */
  lemma NotchFront(slots: map<int, seq<byte>>, a: int, b: int, notch: int)
    requires NotchFits(slots, a, b, notch) && forall x :: a <= x < b ==> x in slots
    ensures 0 <= notch <= |Stream(slots, a, b)|
    ensures notch > 0 ==> a in slots && notch <= |slots[a]|
    ensures Stream(slots, a, b)[..notch] == Part(slots, a, notch)
  {
    NotchInside(slots, a, b, notch);
  }

  lemma Cuts(x: seq<byte>, y: seq<byte>, notch: nat, n: nat, left: nat)
    requires |x| + left == notch + n && left <= |y| && notch <= |x + y|
    ensures x + y[..left] == (x + y)[..notch] + (x + y)[notch..][..n]
    ensures y[left..] == (x + y)[notch..][n..]
  {
  }

  /** The packets from n on. */
  function From(slots: map<int, seq<byte>>, n: int): map<int, seq<byte>> {
    map x | x in slots && n <= x :: slots[x]
  }

  lemma FromFrom(slots: map<int, seq<byte>>, m: int, n: int)
    requires m <= n
    ensures From(From(slots, m), n) == From(slots, n)
  {
  }

  /** How far apart two cells are, in either order around the ring. */
  lemma CellDistance(ring: Ring, x: int, y: int)
    requires 0 < ring.size && 0 <= y - x < ring.size
    ensures Cell(ring, y) == Cell(ring, x) + (y - x) || Cell(ring, y) == Cell(ring, x) + (y - x) - ring.size
  {
    var n, c, d := ring.size, Cell(ring, x), y - x;
    CellShift(ring, x, d);
    if c + d < n {
      DivMod(c + d, n, 0, c + d);
    } else {
      DivMod(c + d, n, 1, c + d - n);
    }
  }

  lemma CellNext(ring: Ring, x: int, y: int)
    requires 0 < ring.size && x <= y <= x + ring.size
    ensures Cell(ring, y) == Cell(ring, x) <==> y == x || y == x + ring.size
  {
    if y < x + ring.size {
      CellUnique(ring, x, y);
    } else {
      CellShift(ring, x, ring.size);
      DivMod(Cell(ring, x) + ring.size, ring.size, 1, Cell(ring, x));
    }
  }

  class RcvBuffer {
    const size: int
    const units: array<Unit?>
    const unitQueue: UnitQueue
    var startPos: int
    var lastAckPos: int
    var maxPos: int
    var notch: int

    ghost var ring: Ring
    ghost var readNo: int                    // packet at startPos
    ghost var ackNo: int                     // packet at lastAckPos
    ghost var slots: map<int, seq<byte>>     // the packets held, by number
    ghost var repr: set<Unit>                // their units

    /** Every held packet is in its own unit at its own slot; every other slot is empty. */
    ghost predicate Held()
      reads this`ring, this`readNo, this`slots, this`repr, units, repr
    {
      && 0 < size == units.Length == ring.size
      && (forall x :: x in slots ==> readNo <= x < readNo + size - 1)
      && (forall x :: readNo <= x < readNo + size ==>
            var u := units[Cell(ring, x)];
            if x in slots then u != null && u in repr && u.flag == 1 && u.data == slots[x] else u == null)
      && (forall x, y :: x in slots && y in slots && x != y ==> units[Cell(ring, x)] != units[Cell(ring, y)])
    }

    ghost predicate Valid()
      reads this, units, repr
    {
      ValidAt(startPos)
    }

    /** The invariant with the read position kept in a local variable. */
    ghost predicate ValidAt(p: int)
      reads this, units, repr
    {
      && Held()
      && p == Cell(ring, readNo) && lastAckPos == Cell(ring, ackNo)
      && readNo <= ackNo < readNo + size
      && (forall x :: readNo <= x < ackNo ==> x in slots)
      && NotchFits(slots, readNo, ackNo, notch)
      && 0 <= maxPos
    }

    /** The acknowledged bytes that were not read yet. */
    ghost function Pending(): seq<byte>
      requires Valid()
      reads this, units, repr
    {
      Unread(slots, readNo, ackNo, notch)
    }

    constructor (size: int, unitQueue: UnitQueue, ghost first: int)
      requires 0 < size
      ensures Valid() && fresh(units) && this.size == size && this.unitQueue == unitQueue
      ensures slots == map[] && repr == {} && readNo == ackNo == first && notch == 0
    {
      this.size, this.unitQueue := size, unitQueue;
      units := new Unit?[size](_ => null);
      startPos, lastAckPos, maxPos, notch := 0, 0, 0, 0;
      ring, readNo, ackNo, slots, repr := Ring(size, first), first, first, map[], {};
      new;
      CellOrigin(ring);
    }

    method GetRcvDataSize() returns (n: int)
      requires Valid()
      ensures n == ackNo - readNo
    {
      CellDistance(ring, readNo, ackNo);
      if lastAckPos >= startPos {
        return lastAckPos - startPos;
      }
      n := size + lastAckPos - startPos;
    }

    /** Free slots behind the acknowledged ones; one slot always stays empty. */
    method GetAvailBufSize() returns (n: int)
      requires Valid()
      ensures n == readNo + size - 1 - ackNo
    {
      n := GetRcvDataSize();
      n := size - n - 1;
    }

    /** Puts a free unit into the slot `offset` places behind the acknowledged position. */
    method AddData(unit: Unit, offset: int) returns (added: bool)
      requires Valid() && unit.flag == 0 && 0 <= offset && ackNo + offset < readNo + size - 1
      modifies this`maxPos, this`slots, this`repr, units, unit`flag, unitQueue
      ensures Valid()
      ensures added <==> ackNo + offset !in old(slots)
      ensures added ==> slots == old(slots)[ackNo + offset := unit.data] && repr == old(repr) + {unit}
      ensures !added ==> slots == old(slots) && repr == old(repr) && unit.flag == 0
      ensures unitQueue.count - |slots| == old(unitQueue.count - |slots|)
      ensures Pending() == old(Pending())
    {
      hide Mod, Cell, Stream, Unread, NotchFits, Held;
      InTheRing();
      SlotTaken(ackNo + offset);
      CellShift(ring, ackNo, offset);
      var pos := Mod(lastAckPos + offset, size);
      if offset > maxPos {
        maxPos := offset;
      }
      if units[pos] != null {
        return false;
      }
      FillKeeps(slots, ackNo + offset, unit.data, readNo, ackNo, notch);
      Fill(unit, pos, ackNo + offset);
      added := true;
    }

    lemma SlotTaken(x: int)
      requires Held() && readNo <= x < readNo + size - 1
      ensures 0 <= Cell(ring, x) < units.Length && (units[Cell(ring, x)] == null <==> x !in slots)
    {
      hide Cell;
    }

    lemma InTheRing()
      requires Held()
      ensures 0 < size == units.Length == ring.size
    {
    }

    /** Occupies an empty slot. */
    method Fill(unit: Unit, pos: int, ghost x: int)
      requires Held() && unit.flag == 0 && readNo <= x < readNo + size - 1 && x !in slots && pos == Cell(ring, x)
      modifies this`slots, this`repr, units, unit`flag, unitQueue
      ensures Held() && slots == old(slots)[x := unit.data] && repr == old(repr) + {unit}
      ensures unitQueue.count == old(unitQueue.count) + 1
    {
      hide Cell;
      forall y | readNo <= y < readNo + size ensures Cell(ring, y) == pos <==> y == x {
        CellUnique(ring, x, y);
      }
      FreeIsNotHeld(unit);
      units[pos] := unit;
      unit.flag := 1;
      unitQueue.count := unitQueue.count + 1;
      slots, repr := slots[x := unit.data], repr + {unit};
    }

    lemma FreeIsNotHeld(unit: Unit)
      requires Held() && unit.flag == 0
      ensures forall y :: y in slots ==> units[Cell(ring, y)] != unit
    {
    }

    /** Moves the acknowledged position over `len` filled slots. */
    method AckData(len: int)
      requires Valid() && 0 <= len && forall x :: ackNo <= x < ackNo + len ==> x in slots
      modifies this`lastAckPos, this`maxPos, this`ackNo
      ensures Valid() && ackNo == old(ackNo) + len
      ensures Pending() == old(Pending()) + Stream(slots, old(ackNo), ackNo)
    {
      hide Mod, Cell, Stream, Unread, NotchFits;
      UnreadExtend(slots, readNo, ackNo, ackNo + len, notch);
      CellShift(ring, ackNo, len);
      assert len > 0 ==> ackNo + len - 1 in slots;
      hide Held;
      lastAckPos := Mod(lastAckPos + len, size);
      maxPos := maxPos - len;
      if maxPos < 0 {
        maxPos := 0;
      }
      ackNo := ackNo + len;
    }

    /** Frees the unit of the first packet; returns the position behind it. */
    method FreeUnit(p: int) returns (after: int)
      requires Held() && readNo in slots && p == Cell(ring, readNo)
      modifies this`readNo, this`slots, this`repr, units, repr, unitQueue
      ensures Held() && after == Cell(ring, readNo) && readNo == old(readNo) + 1
      ensures slots == old(slots) - {old(readNo)} == From(old(slots), readNo) && repr <= old(repr)
      ensures unitQueue.count == old(unitQueue.count) - 1
    {
      hide Cell;
      forall y | readNo <= y <= readNo + size ensures Cell(ring, y) == p <==> y == readNo || y == readNo + size {
        CellNext(ring, readNo, y);
      }
      CellDistance(ring, readNo, readNo + 1);
      WithoutFirst();
      var tmp := units[p];
      units[p] := null;
      tmp.flag := 0;
      unitQueue.count := unitQueue.count - 1;
      after := p + 1;
      if after == size {
        after := 0;
      }
      slots, repr, readNo := slots - {readNo}, repr - {tmp}, readNo + 1;
    }

    /** Reads up to rs bytes from the first packet, freeing its unit when it is used up. */
    method ReadUnit(p: int, rs: int) returns (after: int, left: int, bytes: seq<byte>)
      requires ValidAt(p) && readNo < ackNo && 0 < rs
      modifies this`notch, this`readNo, this`slots, this`repr, units, repr, unitQueue
      ensures ValidAt(after) && 0 <= left && |bytes| + left == rs
      ensures left < rs || readNo == old(readNo) + 1
      ensures Consume(slots, readNo, ackNo, notch, left) == old(Consume(slots, readNo, ackNo, notch, rs))
      ensures old(Unread(slots, readNo, ackNo, notch)) == bytes + Unread(slots, readNo, ackNo, notch)
      ensures repr <= old(repr) && old(readNo) <= readNo
      ensures slots == From(old(slots), readNo)
      ensures readNo <= old(readNo) + 1
      ensures unitQueue.count - |slots| == old(unitQueue.count - |slots|)
    {
      hide Cell, Held, Unread, NotchFits, Stream, From;
      FirstUnit(p);
      NothingBefore();
      UnreadFront(slots, readNo, ackNo, notch);
      ConsumeSame(slots, slots - {readNo}, readNo + 1, ackNo, 0, rs - (|slots[readNo]| - notch));
      var u := units[p];
      var unitsize := |u.data| - notch;
      if unitsize > rs {
        unitsize := rs;
      }
      bytes := u.data[notch..notch + unitsize];
      if rs > unitsize || rs == |u.data| - notch {
        assert bytes == slots[readNo][notch..];
        after := FreeUnit(p);
        notch := 0;
      } else {
        UnreadPartly(slots, readNo, ackNo, notch, rs);
        after := p;
        notch := notch + rs;
      }
      left := rs - unitsize;
    }

    /** Reads units from position `p0` on until `len` bytes are read or none is left. */
    method ReadUnits(p0: int, len: int) returns (p: int, data: seq<byte>)
      requires ValidAt(p0)
      modifies this`notch, this`readNo, this`slots, this`repr, units, repr, unitQueue
      ensures ValidAt(p)
      ensures old(Unread(slots, readNo, ackNo, notch)) == data + Unread(slots, readNo, ackNo, notch)
      ensures |data| <= (if len < 0 then 0 else len)
      ensures |data| < len ==> Unread(slots, readNo, ackNo, notch) == []
      ensures old(readNo) <= readNo && repr <= old(repr) && slots == From(old(slots), readNo)
      ensures (readNo, notch) == old(Consume(slots, readNo, ackNo, notch, len))
      ensures unitQueue.count - |slots| == old(unitQueue.count - |slots|)
    {
      hide Cell, Held, Unread, NotchFits, Stream, From, Consume;
      NothingBefore();
      p := p0;
      var lastack := lastAckPos;
      var rs := len;
      data := [];
      while p != lastack && rs > 0
        invariant ValidAt(p)
        invariant old(Unread(slots, readNo, ackNo, notch)) == data + Unread(slots, readNo, ackNo, notch)
        invariant |data| + rs == len && (rs < 0 ==> data == [])
        invariant Consume(slots, readNo, ackNo, notch, rs) == old(Consume(slots, readNo, ackNo, notch, len))
        invariant old(readNo) <= readNo && repr <= old(repr) && slots == From(old(slots), readNo)
        invariant unitQueue.count - |slots| == old(unitQueue.count - |slots|)
        decreases rs, ackNo - readNo
      {
        ReadNoIsNotAckNo(p);
        ghost var before := readNo;
        var bytes;
        p, rs, bytes := ReadUnit(p, rs);
        data := data + bytes;
        FromFrom(old(slots), before, readNo);
      }
      NothingToConsume(p, rs);
      if rs > 0 {
        NothingUnread(p);
      }
    }

    /** Reads up to `len` bytes: as many as are pending, from the front, and takes them out. */
    method ReadBuffer(len: int) returns (data: seq<byte>)
      requires Valid()
      modifies this`startPos, this`notch, this`readNo, this`slots, this`repr, units, repr, unitQueue
      ensures Valid()
      ensures |data| == (if len < 0 then 0 else if len < |old(Pending())| then len else |old(Pending())|)
      ensures old(Pending()) == data + Pending()
      ensures old(readNo) <= readNo && repr <= old(repr) && slots == From(old(slots), readNo)
      ensures (readNo, notch) == old(Consume(slots, readNo, ackNo, notch, len))
      ensures unitQueue.count - |slots| == old(unitQueue.count - |slots|)
    {
      hide Cell, Held, Unread, NotchFits, Stream, From, Consume;
      var p;
      p, data := ReadUnits(startPos, len);
      startPos := p;
    }

    lemma FirstUnit(p: int)
      requires ValidAt(p) && readNo < ackNo
      ensures readNo in slots && 0 <= p < units.Length
      ensures units[p] != null && units[p].data == slots[readNo]
    {
    }

    lemma WithoutFirst()
      requires Held() && readNo in slots
      ensures slots - {readNo} == From(slots, readNo + 1)
    {
    }

    lemma NothingBefore()
      requires Held()
      ensures slots == From(slots, readNo)
    {
    }

    lemma ReadNoIsNotAckNo(p: int)
      requires ValidAt(p)
      ensures p == lastAckPos <==> readNo == ackNo
    {
      CellUnique(ring, readNo, ackNo);
    }

    lemma NothingToConsume(p: int, rs: int)
      requires ValidAt(p) && (p == lastAckPos || rs <= 0)
      ensures Consume(slots, readNo, ackNo, notch, rs) == (readNo, notch)
    {
      ReadNoIsNotAckNo(p);
    }

    lemma NothingUnread(p: int)
      requires ValidAt(p) && p == lastAckPos
      ensures Unread(slots, readNo, ackNo, notch) == []
    {
      ReadNoIsNotAckNo(p);
    }
  }
}

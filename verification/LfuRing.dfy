/** The least-frequently-used queue of HyCache: a doubly linked cycle of file records with a
    head and a tail, kept by `insque` and `remque`.

    The ring is proved to follow a sequence; the sequence is proved to be sorted by frequency
    and, among equals, by last access, so that the head is always the right victim. */
module LfuRings {
  import opened Basics

  /** A file's record as a value: its name, how often it was used, and when last. */
  datatype Item = Item(name: string, freq: int, last: nat)

  predicate Names(q: seq<Item>) {
    forall i, j :: 0 <= i < j < |q| ==> q[i].name != q[j].name
  }

  /** x is a better victim than y. */
  predicate Before(x: Item, y: Item) {
    x.freq < y.freq || (x.freq == y.freq && x.last < y.last)
  }

  predicate Sorted(q: seq<Item>) {
    forall i, j :: 0 <= i < j < |q| ==> Before(q[i], q[j])
  }

  predicate Older(q: seq<Item>, now: nat) {
    forall i :: 0 <= i < |q| ==> q[i].last < now
  }

  /** What holds of the queue after any run. */
  predicate Queue(q: seq<Item>, now: nat) {
    Names(q) && Sorted(q) && Older(q, now)
  }

  function NameOf(x: Item): string {
    x.name
  }

  /** The place of the first record with a name, or the length. */
  function Find(q: seq<Item>, name: string): (i: nat)
    ensures i <= |q| && (i < |q| ==> q[i].name == name)
    ensures forall j :: 0 <= j < i ==> q[j].name != name
  {
    First(NameOf, q, name)
  }

  /** The place of the first record used more often, or the length. */
  function Position(q: seq<Item>, freq: int): (i: nat)
    ensures i <= |q| && (i < |q| ==> freq < q[i].freq)
    ensures forall j :: 0 <= j < i ==> q[j].freq <= freq
  {
    if |q| == 0 || freq < q[0].freq then 0 else 1 + Position(q[1..], freq)
  }

  function Removed(q: seq<Item>, name: string): seq<Item> {
    if Find(q, name) < |q| then Without(q, Find(q, name)) else q
  }

  /** An access: a known file counts one more than before, a new one as given. */
  function Accessed(q: seq<Item>, name: string, freq: int, now: nat): seq<Item> {
    var i := Find(q, name);
    var f := if i < |q| then q[i].freq + 1 else freq;
    var r := Removed(q, name);
    With(r, Position(r, f), Item(name, f, now))
  }

  lemma WithoutKeeps(q: seq<Item>, i: nat, now: nat)
    requires i < |q| && Queue(q, now)
    ensures Queue(Without(q, i), now)
  {
  }

  lemma RemovedKeeps(q: seq<Item>, name: string, now: nat)
    requires Queue(q, now)
    ensures Queue(Removed(q, name), now)
    ensures forall x :: x in Removed(q, name) <==> x in q && x.name != name
  {
    var i := Find(q, name);
    if i < |q| {
      WithoutKeeps(q, i, now);
      var r := Without(q, i);
      forall x | x in q && x.name != name
        ensures x in r
      {
        var j :| 0 <= j < |q| && q[j] == x;
        assert r[if j < i then j else j - 1] == x;
      }
    }
  }

  /** Every access keeps the names apart and the order by frequency and last access. */
  lemma AccessedKeeps(q: seq<Item>, name: string, freq: int, now: nat)
    requires Queue(q, now)
    ensures Queue(Accessed(q, name, freq, now), now + 1)
  {
    hide Queue, Find, Position, With, Removed;
    RemovedKeeps(q, name, now);
    var i := Find(q, name);
    var f := if i < |q| then q[i].freq + 1 else freq;
    var r := Removed(q, name);
    var x := Item(name, f, now);
    var p := Position(r, f);
    assert forall j :: 0 <= j < |r| ==> r[j] in r;
    PlacedKeeps(r, p, x, now);
  }

  /** A new record at its position is after everything before it and before everything else. */
  lemma PlacedBetween(r: seq<Item>, p: nat, x: Item, now: nat)
    requires Sorted(r) && Older(r, now) && p == Position(r, x.freq) && x.last == now
    ensures forall j :: 0 <= j < p ==> Before(r[j], x)
    ensures forall j :: p <= j < |r| ==> Before(x, r[j])
  {
    hide Position;
    forall j | p <= j < |r|
      ensures Before(x, r[j])
    {
      assert j > p ==> Before(r[p], r[j]);
      assert x.freq < r[p].freq;
    }
  }

  lemma WithSorted(r: seq<Item>, p: nat, x: Item)
    requires Sorted(r) && p <= |r|
    requires forall j :: 0 <= j < p ==> Before(r[j], x)
    requires forall j :: p <= j < |r| ==> Before(x, r[j])
    ensures Sorted(With(r, p, x))
  {
    hide Before;
    var w := With(r, p, x);
    forall i, j | 0 <= i < j < |w|
      ensures Before(w[i], w[j])
    {
      if i < p && j > p {
        assert Before(r[i], r[j - 1]);
      } else if i > p {
        assert Before(r[i - 1], r[j - 1]);
      }
    }
  }

  lemma WithNames(r: seq<Item>, p: nat, x: Item)
    requires Names(r) && p <= |r|
    requires forall j :: 0 <= j < |r| ==> r[j].name != x.name
    ensures Names(With(r, p, x))
  {
  }

  lemma WithOlder(r: seq<Item>, p: nat, x: Item, now: nat)
    requires Older(r, now) && p <= |r| && x.last == now
    ensures Older(With(r, p, x), now + 1)
  {
  }

  lemma PlacedKeeps(r: seq<Item>, p: nat, x: Item, now: nat)
    requires Queue(r, now) && p == Position(r, x.freq) && x.last == now
    requires forall j :: 0 <= j < |r| ==> r[j].name != x.name
    ensures Queue(With(r, p, x), now + 1)
  {
    hide Sorted, Names, Older, Position, Before, With;
    PlacedBetween(r, p, x, now);
    WithSorted(r, p, x);
    WithNames(r, p, x);
    WithOlder(r, p, x, now);
  }

  // Runs

  /** An access to a file, the removal of its record, or the eviction of the head. */
  datatype Op = Access(name: string) | Drop(name: string) | Evict

  datatype Use = Use(freq: int, last: nat)

  /** u is a better victim than v. */
  predicate Worse(u: Use, v: Use) {
    u.freq < v.freq || (u.freq == v.freq && u.last < v.last)
  }

  /** The file used least often and, among those, least recently. */
  ghost predicate Victim(uses: map<string, Use>, name: string) {
    name in uses && forall f :: f in uses && f != name ==> Worse(uses[name], uses[f])
  }

  ghost function Spared(uses: map<string, Use>): map<string, Use> {
    if exists f :: Victim(uses, f) then
      var f :| Victim(uses, f);
      uses - {f}
    else uses
  }

  /** The number of accesses, which dates them. */
  function Accesses(ops: seq<Op>): nat {
    if |ops| == 0 then 0 else Accesses(ops[..|ops| - 1]) + if ops[|ops| - 1].Access? then 1 else 0
  }

  /** What a run of operations says of each file kept: how often it was used since its record was
      last made, and in which access it was used last.  New records count 1. */
  ghost function Uses(ops: seq<Op>): map<string, Use> {
    if |ops| == 0 then map[]
    else
      var uses, now := Uses(ops[..|ops| - 1]), Accesses(ops[..|ops| - 1]);
      match ops[|ops| - 1]
      case Access(name) => uses[name := Use(if name in uses then uses[name].freq + 1 else 1, now)]
      case Drop(name) => uses - {name}
      case Evict => Spared(uses)
  }

  /** The queue after the same run. */
  function After(ops: seq<Op>): seq<Item> {
    if |ops| == 0 then []
    else Next(After(ops[..|ops| - 1]), ops[|ops| - 1], Accesses(ops[..|ops| - 1]))
  }

  function Next(q: seq<Item>, op: Op, now: nat): seq<Item> {
    match op
    case Access(name) => Accessed(q, name, 1, now)
    case Drop(name) => Removed(q, name)
    case Evict => if |q| > 0 then Without(q, 0) else q
  }

  lemma AfterNext(ops: seq<Op>, i: nat)
    requires i < |ops|
    ensures After(ops[..i + 1]) == Next(After(ops[..i]), ops[i], Accesses(ops[..i]))
    ensures Accesses(ops[..i + 1]) == Accesses(ops[..i]) + if ops[i].Access? then 1 else 0
  {
    assert ops[..i + 1][..i] == ops[..i];
  }

  /** The queue holds exactly these uses. */
  ghost predicate Lists(q: seq<Item>, uses: map<string, Use>) {
    forall x: Item :: x in q <==> x.name in uses && uses[x.name] == Use(x.freq, x.last)
  }

  lemma FindInLists(q: seq<Item>, uses: map<string, Use>, name: string)
    requires Lists(q, uses)
    ensures Find(q, name) < |q| <==> name in uses
    ensures Find(q, name) < |q| ==> q[Find(q, name)].freq == uses[name].freq
  {
    var i := Find(q, name);
    assert i < |q| ==> q[i] in q;
    if name in uses {
      assert Item(name, uses[name].freq, uses[name].last) in q;
    }
  }

  lemma WithLists(r: seq<Item>, uses: map<string, Use>, p: nat, x: Item)
    requires Lists(r, uses) && x.name !in uses && p <= |r|
    ensures Lists(With(r, p, x), uses[x.name := Use(x.freq, x.last)])
  {
    assert forall y :: y in With(r, p, x) <==> y == x || y in r;
  }

  lemma AccessLists(q: seq<Item>, uses: map<string, Use>, name: string, now: nat)
    requires Queue(q, now) && Lists(q, uses)
    ensures Lists(Accessed(q, name, 1, now), uses[name := Use(if name in uses then uses[name].freq + 1 else 1, now)])
  {
    hide Queue, Find, Position, With, Removed;
    RemovedKeeps(q, name, now);
    FindInLists(q, uses, name);
    var f := if name in uses then uses[name].freq + 1 else 1;
    var r := Removed(q, name);
    WithLists(r, uses - {name}, Position(r, f), Item(name, f, now));
    assert (uses - {name})[name := Use(f, now)] == uses[name := Use(f, now)];
  }

  /** The head of a queue that lists these uses is their victim, and no other file is. */
  lemma HeadIsWorst(q: seq<Item>, uses: map<string, Use>, now: nat)
    requires Queue(q, now) && Lists(q, uses)
    ensures |q| == 0 <==> uses == map[]
    ensures |q| > 0 ==> Victim(uses, q[0].name)
  {
    if |q| > 0 {
      assert q[0] in q;
    }
    forall f | f in uses
      ensures |q| > 0 && (f == q[0].name || Worse(uses[q[0].name], uses[f]))
    {
      assert Item(f, uses[f].freq, uses[f].last) in q;
      var i :| 0 <= i < |q| && q[i] == Item(f, uses[f].freq, uses[f].last);
      assert i > 0 ==> Before(q[0], q[i]);
      assert q[0] in q;
    }
  }

  /** Evicting the head spares all files but the victim. */
  lemma EvictLists(q: seq<Item>, uses: map<string, Use>, now: nat)
    requires Queue(q, now) && Lists(q, uses)
    ensures |q| > 0 ==> Queue(Without(q, 0), now) && Lists(Without(q, 0), Spared(uses))
    ensures |q| == 0 ==> Spared(uses) == uses
  {
    HeadIsWorst(q, uses, now);
    if |q| > 0 {
      var name := q[0].name;
      SparedIs(uses, name);
      RemovedKeeps(q, name, now);
      FindIs(q, name, 0);
    }
  }

  lemma SparedIs(uses: map<string, Use>, name: string)
    requires Victim(uses, name)
    ensures Spared(uses) == uses - {name}
  {
    forall f | Victim(uses, f)
      ensures f == name
    {
      OneVictim(uses, f, name);
    }
    hide Victim;
  }

  lemma OneVictim(uses: map<string, Use>, f: string, g: string)
    requires Victim(uses, f) && Victim(uses, g)
    ensures f == g
  {
  }

  lemma {:induction false} QueueAfter(ops: seq<Op>)
    ensures Queue(After(ops), Accesses(ops)) && Lists(After(ops), Uses(ops))
  {
    hide Queue, Accessed, Removed, Without, Spared;
    if |ops| > 0 {
      var before := ops[..|ops| - 1];
      QueueAfter(before);
      var q, uses, now := After(before), Uses(before), Accesses(before);
      match ops[|ops| - 1]
      case Access(name) =>
        AccessedKeeps(q, name, 1, now);
        AccessLists(q, uses, name, now);
      case Drop(name) =>
        RemovedKeeps(q, name, now);
      case Evict =>
        EvictLists(q, uses, now);
    } else {
      EmptyQueue();
    }
  }

  lemma EmptyQueue()
    ensures Queue([], 0)
  {
  }

  /** After every run the queue is empty exactly when no file is kept, and otherwise its head is
      the file used least often and, among those, least recently, by the record of the run. */
  lemma HeadIsVictim(ops: seq<Op>)
    ensures |After(ops)| == 0 <==> Uses(ops) == map[]
    ensures |After(ops)| > 0 ==> Victim(Uses(ops), After(ops)[0].name)
  {
    hide After, Uses, Victim;
    QueueAfter(ops);
    HeadIsWorst(After(ops), Uses(ops), Accesses(ops));
  }

  // The ring

  class INode {
    const fname: string
    var freq: int
    var next: INode?
    var prev: INode?

    /** When the record was last put into the queue. */
    ghost var last: nat

    constructor (name: string, count: int)
      ensures fname == name && freq == count
    {
      fname, freq, next, prev, last := name, count, null, null, 0;
    }
  }

  function Succ(i: nat, n: nat): (k: nat)
    requires i < n
    ensures k < n
  {
    if i + 1 < n then i + 1 else 0
  }

  function Pred(i: nat, n: nat): (k: nat)
    requires i <= n && 0 < n
    ensures k < n
  {
    if i > 0 then i - 1 else n - 1
  }

  ghost predicate Distinct(c: seq<INode>) {
    forall i, j :: 0 <= i < j < |c| ==> c[i] != c[j]
  }

  /** The nodes form one doubly linked cycle in this order. */
  ghost predicate Cycle(c: seq<INode>)
    reads (set n | n in c)`next, (set n | n in c)`prev
  {
    && (forall i {:trigger c[i].next} :: 0 <= i < |c| ==> c[i].next == c[Succ(i, |c|)])
    && (forall i {:trigger c[i].prev} :: 0 <= i < |c| ==> c[i].prev == c[Pred(i, |c|)])
  }

  lemma Differ(c: seq<INode>, i: nat, j: nat)
    requires Distinct(c) && i < |c| && j < |c|
    ensures c[i] == c[j] ==> i == j
  {
  }

  lemma InCycle(c: seq<INode>, i: nat)
    requires Cycle(c) && i < |c|
    ensures c[i].next == c[Succ(i, |c|)] && c[i].prev == c[Pred(i, |c|)]
  {
  }

  /** The neighbours of an old node after an insertion. */
  lemma SuccWith<T>(c: seq<T>, p: nat, x: T, i: nat)
    requires p <= |c| && 0 < |c| && i < |c|
    ensures var w, k := With(c, p, x), if i < p then i else i + 1;
      && w[k] == c[i]
      && w[Succ(k, |w|)] == (if i == Pred(p, |c|) then x else c[Succ(i, |c|)])
      && w[Pred(k, |w|)] == (if Succ(Pred(p, |c|), |c|) == i then x else c[Pred(i, |c|)])
  {
  }

  /** The neighbours of the new node. */
  lemma SuccNew<T>(c: seq<T>, p: nat, x: T)
    requires p <= |c| && 0 < |c|
    ensures var w := With(c, p, x);
      && w[p] == x
      && w[Succ(p, |w|)] == c[Succ(Pred(p, |c|), |c|)]
      && w[Pred(p, |w|)] == c[Pred(p, |c|)]
  {
  }

  /** The links of node i are those of the cycle, except that node j now points to x and node k
      back to y. */
  ghost predicate Relinked(c: seq<INode>, j: nat, x: INode, k: nat, y: INode, i: nat)
    requires i < |c|
    reads c[i]
  {
    && c[i].next == (if i == j then x else c[Succ(i, |c|)])
    && c[i].prev == (if i == k then y else c[Pred(i, |c|)])
  }

  /** The links of a cycle, as values. */
  ghost predicate Links(c: seq<INode>, nexts: seq<INode?>, prevs: seq<INode?>) {
    && |nexts| == |prevs| == |c|
    && (forall i {:trigger nexts[i]} :: 0 <= i < |c| ==> nexts[i] == c[Succ(i, |c|)])
    && (forall i {:trigger prevs[i]} :: 0 <= i < |c| ==> prevs[i] == c[Pred(i, |c|)])
  }

  ghost function Nexts(c: seq<INode>): (s: seq<INode?>)
    reads set n | n in c
    ensures |s| == |c| && forall i :: 0 <= i < |c| ==> s[i] == c[i].next
  {
    seq(|c|, i requires 0 <= i < |c| reads c => c[i].next)
  }

  ghost function Prevs(c: seq<INode>): (s: seq<INode?>)
    reads set n | n in c
    ensures |s| == |c| && forall i :: 0 <= i < |c| ==> s[i] == c[i].prev
  {
    seq(|c|, i requires 0 <= i < |c| reads c => c[i].prev)
  }

  lemma CycleLinks(c: seq<INode>)
    requires Cycle(c)
    ensures Links(c, Nexts(c), Prevs(c))
  {
  }

  lemma RelinkedAfter(c: seq<INode>, nexts: seq<INode?>, prevs: seq<INode?>, j: nat, x: INode, k: nat, y: INode, i: nat)
    requires i < |c| && Links(c, nexts, prevs)
    requires c[i].next == if i == j then x else nexts[i]
    requires c[i].prev == if i == k then y else prevs[i]
    ensures Relinked(c, j, x, k, y, i)
  {
  }

  lemma CycleWith(c: seq<INode>, p: nat, x: INode)
    requires p <= |c| && 0 < |c|
    requires var j := Pred(p, |c|); var k := Succ(j, |c|);
      && x.next == c[k] && x.prev == c[j]
      && forall i :: 0 <= i < |c| ==> Relinked(c, j, x, k, x, i)
    ensures Cycle(With(c, p, x))
  {
    hide With, Succ, Pred;
    var j := Pred(p, |c|);
    var w := With(c, p, x);
    forall k | 0 <= k < |w|
      ensures w[k].next == w[Succ(k, |w|)] && w[k].prev == w[Pred(k, |w|)]
    {
      if k == p {
        SuccNew(c, p, x);
      } else {
        var i := if k < p then k else k - 1;
        assert Relinked(c, j, x, Succ(j, |c|), x, i);
        SuccWith(c, p, x, i);
      }
    }
  }

  /** The neighbours of the other nodes after a removal. */
  lemma SuccWithout<T>(c: seq<T>, p: nat, i: nat)
    requires p < |c| && 1 < |c| && i < |c| && i != p
    ensures var w, k := Without(c, p), if i < p then i else i - 1;
      && w[k] == c[i]
      && w[Succ(k, |w|)] == (if i == Pred(p, |c|) then c[Succ(p, |c|)] else c[Succ(i, |c|)])
      && w[Pred(k, |w|)] == (if i == Succ(p, |c|) then c[Pred(p, |c|)] else c[Pred(i, |c|)])
  {
  }

  lemma CycleWithout(c: seq<INode>, p: nat)
    requires p < |c| && 1 < |c|
    requires var j, k := Pred(p, |c|), Succ(p, |c|);
      forall i :: 0 <= i < |c| && i != p ==> Relinked(c, j, c[k], k, c[j], i)
    ensures Cycle(Without(c, p))
  {
    hide Without, Succ, Pred;
    var w := Without(c, p);
    forall k | 0 <= k < |w|
      ensures w[k].next == w[Succ(k, |w|)] && w[k].prev == w[Pred(k, |w|)]
    {
      var i := if k < p then k else k + 1;
      assert Relinked(c, Pred(p, |c|), c[Succ(p, |c|)], Succ(p, |c|), c[Pred(p, |c|)], i);
      SuccWithout(c, p, i);
    }
  }

  /** `insque` of the C library, for a node of a cycle. */
  method InsQue(elem: INode, prev: INode, ghost c: seq<INode>, ghost p: nat)
    requires Cycle(c) && Distinct(c) && p <= |c| && elem !in c
    requires |c| > 0 && prev == c[Pred(p, |c|)]
    modifies elem`next, elem`prev, (set n | n in c)`next, (set n | n in c)`prev
    ensures Cycle(With(c, p, elem))
  {
    hide With, Succ, Pred, Distinct, Cycle, Relinked, Links;
    ghost var j := Pred(p, |c|);
    InCycle(c, j);
    CycleLinks(c);
    ghost var k, nexts, prevs := Succ(j, |c|), Nexts(c), Prevs(c);
    var next := prev.next;
    prev.next := elem;
    if next != null {
      next.prev := elem;
    }
    elem.next := next;
    elem.prev := prev;
    forall i | 0 <= i < |c|
      ensures Relinked(c, j, elem, k, elem, i)
    {
      Differ(c, i, j);
      Differ(c, i, k);
      RelinkedAfter(c, nexts, prevs, j, elem, k, elem, i);
    }
    CycleWith(c, p, elem);
  }

  /** `remque` of the C library, for a node of a cycle. */
  method RemQue(elem: INode, ghost c: seq<INode>, ghost p: nat)
    requires Cycle(c) && Distinct(c) && p < |c| && elem == c[p]
    modifies (set n | n in c)`next, (set n | n in c)`prev
    ensures |c| > 1 ==> Cycle(Without(c, p))
  {
    hide Without, Succ, Pred, Distinct, Cycle, Relinked, Links;
    InCycle(c, p);
    CycleLinks(c);
    ghost var j, k, nexts, prevs := Pred(p, |c|), Succ(p, |c|), Nexts(c), Prevs(c);
    var next, prev := elem.next, elem.prev;
    if next != null {
      next.prev := prev;
    }
    if prev != null {
      prev.next := next;
    }
    if |c| > 1 {
      forall i | 0 <= i < |c| && i != p
        ensures Relinked(c, j, c[k], k, c[j], i)
      {
        Differ(c, i, j);
        Differ(c, i, k);
        RelinkedAfter(c, nexts, prevs, j, c[k], k, c[j], i);
      }
      CycleWithout(c, p);
    }
  }

  lemma FindIs(q: seq<Item>, name: string, i: nat)
    requires i <= |q| && (i < |q| ==> q[i].name == name)
    requires forall j :: 0 <= j < i ==> q[j].name != name
    ensures Find(q, name) == i
  {
    FirstIs(NameOf, q, name, i);
  }

  lemma {:induction false} PositionIs(q: seq<Item>, freq: int, i: nat)
    requires i <= |q| && (i < |q| ==> freq < q[i].freq)
    requires forall j :: 0 <= j < i ==> q[j].freq <= freq
    ensures Position(q, freq) == i
  {
    if i > 0 {
      PositionIs(q[1..], freq, i - 1);
    }
  }

  /** The records of the nodes, as values. */
  ghost function Items(c: seq<INode>): (q: seq<Item>)
    reads (set n | n in c)`freq, (set n | n in c)`last
    ensures |q| == |c|
    ensures forall i :: 0 <= i < |c| ==> q[i] == Item(c[i].fname, c[i].freq, c[i].last)
  {
    if |c| == 0 then [] else Items(c[..|c| - 1]) + [Item(c[|c| - 1].fname, c[|c| - 1].freq, c[|c| - 1].last)]
  }

  lemma ItemsApart(c: seq<INode>)
    requires Names(Items(c))
    ensures Distinct(c)
  {
    forall i, j | 0 <= i < j < |c|
      ensures c[i] != c[j]
    {
      assert Items(c)[i].name != Items(c)[j].name;
    }
  }

  class LfuQueue {
    var head: INode?
    var tail: INode?
    ghost var ring: seq<INode>

    /** The number of accesses so far, which dates the records. */
    ghost var now: nat

    /** Head and tail are the ends of the ring, and the tail is the node before the head. */
    ghost predicate Shape()
      reads this`head, this`tail, this`ring, (set n | n in ring)`next, (set n | n in ring)`prev
    {
      && Cycle(ring)
      && head == (if |ring| > 0 then ring[0] else null)
      && tail == (if |ring| > 0 then ring[|ring| - 1] else null)
      && (head != null ==> head.prev == tail)
    }

    ghost predicate Valid()
      reads this, (set n | n in ring)
    {
      Shape() && Queue(View(), now)
    }

    ghost function View(): seq<Item>
      reads this`ring, (set n | n in ring)`freq, (set n | n in ring)`last
    {
      Items(ring)
    }

    lemma HeadIsFirst()
      requires Valid()
      ensures head == null <==> |View()| == 0
      ensures head != null ==> head.fname == View()[0].name
    {
    }

    constructor ()
      ensures Valid() && View() == [] && ring == [] && now == 0
    {
      head, tail, ring, now := null, null, [], 0;
    }

    /** `findelem_lfu`: once around the ring. */
    method FindElem(name: string) returns (found: INode?, ghost i: nat)
      requires Valid()
      ensures i == Find(View(), name)
      ensures found == if i < |ring| then ring[i] else null
    {
      hide Names, Sorted, Find, Cycle, Succ;
      i := 0;
      if head == null {
        FindIs(View(), name, 0);
        return null, 0;
      }
      ItemsApart(ring);
      var curr: INode := head;
      while true
        invariant 0 <= i < |ring| && curr == ring[i]
        invariant forall j :: 0 <= j < i ==> View()[j].name != name
        decreases |ring| - i
      {
        if curr.fname == name {
          FindIs(View(), name, i);
          return curr, i;
        }
        InCycle(ring, i);
        NextIs(ring, i);
        curr := curr.next;
        i := i + 1;
        if curr == head {
          break;
        }
      }
      FindIs(View(), name, i);
      return null, i;
    }

    /** `get_pos_lfu`: the node after which a record of this frequency belongs, null for the
        front. */
    method GetPos(freq: int) returns (prev: INode?, ghost p: nat)
      requires Valid() && |ring| > 0
      ensures p == Position(View(), freq)
      ensures prev == if p > 0 then ring[p - 1] else null
    {
      hide Names, Sorted, Position, Cycle, Succ;
      ItemsApart(ring);
      var curr: INode := head;
      var found := false;
      p := 0;
      while true
        invariant 0 <= p < |ring| && curr == ring[p] && !found
        invariant forall j :: 0 <= j < p ==> View()[j].freq <= freq
        decreases |ring| - p
      {
        if freq < curr.freq {
          found := true;
          break;
        }
        InCycle(ring, p);
        NextIs(ring, p);
        curr := curr.next;
        p := p + 1;
        if curr == head {
          break;
        }
      }
      PositionIs(View(), freq, p);
      if found {
        InCycle(ring, p);
        NextIs(ring, if p > 0 then p - 1 else 0);
      }
      if head == curr {
        if found {
          return null, p;
        } else {
          return tail, p;
        }
      } else {
        return curr.prev, p;
      }
    }

    /** A node of the ring, not the only one, is unlinked. */
    method Unlink(elem: INode, ghost p: nat)
      requires Cycle(ring) && Distinct(ring) && p < |ring| && |ring| > 1 && elem == ring[p]
      modifies this`ring, (set n | n in ring)`next, (set n | n in ring)`prev
      ensures ring == Without(old(ring), p) && Cycle(ring)
      ensures View() == Without(old(View()), p)
    {
      hide Cycle, Succ, Without, Items, Distinct;
      RemQue(elem, ring, p);
      ItemsWithout(ring, p);
      ring := Without(ring, p);
    }

    /** `remque_lfu`: removes the head, the best victim.  The source follows a null head when the
        queue is empty. */
    method RemQueHead()
      requires Valid() && |ring| > 0
      modifies this`head, this`tail, this`ring, (set n | n in ring)`next, (set n | n in ring)`prev
      ensures Valid() && ring == Without(old(ring), 0) && View() == Without(old(View()), 0)
      ensures forall n :: n in ring ==> n in old(ring)
    {
      hide Cycle, Succ, Items, Distinct, Queue;
      QueueApart(View(), now);
      ItemsApart(ring);
      InCycle(ring, 0);
      NextIs(ring, 0);
      WithoutKeeps(View(), 0, now);
      var first: INode := head;
      if first == first.next {
        RemQue(first, ring, 0);
        head := null;
        tail := null;
        ring := [];
        EmptyCycle();
        return;
      }
      head := first.next;
      Unlink(first, 0);
      ShapeFromEnds();
    }

    lemma ShapeFromEnds()
      requires Cycle(ring) && |ring| > 0 && head == ring[0] && tail == ring[|ring| - 1]
      ensures Shape()
    {
      InCycle(ring, 0);
    }

    /** Removes a node that is not the head. */
    method CutOut(found: INode, ghost i: nat)
      requires Valid() && 0 < i < |ring| && found == ring[i]
      modifies this`tail, this`ring, (set n | n in ring)`next, (set n | n in ring)`prev
      ensures Valid() && ring == Without(old(ring), i) && View() == Without(old(View()), i)
    {
      hide Cycle, Items, Distinct, Queue, Without;
      QueueApart(View(), now);
      ItemsApart(ring);
      InCycle(ring, i);
      WithoutEnds(ring, i);
      Differ(ring, i, |ring| - 1);
      WithoutKeeps(View(), i, now);
      if found == tail {
        tail := found.prev;
      }
      Unlink(found, i);
      ShapeFromEnds();
    }

    /** `rmelem_lfu`: removes the record of a name, if there is one. */
    method RmElem(name: string)
      requires Valid()
      modifies this`head, this`tail, this`ring, (set n | n in ring)`next, (set n | n in ring)`prev
      ensures Valid() && View() == Removed(old(View()), name)
      ensures forall n :: n in ring ==> n in old(ring)
    {
      hide Cycle, Items, Distinct, Queue, Find;
      if head == null {
        return;
      }
      var found, i := FindElem(name);
      if found != null {
        QueueApart(View(), now);
        ItemsApart(ring);
        Differ(ring, i, 0);
        if found == head {
          RemQueHead();
        } else {
          CutOut(found, i);
        }
      }
    }

    /** A new node goes into the ring at its place. */
    method PutAt(elem: INode, prev: INode?, ghost p: nat)
      requires Shape() && Distinct(ring) && |ring| > 0 && elem !in ring
      requires p <= |ring| && prev == if p > 0 then ring[p - 1] else null
      modifies this`head, this`tail, this`ring, elem`next, elem`prev, (set n | n in ring)`next, (set n | n in ring)`prev
      ensures Shape() && ring == With(old(ring), p, elem)
      ensures View() == With(old(View()), p, Item(elem.fname, elem.freq, elem.last))
    {
      hide Cycle, Succ, Items, Distinct, With;
      Differ(ring, if p > 0 then p - 1 else 0, |ring| - 1);
      WithAt(ring, p, elem, 0);
      WithAt(ring, p, elem, |ring|);
      if prev == null {
        InsQue(elem, tail, ring, p);
        head := elem;
      } else if tail == prev {
        InsQue(elem, prev, ring, p);
        tail := elem;
      } else {
        InsQue(elem, prev, ring, p);
      }
      ItemsWith(ring, p, elem);
      ring := With(ring, p, elem);
      ShapeFromEnds();
    }

    /** The first node becomes a ring of its own. */
    method Start(elem: INode)
      requires |ring| == 0
      modifies this`head, this`tail, this`ring, elem`next, elem`prev
      ensures Shape() && ring == [elem] && View() == [Item(elem.fname, elem.freq, elem.last)]
    {
      hide Cycle, Items;
      elem.next := elem;
      elem.prev := elem;
      head := elem;
      tail := elem;
      ring := [elem];
      OneCycle(elem);
    }

    /** The second half of `insque_lfu`: a record of a new name goes to its place. */
    method Place(elem: INode)
      requires Valid() && elem !in ring
      modifies this`head, this`tail, this`ring, elem`next, elem`prev, (set n | n in ring)`next, (set n | n in ring)`prev
      ensures Shape() && elem in ring && forall n :: n in ring ==> n == elem || n in old(ring)
      ensures View() == With(old(View()), Position(old(View()), elem.freq), Item(elem.fname, elem.freq, elem.last))
    {
      hide Cycle, Items, Distinct, Queue, With;
      if head == null {
        Start(elem);
        WithEmpty(Item(elem.fname, elem.freq, elem.last));
      } else {
        QueueApart(View(), now);
        ItemsApart(ring);
        var prev, p := GetPos(elem.freq);
        PutAt(elem, prev, p);
        WithHolds(old(ring), p, elem);
      }
    }

    /** The first half of `insque_lfu`: an old record of the name hands on its count and goes. */
    method TakeOver(elem: INode)
      requires Valid() && elem !in ring
      modifies this`head, this`tail, this`ring, elem`freq, elem`last
      modifies (set n | n in ring)`next, (set n | n in ring)`prev
      ensures Valid() && View() == Removed(old(View()), elem.fname) && elem.last == now
      ensures var i := Find(old(View()), elem.fname);
        elem.freq == if i < |old(View())| then old(View())[i].freq + 1 else old(elem.freq)
      ensures elem !in ring && forall n :: n in ring ==> n in old(ring)
    {
      hide Shape, Items, Queue, Find;
      var found, i := FindElem(elem.fname);
      if found != null {
        elem.freq := found.freq + 1;
        RmElem(found.fname);
      }
      elem.last := now;
    }

    /** The access is over. */
    ghost method Tick()
      requires Shape() && Queue(View(), now + 1)
      modifies this`now
      ensures Valid() && now == old(now) + 1 && View() == old(View()) && ring == old(ring)
    {
      hide Shape, Items, Queue;
      now := now + 1;
    }

    /** `insque_lfu`: an access to a file puts its record at its place by frequency, after its
        equals; a record that was there already is replaced by one that counts one more. */
    method InsQueLfu(elem: INode)
      requires Valid() && elem !in ring
      modifies this, elem, (set n | n in ring)`next, (set n | n in ring)`prev
      ensures Valid() && now == old(now) + 1
      ensures View() == Accessed(old(View()), elem.fname, old(elem.freq), old(now))
      ensures elem in ring && forall n :: n in ring ==> n == elem || n in old(ring)
    {
      hide Shape, Items, Queue, Find, Position, With, Removed;
      AccessedKeeps(View(), elem.fname, elem.freq, now);
      TakeOver(elem);
      Place(elem);
      Tick();
    }
  }

  lemma WithEmpty<T>(x: T)
    ensures With([], 0, x) == [x]
  {
  }

  /** The ends of a ring that lost a node behind its first. */
  lemma WithoutEnds(c: seq<INode>, i: nat)
    requires 0 < i < |c|
    ensures var r, last := Without(c, i), |c| - 1;
            |r| == last && r[0] == c[0] && r[last - 1] == c[if i == last then i - 1 else last]
  {
  }

  lemma WithHolds(c: seq<INode>, p: nat, x: INode)
    requires p <= |c|
    ensures forall n :: n in With(c, p, x) <==> n == x || n in c
  {
  }

  /** One node alone is a cycle. */
  lemma OneCycle(x: INode)
    requires x.next == x && x.prev == x
    ensures Cycle([x]) && Items([x]) == [Item(x.fname, x.freq, x.last)]
  {
  }

  lemma EmptyCycle()
    ensures Cycle([]) && Items([]) == []
  {
  }

  lemma QueueApart(q: seq<Item>, now: nat)
    requires Queue(q, now)
    ensures Names(q)
  {
  }

  /** Taking out a node takes out its record. */
  lemma ItemsWithout(c: seq<INode>, p: nat)
    requires p < |c|
    ensures Items(Without(c, p)) == Without(Items(c), p)
  {
    hide Items;
  }

  /** Putting in a node puts in its record. */
  lemma ItemsWith(c: seq<INode>, p: nat, x: INode)
    requires p <= |c|
    ensures Items(With(c, p, x)) == With(Items(c), p, Item(x.fname, x.freq, x.last))
  {
    hide Items, With;
    var q, w := With(Items(c), p, Item(x.fname, x.freq, x.last)), With(c, p, x);
    var r := Items(w);
    assert |r| == |q|;
    forall i | 0 <= i < |r|
      ensures r[i] == q[i]
    {
      WithAt(c, p, x, i);
      WithAt(Items(c), p, Item(x.fname, x.freq, x.last), i);
    }
  }

  /** The next node is the first one only at the end. */
  lemma NextIs(c: seq<INode>, i: nat)
    requires Distinct(c) && i < |c|
    ensures c[Succ(i, |c|)] == c[0] <==> i + 1 == |c|
    ensures i + 1 < |c| ==> c[Succ(i, |c|)] == c[i + 1]
  {
  }

  // Whole runs of the ring

  /** Carries out one operation; an access brings a record of its own. */
  method Apply(queue: LfuQueue, op: Op)
    requires queue.Valid()
    modifies queue, (set n | n in queue.ring)`next, (set n | n in queue.ring)`prev
    ensures queue.Valid() && queue.now == old(queue.now) + if op.Access? then 1 else 0
    ensures queue.View() == Next(old(queue.View()), op, old(queue.now))
    ensures forall n :: n in queue.ring ==> n in old(queue.ring) || fresh(n)
  {
    hide Accessed, Removed, Without, Items, Queue, Cycle;
    match op
    case Access(name) =>
      var elem := new INode(name, 1);
      queue.InsQueLfu(elem);
    case Drop(name) =>
      queue.RmElem(name);
    case Evict =>
      if queue.head != null {
        queue.RemQueHead();
      }
  }

  /** Any run of operations on a new queue: the ring follows it, and the head is the file the run
      itself says is the best victim. */
  method Replay(ops: seq<Op>) returns (queue: LfuQueue)
    ensures queue.Valid() && queue.View() == After(ops) && (queue.head == null <==> Uses(ops) == map[])
    ensures queue.head != null ==> Victim(Uses(ops), queue.head.fname)
  {
    hide After, Accesses, Next, Uses, Victim, LfuQueue.Valid, Items;
    StartsEmpty();
    queue := new LfuQueue();
    assert ops[..0] == [];
    for i := 0 to |ops|
      invariant fresh(queue) && fresh(set n | n in queue.ring)
      invariant queue.Valid() && queue.View() == After(ops[..i]) && queue.now == Accesses(ops[..i])
    {
      AfterNext(ops, i);
      Apply(queue, ops[i]);
    }
    assert ops[..|ops|] == ops;
    HeadIsVictim(ops);
    queue.HeadIsFirst();
  }

  lemma StartsEmpty()
    ensures After([]) == [] && Accesses([]) == 0
  {
  }
}

/** The least-recently-used cache of the ZHT layer (`LRUCache`): a recency list, an index
    into it and a running size.

    The list is proved to follow a small specification whatever the size function, and whole
    traces are compared between caches of different capacity. */
module LruCaches {
  import opened Arith
  import opened Basics

  datatype Entry<K, D> = Entry(key: K, data: D)

  function Total<K(!new), D(!new)>(size: D -> nat, l: seq<Entry<K, D>>): nat {
    if |l| == 0 then 0 else size(l[0].data) + Total(size, l[1..])
  }

  /** The list without the entry of a key (`_list.erase`). */
  function Drop<K(==, !new), D(!new)>(l: seq<Entry<K, D>>, k: K): (r: seq<Entry<K, D>>)
    ensures forall e :: e in r <==> e in l && e.key != k
  {
    if |l| == 0 then [] else if l[0].key == k then Drop(l[1..], k) else [l[0]] + Drop(l[1..], k)
  }

  function Lookup<K(==, !new), D(!new)>(l: seq<Entry<K, D>>, k: K): (r: Option<D>)
    ensures r.Some? ==> Entry(k, r.value) in l
    ensures r.None? ==> forall e :: e in l ==> e.key != k
  {
    if |l| == 0 then None else if l[0].key == k then Some(l[0].data) else Lookup(l[1..], k)
  }

  /** The list with a key's entry moved to the front (`_list.splice`). */
  function Touched<K(==, !new), D(!new)>(l: seq<Entry<K, D>>, k: K): seq<Entry<K, D>> {
    match Lookup(l, k)
    case None => l
    case Some(d) => [Entry(k, d)] + Drop(l, k)
  }

  /** What is left when entries are evicted from the back until the total fits. */
  function Evicted<K(!new), D(!new)>(size: D -> nat, room: nat, l: seq<Entry<K, D>>): seq<Entry<K, D>> {
    if |l| > 0 && Total(size, l) > room then Evicted(size, room, l[..|l| - 1]) else l
  }

  function Inserted<K(==, !new), D(!new)>(size: D -> nat, room: nat, l: seq<Entry<K, D>>, k: K, d: D)
    : seq<Entry<K, D>>
  {
    Evicted(size, room, [Entry(k, d)] + Drop(l, k))
  }

  predicate UniqueKeys<K(==, !new), D(!new)>(l: seq<Entry<K, D>>) {
    forall i, j :: 0 <= i < j < |l| ==> l[i].key != l[j].key
  }

  lemma EvictedStep<K(!new), D(!new)>(size: D -> nat, room: nat, l: seq<Entry<K, D>>)
    ensures Evicted(size, room, l) == if |l| > 0 && Total(size, l) > room then Evicted(size, room, l[..|l| - 1]) else l
  {
  }

  lemma TakeShorter<K(!new), D(!new)>(l: seq<Entry<K, D>>, n: nat)
    requires 0 < n <= |l|
    ensures l[..n][..n - 1] == l[..n - 1]
  {
  }

  // Sizes

  lemma {:induction false} TotalSplit<K(!new), D(!new)>(size: D -> nat, a: seq<Entry<K, D>>, b: seq<Entry<K, D>>)
    ensures Total(size, a + b) == Total(size, a) + Total(size, b)
  {
    if |a| == 0 {
      assert a + b == b;
    } else {
      TotalSplit(size, a[1..], b);
      assert (a + b)[1..] == a[1..] + b;
    }
  }

  /** Eviction keeps the longest prefix that fits. */
  lemma {:induction false} EvictedIsLongest<K(!new), D(!new)>(size: D -> nat, room: nat, l: seq<Entry<K, D>>)
    ensures var r := Evicted(size, room, l);
      |r| <= |l| && r == l[..|r|] && Total(size, r) <= room
      && forall n :: |r| < n <= |l| ==> Total(size, l[..n]) > room
  {
    if |l| > 0 && Total(size, l) > room {
      var init := l[..|l| - 1];
      EvictedIsLongest(size, room, init);
      forall n | |Evicted(size, room, l)| < n <= |l|
        ensures Total(size, l[..n]) > room
      {
        assert n < |l| ==> init[..n] == l[..n];
        assert l[..|l|] == l;
      }
      assert init[..|Evicted(size, room, l)|] == l[..|Evicted(size, room, l)|];
    } else {
      assert l[..|l|] == l;
    }
  }

  // Unique keys

  lemma {:induction false} DropUnique<K(!new), D(!new)>(l: seq<Entry<K, D>>, k: K)
    requires UniqueKeys(l)
    ensures UniqueKeys(Drop(l, k))
  {
    if |l| > 0 {
      DropUnique(l[1..], k);
      if l[0].key != k {
        var rest := Drop(l[1..], k);
        forall j | 0 <= j < |rest|
          ensures rest[j].key != l[0].key
        {
          assert rest[j] in rest && rest[j] in l[1..];
        }
      }
    }
  }

  lemma {:induction false} DropAbsent<K(!new), D(!new)>(l: seq<Entry<K, D>>, k: K)
    requires forall e :: e in l ==> e.key != k
    ensures Drop(l, k) == l
  {
    if |l| > 0 {
      assert l[0] in l;
      DropAbsent(l[1..], k);
    }
  }

  /** Dropping a key that is there takes away one entry and its size. */
  lemma {:induction false} DropPresent<K(!new), D(!new)>(size: D -> nat, l: seq<Entry<K, D>>, k: K, d: D)
    requires UniqueKeys(l) && Entry(k, d) in l
    ensures |Drop(l, k)| == |l| - 1
    ensures Total(size, Drop(l, k)) + size(d) == Total(size, l)
    ensures Lookup(l, k) == Some(d)
  {
    if l[0].key == k {
      forall e | e in l[1..]
        ensures e.key != k
      {
        var j :| 0 <= j < |l[1..]| && l[1..][j] == e;
        assert l[j + 1] == e;
      }
      DropAbsent(l[1..], k);
    } else {
      assert Entry(k, d) in l[1..];
      DropPresent(size, l[1..], k, d);
    }
  }

  lemma FrontUnique<K(!new), D(!new)>(l: seq<Entry<K, D>>, k: K, d: D)
    requires UniqueKeys(l)
    ensures UniqueKeys([Entry(k, d)] + Drop(l, k))
  {
    DropUnique(l, k);
    var r := Drop(l, k);
    assert forall j :: 0 <= j < |r| ==> r[j] in r;
  }

  lemma FrontTotal<K(!new), D(!new)>(size: D -> nat, e: Entry<K, D>, l: seq<Entry<K, D>>)
    ensures Total(size, [e] + l) == size(e.data) + Total(size, l)
  {
    assert ([e] + l)[1..] == l;
  }

  /** Removing a key that was touched first is removing it. */
  lemma DropTwice<K(!new), D(!new)>(l: seq<Entry<K, D>>, k: K)
    ensures Drop(Touched(l, k), k) == Drop(l, k)
    ensures Lookup(l, k).None? ==> Drop(l, k) == l
  {
    match Lookup(l, k)
    case None => DropAbsent(l, k);
    case Some(d) =>
      DropAbsent(Drop(l, k), k);
      assert ([Entry(k, d)] + Drop(l, k))[1..] == Drop(l, k);
  }

  lemma {:induction false} DropLast<K(!new), D(!new)>(l: seq<Entry<K, D>>)
    requires UniqueKeys(l) && |l| > 0
    ensures Drop(l, l[|l| - 1].key) == l[..|l| - 1]
  {
    if |l| > 1 {
      DropLast(l[1..]);
    }
  }

  // Traces

  datatype Op<K, D> =
    | Insert(key: K, data: D)
    | Remove(key: K)
    | Touch(key: K)
    | Fetch(key: K, touch: bool)

  function Step<K(==, !new), D(!new)>(size: D -> nat, room: nat, l: seq<Entry<K, D>>, op: Op<K, D>): seq<Entry<K, D>> {
    match op
    case Insert(k, d) => Inserted(size, room, l, k, d)
    case Remove(k) => Drop(l, k)
    case Touch(k) => Touched(l, k)
    case Fetch(k, touch) => if touch then Touched(l, k) else l
  }

  function After<K(==, !new), D(!new)>(size: D -> nat, room: nat, ops: seq<Op<K, D>>): seq<Entry<K, D>> {
    if |ops| == 0 then [] else Step(size, room, After(size, room, ops[..|ops| - 1]), ops[|ops| - 1])
  }

  /** s can be obtained from l by leaving out entries. */
  predicate Within<K(==, !new), D(==, !new)>(s: seq<Entry<K, D>>, l: seq<Entry<K, D>>) {
    if |s| == 0 then true
    else if |l| == 0 then false
    else if s[0] == l[0] then Within(s[1..], l[1..])
    else Within(s, l[1..])
  }

  lemma {:induction false} WithinHolds<K(!new), D(!new)>(s: seq<Entry<K, D>>, l: seq<Entry<K, D>>)
    requires Within(s, l)
    ensures |s| <= |l|
    ensures forall e :: e in s ==> e in l
  {
    if |s| > 0 {
      if s[0] == l[0] {
        WithinHolds(s[1..], l[1..]);
        assert s == [s[0]] + s[1..] && l == [l[0]] + l[1..];
      } else {
        WithinHolds(s, l[1..]);
        assert l == [l[0]] + l[1..];
      }
    }
  }

  lemma {:induction false} WithinSkip<K(!new), D(!new)>(s: seq<Entry<K, D>>, l: seq<Entry<K, D>>, e: Entry<K, D>)
    requires Within(s, l)
    ensures Within(s, [e] + l)
    decreases |l|, 1
  {
    if |s| > 0 && s[0] == e {
      WithinTail(s, l);
    }
  }

  lemma {:induction false} WithinTail<K(!new), D(!new)>(s: seq<Entry<K, D>>, l: seq<Entry<K, D>>)
    requires Within(s, l) && |s| > 0
    ensures Within(s[1..], l)
    decreases |l|, 0
  {
    if s[0] != l[0] {
      WithinTail(s, l[1..]);
    }
    WithinSkip(s[1..], l[1..], l[0]);
    assert l == [l[0]] + l[1..];
  }

  lemma {:induction false} WithinDrop<K(!new), D(!new)>(s: seq<Entry<K, D>>, l: seq<Entry<K, D>>, k: K)
    requires Within(s, l)
    ensures Within(Drop(s, k), Drop(l, k))
    decreases |l|
  {
    if |s| > 0 {
      if s[0] == l[0] {
        WithinDrop(s[1..], l[1..], k);
      } else {
        WithinDrop(s, l[1..], k);
        WithinSkip(Drop(s, k), Drop(l[1..], k), l[0]);
      }
    }
  }

  // What each operation does

  /** Removing a key takes its entry out and leaves the others in their order. */
  lemma {:induction false} DropEffect<K(!new), D(!new)>(l: seq<Entry<K, D>>, k: K)
    ensures Within(Drop(l, k), l) && forall e :: e in Drop(l, k) <==> e in l && e.key != k
    ensures Lookup(l, k).None? ==> Drop(l, k) == l
  {
    if |l| > 0 {
      DropEffect(l[1..], k);
      if l[0].key == k {
        WithinSkip(Drop(l[1..], k), l[1..], l[0]);
        assert l == [l[0]] + l[1..];
      }
    }
  }

  /** A fetch that touches, like a touch, puts the entry of a stored key in front and leaves the
      others in their order; one that does not touch, or of an unknown key, changes nothing. */
  lemma FetchEffect<K(!new), D(!new)>(size: D -> nat, room: nat, l: seq<Entry<K, D>>, k: K, touch: bool)
    ensures var t := Step(size, room, l, Fetch(k, touch));
            && (!touch || Lookup(l, k).None? ==> t == l)
            && (touch && Lookup(l, k).Some? ==>
                  && |t| > 0 && t[0] == Entry(k, Lookup(l, k).value) && Within(t[1..], l)
                  && forall e :: e in t[1..] <==> e in l && e.key != k)
    ensures Step(size, room, l, Touch(k)) == Step(size, room, l, Fetch(k, true))
  {
    hide Lookup, Drop, Within;
    DropEffect(l, k);
    if Lookup(l, k).Some? {
      assert ([Entry(k, Lookup(l, k).value)] + Drop(l, k))[1..] == Drop(l, k);
    }
  }

  /** An insertion of data that fits puts the pair in front, keeps the others in their order but
      for the oldest that no longer fit, and never exceeds the room; data that does not fit leaves
      nothing. */
  lemma InsertEffect<K(!new), D(!new)>(size: D -> nat, room: nat, l: seq<Entry<K, D>>, k: K, d: D)
    ensures var t, full := Step(size, room, l, Insert(k, d)), [Entry(k, d)] + Drop(l, k);
            && Total(size, t) <= room && |t| <= |full| && t == full[..|t|]
            && (size(d) <= room ==> |t| > 0 && t[0] == Entry(k, d))
            && (room < size(d) ==> t == [])
            && (|t| < |full| ==> Total(size, full[..|t| + 1]) > room)
  {
    hide Evicted;
    var full := [Entry(k, d)] + Drop(l, k);
    hide Drop;
    EvictedIsLongest(size, room, full);
    var t := Evicted(size, room, full);
    assert full[..1] == [Entry(k, d)];
    assert Total(size, full[..1]) == size(d) by {
      assert full[..1][1..] == [];
    }
    if |t| > 0 {
      assert t[0] == Entry(k, d);
    }
  }

  lemma {:induction false} WithinInit<K(!new), D(!new)>(s: seq<Entry<K, D>>, l: seq<Entry<K, D>>)
    requires Within(s, l) && |s| > 0
    ensures Within(s[..|s| - 1], l)
    decreases |l|
  {
    var init := s[..|s| - 1];
    if s[0] == l[0] {
      if |s| > 1 {
        WithinInit(s[1..], l[1..]);
        assert init[1..] == s[1..][..|s| - 2];
      }
    } else {
      WithinInit(s, l[1..]);
    }
  }

  /** Leaving out both last entries. */
  lemma {:induction false} WithinInits<K(!new), D(!new)>(s: seq<Entry<K, D>>, l: seq<Entry<K, D>>)
    requires Within(s, l) && |s| > 0
    ensures |l| > 0 && Within(s[..|s| - 1], l[..|l| - 1])
    decreases |l|
  {
    if |s| > 1 {
      if s[0] == l[0] {
        WithinInits(s[1..], l[1..]);
        assert s[..|s| - 1][1..] == s[1..][..|s| - 2];
        assert l[..|l| - 1][1..] == l[1..][..|l| - 2];
      } else {
        WithinInits(s, l[1..]);
        assert l[..|l| - 1][1..] == l[1..][..|l| - 2];
      }
    }
  }

  /** Nothing is left out of the same place: either the last entries are the same or the last
      one of the longer list is not needed. */
  lemma {:induction false} WithinLast<K(!new), D(!new)>(s: seq<Entry<K, D>>, l: seq<Entry<K, D>>)
    requires Within(s, l) && |l| > 0
    ensures Within(s, l[..|l| - 1]) || (|s| > 0 && s[|s| - 1] == l[|l| - 1])
    decreases |l|
  {
    var init := l[..|l| - 1];
    if |s| > 0 && |l| > 1 {
      assert init[1..] == l[1..][..|l| - 2];
      if s[0] == l[0] {
        WithinLast(s[1..], l[1..]);
      } else {
        WithinLast(s, l[1..]);
      }
    }
  }

  // Sizes that are nothing or one unit

  /** All sizes that are not 0 are equal, as those of `Countfn` are. */
  ghost predicate Even<D(!new)>(size: D -> nat) {
    forall d, e :: size(d) > 0 && size(e) > 0 ==> size(d) == size(e)
  }

  ghost predicate Unit<D(!new)>(size: D -> nat, x: nat) {
    x > 0 && forall d :: size(d) == 0 || size(d) == x
  }

  lemma EvenHasUnit<D(!new)>(size: D -> nat) returns (x: nat)
    requires Even(size)
    ensures Unit(size, x)
  {
    if d :| size(d) > 0 {
      x := size(d);
    } else {
      x := 1;
    }
  }

  /** How many entries take room. */
  function Weighed<K(!new), D(!new)>(size: D -> nat, l: seq<Entry<K, D>>): nat {
    if |l| == 0 then 0 else Weighed(size, l[..|l| - 1]) + (if size(l[|l| - 1].data) > 0 then 1 else 0)
  }

  lemma {:induction false} TotalOfUnits<K(!new), D(!new)>(size: D -> nat, x: nat, l: seq<Entry<K, D>>)
    requires Unit(size, x)
    ensures Total(size, l) == x * Weighed(size, l)
  {
    if |l| > 0 {
      var init, last := l[..|l| - 1], l[|l| - 1];
      TotalOfUnits(size, x, init);
      assert l == init + [last];
      TotalSplit(size, init, [last]);
      assert x * (Weighed(size, init) + 1) == x * Weighed(size, init) + x;
    }
  }

  lemma MoreRoom(x: nat, c: nat, m: nat)
    requires x > 0 && c <= m
    ensures c / x <= m / x
  {
    UnitsFit(x, c / x, c);
    UnitsFit(x, c / x, m);
  }

  /** Everything before the last entry that takes room. */
  function Cut<K(!new), D(!new)>(size: D -> nat, l: seq<Entry<K, D>>): (r: seq<Entry<K, D>>)
    ensures |r| <= |l| && r == l[..|r|]
  {
    if |l| == 0 then l
    else if size(l[|l| - 1].data) > 0 then l[..|l| - 1]
    else Cut(size, l[..|l| - 1])
  }

  lemma {:induction false} CutWeighed<K(!new), D(!new)>(size: D -> nat, l: seq<Entry<K, D>>)
    requires Weighed(size, l) > 0
    ensures Weighed(size, Cut(size, l)) == Weighed(size, l) - 1
  {
    if size(l[|l| - 1].data) == 0 {
      CutWeighed(size, l[..|l| - 1]);
    }
  }

  /** Evicting one unit too many cuts off the last entry that takes room and all behind it. */
  lemma {:induction false} EvictedCut<K(!new), D(!new)>(size: D -> nat, x: nat, room: nat, l: seq<Entry<K, D>>)
    requires x > 0 && Unit(size, x) && Weighed(size, l) <= room / x + 1
    ensures Evicted(size, room, l) == if Weighed(size, l) <= room / x then l else Cut(size, l)
  {
    TotalOfUnits(size, x, l);
    UnitsFit(x, Weighed(size, l), room);
    if Weighed(size, l) > room / x {
      EvictedCut(size, x, room, l[..|l| - 1]);
    }
  }

  /** A shortened list is still within. */
  lemma {:induction false} WithinPrefix<K(!new), D(!new)>(s: seq<Entry<K, D>>, l: seq<Entry<K, D>>, n: nat)
    requires Within(s, l) && n <= |s|
    ensures Within(s[..n], l)
    decreases |s|
  {
    if n == |s| {
      assert s[..n] == s;
    } else {
      WithinInit(s, l);
      assert s[..|s| - 1][..n] == s[..n];
      WithinPrefix(s[..|s| - 1], l, n);
    }
  }

  /** Cutting both lists keeps one within the other. */
  lemma {:induction false} WithinCut<K(!new), D(!new)>(size: D -> nat, s: seq<Entry<K, D>>, l: seq<Entry<K, D>>)
    requires Within(s, l) && Weighed(size, s) > 0
    ensures Within(Cut(size, s), Cut(size, l))
    decreases |l|
  {
    var init := l[..|l| - 1];
    WithinInits(s, l);
    if size(l[|l| - 1].data) > 0 {
      WithinPrefix(s[..|s| - 1], init, |Cut(size, s)|);
      assert s[..|s| - 1][..|Cut(size, s)|] == Cut(size, s);
    } else {
      WithinLast(s, l);
      if Within(s, init) {
        WithinCut(size, s, init);
      } else {
        WithinCut(size, s[..|s| - 1], init);
      }
    }
  }

  lemma {:induction false} WeighedSplit<K(!new), D(!new)>(size: D -> nat, a: seq<Entry<K, D>>, b: seq<Entry<K, D>>)
    ensures Weighed(size, a + b) == Weighed(size, a) + Weighed(size, b)
  {
    if |b| == 0 {
      assert a + b == a;
    } else {
      WeighedSplit(size, a, b[..|b| - 1]);
      assert (a + b)[..|a + b| - 1] == a + b[..|b| - 1];
    }
  }

  lemma FrontWeighed<K(!new), D(!new)>(size: D -> nat, e: Entry<K, D>, l: seq<Entry<K, D>>)
    ensures Weighed(size, [e] + l) == Weighed(size, l) + (if size(e.data) > 0 then 1 else 0)
  {
    WeighedSplit(size, [e], l);
  }

  lemma FirstWeighed<K(!new), D(!new)>(size: D -> nat, l: seq<Entry<K, D>>)
    requires |l| > 0
    ensures Weighed(size, l) == Weighed(size, l[1..]) + (if size(l[0].data) > 0 then 1 else 0)
  {
    assert l == [l[0]] + l[1..];
    FrontWeighed(size, l[0], l[1..]);
  }

  /** 1 if the entry a key has takes room. */
  function Weight<K(==, !new), D(!new)>(size: D -> nat, l: seq<Entry<K, D>>, k: K): nat {
    match Lookup(l, k)
    case None => 0
    case Some(d) => if size(d) > 0 then 1 else 0
  }

  lemma {:induction false} DropWeighed<K(!new), D(!new)>(size: D -> nat, l: seq<Entry<K, D>>, k: K)
    requires UniqueKeys(l)
    ensures Weighed(size, Drop(l, k)) + Weight(size, l, k) == Weighed(size, l)
  {
    if |l| > 0 {
      var rest := l[1..];
      FirstWeighed(size, l);
      hide Weighed;
      FrontWeighed(size, l[0], Drop(rest, k));
      if l[0].key == k {
        DropAbsent(rest, k);
      } else {
        DropWeighed(size, rest, k);
      }
    }
  }

  // Inclusion

  /** The cache of c units holds part of what the one of m units holds, in the same order, and
      is not further from full. */
  ghost predicate Included<K(!new), D(!new)>(size: D -> nat, c: nat, m: nat, s: seq<Entry<K, D>>, l: seq<Entry<K, D>>) {
    && UniqueKeys(s) && UniqueKeys(l) && Within(s, l)
    && Weighed(size, s) <= c && Weighed(size, l) <= m && c - Weighed(size, s) <= m - Weighed(size, l)
  }

  /** What both hold they hold with the same data. */
  lemma LookupWithin<K(!new), D(!new)>(s: seq<Entry<K, D>>, l: seq<Entry<K, D>>, k: K)
    requires UniqueKeys(l) && Within(s, l)
    ensures Lookup(s, k).Some? ==> Lookup(s, k) == Lookup(l, k)
  {
    WithinHolds(s, l);
    match Lookup(s, k)
    case None =>
    case Some(d) => DropPresent((e: D) => 0, l, k, d);
  }

  /** Taking out a key keeps the caches in step, and frees at least as much in the larger one. */
  lemma DropIncluded<K(!new), D(!new)>(size: D -> nat, c: nat, m: nat, s: seq<Entry<K, D>>, l: seq<Entry<K, D>>, k: K)
    requires Included(size, c, m, s, l)
    ensures Included(size, c, m, Drop(s, k), Drop(l, k))
  {
    hide Drop, Lookup, Within, Weighed;
    WithinDrop(s, l, k);
    DropUnique(s, k);
    DropUnique(l, k);
    DropWeighed(size, s, k);
    DropWeighed(size, l, k);
    LookupWithin(s, l, k);
  }

  lemma WithinFront<K(!new), D(!new)>(s: seq<Entry<K, D>>, l: seq<Entry<K, D>>, e: Entry<K, D>)
    requires Within(s, l)
    ensures Within([e] + s, [e] + l)
  {
    assert ([e] + s)[1..] == s && ([e] + l)[1..] == l;
  }

  lemma PrefixUnique<K(!new), D(!new)>(l: seq<Entry<K, D>>, n: nat)
    requires UniqueKeys(l) && n <= |l|
    ensures UniqueKeys(l[..n])
  {
  }

  lemma InsertIncluded<K(!new), D(!new)>(size: D -> nat, x: nat, c: nat, m: nat,
                                         s: seq<Entry<K, D>>, l: seq<Entry<K, D>>, k: K, d: D)
    requires x > 0 && Unit(size, x) && Included(size, c / x, m / x, s, l)
    ensures Included(size, c / x, m / x, Inserted(size, c, s, k, d), Inserted(size, m, l, k, d))
  {
    hide Drop, Evicted, Unit, Within, UniqueKeys, Weighed;
    DropIncluded(size, c / x, m / x, s, l, k);
    FrontUnique(s, k, d);
    FrontUnique(l, k, d);
    var e := Entry(k, d);
    FrontWeighed(size, e, Drop(s, k));
    FrontWeighed(size, e, Drop(l, k));
    WithinFront(Drop(s, k), Drop(l, k), e);
    EvictIncluded(size, x, c, m, [e] + Drop(s, k), [e] + Drop(l, k));
  }

  /** When each is at most one unit too full, evicting restores the inclusion. */
  lemma EvictIncluded<K(!new), D(!new)>(size: D -> nat, x: nat, c: nat, m: nat,
                                        s: seq<Entry<K, D>>, l: seq<Entry<K, D>>)
    requires x > 0 && Unit(size, x) && UniqueKeys(s) && UniqueKeys(l) && Within(s, l)
    requires Weighed(size, s) <= c / x + 1 && Weighed(size, l) <= m / x + 1
    requires c / x - Weighed(size, s) <= m / x - Weighed(size, l)
    ensures Included(size, c / x, m / x, Evicted(size, c, s), Evicted(size, m, l))
  {
    hide Evicted, Unit, Within, UniqueKeys, Weighed, Cut;
    EvictedCut(size, x, c, s);
    EvictedCut(size, x, m, l);
    PrefixUnique(s, |Cut(size, s)|);
    PrefixUnique(l, |Cut(size, l)|);
    if Weighed(size, s) > c / x {
      CutWeighed(size, s);
      if Weighed(size, l) > m / x {
        CutWeighed(size, l);
        WithinCut(size, s, l);
      } else {
        WithinPrefix(s, l, |Cut(size, s)|);
      }
    }
  }

  lemma TouchIncluded<K(!new), D(!new)>(size: D -> nat, c: nat, m: nat, s: seq<Entry<K, D>>, l: seq<Entry<K, D>>, k: K)
    requires Included(size, c, m, s, l)
    ensures Included(size, c, m, Touched(s, k), Touched(l, k))
  {
    hide Drop, Lookup, Weighed, UniqueKeys, Within;
    TouchWeighed(size, s, k);
    TouchWeighed(size, l, k);
    TouchWithin(s, l, k);
  }

  lemma TouchWeighed<K(!new), D(!new)>(size: D -> nat, l: seq<Entry<K, D>>, k: K)
    requires UniqueKeys(l)
    ensures UniqueKeys(Touched(l, k)) && Weighed(size, Touched(l, k)) == Weighed(size, l)
  {
    hide Drop, Lookup, Weighed, UniqueKeys;
    DropWeighed(size, l, k);
    match Lookup(l, k)
    case None =>
    case Some(d) =>
      FrontUnique(l, k, d);
      FrontWeighed(size, Entry(k, d), Drop(l, k));
  }

  lemma TouchWithin<K(!new), D(!new)>(s: seq<Entry<K, D>>, l: seq<Entry<K, D>>, k: K)
    requires UniqueKeys(l) && Within(s, l)
    ensures Within(Touched(s, k), Touched(l, k))
  {
    hide Drop, Lookup, UniqueKeys, Within;
    LookupWithin(s, l, k);
    WithinDrop(s, l, k);
    match Lookup(l, k)
    case None =>
    case Some(d) =>
      if Lookup(s, k).Some? {
        WithinFront(Drop(s, k), Drop(l, k), Entry(k, d));
      } else {
        DropAbsent(s, k);
        WithinSkip(s, Drop(l, k), Entry(k, d));
      }
  }

  lemma {:induction false} IncludedAfter<K(!new), D(!new)>(size: D -> nat, x: nat, c: nat, m: nat, ops: seq<Op<K, D>>)
    requires x > 0 && Unit(size, x) && c <= m
    ensures Included(size, c / x, m / x, After(size, c, ops), After(size, m, ops))
  {
    hide Inserted, Touched, Unit, Drop;
    if |ops| > 0 {
      hide Included;
      var before, op := ops[..|ops| - 1], ops[|ops| - 1];
      IncludedAfter(size, x, c, m, before);
      var s, l := After(size, c, before), After(size, m, before);
      match op {
        case Insert(k, d) => InsertIncluded(size, x, c, m, s, l, k, d);
        case Remove(k) => DropIncluded(size, c / x, m / x, s, l, k);
        case Touch(k) => TouchIncluded(size, c / x, m / x, s, l, k);
        case Fetch(k, touch) => TouchIncluded(size, c / x, m / x, s, l, k);
      }
    } else {
      MoreRoom(x, c, m);
    }
  }

  /** When all sizes that are not 0 are equal, the smaller of two caches holds, after any trace,
      part of what the larger one holds, with the same data and in the same order of recency. */
  lemma SmallerIsIncluded<K(!new), D(!new)>(size: D -> nat, c: nat, m: nat, ops: seq<Op<K, D>>)
    requires Even(size) && c <= m
    ensures Within(After(size, c, ops), After(size, m, ops)) && UniqueKeys(After(size, m, ops))
  {
    hide After, Within, UniqueKeys, Even;
    var x := EvenHasUnit(size);
    IncludedAfter(size, x, c, m, ops);
  }

  /** So a hit of the smaller cache is a hit of the larger one, with the same data. */
  lemma HitsAreKept<K(!new), D(!new)>(size: D -> nat, c: nat, m: nat, ops: seq<Op<K, D>>, k: K)
    requires Even(size) && c <= m
    ensures Lookup(After(size, c, ops), k).Some? ==> Lookup(After(size, c, ops), k) == Lookup(After(size, m, ops), k)
  {
    hide After, Lookup, Even, Within, UniqueKeys;
    SmallerIsIncluded(size, c, m, ops);
    LookupWithin(After(size, c, ops), After(size, m, ops), k);
  }

  // Where inclusion fails

  lemma AfterOne<K(!new), D(!new)>(size: D -> nat, room: nat, ops: seq<Op<K, D>>, op: Op<K, D>)
    ensures After(size, room, ops + [op]) == Step(size, room, After(size, room, ops), op)
    ensures After<K, D>(size, room, []) == []
  {
    assert (ops + [op])[..|ops|] == ops;
  }

  /** Two inserts, a touch of the first and a third insert. */
  function Trace<K, D>(k0: K, k1: K, k2: K, big: D, small: D): seq<Op<K, D>> {
    [Insert(k0, big), Insert(k1, small), Touch(k0), Insert(k2, small)]
  }

  lemma AfterTrace<K(!new), D(!new)>(size: D -> nat, room: nat, k0: K, k1: K, k2: K, big: D, small: D)
    ensures var l := Inserted(size, room, Inserted(size, room, [], k0, big), k1, small);
      After(size, room, Trace(k0, k1, k2, big, small)) == Inserted(size, room, Touched(l, k0), k2, small)
  {
    hide Inserted, Touched;
    var i, j, t, k := Insert(k0, big), Insert(k1, small), Touch(k0), Insert(k2, small);
    AfterOne(size, room, [], i);
    AfterOne(size, room, [i], j);
    AfterOne(size, room, [i, j], t);
    AfterOne(size, room, [i, j, t], k);
    assert [] + [i] == [i] && [i] + [j] == [i, j] && [i, j] + [t] == [i, j, t] && [i, j, t] + [k] == [i, j, t, k];
  }

  /** Short lists, computed. */
  lemma Singles<K(!new), D(!new)>(size: D -> nat, e: Entry<K, D>, k: K)
    ensures Drop<K, D>([], k) == [] && Total<K, D>(size, []) == 0
    ensures Drop([e], k) == (if e.key == k then [] else [e]) && Total(size, [e]) == size(e.data)
    ensures Lookup([e], k) == if e.key == k then Some(e.data) else None
  {
  }

  lemma Pairs<K(!new), D(!new)>(size: D -> nat, e: Entry<K, D>, f: Entry<K, D>, k: K)
    ensures Drop([e, f], k) == (if e.key == k then [] else [e]) + (if f.key == k then [] else [f])
    ensures Lookup([e, f], k) == if e.key == k then Some(e.data) else if f.key == k then Some(f.data) else None
    ensures Total(size, [e, f]) == size(e.data) + size(f.data)
  {
    Singles(size, f, k);
    assert [e, f][1..] == [f];
  }

  /** An insertion that evicts at most one entry. */
  lemma OneInsert<K(!new), D(!new)>(size: D -> nat, room: nat, l: seq<Entry<K, D>>, k: K, d: D, full: seq<Entry<K, D>>)
    requires full == [Entry(k, d)] + Drop(l, k)
    ensures Total(size, full) <= room ==> Inserted(size, room, l, k, d) == full
    ensures Total(size, full) > room >= Total(size, full[..|full| - 1]) ==>
      Inserted(size, room, l, k, d) == full[..|full| - 1]
  {
    assert Total(size, full[..|full| - 1]) <= room ==>
      Evicted(size, room, full[..|full| - 1]) == full[..|full| - 1];
  }

  /** In the smaller cache the touch misses, because the first entry did not stay. */
  lemma SmallRun<K(!new), D(!new)>(size: D -> nat, k0: K, k1: K, k2: K, big: D, small: D)
    requires k0 != k1 && k1 != k2 && k2 != k0 && 0 < size(small) < size(big)
    ensures After(size, 2 * size(small), Trace(k0, k1, k2, big, small)) == [Entry(k2, small), Entry(k1, small)]
  {
    hide After, Inserted, Drop, Lookup, Total, Trace;
    var a, b, c := Entry(k0, big), Entry(k1, small), Entry(k2, small);
    var room := 2 * size(small);
    AfterTrace(size, room, k0, k1, k2, big, small);
    Singles(size, a, k0);
    Singles(size, a, k1);
    assert [a][..0] == [] && [b, a][..1] == [b];
    OneInsert(size, room, [], k0, big, [a]);
    Singles(size, b, k0);
    Pairs(size, b, a, k0);
    OneInsert(size, room, [], k1, small, [b]);
    OneInsert(size, room, [a], k1, small, [b, a]);
    Singles(size, b, k2);
    Pairs(size, c, b, k0);
    OneInsert(size, room, [b], k2, small, [c, b]);
  }

  lemma TouchSecond<K(!new), D(!new)>(size: D -> nat, e: Entry<K, D>, f: Entry<K, D>)
    requires e.key != f.key
    ensures Touched([e, f], f.key) == [f, e]
  {
    hide Drop, Lookup, Total;
    Pairs(size, e, f, f.key);
  }

  /** In the larger cache the touch saves the first entry, and the second one goes. */
  lemma LargeRun<K(!new), D(!new)>(size: D -> nat, k0: K, k1: K, k2: K, big: D, small: D)
    requires k0 != k1 && k1 != k2 && k2 != k0 && 0 < size(small) < size(big)
    ensures After(size, size(small) + size(big), Trace(k0, k1, k2, big, small)) == [Entry(k2, small), Entry(k0, big)]
  {
    hide After, Inserted, Touched, Drop, Lookup, Total, Trace;
    var a, b, c := Entry(k0, big), Entry(k1, small), Entry(k2, small);
    var room := size(small) + size(big);
    AfterTrace(size, room, k0, k1, k2, big, small);
    Singles(size, a, k0);
    OneInsert(size, room, [], k0, big, [a]);
    Singles(size, a, k1);
    Pairs(size, b, a, k0);
    OneInsert(size, room, [a], k1, small, [b, a]);
    TouchSecond(size, b, a);
    Pairs(size, a, b, k2);
    Pairs(size, c, a, k0);
    Singles(size, b, k0);
    TotalSplit(size, [c, a], [b]);
    assert [c, a] + [b] == [c, a, b] && [c, a, b][..2] == [c, a];
    OneInsert(size, room, [a, b], k2, small, [c, a, b]);
  }

  /** With two sizes inclusion fails: a cache of twice the smaller size then holds an entry that
      one of both sizes together has evicted. */
  lemma SizedMayDiffer<K(!new), D(!new)>(size: D -> nat, k0: K, k1: K, k2: K, big: D, small: D)
    requires k0 != k1 && k1 != k2 && k2 != k0 && 0 < size(small) < size(big)
    ensures Lookup(After(size, 2 * size(small), Trace(k0, k1, k2, big, small)), k1) == Some(small)
    ensures Lookup(After(size, size(small) + size(big), Trace(k0, k1, k2, big, small)), k1) == None
  {
    hide After, Lookup, Trace;
    SmallRun(size, k0, k1, k2, big, small);
    LargeRun(size, k0, k1, k2, big, small);
    Pairs(size, Entry(k2, small), Entry(k1, small), k1);
    Pairs(size, Entry(k2, small), Entry(k0, big), k1);
  }

  /** For all traces and all capacities. */
  ghost predicate AlwaysIncluded<K(!new), D(!new)>(size: D -> nat) {
    forall c: nat, m: nat, ops: seq<Op<K, D>> :: c <= m ==> Within(After(size, c, ops), After(size, m, ops))
  }

  /** Smaller caches are always included in larger ones exactly when all sizes that are not 0
      are equal. */
  lemma IncludedExactlyIfEven<K(!new), D(!new)>(size: D -> nat, k0: K, k1: K, k2: K)
    requires k0 != k1 && k1 != k2 && k2 != k0
    ensures AlwaysIncluded<K, D>(size) <==> Even(size)
  {
    hide After, Within, Trace;
    if Even(size) {
      forall c: nat, m: nat, ops: seq<Op<K, D>> | c <= m
        ensures Within(After(size, c, ops), After(size, m, ops))
      {
        SmallerIsIncluded(size, c, m, ops);
      }
    } else {
      var small, big :| 0 < size(small) < size(big);
      var ops := Trace(k0, k1, k2, big, small);
      var s, l := After(size, 2 * size(small), ops), After(size, size(small) + size(big), ops);
      SizedMayDiffer(size, k0, k1, k2, big, small);
      if Within(s, l) {
        WithinHolds(s, l);
      }
    }
  }

  // The cache

  /** The cache.  An iterator into the list is modelled by the entry it points to, which its
      key determines. */
  class LRUCache<K(==, !new), D(!new)> {
    const size: D -> nat
    const maxSize: nat
    var list: seq<Entry<K, D>>
    var index: map<K, Entry<K, D>>
    var currSize: nat

    /** What clearing the cache has left in the running size. */
    ghost var stale: nat

    /** List and index agree, and the running size is what is stored plus what was cleared. */
    ghost predicate Agree()
      reads this
    {
      && UniqueKeys(list)
      && (forall k :: k in index ==> index[k].key == k && index[k] in list)
      && (forall e :: e in list ==> e.key in index && index[e.key] == e)
      && currSize == Total(size, list) + stale
      && stale <= maxSize
    }

    ghost predicate Valid()
      reads this
    {
      Agree() && currSize <= maxSize
    }

    /** The capacity that is left. */
    ghost function Room(): nat
      requires Agree()
      reads this
    {
      maxSize - stale
    }

    constructor (sizefn: D -> nat, max: nat)
      ensures Valid() && list == [] && size == sizefn && maxSize == max && stale == 0
    {
      size, maxSize, currSize := sizefn, max, 0;
      list, index, stale := [], map[], 0;
    }

    lemma IndexFinds(k: K)
      requires Agree()
      ensures k in index <==> Lookup(list, k).Some?
      ensures k in index ==> Lookup(list, k) == Some(index[k].data) && Entry(k, index[k].data) == index[k]
    {
      if k in index {
        DropPresent(size, list, k, index[k].data);
      }
    }

    /** The private removal through an iterator. */
    method Erase(k: K)
      requires Agree() && k in index
      modifies this
      ensures Agree() && list == Drop(old(list), k) && stale == old(stale) && currSize <= old(currSize)
    {
      hide Drop, UniqueKeys, Lookup;
      IndexFinds(k);
      DropPresent(size, list, k, index[k].data);
      DropUnique(list, k);
      currSize := currSize - size(index[k].data);
      list := Drop(list, k);
      index := index - {k};
    }

    /** The private touch; says whether the key was found. */
    method Splice(k: K) returns (found: bool)
      requires Agree()
      modifies this`list
      ensures Agree() && list == Touched(old(list), k) && (found <==> k in index)
    {
      hide Drop, UniqueKeys, Lookup;
      IndexFinds(k);
      if k !in index {
        return false;
      }
      var e := index[k];
      DropPresent(size, list, k, e.data);
      FrontUnique(list, k, e.data);
      FrontTotal(size, e, Drop(list, k));
      list := [e] + Drop(list, k);
      return true;
    }

    method Exists(k: K) returns (there: bool)
      requires Valid()
      ensures there <==> Lookup(list, k).Some?
    {
      IndexFinds(k);
      there := k in index;
    }

    method Remove(k: K)
      requires Valid()
      modifies this
      ensures Valid() && list == Drop(old(list), k) && stale == old(stale)
    {
      IndexFinds(k);
      if k !in index {
        DropAbsent(list, k);
        return;
      }
      Erase(k);
    }

    method Touch(k: K)
      requires Valid()
      modifies this`list
      ensures Valid() && list == Touched(old(list), k)
    {
      var _ := Splice(k);
    }

    /** Returns the data and makes it the most recent.  The source's documentation offers not to
        touch it, but its code touches it in any case. */
    method FetchPtr(k: K, touch: bool) returns (data: Option<D>)
      requires Valid()
      modifies this`list
      ensures Valid() && list == Touched(old(list), k) && data == Lookup(old(list), k)
    {
      IndexFinds(k);
      if k !in index {
        return None;
      }
      var _ := Splice(k);
      return Some(index[k].data);
    }

    /** Returns a copy of the data, or the given empty object. */
    method Fetch(k: K, touch: bool, empty: D) returns (data: D)
      requires Valid()
      modifies this`list
      ensures Valid() && list == Step(size, Room(), old(list), Op.Fetch(k, touch))
      ensures data == match Lookup(old(list), k) case Some(d) => d case None => empty
    {
      IndexFinds(k);
      if k !in index {
        return empty;
      }
      data := index[k].data;
      if touch {
        var _ := Splice(k);
      }
    }

    /** The eviction loop.  The list never runs out before the size fits, because what was
        cleared never exceeds the capacity. */
    method Evict(given: D) returns (removed: D)
      requires Agree()
      modifies this
      ensures Valid() && stale == old(stale) && list == Evicted(size, Room(), old(list))
      ensures |list| <= |old(list)| && removed == if |list| == |old(list)| then given else old(list)[|list|].data
    {
      hide Drop, UniqueKeys, Lookup, Evicted;
      ghost var start := list;
      removed := given;
      assert start[..|start|] == start;
      while currSize > maxSize
        invariant Agree() && stale == old(stale)
        invariant Evicted(size, Room(), list) == Evicted(size, Room(), start)
        invariant |list| <= |start| && list == start[..|list|]
        invariant removed == if |list| == |start| then given else start[|list|].data
        decreases |list|
      {
        var last := list[|list| - 1];
        EvictedStep(size, Room(), list);
        TakeShorter(start, |list|);
        DropLast(list);
        removed := last.data;
        Erase(last.key);
      }
      EvictedStep(size, Room(), list);
    }

    /** Stores a pair in front, replacing the key's old entry, and evicts from the back. */
    method Insert(k: K, d: D)
      requires Valid()
      modifies this
      ensures Valid() && stale == old(stale) && list == Inserted(size, Room(), old(list), k, d)
    {
      Place(k, d);
      var _ := Evict(d);
    }

    /** As Insert, and returns the last entry evicted, or what was given. */
    method InsertReporting(k: K, d: D, given: D) returns (removed: D)
      requires Valid()
      modifies this
      ensures Valid() && stale == old(stale) && list == Inserted(size, Room(), old(list), k, d)
      ensures var full := [Entry(k, d)] + Drop(old(list), k);
        |list| <= |full| && removed == if |list| == |full| then given else full[|list|].data
    {
      Place(k, d);
      removed := Evict(given);
    }

    /** A pair with a new key goes to the front. */
    method Push(k: K, d: D)
      requires Agree() && k !in index
      modifies this
      ensures Agree() && stale == old(stale) && list == [Entry(k, d)] + old(list)
    {
      hide Drop, UniqueKeys, Lookup, Total;
      FrontTotal(size, Entry(k, d), list);
      FrontUnique(list, k, d);
      DropAbsent(list, k);
      list := [Entry(k, d)] + list;
      index := index[k := Entry(k, d)];
      currSize := currSize + size(d);
    }

    method Place(k: K, d: D)
      requires Valid()
      modifies this
      ensures Agree() && stale == old(stale) && list == [Entry(k, d)] + Drop(old(list), k)
    {
      hide Drop, Lookup, Agree;
      IndexFinds(k);
      DropTwice(list, k);
      var found := Splice(k);
      if found {
        Erase(k);
      }
      IndexFinds(k);
      Push(k, d);
    }

    /** Empties list and index.  The running size is not reset, so the capacity shrinks for
        good by the size of what was cleared. */
    method Clear()
      requires Valid()
      modifies this
      ensures Valid() && list == [] && Room() == old(Room()) - Total(size, old(list))
    {
      stale := currSize;
      list := [];
      index := map[];
    }
  }
}

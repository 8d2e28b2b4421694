/** The schedule of sending sockets (`CSndUList`): a binary heap of nodes, each of which
    knows its own position in the heap.

    The pure part says what the two sifting loops do to a sequence of entries and when the
    result is a heap; the class refines it in place and keeps every back pointer right. */
module SendHeaps {
  /** One scheduled socket and the time it is due. */
  datatype Entry<T> = Entry(node: T, due: nat)

  function Parent(i: nat): (p: nat)
    requires i > 0
    ensures p < i
  {
    (i - 1) / 2
  }

  ghost predicate Ordered<T>(s: seq<Entry<T>>) {
    forall i {:trigger Parent(i)} :: 1 <= i < |s| ==> s[Parent(i)].due <= s[i].due
  }

  function Swapped<T>(s: seq<T>, i: nat, j: nat): (r: seq<T>)
    requires i < |s| && j < |s|
    ensures |r| == |s|
  {
    s[i := s[j]][j := s[i]]
  }

  function SiftUp<T>(s: seq<Entry<T>>, q: nat): (r: seq<Entry<T>>)
    requires q < |s|
    ensures |r| == |s|
    decreases q
  {
    if q > 0 && s[Parent(q)].due > s[q].due then
      SiftUp(Swapped(s, Parent(q), q), Parent(q))
    else
      s
  }

  /** The child the removal loop compares with: the right one only when it is strictly earlier. */
  function Child<T>(s: seq<Entry<T>>, q: nat): (c: nat)
    requires 2 * q + 1 < |s|
    ensures c < |s| && q < c && Parent(c) == q
    ensures forall i {:trigger Parent(i)} :: 1 <= i < |s| && Parent(i) == q ==> s[c].due <= s[i].due
  {
    var p := 2 * q + 1;
    if p + 1 < |s| && s[p].due > s[p + 1].due then p + 1 else p
  }

  function SiftDown<T>(s: seq<Entry<T>>, q: nat): (r: seq<Entry<T>>)
    requires q < |s|
    ensures |r| == |s|
    decreases |s| - q
  {
    if 2 * q + 1 < |s| && s[q].due > s[Child(s, q)].due then
      SiftDown(Swapped(s, q, Child(s, q)), Child(s, q))
    else
      s
  }

  /** `insert_`: a new entry goes to the end and moves up. */
  function Inserted<T>(s: seq<Entry<T>>, e: Entry<T>): (r: seq<Entry<T>>)
    ensures |r| == |s| + 1
  {
    SiftUp(s + [e], |s|)
  }

  /** `remove_`: the last entry fills the hole and moves down, never up. */
  function Removed<T>(s: seq<Entry<T>>, k: nat): (r: seq<Entry<T>>)
    requires k < |s|
    ensures |r| == |s| - 1
  {
    var last := |s| - 1;
    if k == last then s[..last] else SiftDown(s[..last][k := s[last]], k)
  }

  /** `update` for the node at place k, -1 when it is not scheduled. */
  function Updated<T>(s: seq<Entry<T>>, k: int, n: T, reschedule: bool): seq<Entry<T>>
    requires -1 <= k < |s|
  {
    if k >= 0 && !reschedule then s
    else if k == 0 then s[0 := Entry(s[0].node, 1)]
    else Inserted(if k > 0 then Removed(s, k) else s, Entry(n, 1))
  }

  lemma SwappedConserves<T>(s: seq<T>, i: nat, j: nat)
    requires i < |s| && j < |s|
    ensures multiset(Swapped(s, i, j)) == multiset(s)
  {
  }

  lemma {:induction false} SiftUpConserves<T>(s: seq<Entry<T>>, q: nat)
    requires q < |s|
    ensures multiset(SiftUp(s, q)) == multiset(s)
    decreases q
  {
    if q > 0 && s[Parent(q)].due > s[q].due {
      SwappedConserves(s, Parent(q), q);
      SiftUpConserves(Swapped(s, Parent(q), q), Parent(q));
    }
  }

  lemma {:induction false} SiftDownConserves<T>(s: seq<Entry<T>>, q: nat)
    requires q < |s|
    ensures multiset(SiftDown(s, q)) == multiset(s)
    decreases |s| - q
  {
    if 2 * q + 1 < |s| && s[q].due > s[Child(s, q)].due {
      SwappedConserves(s, q, Child(s, q));
      SiftDownConserves(Swapped(s, q, Child(s, q)), Child(s, q));
    }
  }

  /** Insertion adds exactly the new entry. */
  lemma InsertedConserves<T>(s: seq<Entry<T>>, e: Entry<T>)
    ensures multiset(Inserted(s, e)) == multiset(s) + multiset{e}
  {
    SiftUpConserves(s + [e], |s|);
  }

  /** Removal takes away exactly the entry at k: no socket is lost or doubled. */
  lemma RemovedConserves<T>(s: seq<Entry<T>>, k: nat)
    requires k < |s|
    ensures multiset(Removed(s, k)) == multiset(s) - multiset{s[k]}
  {
    var last := |s| - 1;
    assert s == s[..last] + [s[last]];
    if k < last {
      SiftDownConserves(s[..last][k := s[last]], k);
    }
  }

  /** The branches of one round of the insertion loop. */
  lemma SiftUpRound<T>(s: seq<Entry<T>>, q: nat)
    requires q < |s|
    ensures q > 0 && s[Parent(q)].due > s[q].due ==>
      SiftUp(s, q) == SiftUp(Swapped(s, Parent(q), q), Parent(q))
    ensures q == 0 || s[Parent(q)].due <= s[q].due ==> SiftUp(s, q) == s
  {
  }

  /** The branches of one round of the removal loop. */
  lemma SiftDownRound<T>(s: seq<Entry<T>>, q: nat)
    requires q < |s|
    ensures 2 * q + 1 < |s| && s[q].due > s[Child(s, q)].due ==>
      SiftDown(s, q) == SiftDown(Swapped(s, q, Child(s, q)), Child(s, q))
    ensures 2 * q + 1 < |s| && s[q].due <= s[Child(s, q)].due ==> SiftDown(s, q) == s
    ensures 2 * q + 1 >= |s| ==> SiftDown(s, q) == s
  {
  }

  /** Every edge is in order except the one above q, and q's children are not before q's parent. */
  ghost predicate OrderedButAbove<T>(s: seq<Entry<T>>, q: nat) {
    && (forall i {:trigger Parent(i)} :: 1 <= i < |s| && i != q ==> s[Parent(i)].due <= s[i].due)
    && (forall i {:trigger Parent(i)} :: 1 <= i < |s| && q > 0 && Parent(i) == q && Parent(q) < |s| ==>
          s[Parent(q)].due <= s[i].due)
  }

  lemma {:induction false} SiftUpOrders<T>(s: seq<Entry<T>>, q: nat)
    requires q < |s| && OrderedButAbove(s, q)
    ensures Ordered(SiftUp(s, q))
    decreases q
  {
    if q > 0 && s[Parent(q)].due > s[q].due {
      SiftUpOrders(Swapped(s, Parent(q), q), Parent(q));
    }
  }

  /** Every edge is in order except those of q, and q's children are not before q's parent. */
  ghost predicate OrderedButAt<T>(s: seq<Entry<T>>, q: nat) {
    && (forall i {:trigger Parent(i)} :: 1 <= i < |s| && i != q && Parent(i) != q ==> s[Parent(i)].due <= s[i].due)
    && (forall i {:trigger Parent(i)} :: 1 <= i < |s| && q > 0 && Parent(i) == q && Parent(q) < |s| ==>
          s[Parent(q)].due <= s[i].due)
  }

  /** Sifting down repairs the edges below q, so the result is a heap exactly when the edge
      above q was already in order. */
  lemma {:induction false} SiftDownOrders<T>(s: seq<Entry<T>>, q: nat)
    requires q < |s| && OrderedButAt(s, q)
    ensures Ordered(SiftDown(s, q)) <==> (q == 0 || s[Parent(q)].due <= s[q].due)
    decreases |s| - q
  {
    if 2 * q + 1 < |s| && s[q].due > s[Child(s, q)].due {
      var c := Child(s, q);
      assert q > 0 ==> s[Parent(q)].due <= s[c].due;
      SiftDownOrders(Swapped(s, q, c), c);
    } else {
      assert forall i {:trigger Parent(i)} :: 1 <= i < |s| && Parent(i) == q ==> s[q].due <= s[i].due;
    }
  }

  /** Inserting keeps a heap a heap. */
  lemma InsertedOrders<T>(s: seq<Entry<T>>, e: Entry<T>)
    requires Ordered(s)
    ensures Ordered(Inserted(s, e))
  {
    var t := s + [e];
    assert forall i {:trigger Parent(i)} :: 1 <= i < |t| && i != |s| ==> t[Parent(i)] == s[Parent(i)] && t[i] == s[i];
    SiftUpOrders(t, |s|);
  }

  /** A heap whose entry at k was replaced is in order except around k. */
  lemma FilledOrders<T>(s: seq<Entry<T>>, k: nat, t: seq<Entry<T>>)
    requires |t| < |s| && k < |t| && Ordered(s)
    requires forall i :: 0 <= i < |t| && i != k ==> t[i] == s[i]
    ensures OrderedButAt(t, k)
  {
    assert k > 0 ==> s[Parent(k)].due <= s[k].due;
  }

  /** Removing from a heap leaves a heap exactly when the hole is the first or the last
      place, or the moved last entry is not before the parent of the hole. */
  lemma RemovedOrders<T>(s: seq<Entry<T>>, k: nat)
    requires k < |s| && Ordered(s)
    ensures Ordered(Removed(s, k)) <==>
      (k == 0 || k == |s| - 1 || s[Parent(k)].due <= s[|s| - 1].due)
  {
    hide SiftDown, Ordered, OrderedButAt;
    var last := |s| - 1;
    if k < last {
      var t := s[..last][k := s[last]];
      FilledOrders(s, k, t);
      SiftDownOrders(t, k);
      HoleAbove(s, k, t);
    } else {
      PrefixOrders(s);
    }
  }

  lemma PrefixOrders<T>(s: seq<Entry<T>>)
    requires |s| > 0 && Ordered(s)
    ensures Ordered(s[..|s| - 1])
  {
  }

  lemma HoleAbove<T>(s: seq<Entry<T>>, k: nat, t: seq<Entry<T>>)
    requires k < |s| - 1 && t == s[..|s| - 1][k := s[|s| - 1]]
    ensures t[k] == s[|s| - 1] && (k > 0 ==> t[Parent(k)] == s[Parent(k)])
  {
  }

  /** i is q or a place above it. */
  predicate OnPath(i: nat, q: nat) {
    i == q || (q > 0 && OnPath(i, Parent(q)))
  }

  lemma {:induction false} PathGoesUp(i: nat, q: nat)
    requires OnPath(i, q)
    ensures i <= q && (i > 0 ==> OnPath(Parent(i), q))
  {
    if i != q {
      PathGoesUp(i, Parent(q));
    }
  }

  /** Sifting up touches only the places above. */
  lemma {:induction false} SiftUpUntouched<T>(s: seq<Entry<T>>, q: nat, i: nat)
    requires q < |s| && i < |s| && !OnPath(i, q)
    ensures SiftUp(s, q)[i] == s[i]
    decreases q
  {
    if q > 0 && s[Parent(q)].due > s[q].due {
      SiftUpUntouched(Swapped(s, Parent(q), q), Parent(q), i);
    }
  }

  /** An entry out of order stays out of order when the earliest entry passes through its place. */
  lemma {:induction false} PassingThrough<T>(s: seq<Entry<T>>, q: nat, k: nat)
    requires k < q < |s| && OnPath(k, q) && k > 0 && s[q].due == 1
    requires 1 <= s[k].due < s[Parent(k)].due
    ensures !Ordered(SiftUp(s, q))
    decreases q
  {
    var p := Parent(q);
    PathGoesUp(k, p);
    if s[p].due > 1 {
      var u := Swapped(s, p, q);
      if p != k {
        PassingThrough(u, p, k);
      } else {
        var v := Swapped(u, Parent(k), k);
        NotBelow(k, q);
        SiftUpUntouched(v, Parent(k), k);
        SiftUpUntouched(v, Parent(k), q);
        assert Parent(q) == k && SiftUp(s, q)[k].due > SiftUp(s, q)[q].due;
      }
    } else {
      assert s[Parent(k)].due > s[k].due;
    }
  }

  /** Places further down are not on the path from a place above. */
  lemma NotBelow(k: nat, q: nat)
    requires 0 < k < q
    ensures !OnPath(k, Parent(k)) && !OnPath(q, Parent(k))
  {
    if OnPath(k, Parent(k)) {
      PathGoesUp(k, Parent(k));
    }
    if OnPath(q, Parent(k)) {
      PathGoesUp(q, Parent(k));
    }
  }

  /** Every edge is in order except those above q and above k, and q's children are not before
      q's parent. */
  ghost predicate OrderedButTwo<T>(s: seq<Entry<T>>, q: nat, k: nat) {
    && (forall i {:trigger Parent(i)} :: 1 <= i < |s| && i != q && i != k ==> s[Parent(i)].due <= s[i].due)
    && (forall i {:trigger Parent(i)} :: 1 <= i < |s| && i != k && q > 0 && Parent(i) == q && Parent(q) < |s| ==>
          s[Parent(q)].due <= s[i].due)
  }

  lemma {:induction false} AboveIsEarlier<T>(s: seq<Entry<T>>, q: nat, k: nat, a: nat, i: nat)
    requires i < q < |s| && OrderedButTwo(s, q, k) && OnPath(a, i) && !OnPath(k, i)
    ensures a <= i && s[a].due <= s[i].due
  {
    if a != i {
      AboveIsEarlier(s, q, k, a, Parent(i));
    }
  }

  /** When the earliest entry passes beside an entry out of order, it pushes that entry's parent
      out of the way; whether the grandparent, which takes its place, is in order decides. */
  lemma {:induction false} PassingBeside<T>(s: seq<Entry<T>>, q: nat, k: nat)
    requires 0 < k < |s| && q < |s| && q != k && OnPath(Parent(k), q) && !OnPath(k, q) && q != Parent(k)
    requires OrderedButTwo(s, q, k) && s[q].due == 1 && 1 <= s[k].due < s[Parent(k)].due
    ensures Ordered(SiftUp(s, q)) <==> (Parent(k) == 0 || s[Parent(Parent(k))].due <= s[k].due)
    decreases q
  {
    var p, a := Parent(q), Parent(k);
    AboveIsEarlier(s, q, k, a, p);
    var u := Swapped(s, p, q);
    if p != a {
      PathGoesUp(a, p);
      BesideUp(s, q, k);
      hide OrderedButTwo;
      PassingBeside(u, p, k);
    } else if a == 0 || s[Parent(a)].due <= s[k].due {
      BesideLast(s, q, k);
      SiftUpOrders(u, a);
    } else {
      var v := Swapped(u, Parent(a), a);
      NotBelow(a, k);
      SiftUpUntouched(v, Parent(a), a);
      SiftUpUntouched(v, Parent(a), k);
      assert SiftUp(s, q)[a].due > SiftUp(s, q)[k].due;
    }
  }

  /** One step up on the way beside. */
  lemma BesideUp<T>(s: seq<Entry<T>>, q: nat, k: nat)
    requires 0 < k < |s| && 0 < q < |s| && q != k && Parent(q) != k && Parent(q) != Parent(k)
    requires OrderedButTwo(s, q, k) && s[q].due == 1 < s[Parent(q)].due
    ensures OrderedButTwo(Swapped(s, Parent(q), q), Parent(q), k)
  {
  }

  /** The step that pushes the parent of the entry out of order away. */
  lemma BesideLast<T>(s: seq<Entry<T>>, q: nat, k: nat)
    requires 0 < k < |s| && 0 < q < |s| && q != k && Parent(q) == Parent(k)
    requires OrderedButTwo(s, q, k) && s[q].due == 1 <= s[k].due < s[Parent(k)].due
    requires Parent(k) == 0 || s[Parent(Parent(k))].due <= s[k].due
    ensures OrderedButAbove(Swapped(s, Parent(q), q), Parent(q))
  {
  }

  /** The entry inserted after a removal in the middle passes beside the hole. */
  predicate Repaired<T>(s: seq<Entry<T>>, k: nat)
    requires 0 < k < |s|
  {
    var last := |s| - 1;
    OnPath(Parent(k), last) && !OnPath(k, last)
    && (Parent(k) == 0 || s[Parent(Parent(k))].due <= s[last].due)
  }

  /** A moved entry that is before the hole's parent does not sink: what was below the hole is
      even later. */
  lemma MovedStays<T>(s: seq<Entry<T>>, k: nat)
    requires 0 < k < |s| - 1 && Ordered(s) && s[Parent(k)].due > s[|s| - 1].due
    ensures Removed(s, k) == s[..|s| - 1][k := s[|s| - 1]]
  {
    var t := s[..|s| - 1][k := s[|s| - 1]];
    if 2 * k + 1 < |t| {
      var c := Child(t, k);
      assert t[c] == s[c] && s[Parent(k)].due <= s[k].due <= s[Parent(c)].due <= s[c].due;
    }
  }

  /** Rescheduling from the middle after a removal that broke the order. */
  lemma RescheduledOrders<T>(s: seq<Entry<T>>, k: nat, n: T)
    requires 0 < k < |s| - 1 && Ordered(s) && 1 <= s[|s| - 1].due < s[Parent(k)].due
    ensures Ordered(Inserted(Removed(s, k), Entry(n, 1))) <==> Repaired(s, k)
  {
    hide SiftUp, SiftDown, OnPath, Removed;
    var last := |s| - 1;
    MovedStays(s, k);
    var w := s[..last][k := s[last]] + [Entry(n, 1)];
    assert w[k] == s[last] && forall i :: 0 <= i < last && i != k ==> w[i] == s[i];
    assert Inserted(Removed(s, k), Entry(n, 1)) == SiftUp(w, last);
    if OnPath(k, last) {
      PassingThrough(w, last, k);
    } else if OnPath(Parent(k), last) {
      TwoEdges(s, k, w);
      PassingBeside(w, last, k);
    } else {
      SiftUpUntouched(w, last, k);
      SiftUpUntouched(w, last, Parent(k));
    }
  }

  lemma TwoEdges<T>(s: seq<Entry<T>>, k: nat, w: seq<Entry<T>>)
    requires 0 < k < |s| - 1 == |w| - 1 && Ordered(s)
    requires forall i :: 0 <= i < |s| - 1 && i != k ==> w[i] == s[i]
    requires w[k].due <= s[Parent(k)].due
    ensures OrderedButTwo(w, |s| - 1, k)
  {
    assert forall i {:trigger Parent(i)} :: 1 <= i < |s| && Parent(i) == k ==> s[Parent(k)].due <= s[k].due <= s[i].due;
  }

  /** A request for immediate service keeps a heap a heap exactly when the socket is first or
      not scheduled, when nothing is rescheduled, when its removal keeps the heap, or when the
      new entry repairs what the removal broke. */
  lemma UpdatedOrders<T>(s: seq<Entry<T>>, k: int, n: T, reschedule: bool)
    requires -1 <= k < |s| && Ordered(s) && forall i :: 0 <= i < |s| ==> 1 <= s[i].due
    ensures Ordered(Updated(s, k, n, reschedule)) <==>
      (k <= 0 || !reschedule || k == |s| - 1 || s[Parent(k)].due <= s[|s| - 1].due || Repaired(s, k))
  {
    if k < 0 {
      InsertedOrders(s, Entry(n, 1));
    } else if k > 0 && reschedule {
      hide SiftUp, SiftDown, Removed, Inserted, Repaired, Ordered;
      RemovedOrders(s, k);
      if k == |s| - 1 || s[Parent(k)].due <= s[|s| - 1].due {
        InsertedOrders(Removed(s, k), Entry(n, 1));
      } else {
        RescheduledOrders(s, k, n);
      }
    }
  }

  /** After a request for immediate service the socket's one entry is due at 1 and every other is
      what it was; a request that asks for no rescheduling changes nothing for one scheduled. */
  lemma UpdatedEffect<T>(s: seq<Entry<T>>, k: int, n: T, reschedule: bool)
    requires -1 <= k < |s| && (k >= 0 ==> s[k].node == n)
    ensures var t := Updated(s, k, n, reschedule);
            if k >= 0 && !reschedule then t == s
            else multiset(t) == (if k < 0 then multiset(s) else multiset(s) - multiset{s[k]}) + multiset{Entry(n, 1)}
  {
    hide Inserted, Removed;
    if k < 0 {
      InsertedConserves(s, Entry(n, 1));
    } else if k > 0 {
      RemovedConserves(s, k);
      InsertedConserves(Removed(s, k), Entry(n, 1));
    } else if reschedule {
      HeadReplaced(s, Entry(n, 1));
    }
  }

  lemma HeadReplaced<T>(s: seq<T>, e: T)
    requires |s| > 0
    ensures multiset(s[0 := e]) == multiset(s) - multiset{s[0]} + multiset{e}
  {
    assert s == [s[0]] + s[1..] && s[0 := e] == [e] + s[1..];
  }

  /** Sifting down from q moves nothing before q. */
  lemma {:induction false} SiftDownKeeps<T>(s: seq<Entry<T>>, q: nat, i: nat)
    requires i < q < |s|
    ensures SiftDown(s, q)[i] == s[i]
    decreases |s| - q
  {
    if 2 * q + 1 < |s| && s[q].due > s[Child(s, q)].due {
      SiftDownKeeps(Swapped(s, q, Child(s, q)), Child(s, q), i);
    }
  }

  /** Of two children due at the same time the left one moves up. */
  lemma LeftGoesFirst<T>(s: seq<Entry<T>>, q: nat)
    requires 2 * q + 2 < |s| && s[2 * q + 1].due == s[2 * q + 2].due < s[q].due
    ensures SiftDown(s, q)[q] == s[2 * q + 1]
  {
    hide SiftDown;
    SiftDownRound(s, q);
    SiftDownKeeps(Swapped(s, q, 2 * q + 1), 2 * q + 1, q);
  }

  /** Insertion of several entries, one after the other, into an empty heap. */
  function InsertedAll<T>(es: seq<Entry<T>>): seq<Entry<T>> {
    if |es| == 0 then [] else Inserted(InsertedAll(es[..|es| - 1]), es[|es| - 1])
  }

  /** Every heap can be reached: inserting its entries in their order gives it. */
  lemma {:induction false} HeapsAreReachable<T>(s: seq<Entry<T>>)
    requires Ordered(s)
    ensures InsertedAll(s) == s
  {
    if |s| > 0 {
      var init, last := s[..|s| - 1], |s| - 1;
      PrefixOrders(s);
      HeapsAreReachable(init);
      assert init + [s[last]] == s;
      assert last > 0 ==> s[Parent(last)].due <= s[last].due;
      SiftUpRound(s, last);
    }
  }

  /** Every parent is due strictly before its children. */
  ghost predicate Strict<T>(s: seq<Entry<T>>) {
    forall i {:trigger Parent(i)} :: 1 <= i < |s| ==> s[Parent(i)].due < s[i].due
  }

  /** Sifting up from q moves nothing behind q. */
  lemma {:induction false} SiftUpKeeps<T>(s: seq<Entry<T>>, q: nat, i: nat)
    requires q < i < |s|
    ensures SiftUp(s, q)[i] == s[i]
    decreases q
  {
    if q > 0 && s[Parent(q)].due > s[q].due {
      SiftUpKeeps(Swapped(s, Parent(q), q), Parent(q), i);
    }
  }

  /** Strict but for place q, whatever it holds. */
  ghost predicate StrictAround<T>(s: seq<Entry<T>>, q: nat) {
    forall i {:trigger Parent(i)} :: 1 <= i < |s| && i != q ==>
      if Parent(i) != q then s[Parent(i)].due < s[i].due
      else q > 0 && q < |s| ==> s[Parent(q)].due < s[i].due
  }

  lemma SwappedAround<T>(s: seq<Entry<T>>, q: nat)
    requires 0 < q < |s| && StrictAround(s, q)
    ensures StrictAround(Swapped(s, Parent(q), q), Parent(q))
  {
    var p := Parent(q);
    var t := Swapped(s, p, q);
    forall i {:trigger Parent(i)} | 1 <= i < |s| && i != p
      ensures if Parent(i) != p then t[Parent(i)].due < t[i].due else p > 0 ==> t[Parent(p)].due < t[i].due
    {
      assert p > 0 ==> s[Parent(p)].due < s[p].due;
      if i != q && Parent(i) != q {
        assert s[Parent(i)].due < s[i].due;
      }
    }
  }

  /** The child swapped with its parent is then the earliest one below it. */
  lemma SwappedChild<T>(s: seq<Entry<T>>, q: nat, x: Entry<T>)
    requires 0 < q < |s| && StrictAround(s, q) && s[Parent(q)].due < x.due
    ensures var w := Swapped(s, Parent(q), q)[Parent(q) := x];
            SiftDown(w, Parent(q)) == SiftDown(s[q := x], q)
  {
    var p := Parent(q);
    var w := Swapped(s, p, q)[p := x];
    var c := Child(w, p);
    assert w[q] == s[p];
    SiftDownRound(w, p);
    assert Swapped(w, p, q) == s[q := x];
  }

  /** An entry due first goes from q up to the top; an entry put in its place there goes the same
      way down to q again. */
  lemma {:induction false} DownAgain<T>(s: seq<Entry<T>>, q: nat, x: Entry<T>)
    requires q < |s| - 1 && (forall i :: 0 <= i < |s| && i != q ==> s[q].due < s[i].due)
    requires StrictAround(s[..|s| - 1], q) && (q > 0 ==> s[Parent(q)].due < x.due)
    ensures SiftDown(SiftUp(s, q)[..|s| - 1][0 := x], 0) == SiftDown(s[..|s| - 1][q := x], q)
    decreases q
  {
    hide SiftDown, StrictAround;
    SiftUpRound(s, q);
    if q > 0 {
      var p, m := Parent(q), |s| - 1;
      var t := Swapped(s, p, q);
      assert t[..m] == Swapped(s[..m], p, q);
      SwappedAround(s[..m], q);
      AboveIsBefore(s[..m], q);
      DownAgain(t, p, x);
      SwappedChild(s[..m], q, x);
    }
  }

  lemma AboveIsBefore<T>(s: seq<Entry<T>>, q: nat)
    requires 0 < q < |s| && StrictAround(s, q)
    ensures Parent(q) > 0 ==> s[Parent(Parent(q))].due < s[Parent(q)].due
  {
  }

  /** A request served at once leaves a strict heap as it was: what the first entry moved on its
      way up moves back when it is taken out. */
  lemma ServedLeaves<T>(s: seq<Entry<T>>, e: Entry<T>)
    requires Strict(s) && forall i :: 0 <= i < |s| ==> e.due < s[i].due
    ensures Removed(Inserted(s, e), 0) == s
  {
    hide SiftUp, SiftDown, Strict, StrictAround;
    var t, m := s + [e], |s|;
    if m == 0 {
      SiftUpRound(t, 0);
    } else {
      var p := Parent(m);
      var u := Swapped(t, p, m);
      SiftUpRound(t, m);
      SiftUpKeeps(u, p, m);
      StrictWithout(s, p, e);
      SwappedIn(s, p, e);
      DownAgain(u, p, s[p]);
      SiftDownRests(s, p);
    }
  }

  /** The new entry and its parent have changed places. */
  lemma SwappedIn<T>(s: seq<Entry<T>>, p: nat, e: Entry<T>)
    requires p < |s| && forall i :: 0 <= i < |s| ==> e.due < s[i].due
    ensures var u := Swapped(s + [e], p, |s|);
            && u[..|s|] == s[p := e] && u[|s|] == s[p] && u[p] == e && u[..|s|][p := s[p]] == s
            && forall i :: 0 <= i < |u| && i != p ==> e.due < u[i].due
  {
  }

  lemma StrictWithout<T>(s: seq<Entry<T>>, p: nat, e: Entry<T>)
    requires Strict(s) && p < |s|
    ensures StrictAround(s[p := e], p) && (p > 0 ==> s[Parent(p)].due < s[p].due)
  {
    var t := s[p := e];
    forall i {:trigger Parent(i)} | 1 <= i < |t| && i != p
      ensures if Parent(i) != p then t[Parent(i)].due < t[i].due else p > 0 ==> t[Parent(p)].due < t[i].due
    {
      assert s[Parent(i)].due < s[i].due;
      assert p > 0 ==> s[Parent(p)].due < s[p].due;
    }
  }

  lemma SiftDownRests<T>(s: seq<Entry<T>>, p: nat)
    requires Strict(s) && p < |s|
    ensures SiftDown(s, p) == s
  {
    if 2 * p + 1 < |s| {
      assert Parent(Child(s, p)) == p;
    }
    SiftDownRound(s, p);
  }

  /** The engine's way of scheduling a socket for a later time: it asks for service, is taken out
      when its turn comes, and is put back with the time of its next packet. */
  function Served<T>(s: seq<Entry<T>>, e: Entry<T>): seq<Entry<T>> {
    var asked := Updated(s, -1, e.node, false);
    Inserted(Removed(asked, 0), e)
  }

  function ServedAll<T>(es: seq<Entry<T>>): seq<Entry<T>> {
    if |es| == 0 then [] else Served(ServedAll(es[..|es| - 1]), es[|es| - 1])
  }

  /** Serving the entries of any strict heap in their order makes that heap. */
  lemma {:induction false} HeapsAreServed<T>(s: seq<Entry<T>>)
    requires Strict(s) && forall i :: 0 <= i < |s| ==> 1 < s[i].due
    ensures ServedAll(s) == s
  {
    hide Strict, Served;
    if |s| > 0 {
      var init, e := s[..|s| - 1], s[|s| - 1];
      PrefixStrict(s);
      HeapsAreServed(init);
      ServedAppends(init, e);
      assert init + [e] == s;
    }
  }

  lemma PrefixStrict<T>(s: seq<Entry<T>>)
    requires |s| > 0 && Strict(s)
    ensures Strict(s[..|s| - 1]) && Strict(s[..|s| - 1] + [s[|s| - 1]])
  {
    assert s[..|s| - 1] + [s[|s| - 1]] == s;
  }

  /** A socket served for a time after its place's parent is put at the end. */
  lemma ServedAppends<T>(s: seq<Entry<T>>, e: Entry<T>)
    requires Strict(s + [e]) && Strict(s) && forall i :: 0 <= i < |s| ==> 1 < s[i].due
    ensures Served(s, e) == s + [e]
  {
    hide SiftUp, Removed;
    ServedLeaves(s, Entry(e.node, 1));
    var t := s + [e];
    assert |s| > 0 ==> t[Parent(|s|)].due < t[|s|].due;
    SiftUpRound(t, |s|);
  }

  /** The schedule of five sockets that were served and have these next times. */
  function Waiting(): seq<Entry<nat>> {
    [Entry(0, 2), Entry(1, 10), Entry(2, 3), Entry(3, 11), Entry(4, 12)]
  }

  /** The same after a sixth socket asked for service. */
  function Example(): seq<Entry<nat>> {
    [Entry(5, 1), Entry(1, 10), Entry(0, 2), Entry(3, 11), Entry(4, 12), Entry(2, 3)]
  }

  /** The condition does fail on a heap that the engine reaches: after five sockets were served
      and a sixth has asked for service, taking out the fourth entry leaves a child before its
      parent. */
  lemma RemovedMayBreak()
    ensures Updated(ServedAll(Waiting()), -1, 5, false) == Example() && Ordered(Example())
    ensures !Ordered(Removed(Example(), 3))
  {
    var s := Example();
    assert Ordered(s) by {
      assert Parent(1) == 0 && Parent(2) == 0 && Parent(3) == 1 && Parent(4) == 1 && Parent(5) == 2;
    }
    ExampleIsReached();
    hide Inserted, Removed, Updated, ServedAll;
    RemovedOrders(s, 3);
    assert Parent(3) == 1;
  }

  lemma ExampleIsReached()
    ensures Updated(ServedAll(Waiting()), -1, 5, false) == Example()
  {
    hide ServedAll, SiftUp;
    var w := Waiting();
    assert Strict(w) by {
      assert Parent(1) == 0 && Parent(2) == 0 && Parent(3) == 1 && Parent(4) == 1;
    }
    HeapsAreServed(w);
    assert Parent(5) == 2 && Parent(2) == 0;
    var t := w + [Entry(5, 1)];
    SiftUpRound(t, 5);
    SiftUpRound(Swapped(t, 2, 5), 2);
    SiftUpRound(Example(), 0);
    assert Swapped(Swapped(t, 2, 5), 0, 2) == Example();
  }

  /** In a heap the first entry is due no later than any other, so the worker that waits for
      the first one misses nobody. */
  lemma {:induction false} FirstIsEarliest<T>(s: seq<Entry<T>>, k: nat)
    requires k < |s| && Ordered(s)
    ensures s[0].due <= s[k].due
  {
    if k > 0 {
      FirstIsEarliest(s, Parent(k));
    }
  }

  lemma {:induction false} SubsetSize<T>(a: set<T>, b: set<T>)
    requires a <= b
    ensures |a| <= |b|
  {
    if x :| x in a {
      SubsetSize(a - {x}, b - {x});
    }
  }

  class CSNode {
    var due: nat
    var heapLoc: int

    constructor ()
      ensures due == 1 && heapLoc == -1
    {
      due, heapLoc := 1, -1;
    }
  }

  class CSndUList {
    var heap: array<CSNode?>
    var lastEntry: int

    /** The nodes of all open sockets, scheduled or not. */
    ghost var nodes: set<CSNode>

    ghost predicate Shape()
      reads this, heap, nodes
    {
      && 0 < heap.Length
      && -1 <= lastEntry < heap.Length
      && (forall i :: 0 <= i <= lastEntry ==> heap[i] != null && heap[i] in nodes)
    }

    /** Each scheduled node holds its own position and every other node holds -1. */
    ghost predicate Valid()
      reads this, heap, nodes
    {
      && Shape()
      && (forall i :: 0 <= i <= lastEntry ==> heap[i].heapLoc == i)
      && (forall n :: n in nodes ==>
            n.heapLoc == -1 || (0 <= n.heapLoc <= lastEntry && heap[n.heapLoc] == n))
    }

    /** The entries of the heap in array order. */
    ghost function View(): (s: seq<Entry<CSNode>>)
      requires Shape()
      reads this, heap, nodes
      ensures |s| == lastEntry + 1
      ensures forall i :: 0 <= i <= lastEntry ==> s[i].node == heap[i] && s[i].due == heap[i].due
    {
      seq(lastEntry + 1, i requires Shape() && 0 <= i <= lastEntry reads this, heap, nodes =>
        var n: CSNode := heap[i]; Entry(n, n.due))
    }

    /** Everything is in place except that the node at q need not know its position. */
    ghost predicate ValidBut(q: int)
      reads this, heap, nodes
    {
      && Shape() && 0 <= q <= lastEntry
      && (forall i :: 0 <= i <= lastEntry && i != q ==> heap[i].heapLoc == i && heap[i] != heap[q])
      && (forall n :: n in nodes && n != heap[q] ==>
            n.heapLoc == -1 || (0 <= n.heapLoc <= lastEntry && heap[n.heapLoc] == n))
    }

    constructor ()
      ensures Valid() && nodes == {} && View() == []
      ensures fresh(heap) && heap.Length == 4096
    {
      heap := new CSNode?[4096];
      lastEntry := -1;
      nodes := {};
    }

    /** A socket is opened: its node starts off the heap. */
    method Open() returns (n: CSNode)
      requires Valid()
      modifies this`nodes
      ensures Valid() && fresh(n)
      ensures nodes == old(nodes) + {n} && n.heapLoc == -1
      ensures View() == old(View())
    {
      n := new CSNode();
      nodes := nodes + {n};
    }

    /** One step of a sifting loop: the node at q changes places with the one at p. */
    method Exchange(p: nat, q: nat)
      requires ValidBut(q) && p <= lastEntry && p != q
      modifies heap, nodes`heapLoc
      ensures ValidBut(p) && heap[p] == old(heap[q]) && heap[p].heapLoc == old(heap[q].heapLoc)
      ensures View() == Swapped(old(View()), p, q)
    {
      var t := heap[p];
      heap[p] := heap[q];
      heap[q] := t;
      t.heapLoc := q;
    }

    /** A node that is not scheduled goes to the end of the array. */
    method Append(due: nat, n: CSNode)
      requires Valid() && n in nodes && n.heapLoc == -1 && lastEntry < heap.Length - 1
      modifies this`lastEntry, heap, n`due
      ensures lastEntry == old(lastEntry) + 1 && ValidBut(lastEntry) && heap[lastEntry] == n && n.due == due
      ensures View() == old(View()) + [Entry(n, due)]
    {
      lastEntry := lastEntry + 1;
      heap[lastEntry] := n;
      n.due := due;
    }

    /** The private insertion: a node already on the heap is left alone. */
    method InsertNode(due: nat, n: CSNode)
      requires Valid() && n in nodes
      requires n.heapLoc >= 0 || lastEntry < heap.Length - 1
      modifies this`lastEntry, heap, nodes
      ensures Valid()
      ensures View() == if old(n.heapLoc) >= 0 then old(View()) else Inserted(old(View()), Entry(n, due))
      ensures forall m :: m in nodes && m != n ==> m.due == old(m.due)
    {
      hide Swapped, View, SiftUp;
      if n.heapLoc >= 0 {
        return;
      }
      Append(due, n);
      ghost var start := View();
      var q := lastEntry;
      var p := q;
      while p != 0
        invariant 0 <= p == q <= lastEntry < |start|
        invariant ValidBut(q) && heap[q] == n && n.heapLoc == -1
        invariant forall m :: m in nodes && m != n ==> m.due == old(m.due)
        invariant SiftUp(View(), q) == SiftUp(start, |start| - 1)
        decreases q
      {
        p := (q - 1) / 2;
        SiftUpRound(View(), q);
        if heap[p].due > heap[q].due {
          Exchange(p, q);
          q := p;
        } else {
          break;
        }
      }
      SiftUpRound(View(), q);
      Land(n, q);
    }

    /** The node that moved takes note of its place. */
    method Land(n: CSNode, q: int)
      requires ValidBut(q) && heap[q] == n
      modifies n`heapLoc
      ensures Valid() && View() == old(View())
    {
      n.heapLoc := q;
    }

    /** Everything is in place except that n is off the heap and still holds its old position. */
    ghost predicate ValidWithout(n: CSNode)
      reads this, heap, nodes
    {
      && Shape()
      && (forall i :: 0 <= i <= lastEntry ==> heap[i].heapLoc == i && heap[i] != n)
      && (forall m :: m in nodes && m != n ==>
            m.heapLoc == -1 || (0 <= m.heapLoc <= lastEntry && heap[m.heapLoc] == m))
    }

    /** The last entry fills the place of n. */
    method Vacate(n: CSNode)
      requires Valid() && n in nodes && n.heapLoc >= 0
      modifies this`lastEntry, heap, nodes`heapLoc
      ensures lastEntry == old(lastEntry) - 1 && ValidWithout(n) && n.heapLoc == old(n.heapLoc)
      ensures View() == if n.heapLoc > lastEntry then old(View())[..n.heapLoc]
                        else old(View())[..lastEntry + 1][n.heapLoc := old(View()[lastEntry])]
    {
      heap[n.heapLoc] := heap[lastEntry];
      lastEntry := lastEntry - 1;
      heap[n.heapLoc].heapLoc := n.heapLoc;
    }

    /** One step of the removal loop. */
    method Sink(q: nat, p: nat, ghost n: CSNode)
      requires ValidWithout(n) && q < p <= lastEntry
      modifies heap, nodes`heapLoc
      ensures ValidWithout(n) && n.heapLoc == old(n.heapLoc)
      ensures View() == Swapped(old(View()), q, p)
    {
      var t := heap[p];
      heap[p] := heap[q];
      heap[p].heapLoc := p;
      heap[q] := t;
      heap[q].heapLoc := q;
    }

    /** The removal loop, from position k down. */
    method SinkFrom(k: nat, ghost n: CSNode)
      requires ValidWithout(n)
      modifies heap, nodes`heapLoc
      ensures ValidWithout(n) && n.heapLoc == old(n.heapLoc)
      ensures View() == if k > lastEntry then old(View()) else SiftDown(old(View()), k)
    {
      hide Swapped, View, SiftDown;
      ghost var start := View();
      var q := k;
      var p := q * 2 + 1;
      while p <= lastEntry
        invariant 0 <= q && p == q * 2 + 1
        invariant ValidWithout(n) && n.heapLoc == old(n.heapLoc)
        invariant if k <= lastEntry
          then q <= lastEntry && SiftDown(View(), q) == SiftDown(start, k)
          else View() == start && q == k
        decreases lastEntry - q
      {
        if p + 1 <= lastEntry && heap[p].due > heap[p + 1].due {
          p := p + 1;
        }
        assert p == Child(View(), q);
        SiftDownRound(View(), q);
        if heap[q].due > heap[p].due {
          Sink(q, p, n);
          q := p;
          p := q * 2 + 1;
        } else {
          break;
        }
      }
      if q <= lastEntry {
        SiftDownRound(View(), q);
      }
    }

    /** The private removal: a node that is not on the heap is left alone. */
    method RemoveNode(n: CSNode)
      requires Valid() && n in nodes
      modifies this`lastEntry, heap, nodes`heapLoc
      ensures Valid() && n.heapLoc == -1
      ensures View() == if old(n.heapLoc) < 0 then old(View()) else Removed(old(View()), old(n.heapLoc))
    {
      hide Swapped, View, SiftDown;
      if n.heapLoc >= 0 {
        Vacate(n);
        SinkFrom(n.heapLoc, n);
        n.heapLoc := -1;
      }
    }

    /** The public insertion doubles a full array first. */
    method Insert(due: nat, n: CSNode)
      requires Valid() && n in nodes
      modifies this`lastEntry, this`heap, heap, nodes
      ensures Valid() && (heap == old(heap) || fresh(heap))
      ensures View() == if old(n.heapLoc) >= 0 then old(View()) else Inserted(old(View()), Entry(n, due))
      ensures forall m :: m in nodes && m != n ==> m.due == old(m.due)
    {
      if lastEntry == heap.Length - 1 {
        var temp := new CSNode?[heap.Length * 2];
        forall i | 0 <= i < heap.Length {
          temp[i] := heap[i];
        }
        heap := temp;
        assert View() == old(View());
      }
      InsertNode(due, n);
    }

    /** The first k entries of the array, as a set, are k different nodes. */
    lemma {:induction false} EntriesDiffer(k: nat) returns (entries: set<CSNode>)
      requires Valid() && k <= lastEntry + 1
      ensures |entries| == k && forall n :: n in entries <==> n in nodes && 0 <= n.heapLoc < k
      decreases k
    {
      if k == 0 {
        entries := {};
      } else {
        var before := EntriesDiffer(k - 1);
        var last: CSNode := heap[k - 1];
        entries := before + {last};
      }
    }

    /** There is room for an unscheduled socket exactly when fewer sockets are scheduled than the
        array has places. */
    lemma RoomIsExact() returns (scheduled: set<CSNode>)
      requires Valid()
      ensures forall n :: n in scheduled <==> n in nodes && n.heapLoc >= 0
      ensures lastEntry < heap.Length - 1 <==> |scheduled| < heap.Length
    {
      scheduled := EntriesDiffer(lastEntry + 1);
    }

    /** As long as no more sockets are open than the array has places, there is room. */
    lemma RoomForOpen(n: CSNode)
      requires Valid() && n in nodes && n.heapLoc == -1 && |nodes| <= heap.Length
      ensures lastEntry < heap.Length - 1
    {
      var scheduled := RoomIsExact();
      assert scheduled <= nodes - {n};
      SubsetSize(scheduled, nodes - {n});
    }

    /** A socket asks for immediate service.  This path does not enlarge the array. */
    method Update(n: CSNode, reschedule: bool)
      requires Valid() && n in nodes
      requires n.heapLoc >= 0 || lastEntry < heap.Length - 1
      modifies this`lastEntry, heap, nodes
      ensures Valid()
      ensures View() == Updated(old(View()), old(n.heapLoc), n, reschedule)
    {
      hide Inserted, Removed, View;
      if n.heapLoc >= 0 {
        if !reschedule {
          return;
        }
        if n.heapLoc == 0 {
          n.due := 1;
          assert View() == old(View())[0 := Entry(n, 1)];
          return;
        }
        RemoveNode(n);
      }
      InsertNode(1, n);
    }

    /** The sending worker takes the first socket if it is due at `now`.  `alive` says that its
        connection still stands, `packed` that it had a packet to send, and `next` is the time
        of its next packet, 0 for none. */
    method Pop(now: nat, alive: bool, packed: bool, next: nat) returns (sent: CSNode?)
      requires Valid()
      modifies this`lastEntry, heap, nodes
      ensures Valid()
      ensures var s := old(View());
        if |s| == 0 || now < s[0].due then sent == null && View() == s
        else if !alive || !packed then sent == null && View() == Removed(s, 0)
        else
          && sent == s[0].node
          && View() == if next > 0 then Inserted(Removed(s, 0), Entry(s[0].node, next)) else Removed(s, 0)
    {
      hide Inserted, Removed;
      if lastEntry == -1 {
        return null;
      }
      if now < heap[0].due {
        return null;
      }
      var u: CSNode := heap[0];
      RemoveNode(u);
      if !alive {
        return null;
      }
      if !packed {
        return null;
      }
      if next > 0 {
        InsertNode(next, u);
      }
      return u;
    }
  }

  /** The state in which the next request overruns the array: 4096 sockets were opened and asked
      for service, and one more is open. */
  method Overfull() returns (list: CSndUList, n: CSNode)
    ensures fresh(list) && list.Valid() && list.heap.Length == 4096
    ensures n in list.nodes && n.heapLoc == -1 && list.lastEntry == list.heap.Length - 1
  {
    hide CSndUList.Valid;
    list := new CSndUList();
    for i := 0 to 4096
      invariant fresh(list) && fresh(list.heap) && fresh(list.nodes)
      invariant list.Valid() && list.heap.Length == 4096 && list.lastEntry == i - 1
    {
      var m := list.Open();
      list.Update(m, false);
    }
    n := list.Open();
  }
}

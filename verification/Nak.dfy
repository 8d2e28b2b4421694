/** The loss report (NAK): its encoding as 32-bit words and what a sender takes from it.

    A single number is one word.  A range is two words, the first with its top bit set. */
module Nak {
  import opened SeqNo
  import opened LossCells

  const FLAG: int := 0x8000_0000

  predicate IsWord(w: int) {
    0 <= w < 0x1_0000_0000
  }

  predicate IsFlagged(w: int) {
    FLAG <= w
  }

  /** The word without its flag. */
  function Number(w: int): int {
    w % FLAG
  }

  function EncodeOne(v: Span): seq<int> {
    if v.lo == v.hi then [Wire(v.lo)] else [Wire(v.lo) + FLAG, Wire(v.hi)]
  }

  function Encode(ranges: seq<Span>): seq<int> {
    if ranges == [] then [] else EncodeOne(ranges[0]) + Encode(ranges[1..])
  }

  /** One entry of a report: a number or a pair of numbers on the wire. */
  datatype Item = One(x: int) | Pair(a: int, b: int)

  datatype Report = Malformed | Report(items: seq<Item>)

  /** Reads words as entries.  A flagged word must be followed by one that is not, for the end of
      its range; the two may be equal. */
  function Decode(words: seq<int>): Report {
    if words == [] then Report([])
    else if !IsFlagged(words[0]) then Cons(One(words[0]), Decode(words[1..]))
    else if |words| == 1 || IsFlagged(words[1]) then Malformed
    else Cons(Pair(Number(words[0]), words[1]), Decode(words[2..]))
  }

  function Cons(item: Item, rest: Report): Report {
    if rest.Malformed? then Malformed else Report([item] + rest.items)
  }

  function ItemOf(v: Span): Item {
    if v.lo == v.hi then One(Wire(v.lo)) else Pair(Wire(v.lo), Wire(v.hi))
  }

  /** The entries for some ranges of packet indices. */
  function Items(ranges: seq<Span>): seq<Item> {
    if ranges == [] then [] else [ItemOf(ranges[0])] + Items(ranges[1..])
  }

  predicate AllWords(words: seq<int>) {
    forall i :: 0 <= i < |words| ==> IsWord(words[i])
  }

  /** The words are a report of these ranges. */
  ghost predicate Reports(words: seq<int>, ranges: seq<Span>) {
    AllWords(words) && Decode(words) == Report(Items(ranges))
  }

  /** Decoding a report gives back exactly the ranges encoded in it, in order. */
  lemma {:induction false} DecodeEncode(ranges: seq<Span>)
    ensures Decode(Encode(ranges)) == Report(Items(ranges))
  {
    if ranges != [] {
      hide Wire;
      DecodeOne(ranges[0], Encode(ranges[1..]));
      DecodeEncode(ranges[1..]);
    }
  }

  /** The words of one range decode to it, whatever follows. */
  lemma DecodeOne(v: Span, words: seq<int>)
    ensures Decode(EncodeOne(v) + words) == Cons(ItemOf(v), Decode(words))
  {
    StepAgrees(v.lo);
    StepAgrees(v.hi);
    hide Wire;
    assert (EncodeOne(v) + words)[|EncodeOne(v)|..] == words;
  }

  /** An encoded report is a report of its ranges. */
  lemma EncodeReports(ranges: seq<Span>)
    ensures Reports(Encode(ranges), ranges)
  {
    DecodeEncode(ranges);
    EncodeWords(ranges);
  }

  lemma {:induction false} EncodeWords(ranges: seq<Span>)
    ensures AllWords(Encode(ranges))
  {
    if ranges != [] {
      StepAgrees(ranges[0].lo);
      StepAgrees(ranges[0].hi);
      EncodeWords(ranges[1..]);
    }
  }

  lemma {:induction false} EncodeConcat(a: seq<Span>, b: seq<Span>)
    ensures Encode(a + b) == Encode(a) + Encode(b)
  {
    if a == [] {
      assert a + b == b;
    } else {
      assert (a + b)[1..] == a[1..] + b;
      EncodeConcat(a[1..], b);
    }
  }

  lemma EncodeSnoc(a: seq<Span>, v: Span)
    ensures Encode(a + [v]) == Encode(a) + EncodeOne(v)
  {
    EncodeConcat(a, [v]);
    assert [v][1..] == [];
  }

  // ---------- what a sender takes from a report ----------

  /** A range is refused when it is reversed or names a packet that was never sent; a single
      number already acknowledged is not looked at. */
  predicate Refused(v: Span, lastAck: int, curr: int) {
    if v.lo == v.hi then lastAck <= v.lo && curr < v.lo else v.hi < v.lo || curr < v.hi
  }

  /** The unacknowledged part of a range. */
  function Clip(v: Span, lastAck: int): Span {
    Interval(if v.lo < lastAck then lastAck else v.lo, v.hi)
  }

  function Taken(v: Span, lastAck: int): set<int> {
    if lastAck <= v.hi && v.lo <= v.hi then Range(Clip(v, lastAck)) else {}
  }

  /** The numbers taken from a report: everything up to the first refused range. */
  function TakenFrom(ranges: seq<Span>, lastAck: int, curr: int): set<int> {
    if ranges == [] || Refused(ranges[0], lastAck, curr) then {}
    else Taken(ranges[0], lastAck) + TakenFrom(ranges[1..], lastAck, curr)
  }

  predicate Secure(ranges: seq<Span>, lastAck: int, curr: int) {
    forall k :: 0 <= k < |ranges| ==> !Refused(ranges[k], lastAck, curr)
  }

  /** A report of missing packets that were all sent is secure, and the sender takes exactly
      the missing numbers it has not had acknowledged. */
  lemma {:induction false} HonestReport(runs: seq<Interval>, lastAck: int, curr: int)
    requires forall k :: 0 <= k < |runs| ==> runs[k].hi <= curr
    ensures Secure(runs, lastAck, curr)
    ensures forall x :: x in TakenFrom(runs, lastAck, curr) <==> x in Members(runs) && lastAck <= x
  {
    if runs != [] {
      HonestReport(runs[1..], lastAck, curr);
    }
  }

  /** Whatever a report says, the sender takes only sent and unacknowledged packets. */
  lemma {:induction false} TakenIsSent(ranges: seq<Span>, lastAck: int, curr: int, x: int)
    requires x in TakenFrom(ranges, lastAck, curr)
    ensures lastAck <= x <= curr
  {
    if x !in Taken(ranges[0], lastAck) {
      TakenIsSent(ranges[1..], lastAck, curr, x);
    }
  }

  // ---------- what the code takes, by wire numbers alone ----------

  /** What the code makes of an entry: the connection is broken, nothing happens, or the numbers
      from the first to the last are taken for lost. */
  datatype Verdict = Reject | Skip | Take(first: int, last: int)

  /** lo is the last acknowledgement heard, hi the largest number sent. */
  function Judge(item: Item, lo: int, hi: int): Verdict {
    match item
    case One(x) =>
      if SeqCmp(x, lo) < 0 then Skip
      else if SeqCmp(x, hi) > 0 then Reject
      else Take(x, x)
    case Pair(a, b) =>
      if SeqCmp(a, b) > 0 || SeqCmp(b, hi) > 0 then Reject
      else if SeqCmp(a, lo) >= 0 then Take(a, b)
      else if SeqCmp(b, lo) >= 0 then Take(lo, b)
      else Skip
  }

  predicate OnRing(item: Item) {
    match item
    case One(x) => IsSeq(x)
    case Pair(a, b) => IsSeq(a) && IsSeq(b)
  }

  /** What is taken is among the n numbers from lo on, those sent and not acknowledged. */
  predicate InFlight(v: Verdict, lo: int, n: nat) {
    v.Take? ==> Ahead(lo, v.first) <= Ahead(lo, v.last) < n
  }

  /** Neither end of the entry is one that the tests of the code misjudge. */
  predicate Sound(item: Item, lo: int, n: nat, hi: int) {
    match item
    case One(x) => !Misread(lo, hi, n, x)
    case Pair(a, b) =>
      if SeqCmp(a, lo) >= 0 then Ahead(lo, b) < n && Ahead(lo, a) < HALF else !Misread(lo, hi, n, b)
  }

  /** For every entry the code takes: it takes only numbers in flight exactly when the entry is
      sound. */
  lemma ItemIsExact(item: Item, lo: int, n: nat, hi: int)
    requires IsLast(lo, n, hi) && n <= SEQ_TH && OnRing(item) && Judge(item, lo, hi).Take?
    ensures InFlight(Judge(item, lo, hi), lo, n) <==> Sound(item, lo, n, hi)
  {
    match item
    case One(x) => BetweenIsExact(lo, n, hi, x);
    case Pair(a, b) =>
      if SeqCmp(a, lo) >= 0 {
        PairIsExact(lo, n, hi, a, b);
      } else {
        BetweenIsExact(lo, n, hi, b);
      }
  }

  /** Everything taken up to the first entry refused is in flight. */
  predicate AllInFlight(items: seq<Item>, lo: int, n: nat, hi: int) {
    items == [] || Judge(items[0], lo, hi).Reject?
    || (InFlight(Judge(items[0], lo, hi), lo, n) && AllInFlight(items[1..], lo, n, hi))
  }

  predicate AllSound(items: seq<Item>, lo: int, n: nat, hi: int) {
    items == [] || Judge(items[0], lo, hi).Reject?
    || ((Judge(items[0], lo, hi).Take? ==> Sound(items[0], lo, n, hi)) && AllSound(items[1..], lo, n, hi))
  }

  /** From a report, whatever its words are, the code takes only numbers in flight exactly when
      the entries up to the first one refused are sound. */
  lemma {:induction false} ReportIsExact(items: seq<Item>, lo: int, n: nat, hi: int)
    requires IsLast(lo, n, hi) && n <= SEQ_TH && forall k :: 0 <= k < |items| ==> OnRing(items[k])
    ensures AllInFlight(items, lo, n, hi) <==> AllSound(items, lo, n, hi)
  {
    hide Judge, InFlight, Sound, IsLast;
    if items != [] {
      TakesNothing(items[0], lo, n, hi);
      if Judge(items[0], lo, hi).Take? {
        ItemIsExact(items[0], lo, n, hi);
      }
      ReportIsExact(items[1..], lo, n, hi);
    }
  }

  lemma TakesNothing(item: Item, lo: int, n: nat, hi: int)
    ensures !Judge(item, lo, hi).Take? ==> InFlight(Judge(item, lo, hi), lo, n)
  {
  }

  /** The entries of a decoded report are numbers on the ring. */
  lemma {:induction false} DecodedOnRing(words: seq<int>)
    requires AllWords(words) && Decode(words).Report?
    ensures forall k :: 0 <= k < |Decode(words).items| ==> OnRing(Decode(words).items[k])
  {
    if words != [] {
      assert IsWord(words[0]);
      if !IsFlagged(words[0]) {
        DecodedOnRing(words[1..]);
      } else {
        assert IsWord(words[1]);
        DecodedOnRing(words[2..]);
      }
    }
  }

  /** A pair that is not sound: both tests of its branch pass, and about 2^30 acknowledged numbers
      are taken besides some that were never sent. */
  lemma PairReachesBack()
    ensures var lo, n, hi := 0x5000_0000, 11, 0x5000_000A;
            var item := Pair(lo - 10 - 0x3FFF_FFFA, lo - 10);
            && IsLast(lo, n, hi) && OnRing(item)
            && Judge(item, lo, hi) == Take(item.a, item.b) && SeqLen(item.a, item.b) == 0x3FFF_FFFB
            && Ahead(lo, item.a) >= n && Ahead(lo, item.b) >= n
            && Decode([item.a + 0x8000_0000, item.b]) == Report([item]) && AllWords([item.a + 0x8000_0000, item.b])
  {
    var a, b := 0x5000_0000 - 10 - 0x3FFF_FFFA, 0x5000_0000 - 10;
    assert [a + FLAG, b][2..] == [];
  }

  // ---------- entries as ranges of indices ----------

  /** The range of packet indices that the code makes of an entry. */
  function Reading(item: Item, lastAck: int, hi: int): Span {
    var lo := Wire(lastAck);
    match Judge(item, lo, hi)
    case Reject => Interval(1, 0)
    case Skip => Interval(lastAck - 1, lastAck - 1)
    case Take(first, last) => Interval(lastAck + Ahead(lo, first), lastAck + Ahead(lo, last))
  }

  function Readings(items: seq<Item>, lastAck: int, hi: int): seq<Span> {
    if items == [] then [] else [Reading(items[0], lastAck, hi)] + Readings(items[1..], lastAck, hi)
  }

  lemma {:induction false} ReadingsAt(items: seq<Item>, lastAck: int, hi: int, k: nat)
    requires k <= |items|
    ensures |Readings(items, lastAck, hi)| == |items|
    ensures k < |items| ==> Readings(items, lastAck, hi)[k] == Reading(items[k], lastAck, hi)
  {
    if items != [] {
      ReadingsAt(items[1..], lastAck, hi, if k > 0 then k - 1 else 0);
    }
  }

  lemma SoundNext(items: seq<Item>, k: nat, lo: int, n: nat, hi: int)
    requires k < |items| && AllSound(items[k..], lo, n, hi)
    ensures Judge(items[k], lo, hi).Take? ==> Sound(items[k], lo, n, hi)
    ensures !Judge(items[k], lo, hi).Reject? ==> AllSound(items[k + 1..], lo, n, hi)
  {
    assert items[k..][0] == items[k] && items[k..][1..] == items[k + 1..];
  }

  lemma ReadingIs(item: Item, lastAck: int, curr: int, hi: int)
    requires OnRing(item) && lastAck <= curr + 1
    ensures var r, v := Reading(item, lastAck, hi), Judge(item, Wire(lastAck), hi);
            && (v.Reject? ==> Refused(r, lastAck, curr))
            && (v.Skip? ==> !Refused(r, lastAck, curr) && Taken(r, lastAck) == {})
            && (v.Take? && InFlight(v, Wire(lastAck), curr + 1 - lastAck) ==>
                  !Refused(r, lastAck, curr) && lastAck <= r.lo <= r.hi <= curr && Taken(r, lastAck) == Range(r))
  {
    StepAgrees(lastAck);
    hide Wire, SeqCmp, Range;
  }

  /** The range lies within one comparison window of both ends, and of itself. */
  predicate NearBoth(v: Span, lastAck: int, curr: int) {
    && Abs(v.lo - lastAck) < SEQ_TH && Abs(v.hi - lastAck) < SEQ_TH
    && Abs(v.lo - curr) < SEQ_TH && Abs(v.hi - curr) < SEQ_TH && Abs(v.hi - v.lo) < SEQ_TH
  }

  /** The verdict on a range of indices near the sender's own. */
  lemma HonestVerdict(v: Span, lastAck: int, curr: int, hi: int)
    requires IsCurrent(hi, curr)
    requires NearBoth(v, lastAck, curr)
    ensures Judge(ItemOf(v), Wire(lastAck), hi) ==
            if Refused(v, lastAck, curr) then Reject
            else if v.hi < lastAck then Skip
            else Take(Wire(Clip(v, lastAck).lo), Wire(v.hi))
  {
    WindowAgrees(v.lo, v.hi);
    WindowAgrees(v.lo, lastAck);
    WindowAgrees(v.hi, lastAck);
    CurrentAgrees(hi, curr, v.lo);
    CurrentAgrees(hi, curr, v.hi);
    hide Wire, SeqCmp;
  }

  /** A range of indices near the sender's own is sound and is read as what it says. */
  lemma HonestItem(v: Span, lastAck: int, curr: int, hi: int)
    requires lastAck <= curr + 1 && curr + 1 - lastAck <= SEQ_TH && IsCurrent(hi, curr)
    requires IsLast(Wire(lastAck), curr + 1 - lastAck, hi)
    requires NearBoth(v, lastAck, curr)
    ensures var item, r := ItemOf(v), Reading(ItemOf(v), lastAck, hi);
            && OnRing(item)
            && (Judge(item, Wire(lastAck), hi).Take? ==> Sound(item, Wire(lastAck), curr + 1 - lastAck, hi))
            && (Refused(r, lastAck, curr) <==> Refused(v, lastAck, curr))
            && (!Refused(v, lastAck, curr) ==> Taken(r, lastAck) == Taken(v, lastAck))
  {
    hide Wire, Judge, IsLast, Sound, Range;
    HonestVerdict(v, lastAck, curr, hi);
    StepAgrees(v.lo);
    StepAgrees(v.hi);
    ReadingIs(ItemOf(v), lastAck, curr, hi);
    if !Refused(v, lastAck, curr) && lastAck <= v.hi {
      AheadOfSelf(lastAck, Clip(v, lastAck).lo - lastAck);
      AheadOfSelf(lastAck, v.hi - lastAck);
      hide Ahead;
      ItemIsExact(ItemOf(v), Wire(lastAck), curr + 1 - lastAck, hi);
    }
  }

  /** A report of ranges near the sender's own is read as what it says. */
  lemma {:induction false} HonestReadings(ranges: seq<Span>, lastAck: int, curr: int, hi: int)
    requires lastAck <= curr + 1 && curr + 1 - lastAck <= SEQ_TH && IsCurrent(hi, curr)
    requires IsLast(Wire(lastAck), curr + 1 - lastAck, hi)
    requires forall k :: 0 <= k < |ranges| ==> NearBoth(ranges[k], lastAck, curr)
    ensures AllSound(Items(ranges), Wire(lastAck), curr + 1 - lastAck, hi)
    ensures var rs := Readings(Items(ranges), lastAck, hi);
            && TakenFrom(rs, lastAck, curr) == TakenFrom(ranges, lastAck, curr)
            && (Secure(rs, lastAck, curr) <==> Secure(ranges, lastAck, curr))
  {
    hide Wire, Judge, IsLast, Sound, Reading, ItemOf, Refused, Taken, IsCurrent;
    if ranges != [] {
      var rest := Readings(Items(ranges[1..]), lastAck, hi);
      assert NearBoth(ranges[0], lastAck, curr);
      HonestItem(ranges[0], lastAck, curr, hi);
      HonestReadings(ranges[1..], lastAck, curr, hi);
      SecureNext(ranges, lastAck, curr);
      SecureNext([Reading(ItemOf(ranges[0]), lastAck, hi)] + rest, lastAck, curr);
    }
  }

  lemma SecureNext(ranges: seq<Span>, lastAck: int, curr: int)
    requires ranges != []
    ensures Secure(ranges, lastAck, curr) <==> !Refused(ranges[0], lastAck, curr) && Secure(ranges[1..], lastAck, curr)
  {
    hide Refused;
    assert forall k :: 1 <= k < |ranges| ==> ranges[k] == ranges[1..][k - 1];
  }

  // ---------- walking through a report ----------

  /** The words from i on decode to the entries from k on: what the next words are. */
  lemma NextWords(words: seq<int>, i: nat, items: seq<Item>, k: nat)
    requires i <= |words| && k <= |items| && Decode(words[i..]) == Report(items[k..])
    ensures i == |words| <==> k == |items|
    ensures i < |words| ==>
              if !IsFlagged(words[i])
              then items[k] == One(words[i]) && Decode(words[i + 1..]) == Report(items[k + 1..])
              else i + 2 <= |words| && items[k] == Pair(Number(words[i]), words[i + 1])
                   && Decode(words[i + 2..]) == Report(items[k + 1..])
  {
    var w, r := words[i..], items[k..];
    DecodeEmpty(w);
    if i < |words| {
      FirstItem(w, r);
      assert w[0] == words[i] && w[1..] == words[i + 1..] && r[0] == items[k] && r[1..] == items[k + 1..];
      assert |w| > 1 ==> w[1] == words[i + 1] && w[2..] == words[i + 2..];
    }
  }

  lemma DecodeEmpty(w: seq<int>)
    ensures Decode(w) == Report([]) <==> |w| == 0
  {
  }

  /** The first words of a report and its first entry. */
  lemma FirstItem(w: seq<int>, r: seq<Item>)
    requires |w| > 0 && Decode(w) == Report(r)
    ensures |r| > 0
    ensures !IsFlagged(w[0]) ==> r[0] == One(w[0]) && Decode(w[1..]) == Report(r[1..])
    ensures IsFlagged(w[0]) ==> |w| > 1 && r[0] == Pair(Number(w[0]), w[1]) && Decode(w[2..]) == Report(r[1..])
  {
    var rest := Decode(if IsFlagged(w[0]) then w[2..] else w[1..]).items;
    assert r == [r[0]] + rest;
    assert r[1..] == rest;
  }

  /** What remains to be taken after the k-th range. */
  lemma TakenNext(ranges: seq<Span>, k: nat, lastAck: int, curr: int)
    requires k < |ranges|
    ensures Refused(ranges[k], lastAck, curr) ==> TakenFrom(ranges[k..], lastAck, curr) == {}
    ensures !Refused(ranges[k], lastAck, curr) ==>
              TakenFrom(ranges[k..], lastAck, curr)
              == Taken(ranges[k], lastAck) + TakenFrom(ranges[k + 1..], lastAck, curr)
  {
    assert ranges[k..][1..] == ranges[k + 1..];
  }
}

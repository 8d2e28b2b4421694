/** 31-bit packet sequence numbers (`CSeqNo`).

    A number on the wire is an integer in `[0, MAX_SEQ]`.  Every packet also has an
    unbounded index, of which the wire number is the residue modulo 2^31.  The lemmas say
    when arithmetic on wire numbers agrees with arithmetic on the unbounded indices. */
module SeqNo {
  /** Distances below this threshold are compared without wrapping. */
  const SEQ_TH: int := 0x3FFFFFFF

  const MAX_SEQ: int := 0x7FFFFFFF

  const MODULUS: int := 0x8000_0000

  predicate IsSeq(s: int) {
    0 <= s <= MAX_SEQ
  }

  predicate FitsInt32(x: int) {
    -0x8000_0000 <= x <= 0x7FFF_FFFF
  }

  function Abs(x: int): int {
    if x < 0 then -x else x
  }

  function SeqCmp(seq1: int, seq2: int): int {
    if Abs(seq1 - seq2) < SEQ_TH then seq1 - seq2 else seq2 - seq1
  }

  function SeqLen(seq1: int, seq2: int): int {
    if seq1 <= seq2 then seq2 - seq1 + 1 else seq2 - seq1 + MAX_SEQ + 2
  }

  function SeqOff(seq1: int, seq2: int): int {
    if Abs(seq1 - seq2) < SEQ_TH then seq2 - seq1
    else if seq1 < seq2 then seq2 - seq1 - MAX_SEQ - 1
    else seq2 - seq1 + MAX_SEQ + 1
  }

  function IncSeq(seqno: int): int {
    if seqno == MAX_SEQ then 0 else seqno + 1
  }

  function DecSeq(seqno: int): int {
    if seqno == 0 then MAX_SEQ else seqno - 1
  }

  function IncSeqBy(seqno: int, inc: int): int {
    if MAX_SEQ - seqno >= inc then seqno + inc else seqno - MAX_SEQ + inc - 1
  }

  /** The wire number of the packet with index `i`. */
  function Wire(i: int): int {
    i % MODULUS
  }

  /** The stored form of a "last number so far" variable.  It is the wire number, except
      that a connection whose initial number is 0 starts it at -1 instead of `MAX_SEQ`. */
  predicate IsCurrent(stored: int, i: int) {
    stored == Wire(i) || (stored == -1 && Wire(i) == MAX_SEQ)
  }

  // ---------- the two representations agree inside the window ----------

  /** Offsets, comparisons and lengths of two wire numbers are those of the indices. */
  lemma WindowAgrees(i: int, j: int)
    requires Abs(j - i) < SEQ_TH
    ensures SeqOff(Wire(i), Wire(j)) == j - i
    ensures SeqCmp(Wire(i), Wire(j)) < 0 <==> i < j
    ensures SeqCmp(Wire(i), Wire(j)) == 0 <==> i == j
    ensures Wire(i) == Wire(j) <==> i == j
    ensures i <= j ==> SeqLen(Wire(i), Wire(j)) == j - i + 1
  {
  }

  /** The threshold is exact: a distance agrees at every position of the ring if and only
      if it is below the threshold. */
  lemma WindowIsExact(d: int)
    requires 0 <= d
    ensures d < SEQ_TH <==> forall i: int :: SeqOff(Wire(i), Wire(i + d)) == d
  {
    if d < SEQ_TH {
      forall i: int ensures SeqOff(Wire(i), Wire(i + d)) == d {
        WindowAgrees(i, i + d);
      }
    } else {
      assert SeqOff(Wire(0), Wire(0 + d)) != d;
    }
  }

  lemma StepAgrees(i: int)
    ensures IncSeq(Wire(i)) == Wire(i + 1)
    ensures DecSeq(Wire(i)) == Wire(i - 1)
    ensures IsSeq(Wire(i))
  {
  }

  /** A "last number so far" that still holds -1 behaves as its index does. */
  lemma CurrentAgrees(stored: int, i: int, j: int)
    requires IsCurrent(stored, i) && Abs(j - i) < SEQ_TH
    ensures IncSeq(stored) == Wire(i + 1)
    ensures SeqCmp(Wire(j), stored) > 0 <==> j > i
    ensures SeqCmp(Wire(j), stored) == 0 <==> (j == i && stored != -1)
  {
    StepAgrees(i);
    if stored == Wire(i) {
      WindowAgrees(i, j);
    } else {
      AroundTheTop(i, j);
      hide Wire;
    }
  }

  /** The numbers around one whose wire form is the largest. */
  lemma AroundTheTop(i: int, j: int)
    requires Wire(i) == MAX_SEQ && Abs(j - i) < SEQ_TH
    ensures Wire(j) == if j > i then j - i - 1 else MODULUS + j - i - 1
  {
    var q, d := i / MODULUS, j - i;
    assert i == q * MODULUS + MAX_SEQ;
    if d > 0 {
      assert j == (q + 1) * MODULUS + (d - 1);
    } else {
      assert j == q * MODULUS + (MAX_SEQ + d);
    }
  }

  // ---------- the order ----------

  /** For every pair of numbers, comparing has the sign of the offset taken the other way. */
  lemma CmpHasSignOfOffset(a: int, b: int)
    requires IsSeq(a) && IsSeq(b)
    ensures SeqCmp(a, b) < 0 <==> SeqOff(b, a) < 0
    ensures SeqCmp(a, b) == 0 <==> SeqOff(b, a) == 0
    ensures SeqCmp(a, b) == 0 <==> a == b
    ensures SeqCmp(a, b) < 0 <==> SeqCmp(b, a) > 0
  {
  }

  predicate InWindow(base: int, s: int) {
    IsSeq(s) && Wire(s - base) < SEQ_TH
  }

  lemma Placed(base: int, s: int)
    requires IsSeq(s)
    ensures Wire(base + Wire(s - base)) == s
  {
    var q := (s - base) / MODULUS;
    assert base + Wire(s - base) == s - q * MODULUS;
  }

  /** Inside any window shorter than the threshold, comparing two numbers compares their
      distances from the start of the window: a strict total order. */
  lemma WindowIsOrdered(base: int, a: int, b: int)
    requires InWindow(base, a) && InWindow(base, b)
    ensures SeqCmp(a, b) < 0 <==> Wire(a - base) < Wire(b - base)
    ensures a == b <==> Wire(a - base) == Wire(b - base)
  {
    Placed(base, a);
    Placed(base, b);
    WindowAgrees(base + Wire(a - base), base + Wire(b - base));
  }

  /** The n numbers from base on. */
  predicate InRun(base: int, n: nat, s: int) {
    IsSeq(s) && Wire(s - base) < n
  }

  /** Comparison is a strict total order on the n numbers from base on. */
  ghost predicate StrictlyOrders(base: int, n: nat) {
    && (forall a, b :: InRun(base, n, a) && InRun(base, n, b) ==>
          !(SeqCmp(a, b) < 0 && SeqCmp(b, a) < 0) && (a == b || SeqCmp(a, b) < 0 || SeqCmp(b, a) < 0))
    && (forall a, b, c :: InRun(base, n, a) && InRun(base, n, b) && InRun(base, n, c) ==>
          SeqCmp(a, b) < 0 && SeqCmp(b, c) < 0 ==> SeqCmp(a, c) < 0)
  }

  /** One number more than the threshold is too many: the first, the second and the last of
      that many numbers form a cycle. */
  lemma RingIsNotOrdered()
    ensures exists a, b, c :: InRun(0, SEQ_TH + 1, a) && InRun(0, SEQ_TH + 1, b) && InRun(0, SEQ_TH + 1, c)
              && SeqCmp(a, b) < 0 && SeqCmp(b, c) < 0 && SeqCmp(c, a) < 0
  {
    var a, b, c := 0, 1, SEQ_TH;
    assert InRun(0, SEQ_TH + 1, a) && InRun(0, SEQ_TH + 1, b) && InRun(0, SEQ_TH + 1, c);
    assert SeqCmp(a, b) < 0 && SeqCmp(b, c) < 0 && SeqCmp(c, a) < 0;
  }

  /** The longest ordered window: comparison orders n consecutive numbers, at every place of the
      ring, exactly when n is at most the threshold. */
  lemma OrderIsExact(n: nat)
    ensures (forall base :: IsSeq(base) ==> StrictlyOrders(base, n)) <==> n <= SEQ_TH
  {
    if n <= SEQ_TH {
      forall base | IsSeq(base)
        ensures StrictlyOrders(base, n)
      {
        RunIsOrdered(base, n);
      }
    } else {
      assert InRun(0, n, 0) && InRun(0, n, 1) && InRun(0, n, SEQ_TH);
      assert SeqCmp(0, 1) < 0 && SeqCmp(1, SEQ_TH) < 0 && !(SeqCmp(0, SEQ_TH) < 0);
      assert !StrictlyOrders(0, n);
      assert IsSeq(0);
    }
  }

  lemma RunIsOrdered(base: int, n: nat)
    requires n <= SEQ_TH
    ensures StrictlyOrders(base, n)
  {
    forall a, b | InRun(base, n, a) && InRun(base, n, b)
      ensures SeqCmp(a, b) < 0 <==> Wire(a - base) < Wire(b - base)
      ensures a == b <==> Wire(a - base) == Wire(b - base)
    {
      WindowIsOrdered(base, a, b);
    }
    hide SeqCmp, Wire;
  }

  // ---------- numbers from anywhere on the ring ----------

  const HALF: int := 0x4000_0000

  /** How far b lies ahead of a, going up around the ring. */
  function Ahead(a: int, b: int): int {
    if a <= b then b - a else b - a + MODULUS
  }

  /** The number that lies that far ahead of an index. */
  lemma AheadOfIndex(i: int, x: int)
    requires IsSeq(x)
    ensures 0 <= Ahead(Wire(i), x) < MODULUS && Wire(i + Ahead(Wire(i), x)) == x
  {
    var q, r := i / MODULUS, Wire(i);
    assert i == q * MODULUS + r;
    if r <= x {
      assert i + Ahead(r, x) == q * MODULUS + x;
    } else {
      assert i + Ahead(r, x) == (q + 1) * MODULUS + x;
    }
  }

  lemma AheadOfSelf(i: int, d: int)
    requires 0 <= d < MODULUS
    ensures Ahead(Wire(i), Wire(i + d)) == d
  {
  }

  /** Seen from k numbers further on. */
  lemma AheadFrom(i: int, k: int, x: int)
    requires IsSeq(x) && 0 <= k < MODULUS
    ensures var d := Ahead(Wire(i), x);
            Ahead(Wire(i + k), x) == if k <= d then d - k else d - k + MODULUS
  {
  }

  /** The last of the n numbers from lo on, as a "last number so far" variable holds it. */
  predicate IsLast(lo: int, n: nat, hi: int) {
    IsSeq(lo) && (hi == LastOf(lo, n) || (hi == -1 && lo == 0 && n == 0))
  }

  function LastOf(lo: int, n: nat): int {
    if lo + n - 1 < 0 then MAX_SEQ
    else if lo + n - 1 > MAX_SEQ then lo + n - 1 - MODULUS
    else lo + n - 1
  }

  /** The numbers half a ring away that the two tests of a window take for numbers inside it. */
  predicate Misread(lo: int, hi: int, n: nat, x: int) {
    || (n == 0 && ((x == lo + SEQ_TH - 1 && hi < lo) || x == lo - SEQ_TH))
    || (n == 2 && lo == MAX_SEQ && (x == HALF - 1 || x == HALF))
    || (n == 3 && ((lo == MAX_SEQ && x == HALF) || (lo == MAX_SEQ - 1 && x == HALF - 1)))
  }

  /** Testing a number against both ends singles out the n numbers from lo to hi, on the whole
      ring, but for the few that are misread. */
  lemma BetweenIsExact(lo: int, n: nat, hi: int, x: int)
    requires IsLast(lo, n, hi) && n <= SEQ_TH && IsSeq(x)
    ensures SeqCmp(x, lo) >= 0 && SeqCmp(x, hi) <= 0 <==> Ahead(lo, x) < n || Misread(lo, hi, n, x)
    ensures Misread(lo, hi, n, x) ==> n <= Ahead(lo, x)
  {
  }

  /** The tests on a pair of numbers a, b that are in order, of which only b is tested against hi
      and only a against lo: they let through the pairs that lie between lo and hi, and those
      whose b is not between them or whose a is half a ring away. */
  lemma PairIsExact(lo: int, n: nat, hi: int, a: int, b: int)
    requires IsLast(lo, n, hi) && n <= SEQ_TH && IsSeq(a) && IsSeq(b)
    requires SeqCmp(a, b) <= 0 && SeqCmp(b, hi) <= 0 && SeqCmp(a, lo) >= 0
    ensures Ahead(lo, a) <= Ahead(lo, b) < n <==> Ahead(lo, b) < n && Ahead(lo, a) < HALF
  {
  }

  /** From four numbers on, what is missing is the test of b against lo. */
  lemma MissingTest(lo: int, n: nat, hi: int, a: int, b: int)
    requires IsLast(lo, n, hi) && 4 <= n <= SEQ_TH && IsSeq(a) && IsSeq(b)
    requires SeqCmp(a, b) <= 0 && SeqCmp(b, hi) <= 0 && SeqCmp(a, lo) >= 0 && Ahead(lo, a) < HALF
    ensures Ahead(lo, a) <= Ahead(lo, b) < n <==> SeqCmp(b, lo) >= 0
  {
    PairIsExact(lo, n, hi, a, b);
    BetweenIsExact(lo, n, hi, b);
  }

  // ---------- increments ----------

  function IncTimes(seqno: int, k: nat): int {
    if k == 0 then seqno else IncSeq(IncTimes(seqno, k - 1))
  }

  /** Adding k at once is k single increments, across the wrap too. */
  lemma {:induction false} IncByIsRepeatedInc(seqno: int, k: nat)
    requires IsSeq(seqno) && k <= MAX_SEQ
    ensures IncSeqBy(seqno, k) == IncTimes(seqno, k)
    ensures IsSeq(IncSeqBy(seqno, k))
  {
    if k > 0 {
      IncByIsRepeatedInc(seqno, k - 1);
    }
  }

  /** An increment below the threshold is recovered by the offset. */
  lemma OffsetInvertsIncrement(a: int, k: nat)
    requires IsSeq(a) && k < SEQ_TH
    ensures SeqOff(a, IncSeqBy(a, k)) == k
    ensures SeqOff(IncSeqBy(a, k), a) == 0 - k
    ensures SeqLen(a, IncSeqBy(a, k)) == k + 1
  {
  }

  // ---------- no int32 overflow ----------

  /** Every intermediate value of the comparison, the offset and the increment fits. */
  lemma ArithmeticFits(a: int, b: int, inc: int)
    requires IsSeq(a) && IsSeq(b) && 0 <= inc <= MAX_SEQ
    ensures FitsInt32(a - b) && FitsInt32(Abs(a - b)) && FitsInt32(SeqCmp(a, b))
    ensures a < b && Abs(a - b) >= SEQ_TH ==> FitsInt32(b - a - MAX_SEQ) && FitsInt32(SeqOff(a, b))
    ensures a > b && Abs(a - b) >= SEQ_TH ==> FitsInt32(b - a + MAX_SEQ) && FitsInt32(SeqOff(a, b))
    ensures MAX_SEQ - a >= inc ==> FitsInt32(a + inc)
    ensures MAX_SEQ - a < inc ==> FitsInt32(a - MAX_SEQ + inc) && IsSeq(IncSeqBy(a, inc))
  {
  }

  /** The length overflows exactly for the whole ring, when b is the number before a. */
  lemma LengthFitsUnlessFullRing(a: int, b: int)
    requires IsSeq(a) && IsSeq(b)
    ensures FitsInt32(SeqLen(a, b)) <==> b != DecSeq(a)
  {
  }
}

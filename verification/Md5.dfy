/** The incremental MD5 of the engine (`md5_init`, `md5_append`, `md5_finish`) around an
    arbitrary block function: whatever the chunks, the digest is that of the whole message
    padded as sections 3.1 and 3.2 of RFC 1321 say. */
module Md5s {
  import opened Arith

  type octet = x: int | 0 <= x < 0x100
  type word = x: int | 0 <= x < 0x1_0000_0000

  const BLOCK: nat := 64
  const TWO32: nat := 0x1_0000_0000
  const TWO64: nat := 0x1_0000_0000_0000_0000

  /** The digest buffer. */
  datatype Words = Words(a: word, b: word, c: word, d: word)

  const INIT: Words := Words(0x67452301, 0xefcdab89, 0x98badcfe, 0x10325476)

  /** What the block function does to the digest buffer. */
  type Process = (Words, seq<octet>) -> Words

  predicate Aligned(n: nat) {
    n % BLOCK == 0
  }

  /** The bytes in the whole blocks of a message of n bytes. */
  function Whole(n: nat): (w: nat)
    ensures Aligned(w) && w <= n < w + BLOCK
  {
    n - n % BLOCK
  }

  lemma WholeIs(n: nat, w: nat)
    requires Aligned(w) && w <= n < w + BLOCK
    ensures Whole(n) == w && Aligned(w + BLOCK)
  {
  }

  /** A message of whole blocks, processed in order. */
  function Fold(f: Process, m: seq<octet>): Words
    requires Aligned(|m|)
  {
    if |m| == 0 then INIT else f(Fold(f, m[..|m| - BLOCK]), m[|m| - BLOCK..])
  }

  /** A word, low-order byte first. */
  function Bytes(w: word): (r: seq<octet>)
    ensures |r| == 4
  {
    [w % 0x100, w / 0x100 % 0x100, w / 0x1_0000 % 0x100, w / 0x100_0000]
  }

  function Zeros(n: nat): (r: seq<octet>)
    ensures |r| == n && forall i :: 0 <= i < n ==> r[i] == 0
  {
    seq(n, _ => 0)
  }

  /** Eight bytes are left in the last block. */
  predicate LeavesRoom(length: nat) {
    length % BLOCK == 56
  }

  /** A single 1 bit and the fewest 0 bits that leave room for the length in the last block
      (section 3.1). */
  ghost predicate IsPadding(length: nat, padding: seq<octet>) {
    && |padding| > 0 && padding[0] == 0x80
    && (forall i :: 1 <= i < |padding| ==> padding[i] == 0)
    && LeavesRoom(length + |padding|)
    && (forall n :: length < n < length + |padding| ==> !LeavesRoom(n))
  }

  /** The length in bits before padding, modulo 2^64, low-order word first (section 3.2). */
  function LengthBytes(length: nat): (r: seq<octet>)
    ensures |r| == 8
  {
    var bits := 8 * length % TWO64;
    Bytes(bits % TWO32) + Bytes(bits / TWO32)
  }

  function Padding(length: nat): seq<octet> {
    [0x80] + Zeros((55 - length) % BLOCK)
  }

  lemma PaddingIsRight(length: nat)
    ensures IsPadding(length, Padding(length))
  {
    var k := (55 - length) % BLOCK;
    assert (length + k + 1) % BLOCK == 56;
    forall n | length < n < length + k + 1
      ensures !LeavesRoom(n)
    {
    }
  }

  /** There is only one padding for a length. */
  lemma PaddingIsUnique(length: nat, p: seq<octet>, q: seq<octet>)
    requires IsPadding(length, p) && IsPadding(length, q)
    ensures p == q
  {
    assert |p| == |q|;
  }

  lemma PaddedIsWhole(length: nat)
    ensures Aligned(length + |Padding(length)| + 8)
  {
  }

  /** The digest of a whole message. */
  function Digest(f: Process, m: seq<octet>): seq<octet> {
    PaddedIsWhole(|m|);
    var w := Fold(f, m + Padding(|m|) + LengthBytes(|m|));
    Bytes(w.a) + Bytes(w.b) + Bytes(w.c) + Bytes(w.d)
  }

  // ---------- the byte order, by values ----------

  /** The number that bytes stand for, low-order byte first. */
  function Value(bytes: seq<octet>): nat {
    if |bytes| == 0 then 0 else bytes[0] + 0x100 * Value(bytes[1..])
  }

  function Four(a: int, b: int, c: int, d: int): int {
    a + 0x100 * b + 0x1_0000 * c + 0x100_0000 * d
  }

  lemma ValueOfFour(r: seq<octet>)
    requires |r| == 4
    ensures Value(r) == Four(r[0], r[1], r[2], r[3])
  {
    assert r[1..][1..] == r[2..] && r[2..][1..] == r[3..] && r[3..][1..] == [];
    assert Value(r[3..]) == r[3];
    assert Value(r[2..]) == Four(r[2], r[3], 0, 0);
  }

  /** The four bytes of a word have its value, low-order byte first. */
  lemma BytesValue(w: word)
    ensures var r := Bytes(w); Four(r[0], r[1], r[2], r[3]) == w == Value(r)
  {
    var q := w / 0x100;
    var u := q / 0x100;
    assert w == 0x100 * q + w % 0x100 && q == 0x100 * u + q % 0x100 && u == 0x100 * (u / 0x100) + u % 0x100;
    assert w / 0x1_0000 == u && w / 0x100_0000 == u / 0x100;
    hide Value;
    ValueOfFour(Bytes(w));
  }

  lemma ValueOfEight(a: seq<octet>, b: seq<octet>)
    requires |a| == 4
    ensures Value(a + b) == Value(a) + TWO32 * Value(b)
  {
    var r := a + b;
    assert r[1..] == a[1..] + b && r[2..] == a[2..] + b && r[3..] == a[3..] + b && r[4..] == b;
    assert r[1..][1..] == r[2..] && r[2..][1..] == r[3..] && r[3..][1..] == r[4..];
    assert Value(r[3..]) == a[3] + 0x100 * Value(b);
    assert Value(r[2..]) == a[2] + 0x100 * Value(r[3..]);
    assert Value(r[1..]) == a[1] + 0x100 * Value(r[2..]);
    ValueOfFour(a);
  }

  /** The eight length bytes are the length in bits modulo 2^64, low-order byte first. */
  lemma LengthValue(length: nat)
    ensures Value(LengthBytes(length)) == 8 * length % TWO64
  {
    var bits := 8 * length % TWO64;
    BytesValue(bits % TWO32);
    BytesValue(bits / TWO32);
    ValueOfEight(Bytes(bits % TWO32), Bytes(bits / TWO32));
  }

  /** Bytes of the same number and value are the same. */
  lemma {:induction false} ValueIsOne(a: seq<octet>, b: seq<octet>)
    requires |a| == |b| && Value(a) == Value(b)
    ensures a == b
  {
    if |a| > 0 {
      assert a[0] == Value(a) % 0x100 && b[0] == Value(b) % 0x100;
      ValueIsOne(a[1..], b[1..]);
      assert a == [a[0]] + a[1..] && b == [b[0]] + b[1..];
    }
  }

  /** The initial registers, byte by byte, as section 3.3 lists them. */
  lemma InitBytes()
    ensures Bytes(INIT.a) == [0x01, 0x23, 0x45, 0x67] && Bytes(INIT.b) == [0x89, 0xab, 0xcd, 0xef]
    ensures Bytes(INIT.c) == [0xfe, 0xdc, 0xba, 0x98] && Bytes(INIT.d) == [0x76, 0x54, 0x32, 0x10]
  {
  }

  /** Blocks are processed in order from the initial registers. */
  lemma FoldBlocks(f: Process, m: seq<octet>, block: seq<octet>)
    requires Aligned(|m|) && |block| == BLOCK
    ensures Fold(f, []) == INIT && Aligned(|m + block|) && Fold(f, m + block) == f(Fold(f, m), block)
  {
    assert (m + block)[..|m|] == m && (m + block)[|m|..] == block;
  }

  /** The digest, said by values: for any padding as section 3.1 describes it and any eight bytes
      that have the length in bits for their value, the sixteen bytes have the values of the four
      registers in order, each low-order byte first, after the padded message was processed. */
  lemma DigestIsRight(f: Process, m: seq<octet>, padding: seq<octet>, length: seq<octet>)
    requires IsPadding(|m|, padding) && |length| == 8 && Value(length) == 8 * |m| % TWO64
    ensures Aligned(|m + padding + length|)
    ensures var w, r := Fold(f, m + padding + length), Digest(f, m);
            && |r| == 16 && Value(r[..4]) == w.a && Value(r[4..8]) == w.b
            && Value(r[8..12]) == w.c && Value(r[12..]) == w.d
  {
    hide Fold, IsPadding, Padding, LengthBytes, Bytes, Value, Aligned;
    PaddingIsRight(|m|);
    PaddingIsUnique(|m|, padding, Padding(|m|));
    LengthValue(|m|);
    ValueIsOne(length, LengthBytes(|m|));
    PaddedIsWhole(|m|);
    var w := Fold(f, m + padding + length);
    BytesValue(w.a);
    BytesValue(w.b);
    BytesValue(w.c);
    BytesValue(w.d);
    FourParts(Bytes(w.a), Bytes(w.b), Bytes(w.c), Bytes(w.d));
  }

  lemma FourParts(a: seq<octet>, b: seq<octet>, c: seq<octet>, d: seq<octet>)
    requires |a| == |b| == |c| == |d| == 4
    ensures var r := a + b + c + d;
            |r| == 16 && r[..4] == a && r[4..8] == b && r[8..12] == c && r[12..] == d
  {
  }

  /** `md5_finish` takes the length of its padding from the low word of the count. */
  lemma PaddingFromCount(length: nat, count: word)
    requires count == 8 * length % TWO32
    ensures (55 - count / 8) % 64 + 1 == |Padding(length)|
  {
    var q := 8 * length / TWO32;
    var k := length - q * 0x2000_0000;
    assert 8 * length == q * TWO32 + count && count == 8 * k;
    var a, b := (55 - length) / 64, (55 - length) % 64;
    DivMod(55 - k, 64, a + q * 0x80_0000, b);
  }

  /** The two 32-bit words of the count, with carry, are the bit count modulo 2^64. */
  lemma CountCarries(c0: word, c1: word, n: nat, length: nat)
    requires n < 0x8000_0000 && c1 * TWO32 + c0 == 8 * length % TWO64
    ensures var nbits := 8 * n % TWO32;
      var s0 := (c0 + nbits) % TWO32;
      var s1 := (c1 + n / 0x2000_0000 + (if s0 < nbits then 1 else 0)) % TWO32;
      s1 * TWO32 + s0 == 8 * (length + n) % TWO64
  {
    var nbits, high := 8 * n % TWO32, n / 0x2000_0000;
    assert 8 * n == high * TWO32 + nbits;
    WordSum(c0, c1, nbits, high);
    var q := 8 * length / TWO64;
    Modulo64(8 * (length + n), q, c1 * TWO32 + c0 + 8 * n);
  }

  /** Adding word by word with a carry is adding modulo 2^64. */
  lemma WordSum(c0: word, c1: word, nbits: word, high: word)
    requires high < 4
    ensures var s0 := (c0 + nbits) % TWO32;
      var s1 := (c1 + high + (if s0 < nbits then 1 else 0)) % TWO32;
      s1 * TWO32 + s0 == (c1 * TWO32 + c0 + high * TWO32 + nbits) % TWO64
  {
    var s0 := (c0 + nbits) % TWO32;
    var carry := if c0 + nbits >= TWO32 then 1 else 0;
    assert s0 == c0 + nbits - carry * TWO32 && (s0 < nbits) == (carry == 1);
    var t := c1 + high + carry;
    var over := if t >= TWO32 then 1 else 0;
    assert t % TWO32 == t - over * TWO32;
    DivMod(c1 * TWO32 + c0 + high * TWO32 + nbits, TWO64, over, (t - over * TWO32) * TWO32 + s0);
  }

  lemma Modulo64(x: nat, q: nat, r: nat)
    requires x == q * TWO64 + r
    ensures x % TWO64 == r % TWO64
  {
    ModOfMultiple(q + r / TWO64, TWO64, r % TWO64);
  }

  /** The low word of the count is enough to find the place in the block. */
  lemma LowWord(c0: word, c1: word, length: nat)
    requires c1 * TWO32 + c0 == 8 * length % TWO64
    ensures c0 == 8 * length % TWO32
    ensures c0 / 8 % 64 == length % BLOCK
  {
    var x := 8 * length / TWO64 * TWO32 + c1;
    assert 8 * length == x * TWO32 + c0;
    ModOfMultiple(x, TWO32, c0);
    var y := length - x * 0x2000_0000;
    assert c0 == 8 * y && c0 / 8 == y;
    PlaceInBlock(length, x * 0x80_0000, y);
  }

  lemma PlaceInBlock(length: nat, k: int, y: nat)
    requires length == 64 * k + y
    ensures y % 64 == length % BLOCK
  {
  }

  lemma WrapTwice(x: nat)
    ensures (x % TWO32 + 1) % TWO32 == (x + 1) % TWO32
  {
  }

  /** One more block. */
  lemma FoldBlock(f: Process, m: seq<octet>, k: nat)
    requires Aligned(k) && k + BLOCK <= |m|
    ensures Aligned(k + BLOCK)
    ensures Fold(f, m[..k + BLOCK]) == f(Fold(f, m[..k]), m[k..k + BLOCK])
  {
    var t := m[..k + BLOCK];
    assert t[..|t| - BLOCK] == m[..k] && t[|t| - BLOCK..] == m[k..k + BLOCK];
  }

  lemma SliceOfSlice(m: seq<octet>, a: nat, i: nat, j: nat)
    requires a <= |m| && i <= j <= |m| - a
    ensures m[a + i..a + j] == m[a..][i..j]
  {
  }

  lemma SliceOfSum(a: seq<octet>, b: seq<octet>, n: nat)
    requires n <= |a|
    ensures (a + b)[..n] == a[..n] && (a + b)[n..] == a[n..] + b
    ensures (a + b)[..|a| + |b|] == a + b && (a + b)[n..|a| + |b|] == a[n..] + b
  {
  }

  lemma Prefix(a: seq<octet>, b: seq<octet>, p: nat)
    requires p <= |b|
    ensures (a + b)[..|a| + p] == a + b[..p] && (a + b)[|a|..] == b
    ensures p == 0 ==> (a + b)[..|a| + p] == a
  {
  }

  lemma Suffix(a: seq<octet>, b: seq<octet>, p: nat)
    requires p <= |b|
    ensures (a + b)[|a| + p..] == b[p..]
  {
  }

  class Md5State {
    const process: Process
    var count0: word
    var count1: word
    var abcd: Words
    var buf: array<octet>

    /** Everything appended so far. */
    ghost var message: seq<octet>

    ghost predicate Valid()
      reads this, buf
    {
      count1 * TWO32 + count0 == 8 * |message| % TWO64 && Held()
    }

    /** The whole blocks are in the digest buffer and the rest waits in the block buffer. */
    ghost predicate Held()
      reads this`abcd, this`buf, this`message, buf
    {
      var w := Whole(|message|);
      buf.Length == BLOCK && abcd == Fold(process, message[..w]) && buf[..|message| - w] == message[w..]
    }

    /** `md5_init`. */
    constructor (f: Process)
      ensures Valid() && message == [] && process == f && fresh(buf)
    {
      process := f;
      count0, count1, abcd := 0, 0, INIT;
      buf := new octet[BLOCK](_ => 0);
      message := [];
    }

    /** How many bytes wait in the buffer. */
    lemma OffsetFromCount()
      requires count1 * TWO32 + count0 == 8 * |message| % TWO64
      ensures count0 == 8 * |message| % TWO32
      ensures count0 / 8 % 64 == |message| - Whole(|message|)
    {
      LowWord(count0, count1, |message|);
    }

    /** `md5_process` on one block. */
    method ProcessBlock(block: seq<octet>)
      requires |block| == BLOCK
      modifies this`abcd
      ensures abcd == process(old(abcd), block)
    {
      abcd := process(abcd, block);
    }

    /** Copies bytes into the buffer. */
    method Fill(at: nat, bytes: seq<octet>)
      requires at + |bytes| <= buf.Length
      modifies buf
      ensures buf[..at] == old(buf[..at]) && buf[at..at + |bytes|] == bytes
      ensures buf[..at + |bytes|] == old(buf[..at]) + bytes
    {
      forall i | 0 <= i < |bytes| {
        buf[at + i] := bytes[i];
      }
    }

    /** Adds the bits of n bytes to the count. */
    method Count(n: nat)
      requires n < 0x8000_0000 && count1 * TWO32 + count0 == 8 * |message| % TWO64
      modifies this`count0, this`count1
      ensures count1 * TWO32 + count0 == 8 * (|message| + n) % TWO64
    {
      CountCarries(count0, count1, n, |message|);
      WrapTwice(count1 + n / 0x2000_0000);
      var nbits := 8 * n % TWO32;
      count1 := (count1 + n / 0x2000_0000) % TWO32;
      count0 := (count0 + nbits) % TWO32;
      if count0 < nbits {
        count1 := (count1 + 1) % TWO32;
      }
    }

    /** Full blocks go straight from the data; `before` bytes of the message came before it. */
    method Blocks(data: seq<octet>, from: nat, ghost m: seq<octet>, ghost before: nat) returns (p: nat)
      requires from <= |data| && before + |data| == |m| && m[before..] == data
      requires Aligned(before + from) && abcd == Fold(process, m[..before + from])
      modifies this`abcd
      ensures from <= p <= |data| < p + BLOCK
      ensures Aligned(before + p) && abcd == Fold(process, m[..before + p])
    {
      hide Aligned, Fold;
      p := from;
      while |data| - p >= BLOCK
        invariant from <= p <= |data|
        invariant Aligned(before + p) && abcd == Fold(process, m[..before + p])
      {
        FoldBlock(process, m, before + p);
        SliceOfSlice(m, before, p, p + BLOCK);
        ProcessBlock(data[p..p + BLOCK]);
        p := p + BLOCK;
      }
    }

    /** The first bytes complete the block in the buffer, or only add to it. */
    method Complete(data: seq<octet>, offset: nat) returns (copy: nat)
      requires Held() && 0 < |data| && 0 < offset == |message| - Whole(|message|)
      modifies this`abcd, buf
      ensures copy == if offset + |data| > BLOCK then BLOCK - offset else |data|
      ensures offset + copy < BLOCK ==> abcd == old(abcd) && buf[..offset + copy] == old(buf[..offset]) + data
      ensures offset + copy >= BLOCK ==>
        Aligned(|message| + copy) && abcd == Fold(process, message + data[..copy])
    {
      hide Aligned, Fold, Whole;
      copy := if offset + |data| > BLOCK then BLOCK - offset else |data|;
      Fill(offset, data[..copy]);
      if offset + copy < BLOCK {
        return;
      }
      ghost var w := |message| - offset;
      ghost var m := message + data[..copy];
      FoldBlock(process, m, w);
      SliceOfSum(message, data[..copy], w);
      assert buf[..offset + copy] == buf[..] && offset + copy == BLOCK;
      ProcessBlock(buf[..]);
    }

    /** `md5_append`. */
    method Append(data: seq<octet>)
      requires Valid() && |data| < 0x8000_0000
      modifies this`count0, this`count1, this`abcd, this`message, buf
      ensures Valid() && message == old(message) + data
    {
      hide Held, Fold, Whole, Aligned;
      OffsetFromCount();
      var offset := count0 / 8 % 64;
      if |data| <= 0 {
        assert message + data == message;
        return;
      }
      Count(|data|);
      Absorb(data, offset);
    }

    /** Takes note of the message whose first w bytes are processed and whose rest is buffered. */
    ghost method Record(m: seq<octet>, w: nat)
      requires buf.Length == BLOCK && Aligned(w) && w <= |m| < w + BLOCK
      requires abcd == Fold(process, m[..w]) && buf[..|m| - w] == m[w..]
      modifies this`message
      ensures Held() && message == m
    {
      hide Aligned, Fold, Whole;
      WholeIs(|m|, w);
      message := m;
    }

    /** The rest of `md5_append`, after the count. */
    method Absorb(data: seq<octet>, offset: nat)
      requires Held() && 0 < |data| && offset == |message| - Whole(|message|)
      modifies this`abcd, this`message, buf
      ensures Held() && message == old(message) + data
    {
      hide Aligned, Fold, Whole;
      var p := 0;
      ghost var m := message + data;
      if offset != 0 {
        p := Complete(data, offset);
        if offset + p < BLOCK {
          WholeIs(|message|, |message| - offset);
          SliceOfSum(message, data, |message| - offset);
          Record(m, |message| - offset);
          return;
        }
      }
      Prefix(message, data, p);
      Rest(data, p);
    }

    /** The whole blocks from `from` on are processed and the remaining bytes are buffered. */
    method Rest(data: seq<octet>, from: nat)
      requires buf.Length == BLOCK && from <= |data| && Aligned(|message| + from)
      requires abcd == Fold(process, message + data[..from])
      modifies this`abcd, this`message, buf
      ensures Held() && message == old(message) + data
    {
      hide Aligned, Fold, Whole;
      ghost var m := message + data;
      Prefix(message, data, from);
      var p := Blocks(data, from, m, |message|);
      if p < |data| {
        Fill(0, data[p..]);
      }
      assert buf[..|data| - p] == data[p..];
      Suffix(message, data, p);
      Record(m, |message| + p);
    }

    /** `md5_finish`. */
    method Finish() returns (digest: seq<octet>)
      requires Valid()
      modifies this`count0, this`count1, this`abcd, this`message, buf
      ensures digest == Digest(process, old(message))
    {
      hide Fold, Held, Zeros, Bytes;
      OffsetFromCount();
      ghost var m := message;
      ghost var n := |message|;
      var data := Bytes(count0) + Bytes(count1);
      assert data == LengthBytes(n);
      PaddingFromCount(n, count0);
      var pad := [0x80] + Zeros(63);
      var length := (55 - count0 / 8) % 64 + 1;
      PaddingFromTable(n);
      Append(pad[..length]);
      Append(data);
      PaddedIsWhole(n);
      HeldWhole();
      digest := Bytes(abcd.a) + Bytes(abcd.b) + Bytes(abcd.c) + Bytes(abcd.d);
    }

    lemma HeldWhole()
      requires Held() && Aligned(|message|)
      ensures abcd == Fold(process, message)
    {
      WholeIs(|message|, |message|);
      assert message[..|message|] == message;
    }
  }

  lemma PaddingFromTable(n: nat)
    ensures |Padding(n)| <= 64 && ([0x80] + Zeros(63))[..|Padding(n)|] == Padding(n)
  {
  }

  /** `CMD5::compute`: the digest of a message in one go. */
  method Compute(f: Process, input: seq<octet>) returns (result: seq<octet>)
    requires |input| < 0x8000_0000
    ensures result == Digest(f, input)
  {
    var state := new Md5State(f);
    state.Append(input);
    assert state.message == input;
    result := state.Finish();
  }
}

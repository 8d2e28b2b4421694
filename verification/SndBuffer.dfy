/** The sender's buffer (`CSndBuffer`) in stream mode: a growing ring of packet blocks.

    The ring is a circular linked list.  The blocks from `first` up to `last` hold the
    queued packets; the ones from `first` up to `curr` have been sent at least once. */
module SndBuffers {
  import opened Arith

  type byte = bv8

  /** The packet header's message word: boundary flags, order flag and message number. */
  datatype Header = Header(first: bool, last: bool, inOrder: bool, number: int)

  datatype Packet = Packet(payload: seq<byte>, header: Header)

  const MAX_MSG: int := 0x1FFFFFFF

  // ---------- cutting data into packets ----------

  /** The packets of one send call, or of its rest when `first` is false. */
  function Chunks(data: seq<byte>, mss: int, first: bool, inOrder: bool, number: int): seq<Packet>
    requires 0 < mss
  {
    if data == [] then []
    else if |data| <= mss then [Packet(data, Header(first, true, inOrder, number))]
    else [Packet(data[..mss], Header(first, false, inOrder, number))]
         + Chunks(data[mss..], mss, false, inOrder, number)
  }

  /** The bytes of a sequence of packets. */
  function Bytes(packets: seq<Packet>): seq<byte> {
    if packets == [] then [] else packets[0].payload + Bytes(packets[1..])
  }

  lemma {:induction false} BytesConcat(a: seq<Packet>, b: seq<Packet>)
    ensures Bytes(a + b) == Bytes(a) + Bytes(b)
  {
    if a == [] {
      assert a + b == b;
    } else {
      assert (a + b)[1..] == a[1..] + b;
      BytesConcat(a[1..], b);
    }
  }

  /** Cutting loses nothing, and adds no empty or oversized packet. */
  lemma {:induction false} ChunksHoldData(data: seq<byte>, mss: int, first: bool, inOrder: bool, number: int)
    requires 0 < mss
    ensures Bytes(Chunks(data, mss, first, inOrder, number)) == data
    ensures forall k :: 0 <= k < |Chunks(data, mss, first, inOrder, number)| ==>
              0 < |Chunks(data, mss, first, inOrder, number)[k].payload| <= mss
  {
    var packets := Chunks(data, mss, first, inOrder, number);
    if |data| > mss {
      ChunksHoldData(data[mss..], mss, false, inOrder, number);
      assert packets[1..] == Chunks(data[mss..], mss, false, inOrder, number);
      assert data == data[..mss] + data[mss..];
    } else if data != [] {
      assert packets[1..] == [];
    }
  }

  /** Only the last packet is shorter than the others; exactly the first and the last one
      carry the boundary flags, and all carry the number of the call. */
  lemma {:induction false} ChunkFlags(data: seq<byte>, mss: int, first: bool, inOrder: bool, number: int, k: nat)
    requires 0 < mss && k < |Chunks(data, mss, first, inOrder, number)|
    ensures var packets := Chunks(data, mss, first, inOrder, number);
            && packets[k].header == Header(first && k == 0, k + 1 == |packets|, inOrder, number)
            && (k + 1 < |packets| ==> |packets[k].payload| == mss)
  {
    if |data| > mss && k > 0 {
      ChunkFlags(data[mss..], mss, false, inOrder, number, k - 1);
    }
    if |data| > mss && k == 0 {
      assert data[mss..] != [];
      assert Chunks(data[mss..], mss, false, inOrder, number) != [];
    }
  }

  /** The first packet of the data, and what is left. */
  lemma ChunkStep(data: seq<byte>, mss: int, first: bool, inOrder: bool, number: int)
    requires 0 < mss && data != []
    ensures var n := if |data| > mss then mss else |data|;
            Chunks(data, mss, first, inOrder, number)
            == [Packet(data[..n], Header(first, n == |data|, inOrder, number))]
               + Chunks(data[n..], mss, false, inOrder, number)
  {
    if |data| <= mss {
      assert data[..|data|] == data && data[|data|..] == [];
    }
  }

  lemma ChunksNone(mss: int, first: bool, inOrder: bool, number: int)
    requires 0 < mss
    ensures Chunks([], mss, first, inOrder, number) == []
  {
  }

  /** The number of blocks the code reserves: the length over the payload size, rounded up. */
  function BlockCount(len: int, mss: int): int
    requires 0 < mss && 0 <= len
  {
    len / mss + if len % mss != 0 then 1 else 0
  }

  lemma BlockCountStep(len: int, mss: int)
    requires 0 < mss && 0 <= len
    ensures 0 <= BlockCount(len, mss) && (BlockCount(len, mss) == 0 <==> len == 0)
    ensures 0 < len <= mss ==> BlockCount(len, mss) == 1
    ensures len > mss ==> BlockCount(len, mss) == 1 + BlockCount(len - mss, mss)
  {
    if 0 < len < mss {
      DivMod(len, mss, 0, len);
    } else if len == mss {
      DivMod(len, mss, 1, 0);
    } else if len > mss {
      DivMod(len - mss, mss, len / mss - 1, len % mss);
    }
  }

  lemma {:induction false} ChunksCount(data: seq<byte>, mss: int, first: bool, inOrder: bool, number: int)
    requires 0 < mss
    ensures |Chunks(data, mss, first, inOrder, number)| == BlockCount(|data|, mss)
  {
    BlockCountStep(|data|, mss);
    if |data| > mss {
      ChunksCount(data[mss..], mss, false, inOrder, number);
    }
  }

  /** The bytes from the offset on. */
  function Behind(data: seq<byte>, offset: int): seq<byte> {
    if 0 <= offset < |data| then data[offset..] else []
  }

  /** After i turns of the filling loop the packets done and the bytes behind the offset make
      up all packets. */
  predicate Filled(data: seq<byte>, mss: int, inOrder: bool, number: int, size: int, i: int, offset: int,
                   done: seq<Packet>)
    requires 0 < mss
  {
    && |done| == i <= size && 0 <= offset
    && size - i == BlockCount(|Behind(data, offset)|, mss)
    && done + Chunks(Behind(data, offset), mss, i == 0, inOrder, number) == Chunks(data, mss, true, inOrder, number)
  }

  lemma FilledNone(data: seq<byte>, mss: int, inOrder: bool, number: int)
    requires 0 < mss
    ensures Filled(data, mss, inOrder, number, BlockCount(|data|, mss), 0, 0, [])
  {
    BlockCountStep(|data|, mss);
    assert Behind(data, 0) == data;
  }

  lemma FilledAll(data: seq<byte>, mss: int, inOrder: bool, number: int, size: int, offset: int, done: seq<Packet>)
    requires 0 < mss && Filled(data, mss, inOrder, number, size, size, offset, done)
    ensures done == Chunks(data, mss, true, inOrder, number)
  {
    hide Chunks, BlockCount;
    BlockCountStep(|Behind(data, offset)|, mss);
    ChunksNone(mss, size == 0, inOrder, number);
  }

  lemma BehindNext(data: seq<byte>, mss: int, offset: int)
    requires 0 < mss && 0 <= offset < |data|
    ensures var rest := Behind(data, offset);
            var n := if |rest| > mss then mss else |rest|;
            && |rest| == |data| - offset > 0 && rest[..n] == data[offset..offset + n]
            && rest[n..] == Behind(data, offset + mss)
  {
  }

  lemma BehindCount(data: seq<byte>, mss: int, offset: int)
    requires 0 < mss && 0 <= offset < |data|
    ensures var left := BlockCount(|Behind(data, offset + mss)|, mss);
            BlockCount(|Behind(data, offset)|, mss) == 1 + left && (left == 0 <==> |data| - offset <= mss)
  {
    hide BlockCount;
    BlockCountStep(|data| - offset, mss);
    BlockCountStep(|Behind(data, offset + mss)|, mss);
  }

  lemma FilledNext(data: seq<byte>, mss: int, inOrder: bool, number: int, size: int, i: int, offset: int,
                   done: seq<Packet>)
    requires 0 < mss && Filled(data, mss, inOrder, number, size, i, offset, done) && i < size
    ensures 0 <= offset < |data|
    ensures var n := if |data| - offset > mss then mss else |data| - offset;
            var p := Packet(data[offset..offset + n], Header(i == 0, i == size - 1, inOrder, number));
            Filled(data, mss, inOrder, number, size, i + 1, offset + mss, done + [p])
  {
    hide Behind, Chunks, BlockCount;
    BehindEnds(data, mss, offset);
    BehindNext(data, mss, offset);
    BehindCount(data, mss, offset);
    ChunkStep(Behind(data, offset), mss, i == 0, inOrder, number);
    var n := if |data| - offset > mss then mss else |data| - offset;
    var p := Packet(data[offset..offset + n], Header(i == 0, i == size - 1, inOrder, number));
    AppendBehind(done, [p], Chunks(Behind(data, offset + mss), mss, false, inOrder, number));
  }

  /** Blocks are left to fill only when bytes are left. */
  lemma BehindEnds(data: seq<byte>, mss: int, offset: int)
    requires 0 < mss && 0 <= offset && BlockCount(|Behind(data, offset)|, mss) > 0
    ensures offset < |data|
  {
    BlockCountStep(0, mss);
  }

  lemma AppendBehind(a: seq<Packet>, b: seq<Packet>, c: seq<Packet>)
    ensures a + b + c == a + (b + c)
  {
  }

  // ---------- the ring ----------

  class Block {
    var data: seq<byte>
    var length: int
    var header: Header
    var next: Block?

    constructor ()
      ensures next == null
    {
      data, length, header, next := [], 0, Header(false, false, false, 0), null;
    }

    /** The packet held by a block whose length was set. */
    ghost predicate Stores(p: Packet)
      reads this
    {
      0 <= length <= |data| && data[..length] == p.payload && header == p.header
    }
  }

  /** Consecutive blocks are linked, the last one back to the first. */
  ghost predicate Linked(ring: seq<Block>, repr: set<Block>)
    reads repr
  {
    && |ring| > 0
    && (forall i :: 0 <= i < |ring| ==> ring[i] in repr)
    && (forall i, j :: 0 <= i < j < |ring| ==> ring[i] != ring[j])
    && (forall i :: 0 <= i < |ring| - 1 ==> ring[i].next == ring[i + 1])
    && ring[|ring| - 1].next == ring[0]
  }

  /** Every block has room for one full packet. */
  ghost predicate Sized(repr: set<Block>, mss: int)
    reads repr
  {
    forall b :: b in repr ==> |b.data| == mss
  }

  /** The first blocks hold the queued packets. */
  ghost predicate Holds(ring: seq<Block>, repr: set<Block>, queue: seq<Packet>)
    reads repr
  {
    && |queue| <= |ring|
    && forall i :: 0 <= i < |queue| ==> ring[i] in repr && ring[i].Stores(queue[i])
  }

  /** The same ring read from its k-th block on. */
  ghost function Rotate(ring: seq<Block>, k: nat): (r: seq<Block>)
    requires k < |ring|
    ensures |r| == |ring|
    ensures forall i :: 0 <= i < |ring| - k ==> r[i] == ring[i + k]
    ensures forall i :: |ring| - k <= i < |ring| ==> r[i] == ring[i + k - |ring|]
  {
    ring[k..] + ring[..k]
  }

  lemma RotateLinked(ring: seq<Block>, repr: set<Block>, k: nat)
    requires Linked(ring, repr) && k < |ring|
    ensures Linked(Rotate(ring, k), repr)
  {
    var r, n := Rotate(ring, k), |ring|;
    forall i | 0 <= i < n - 1 ensures r[i].next == r[i + 1] {
      var j := if i < n - k then i + k else i + k - n;
      assert r[i] == ring[j];
      assert j + 1 < n ==> ring[j].next == ring[j + 1];
    }
    assert k > 0 ==> r[n - 1] == ring[k - 1] && ring[k - 1].next == ring[k];
  }

  lemma RotateHolds(ring: seq<Block>, repr: set<Block>, queue: seq<Packet>, k: nat)
    requires k < |ring| && k <= |queue| && Holds(ring, repr, queue)
    ensures Holds(Rotate(ring, k), repr, queue[k..])
  {
    forall i | 0 <= i < |queue| - k
      ensures Rotate(ring, k)[i] in repr && Rotate(ring, k)[i].Stores(queue[k..][i])
    {
      assert ring[i + k].Stores(queue[i + k]);
    }
  }

  /** A chain of blocks; where its last block leads is left open. */
  ghost predicate Chain(blocks: seq<Block>, all: set<Block>)
    reads all
  {
    && |blocks| > 0
    && (forall i :: 0 <= i < |blocks| ==> blocks[i] in all)
    && (forall i, j :: 0 <= i < j < |blocks| ==> blocks[i] != blocks[j])
    && (forall i :: 0 <= i < |blocks| - 1 ==> blocks[i].next == blocks[i + 1])
  }

  /** The ring with the link out of its k-th block redirected to `to`. */
  ghost predicate Redirected(ring: seq<Block>, repr: set<Block>, k: nat, to: Block)
    reads repr
  {
    && k < |ring|
    && (forall i :: 0 <= i < |ring| ==> ring[i] in repr)
    && (forall i, j :: 0 <= i < j < |ring| ==> ring[i] != ring[j])
    && (forall i :: 0 <= i < |ring| - 1 && i != k ==> ring[i].next == ring[i + 1])
    && (k < |ring| - 1 ==> ring[|ring| - 1].next == ring[0])
    && ring[k].next == to
  }

  lemma NextInRing(ring: seq<Block>, repr: set<Block>, k: nat)
    requires Linked(ring, repr) && k < |ring|
    ensures ring[k] in repr && (k + 1 < |ring| ==> ring[k].next == ring[k + 1])
  {
  }

  /** New blocks behind the k-th block. */
  ghost function Splice(ring: seq<Block>, blocks: seq<Block>, k: nat): (r: seq<Block>)
    requires k < |ring|
    ensures |r| == |ring| + |blocks|
    ensures forall i :: 0 <= i <= k ==> r[i] == ring[i]
    ensures forall i :: k < i <= k + |blocks| ==> r[i] == blocks[i - k - 1]
    ensures forall i :: k + |blocks| < i < |ring| + |blocks| ==> r[i] == ring[i - |blocks|]
  {
    ring[..k + 1] + blocks + ring[k + 1..]
  }

  /** Redirecting one link into a chain, and the chain back, gives a longer ring. */
  lemma SpliceLinked(ring: seq<Block>, repr: set<Block>, blocks: seq<Block>, all: set<Block>, k: nat)
    requires Chain(blocks, all) && Redirected(ring, repr, k, blocks[0]) && repr !! all
    requires blocks[|blocks| - 1].next == ring[if k + 1 < |ring| then k + 1 else 0]
    ensures Linked(Splice(ring, blocks, k), repr + all)
  {
    var r, n := Splice(ring, blocks, k), |blocks|;
    forall i, j | 0 <= i < j < |r| ensures r[i] != r[j] {
      assert k < i <= k + n ==> r[i] in all;
      assert !(k < i <= k + n) ==> r[i] in repr;
      assert k < j <= k + n ==> r[j] in all;
      assert !(k < j <= k + n) ==> r[j] in repr;
    }
    forall i | 0 <= i < |r| - 1 ensures r[i].next == r[i + 1] {
      if k < i < k + n {
        assert blocks[i - k - 1].next == blocks[i - k];
      } else if k + n < i {
        assert ring[i - n].next == ring[i - n + 1];
      }
    }
  }

  /** Splicing moves no queued packet: the k queued blocks are before the splice. */
  lemma SpliceHolds(ring: seq<Block>, repr: set<Block>, blocks: seq<Block>, all: set<Block>, queue: seq<Packet>)
    requires |queue| < |ring| && Holds(ring, repr, queue)
    ensures Holds(Splice(ring, blocks, |queue|), repr + all, queue)
  {
  }

  class SndBuffer {
    const mss: int
    const unitSize: int
    var firstBlock: Block
    var currBlock: Block
    var lastBlock: Block
    var nextMsgNo: int
    var size: int
    var count: int

    ghost var repr: set<Block>      // all blocks
    ghost var ring: seq<Block>      // in link order from firstBlock
    ghost var queue: seq<Packet>    // the packets not yet acknowledged
    ghost var taken: nat            // how many of them were read at least once

    ghost predicate Valid()
      reads this, repr
    {
      && 0 < mss && 0 < unitSize && 0 < nextMsgNo < MAX_MSG
      && size == |ring| && count == |queue| < size && taken <= count
      && Linked(ring, repr)
      && firstBlock == ring[0] && currBlock == ring[taken] && lastBlock == ring[count]
      && Sized(repr, mss) && Holds(ring, repr, queue)
    }

    constructor (size: int, mss: int)
      requires 0 < size && 0 < mss
      ensures Valid() && fresh(repr) && queue == [] && taken == 0 && this.mss == mss && nextMsgNo == 1
    {
      var head := new Block();
      head.data := seq(mss, _ => 0);
      ghost var blocks, all := [head], {head};
      var pb := head;
      for i := 1 to size
        invariant |blocks| == i && blocks[0] == head && pb == blocks[i - 1] && fresh(all)
        invariant Chain(blocks, all) && Sized(all, mss)
      {
        var nb := new Block();
        nb.data := seq(mss, _ => 0);
        pb.next := nb;
        pb := nb;
        blocks, all := blocks + [nb], all + {nb};
      }
      pb.next := head;
      this.size, this.mss, this.unitSize := size, mss, size;
      firstBlock, currBlock, lastBlock := head, head, head;
      nextMsgNo, count := 1, 0;
      repr, ring, queue, taken := all, blocks, [], 0;
    }

    // ---------- reading and acknowledging ----------

    /** The next packet that was never sent, or none. */
    method ReadNew() returns (payload: seq<byte>, header: Header, ok: bool)
      requires Valid()
      modifies this`currBlock, this`taken
      ensures Valid()
      ensures ok <==> old(taken) < |queue|
      ensures ok ==> taken == old(taken) + 1 && Packet(payload, header) == queue[old(taken)]
      ensures !ok ==> taken == old(taken) && payload == []
    {
      if currBlock == lastBlock {
        return [], Header(false, false, false, 0), false;
      }
      assert ring[taken].next == ring[taken + 1];
      assert ring[taken].Stores(queue[taken]);
      payload := currBlock.data[..currBlock.length];
      header := currBlock.header;
      currBlock := currBlock.next;
      taken := taken + 1;
      ok := true;
    }

    /** The packet `offset` places behind the first one, for retransmission. */
    method ReadAt(offset: int) returns (payload: seq<byte>, header: Header)
      requires Valid() && 0 <= offset < |queue|
      ensures Packet(payload, header) == queue[offset]
    {
      var p := firstBlock;
      for i := 0 to offset
        invariant p == ring[i]
      {
        assert ring[i].next == ring[i + 1];
        p := p.next;
      }
      assert ring[offset].Stores(queue[offset]);
      payload := p.data[..p.length];
      header := p.header;
    }

    /** Moves the first block `offset` places on. */
    method SkipBlocks(offset: int)
      requires Linked(ring, repr) && 0 <= offset < |ring| && firstBlock == ring[0]
      modifies this`firstBlock
      ensures firstBlock == ring[offset]
    {
      for i := 0 to offset
        invariant firstBlock == ring[i]
      {
        assert ring[i].next == ring[i + 1];
        firstBlock := firstBlock.next;
      }
    }

    /** Drops the first `offset` packets. */
    method AckData(offset: int)
      requires Valid() && 0 <= offset <= taken
      modifies this`firstBlock, this`count, this`ring, this`queue, this`taken
      ensures Valid()
      ensures queue == old(queue)[offset..] && taken == old(taken) - offset
    {
      hide Rotate, Sized, Holds, Linked;
      SkipBlocks(offset);
      RotateLinked(ring, repr, offset);
      RotateHolds(ring, repr, queue, offset);
      Release(offset, Rotate(ring, offset), queue[offset..]);
    }

    /** Records that the first `offset` packets are gone. */
    method Release(offset: int, ghost blocks: seq<Block>, ghost packets: seq<Packet>)
      requires 0 < mss && 0 < unitSize && 0 < nextMsgNo < MAX_MSG
      requires size == |blocks| && 0 <= offset <= taken && count - offset == |packets| < size && taken <= count
      requires Linked(blocks, repr) && Sized(repr, mss) && Holds(blocks, repr, packets)
      requires firstBlock == blocks[0] && currBlock == blocks[taken - offset] && lastBlock == blocks[count - offset]
      modifies this`count, this`ring, this`queue, this`taken
      ensures Valid() && queue == packets && taken == old(taken) - offset
    {
      hide Sized, Holds, Linked;
      count := count - offset;
      ring, queue, taken := blocks, packets, taken - offset;
    }

    method GetCurrBufSize() returns (n: int)
      requires Valid()
      ensures n == |queue|
    {
      n := count;
    }

    // ---------- growing ----------

    /** A chain of new blocks, not yet linked to the ring. */
    method NewBlocks(n: int) returns (ghost blocks: seq<Block>, ghost all: set<Block>, head: Block, tail: Block)
      requires 0 < n && 0 < mss
      ensures |blocks| == n && fresh(all) && head == blocks[0] && tail == blocks[n - 1]
      ensures Chain(blocks, all) && Sized(all, mss)
    {
      head := new Block();
      head.data := seq(mss, _ => 0);
      blocks, all := [head], {head};
      tail := head;
      for i := 1 to n
        invariant |blocks| == i && blocks[0] == head && tail == blocks[i - 1] && fresh(all)
        invariant Chain(blocks, all) && Sized(all, mss)
      {
        var nb := new Block();
        nb.data := seq(mss, _ => 0);
        tail.next := nb;
        tail := nb;
        blocks, all := blocks + [nb], all + {nb};
      }
    }

    /** Redirects the link out of the last block through a chain of new blocks. */
    method AttachUnit() returns (ghost blocks: seq<Block>, ghost all: set<Block>)
      requires Valid()
      modifies lastBlock`next
      ensures |blocks| == unitSize && fresh(all) && Chain(blocks, all)
      ensures Redirected(ring, repr, count, blocks[0])
      ensures blocks[|blocks| - 1].next == ring[if count + 1 < |ring| then count + 1 else 0]
      ensures Holds(ring, repr, queue) && Sized(repr + all, mss)
    {
      var nblk, pb;
      assert lastBlock in repr;
      blocks, all, nblk, pb := NewBlocks(unitSize);
      pb.next := lastBlock.next;
      lastBlock.next := nblk;
      assert Chain(blocks, all);
      assert Redirected(ring, repr, count, nblk);
    }

    /** Splices another unit of blocks into the ring behind the last block. */
    method Increase()
      requires Valid()
      modifies this`size, this`ring, this`repr, lastBlock`next
      ensures Valid() && queue == old(queue) && size == old(size) + unitSize
      ensures old(repr) <= repr && fresh(repr - old(repr))
    {
      ghost var blocks, all := AttachUnit();
      hide Sized, Holds, Linked, Redirected, Chain, Splice;
      ghost var r := Splice(ring, blocks, count);
      SpliceLinked(ring, repr, blocks, all, count);
      SpliceHolds(ring, repr, blocks, all, queue);
      assert firstBlock == r[0] && currBlock == r[taken] && lastBlock == r[count];
      GrowTo(r, repr + all);
    }

    /** Records the longer ring. */
    method GrowTo(ghost blocks: seq<Block>, ghost all: set<Block>)
      requires 0 < mss && 0 < unitSize && 0 < nextMsgNo < MAX_MSG
      requires count == |queue| && taken <= count && |blocks| == size + unitSize && count < size
      requires Linked(blocks, all) && Sized(all, mss) && Holds(blocks, all, queue)
      requires firstBlock == blocks[0] && currBlock == blocks[taken] && lastBlock == blocks[count]
      modifies this`size, this`ring, this`repr
      ensures Valid() && queue == old(queue) && size == old(size) + unitSize && repr == all
    {
      hide Sized, Holds, Linked;
      size := size + unitSize;
      ring, repr := blocks, all;
    }

    // ---------- adding data ----------

    /** Copies one packet's bytes into the next free block and sets its header. */
    method FillBlock(s: Block, bytes: seq<byte>, header: Header, ghost packets: seq<Packet>)
      requires Linked(ring, repr) && Sized(repr, mss) && Holds(ring, repr, packets)
      requires |packets| < |ring| && s == ring[|packets|] && |bytes| <= mss
      modifies s`data, s`length, s`header
      ensures Linked(ring, repr) && Sized(repr, mss)
      ensures Holds(ring, repr, packets + [Packet(bytes, header)])
    {
      assert s in repr;
      s.data := bytes + s.data[|bytes|..];
      s.length := |bytes|;
      s.header := header;
      assert s.Stores(Packet(bytes, header));
      forall i | 0 <= i < |packets| ensures ring[i].Stores(packets[i]) {
        assert ring[i] != s;
      }
    }

    /** Fills a block and goes on to the next one. */
    method FillNext(s: Block, bytes: seq<byte>, header: Header, ghost packets: seq<Packet>) returns (n: Block)
      requires Linked(ring, repr) && Sized(repr, mss) && Holds(ring, repr, packets)
      requires |packets| + 1 < |ring| && s == ring[|packets|] && |bytes| <= mss
      modifies repr
      ensures Linked(ring, repr) && Sized(repr, mss)
      ensures Holds(ring, repr, packets + [Packet(bytes, header)])
      ensures n == ring[|packets| + 1]
    {
      hide Sized, Holds, Linked;
      NextInRing(ring, repr, |packets|);
      FillBlock(s, bytes, header, packets);
      NextInRing(ring, repr, |packets|);
      n := s.next;
    }

    /** Queues data, cut into packets of at most mss bytes. */
    method AddBuffer(data: seq<byte>, inOrder: bool)
      requires Valid()
      modifies this, repr
      ensures Valid() && old(repr) <= repr && fresh(repr - old(repr))
      ensures queue == old(queue) + Chunks(data, mss, true, inOrder, old(nextMsgNo))
      ensures taken == old(taken)
      ensures nextMsgNo == if old(nextMsgNo) + 1 == MAX_MSG then 1 else old(nextMsgNo) + 1
    {
      hide Sized, Holds, Linked, Chunks, BlockCount;
      var size := BlockCount(|data|, mss);
      GrowBeyond(size);
      FillBlocks(data, size, inOrder);
      nextMsgNo := nextMsgNo + 1;
      if nextMsgNo == MAX_MSG {
        nextMsgNo := 1;
      }
    }

    /** Grows until `size` more blocks leave one block free. */
    method GrowBeyond(size: int)
      requires Valid()
      modifies this`size, this`ring, this`repr, repr
      ensures Valid() && size + count < this.size && queue == old(queue)
      ensures old(repr) <= repr && fresh(repr - old(repr))
    {
      hide Sized, Holds, Linked;
      while size + count >= this.size
        invariant Valid() && queue == old(queue)
        invariant old(repr) <= repr && fresh(repr - old(repr))
        decreases size + count - this.size
      {
        assert lastBlock in repr by { NextInRing(ring, repr, count); }
        Increase();
      }
    }

    /** Writes the packets into the free blocks from `lastBlock` on. */
    method FillBlocks(data: seq<byte>, size: int, inOrder: bool)
      requires Valid() && size == BlockCount(|data|, mss) && size + count < this.size
      modifies this`lastBlock, this`count, this`queue, repr
      ensures Valid()
      ensures queue == old(queue) + Chunks(data, mss, true, inOrder, nextMsgNo)
    {
      hide Sized, Holds, Linked, Filled, Chunks, BlockCount;
      var s := lastBlock;
      var offset := 0;   // i * mss
      ghost var done: seq<Packet> := [];
      FilledNone(data, mss, inOrder, nextMsgNo);
      assert queue + done == queue;
      for i := 0 to size
        invariant unchanged(this)
        invariant |done| == i && Filled(data, mss, inOrder, nextMsgNo, size, i, offset, done)
        invariant s == ring[count + i]
        invariant Linked(ring, repr) && Sized(repr, mss) && Holds(ring, repr, queue + done)
      {
        FilledNext(data, mss, inOrder, nextMsgNo, size, i, offset, done);
        var pktlen := |data| - offset;
        if pktlen > mss {
          pktlen := mss;
        }
        var bytes := data[offset..offset + pktlen];
        var header := Header(i == 0, i == size - 1, inOrder, nextMsgNo);
        AppendBehind(queue, done, [Packet(bytes, header)]);
        s := FillNext(s, bytes, header, queue + done);
        offset := offset + mss;
        done := done + [Packet(bytes, header)];
      }
      FilledAll(data, mss, inOrder, nextMsgNo, size, offset, done);
      lastBlock := s;
      count := count + size;
      queue := queue + done;
    }
  }
}

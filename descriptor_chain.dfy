/** The cyclic buffer-descriptor chain a tile DMA runs for one fifo
    (createBdBlock, createDMA): block i moves buffer i under lock i and hands
    over to block i+1, the last one back to the first. */
module DescriptorChain {
  import opened Common
  import Arith
  import opened DmaChannels

  /** The largest chain createDMA accepts. */
  const MaxBlocks: nat := 14

  /** One descriptor block: acquire `lock` in `acquireMode`, transfer `length`
      elements of `buffer` from `offset`, release `lock` in `releaseMode`,
      branch to block `next`. */
  datatype BdBlock = BdBlock(buffer: nat, lock: nat, acquireMode: int, releaseMode: int,
                             offset: int, length: int, next: nat)

  /** What createDMA produces: nothing for a fifo of size 0, a DMA start on
      `channel` with its chain, or the fatal "too many blocks" assertion. */
  datatype ChainResult = NoChain | Chain(channel: DmaChan, blocks: seq<BdBlock>) | TooManyBlocks

  /** Lock mode 0 marks the DMA on the producer tile, which sends: it waits
      for a full element (1) and frees it (0). Lock mode 1 marks a consumer
      tile's DMA, which receives: it waits for an empty element and fills it. */
  function DmaAcquireMode(lockMode: int): int {
    if lockMode == 0 then 1 else 0
  }

  function DmaReleaseMode(lockMode: int): int {
    if lockMode == 0 then 0 else 1
  }

  /** Product of the dimensions of a buffer shape, folded left to right. */
  function Product(shape: seq<int>): int {
    if shape == [] then 1 else Product(shape[..|shape| - 1]) * shape[|shape| - 1]
  }

  /** The length transferred for a buffer of the given shape. */
  method TransferLength(shape: seq<int>) returns (len: int)
    ensures len == Product(shape)
  {
    len := 1;
    for k := 0 to |shape|
      invariant len == Product(shape[..k])
    {
      assert shape[..k + 1][..k] == shape[..k];
      len := len * shape[k];
    }
    assert shape[..|shape|] == shape;
  }

  /** The number of elements of a shape splits over a split of its dimensions. */
  lemma {:induction false} ProductAppend(a: seq<int>, b: seq<int>)
    ensures Product(a + b) == Product(a) * Product(b)
    decreases |b|
  {
    if b != [] {
      var b' := b[..|b| - 1];
      assert (a + b)[..|a + b| - 1] == a + b';
      ProductAppend(a, b');
      calc {
        Product(a + b);
        Product(a + b') * b[|b| - 1];
        Product(a) * Product(b') * b[|b| - 1];
        Product(a) * (Product(b') * b[|b| - 1]);
      }
    } else {
      assert a + b == a;
    }
  }

  /** Buffers with positive dimensions transfer a positive number of elements. */
  lemma {:induction false} ProductPositive(shape: seq<int>)
    requires forall k :: 0 <= k < |shape| ==> shape[k] > 0
    ensures Product(shape) > 0
    decreases |shape|
  {
    if shape != [] {
      ProductPositive(shape[..|shape| - 1]);
    }
  }

  /** The shape of a chain of n blocks built in lock mode `lockMode`: block i
      binds buffer i and lock i, its successor is i+1, and the last block
      wraps back to the first. */
  ghost predicate IsRing(blocks: seq<BdBlock>, lockMode: int, len: int)
  {
    forall i :: 0 <= i < |blocks| ==> blocks[i] == RingBlock(i, |blocks|, lockMode, len)
  }

  /** Block i of an n-block ring: element i, its lock, and the next block. */
  function RingBlock(i: nat, n: nat, lockMode: int, len: int): BdBlock
    requires n > 0
  {
    BdBlock(i, i, DmaAcquireMode(lockMode), DmaReleaseMode(lockMode), 0, len, (i + 1) % n)
  }

  /** createDMA for a fifo of `n` elements on the given channel. */
  method CreateDma(n: nat, channel: DmaChan, lockMode: int, len: int) returns (r: ChainResult)
    ensures r.NoChain? <==> n == 0
    ensures r.TooManyBlocks? <==> n > MaxBlocks
    ensures r.Chain? ==> r.channel == channel && |r.blocks| == n && IsRing(r.blocks, lockMode, len)
  {
    if n == 0 {
      return NoChain;
    }
    if n > MaxBlocks {
      return TooManyBlocks;
    }
    var blocks: seq<BdBlock> := [];
    for i := 0 to n
      invariant |blocks| == i
      invariant forall j :: 0 <= j < i ==> blocks[j] == RingBlock(j, n, lockMode, len)
    {
      var succ := if i == n - 1 then 0 else i + 1;
      if i == n - 1 {
        Arith.DivModUnique(n, n, 1, 0);
      } else {
        Arith.ModSmall(i + 1, n);
      }
      var block := BdBlock(i, i, DmaAcquireMode(lockMode), DmaReleaseMode(lockMode), 0, len, succ);
      assert block == RingBlock(i, n, lockMode, len);
      blocks := blocks + [block];
    }
    return Chain(channel, blocks);
  }

  /** The block the DMA is at after following `k` successor links from block `i`. */
  function Walk(blocks: seq<BdBlock>, i: nat, k: nat): nat
    requires forall j :: 0 <= j < |blocks| ==> blocks[j].next < |blocks|
    requires i < |blocks|
    decreases k
  {
    if k == 0 then i else Walk(blocks, blocks[i].next, k - 1)
  }

  /** A ring chain is one cycle through every block: after k restarts from
      the first block the DMA is at block k mod n, so it returns to the first
      block after exactly n steps and visits every block on the way. */
  lemma {:induction false} RingWalk(blocks: seq<BdBlock>, lockMode: int, len: int, k: nat)
    requires |blocks| > 0 && IsRing(blocks, lockMode, len)
    ensures forall j :: 0 <= j < |blocks| ==> blocks[j].next < |blocks|
    ensures Walk(blocks, 0, k) == k % |blocks|
    decreases k
  {
    RingWalkFrom(blocks, lockMode, len, 0, k);
  }

  lemma {:induction false} RingWalkFrom(blocks: seq<BdBlock>, lockMode: int, len: int, start: nat, k: nat)
    requires |blocks| > 0 && IsRing(blocks, lockMode, len)
    ensures forall j :: 0 <= j < |blocks| ==> blocks[j].next < |blocks|
    ensures Walk(blocks, start % |blocks|, k) == (start + k) % |blocks|
    decreases k
  {
    var n := |blocks|;
    assert forall j :: 0 <= j < n ==> blocks[j].next == (j + 1) % n;
    if k > 0 {
      var i := start % n;
      assert blocks[i].next == (i + 1) % n;
      Arith.ModAddLeft(start, 1, n);
      RingWalkFrom(blocks, lockMode, len, start + 1, k - 1);
    }
  }
}

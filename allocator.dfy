/** Block accounting: how many blocks a size needs, which blocks the live
    entries occupy, and first-fit placement of a contiguous run. */
module Allocator {
  import opened Layout

  /** The number of blocks that hold `size` bytes: the ceiling of size / BlockSize,
      and 0 for a size that is not positive. */
  function BlocksNeeded(size: int): (n: nat)
    ensures size <= 0 ==> n == 0
    ensures size > 0 ==> (n - 1) * BlockSize < size <= n * BlockSize
  {
    if size <= 0 then 0 else (size + BlockSize - 1) / BlockSize
  }

  /** Java `int` arithmetic: `x` wrapped to 32-bit two's complement. */
  function WrapInt(x: int): (r: int)
    ensures -0x8000_0000 <= r < 0x8000_0000
    ensures (r - x) % 0x1_0000_0000 == 0
  {
    (x + 0x8000_0000) % 0x1_0000_0000 - 0x8000_0000
  }

  /** Java `int` division by a positive divisor: it truncates toward zero. */
  function DivInt(a: int, b: int): (q: int)
    requires b > 0
    ensures a >= 0 ==> q * b <= a < q * b + b
    ensures a < 0 ==> q * b - b < a <= q * b
  {
    if a >= 0 then a / b else -((-a) / b)
  }

  /** blocksNeeded exactly as written, in 32-bit `int` arithmetic, for `size`
      an array length: `size + BLOCK_SIZE - 1` wraps for sizes within a block
      of the largest `int`. */
  function BlocksNeededInt(size: int): int
    requires 0 <= size < 0x8000_0000
  {
    if size <= 0 then 0 else DivInt(WrapInt(size + BlockSize - 1), BlockSize)
  }

  /** Below the wrap, the code as written computes the ceiling. */
  lemma BlocksNeededIntAgrees(size: int)
    requires 0 <= size <= 0x8000_0000 - BlockSize
    ensures BlocksNeededInt(size) == BlocksNeeded(size)
  {
    if size > 0 {
      assert WrapInt(size + BlockSize - 1) == size + BlockSize - 1;
    }
  }

  /** Within a block of the largest `int` the addition wraps: the code as
      written gets a negative block count, which passes writeFile's
      `neededBlocks > MAX_BLOCKS - 1` check, although the contents need far
      more than the nine data blocks. */
  lemma BlocksNeededIntWraps(size: int)
    requires 0x8000_0000 - BlockSize < size < 0x8000_0000
    ensures BlocksNeededInt(size) < 0 && !(BlocksNeededInt(size) > MaxBlocks - 1)
    ensures BlocksNeeded(size) > MaxBlocks - 1
  {
    var w := size + BlockSize - 1 - 0x1_0000_0000;
    assert WrapInt(size + BlockSize - 1) == w;
    assert w < -(BlockSize as int);
  }

  /** Java's `(short)` cast: the low 16 bits as a signed value. */
  function ShortOf(x: int): (v: Short)
    ensures (v - x) % 0x1_0000 == 0
  {
    (x + 0x8000) % 0x1_0000 - 0x8000
  }

  /** A concrete case: writing 2147483600 bytes, the code as written computes
      -16777215 blocks, passes the size check, and stores the size as -48. */
  lemma WriteOverflowExample()
    ensures BlocksNeededInt(2147483600) == -16777215
    ensures ShortOf(2147483600) == -48
    ensures BlocksNeeded(2147483600) > MaxBlocks - 1
  {
    assert WrapInt(2147483600 + BlockSize - 1) == -2147483569;
  }

  /** The entry owns blocks: a positive size and a first block past the directory. */
  predicate HasExtent(e: Entry)
  {
    e.size > 0 && e.firstBlock >= 1
  }

  /** One past the last block of the entry's extent. */
  function ExtentEnd(e: Entry): int
  {
    e.firstBlock + BlocksNeeded(e.size)
  }

  /** Block `b` lies in the extent of `e`. */
  predicate Occupies(e: Entry, b: int)
  {
    HasExtent(e) && e.firstBlock <= b < ExtentEnd(e)
  }

  /** Block `b` is taken: it is the directory block, or it lies in the extent of
      a live entry in a slot other than `ignore`. */
  predicate Used(slots: seq<Option<Entry>>, ignore: int, b: int)
  {
    b == MetaBlock ||
    exists k :: 0 <= k < |slots| && k != ignore && slots[k].Some? && Occupies(slots[k].value, b)
  }

  /** The occupancy bitmap of the disk, ignoring slot `ignore`. */
  function UsedMap(slots: seq<Option<Entry>>, ignore: int): (used: seq<bool>)
    ensures |used| == MaxBlocks
  {
    seq(MaxBlocks, b => Used(slots, ignore, b))
  }

  /** Blocks start .. start + count - 1 are data blocks on the disk and all free. */
  predicate IsFreeRun(used: seq<bool>, start: int, count: int)
    requires |used| == MaxBlocks
  {
    1 <= start && start + count <= MaxBlocks &&
    forall j :: start <= j < start + count ==> !used[j]
  }

  /** The lowest start at or after `from` of a free run of `count` blocks, or -1. */
  function FirstFitFrom(used: seq<bool>, count: nat, from: nat): (start: int)
    requires |used| == MaxBlocks && 1 <= from
    ensures start == -1 || from <= start
    ensures start == -1 ==> forall t :: from <= t ==> !IsFreeRun(used, t, count)
    ensures start != -1 ==> IsFreeRun(used, start, count) &&
                            forall t :: from <= t < start ==> !IsFreeRun(used, t, count)
    decreases MaxBlocks - from
  {
    if from + count > MaxBlocks then -1
    else if IsFreeRun(used, from, count) then from
    else FirstFitFrom(used, count, from + 1)
  }

  /** First-fit placement: -1 when no blocks are wanted; otherwise the lowest
      start of a free run of `count` blocks, or -1 when there is none. */
  function FirstFit(used: seq<bool>, count: nat): (start: int)
    requires |used| == MaxBlocks
    ensures count == 0 ==> start == -1
    ensures count > 0 && start == -1 ==> forall t :: !IsFreeRun(used, t, count)
    ensures start != -1 ==> IsFreeRun(used, start, count) &&
                            forall t :: t < start ==> !IsFreeRun(used, t, count)
  {
    if count == 0 then -1 else FirstFitFrom(used, count, 1)
  }

  /** The extents of two entries share no block. */
  predicate Disjoint(e1: Entry, e2: Entry)
  {
    !HasExtent(e1) || !HasExtent(e2) || ExtentEnd(e1) <= e2.firstBlock || ExtentEnd(e2) <= e1.firstBlock
  }

  lemma DisjointMeansNoSharedBlock(e1: Entry, e2: Entry)
    ensures Disjoint(e1, e2) <==> forall b :: !(Occupies(e1, b) && Occupies(e2, b))
  {
    if !Disjoint(e1, e2) {
      var b := if e1.firstBlock < e2.firstBlock then e2.firstBlock else e1.firstBlock;
      assert Occupies(e1, b) && Occupies(e2, b);
    }
  }

  /** A free run found in the bitmap that ignores slot `ignore` misses block 0
      and the extent of every live entry in another slot. */
  lemma FreeRunAvoidsOthers(slots: seq<Option<Entry>>, ignore: int, start: int, count: nat)
    requires IsFreeRun(UsedMap(slots, ignore), start, count)
    ensures 1 <= start && start + count <= MaxBlocks
    ensures forall k, b :: 0 <= k < |slots| && k != ignore && slots[k].Some? && start <= b < start + count
              ==> !Occupies(slots[k].value, b)
  {
    var used := UsedMap(slots, ignore);
    forall k, b | 0 <= k < |slots| && k != ignore && slots[k].Some? && start <= b < start + count
      ensures !Occupies(slots[k].value, b)
    {
      assert !used[b];
    }
  }

  /** An entry placed at the first fit of its block count, in the bitmap that
      ignores its own slot `i`, is disjoint from the entry of any other slot. */
  lemma FirstFitAvoids(slots: seq<Option<Entry>>, i: int, j: int, e: Entry)
    requires BlocksNeeded(e.size) > 0 && e.firstBlock == FirstFit(UsedMap(slots, i), BlocksNeeded(e.size)) != -1
    requires 0 <= j < |slots| && j != i && slots[j].Some?
    ensures Disjoint(e, slots[j].value)
  {
    FreeRunAvoidsOthers(slots, i, e.firstBlock, BlocksNeeded(e.size));
    DisjointMeansNoSharedBlock(e, slots[j].value);
  }

  /** The blocks taken by the first k + 1 slots: those taken by the first k,
      and the extent of slot k unless it is the ignored one. */
  lemma UsedSnoc(slots: seq<Option<Entry>>, ignore: int, k: int, b: int)
    requires 0 <= k < |slots|
    ensures Used(slots[..k + 1], ignore, b) <==>
              Used(slots[..k], ignore, b) || (k != ignore && slots[k].Some? && Occupies(slots[k].value, b))
  {
    var pre, ext := slots[..k], slots[..k + 1];
    if Used(ext, ignore, b) && b != MetaBlock {
      var j :| 0 <= j < |ext| && j != ignore && ext[j].Some? && Occupies(ext[j].value, b);
      if j < k {
        assert pre[j] == ext[j];
      }
    }
    if Used(pre, ignore, b) && b != MetaBlock {
      var j :| 0 <= j < |pre| && j != ignore && pre[j].Some? && Occupies(pre[j].value, b);
      assert ext[j] == pre[j];
    }
    if k != ignore && slots[k].Some? && Occupies(slots[k].value, b) {
      assert ext[k] == slots[k];
    }
  }
}

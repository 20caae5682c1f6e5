/** What the page layer asks of flash, one operation after the other. */
module Trace {
  import opened Geometry
  import opened Image
  import opened Nor

  datatype OpType = OnLookup | OnLookup2 | OnIndex | OnData
  datatype OpCommand = Delete | Update | MoveSource | MoveDest | Flush | Read | WriteThrough

  /** A write to a page, a read from one, or the erasure of a block, which notes the
      erase count of the block in the last bytes of its last lookup page. */
  datatype FlashOp =
    | Wr(kind: OpType, command: OpCommand, pix: nat, offset: nat, src: seq<byte>)
    | Rd(kind: OpType, pix: nat, offset: nat, len: nat)
    | Er(block: nat, count: seq<byte>)

  predicate InPage(flash: seq<byte>, pix: nat, offset: nat, len: nat)
  {
    PageStart(pix) + PAGE_SIZE <= |flash| && offset + len <= PAGE_SIZE
  }

  function CountPix(b: nat): nat { BlockStart(b) + LOOKUP_PAGES - 1 }

  /** A block and the place of its erase count lie in flash. */
  predicate BlockInFlash(flash: seq<byte>, b: nat)
  {
    PageStart(BlockStart(b) + BLOCK_PAGES) <= |flash| && PageStart(CountPix(b)) + PAGE_SIZE <= |flash|
  }

  /** Flash after an operation. */
  function Apply(flash: seq<byte>, op: FlashOp): (r: seq<byte>)
    ensures |r| == |flash|
  {
    match op
    case Wr(kind, command, pix, offset, src) =>
      if InPage(flash, pix, offset, |src|) then Program(flash, PageStart(pix) + offset, src) else flash
    case Rd(_, _, _, _) => flash
    case Er(b, count) =>
      if BlockInFlash(flash, b) && |count| <= PAGE_SIZE
      then Program(EraseRange(flash, PageStart(BlockStart(b)), PageStart(BlockStart(b) + BLOCK_PAGES)),
                   PageStart(CountPix(b)) + PAGE_SIZE - |count|, count)
      else flash
  }

  /** An operation that flash can do and after which every copy of a page can still
      equal flash: what is written, other than to delete a page, only clears bits. */
  ghost predicate Sound(flash: seq<byte>, op: FlashOp)
  {
    match op
    case Wr(kind, command, pix, offset, src) =>
      && InPage(flash, pix, offset, |src|)
      && ((command == Delete && kind != OnLookup)
          || (command != WriteThrough && OnlyClears(flash, PageStart(pix) + offset, src)))
    case Rd(_, pix, offset, len) => InPage(flash, pix, offset, len)
    case Er(b, count) => BlockInFlash(flash, b) && |count| <= PAGE_SIZE
  }

  /** Flash after all operations. */
  function After(flash: seq<byte>, ops: seq<FlashOp>): (r: seq<byte>)
    ensures |r| == |flash|
  {
    if ops == [] then flash else Apply(After(flash, ops[..|ops| - 1]), ops[|ops| - 1])
  }

  /** Every operation is sound when its turn comes. */
  ghost predicate AllSound(flash: seq<byte>, ops: seq<FlashOp>)
  {
    ops == [] || (AllSound(flash, ops[..|ops| - 1]) && Sound(After(flash, ops[..|ops| - 1]), ops[|ops| - 1]))
  }

  lemma OneMore(flash: seq<byte>, ops: seq<FlashOp>, op: FlashOp)
    ensures After(flash, ops + [op]) == Apply(After(flash, ops), op)
    ensures AllSound(flash, ops + [op]) <==> AllSound(flash, ops) && Sound(After(flash, ops), op)
  {
    assert (ops + [op])[..|ops|] == ops;
  }

  /** What comes first is sound by itself. */
  lemma {:induction false} SoundPrefix(flash: seq<byte>, ops: seq<FlashOp>, n: nat)
    requires AllSound(flash, ops) && n <= |ops|
    ensures AllSound(flash, ops[..n])
    decreases |ops|
  {
    if n < |ops| {
      SoundPrefix(flash, ops[..|ops| - 1], n);
      assert ops[..|ops| - 1][..n] == ops[..n];
    } else {
      assert ops[..n] == ops;
    }
  }
}

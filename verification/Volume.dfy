/** A mounted volume: the flash image, the counters and cursors the file system
    keeps in memory, and the descriptors; with the page operations every object
    operation is built from. */
module Volume {
  import opened Geometry
  import opened Image
  import opened Lookup
  import opened Visitor
  import opened Nor
  import opened Bits
  import opened Trace
  import opened Encoding

  datatype Status = Ok | ErrFull | ErrNotFound | ErrNoDeletedBlocks | ErrEndOfObject | ErrIndexSpanMismatch
    | ErrBadDescriptor | ErrFileClosed | ErrOutOfFileDescs | ErrNameTooLong | ErrConflictingName | ErrCheck
    | ErrIndexRefFree

  const IX_FLAG: nat := 0x8000

  /** A file descriptor.  `nbr` is 0 when it is closed; `size`, `hdr`, `ixSpan` and
      `ixPix` cache where the object's pages are; `score` is 0 until the descriptor
      has been used to open a file by name. */
  datatype Fd = Fd(nbr: nat, id: nat, size: Option<nat>, hdr: nat, ixSpan: nat, ixPix: nat,
                   offset: nat, score: nat)

  /** The events an index page change raises. */
  datatype Event = IxUpdated | IxNew | IxDeleted | IxMoved | IxHeaderUpdated

  /** What an event does to a descriptor.  `newSize` None and a size of 0 mean no change. */
  function EventOnFd(fd: Fd, ev: Event, id: nat, span: nat, newPix: nat, newSize: Option<Option<nat>>): Fd
  {
    if fd.score == 0 || fd.id != id then fd
    else
      var fd1 :=
        if span != 0 then fd
        else if ev != IxDeleted then fd.(hdr := newPix, size := if newSize.Some? && newSize.value != Some(0) then newSize.value else fd.size)
        else fd.(nbr := 0, id := 0);
      if fd1.ixSpan != span then fd1
      else if ev != IxDeleted then fd1.(ixPix := newPix)
      else fd1.(ixPix := 0)
  }

  /** An open descriptor that was opened by name. */
  predicate Tracked(fd: Fd)
  {
    fd.nbr != 0 && fd.score > 0
  }

  /** A descriptor knows where the index pages of its object are. */
  ghost predicate FdPagesOk(fd: Fd, cat: Catalogue)
  {
    Tracked(fd) ==>
      && fd.id in cat && |cat[fd.id].ixs| > 0
      && fd.hdr == cat[fd.id].ixs[0]
      && (fd.ixSpan < |cat[fd.id].ixs| ==> fd.ixPix == cat[fd.id].ixs[fd.ixSpan])
  }

  /** A descriptor knows the size of its object; the one that truncated it may have
      0 where the header has the undefined length. */
  ghost predicate FdSizeOk(fd: Fd, cat: Catalogue)
  {
    Tracked(fd) && fd.id in cat ==>
      fd.size == cat[fd.id].size || (fd.size == Some(0) && cat[fd.id].size == None)
  }

  ghost predicate FdsPagesOk(fds: seq<Fd>, cat: Catalogue)
  {
    forall i :: 0 <= i < |fds| ==> FdPagesOk(fds[i], cat)
  }

  ghost predicate FdsSizesOk(fds: seq<Fd>, cat: Catalogue)
  {
    forall i :: 0 <= i < |fds| ==> FdSizeOk(fds[i], cat)
  }

  /** Only what descriptors cache about pages and sizes changed. */
  ghost predicate FdsKept(fds0: seq<Fd>, fds: seq<Fd>)
  {
    && |fds| == |fds0|
    && forall i :: 0 <= i < |fds| ==>
         fds[i] == fds0[i].(hdr := fds[i].hdr, size := fds[i].size, ixSpan := fds[i].ixSpan, ixPix := fds[i].ixPix)
  }

  lemma FdsKeptSelf(fds: seq<Fd>)
    ensures FdsKept(fds, fds)
  {
  }

  lemma FdsKeptChain(a: seq<Fd>, b: seq<Fd>, c: seq<Fd>)
    requires FdsKept(a, b) && FdsKept(b, c)
    ensures FdsKept(a, c)
  {
  }

  function EventOnFds(fds: seq<Fd>, ev: Event, id: nat, span: nat, newPix: nat, newSize: Option<Option<nat>>): seq<Fd>
  {
    seq(|fds|, i requires 0 <= i < |fds| => EventOnFd(fds[i], ev, id, span, newPix, newSize))
  }

  /** The event raised when an index page has moved keeps the descriptors right. */
  lemma EventAfterMove(fds: seq<Fd>, cat: Catalogue, ev: Event, id: nat, k: nat, d: nat, newSize: Option<Option<nat>>)
    requires id in cat && k < |cat[id].ixs| && ev != IxDeleted
    requires FdsPagesOk(fds, cat) && FdsSizesOk(fds, cat)
    requires newSize == None || newSize == Some(cat[id].size)
    ensures var cat' := cat[id := cat[id].(ixs := cat[id].ixs[k := d])];
            var fds' := EventOnFds(fds, ev, id, k, d, newSize);
            FdsPagesOk(fds', cat') && FdsSizesOk(fds', cat')
  {
    var cat' := cat[id := cat[id].(ixs := cat[id].ixs[k := d])];
    var fds' := EventOnFds(fds, ev, id, k, d, newSize);
    forall i | 0 <= i < |fds'| ensures FdPagesOk(fds'[i], cat') && FdSizeOk(fds'[i], cat') {
      assert FdPagesOk(fds[i], cat) && FdSizeOk(fds[i], cat);
    }
  }

  /** The free cursor never skips a free entry of its block, unless it stands at
      the start or the end of the block. */
  ghost predicate CursorOk(lu: seq<Entry>, block: nat, entry: nat)
    requires |lu| == SLOTS
  {
    && block < BLOCKS && entry <= ENTRIES
    && (0 < entry < ENTRIES ==>
          Base(block) + entry < SLOTS && lu[Base(block) + entry].Free? && TakenBefore(lu, Base(block) + entry))
  }

  /** The counters are what a scan of the lookup would find. */
  ghost predicate Counted(lu: seq<Entry>, nUsed: int, nDeleted: int, nFreeBlocks: int)
    requires |lu| == SLOTS
  {
    && nUsed == Count(lu, IsUsed)
    && nDeleted == Count(lu, IsDeleted)
    && nFreeBlocks == FreeBlocks(lu, BLOCKS)
  }

  /** Free pages are erased and deleted pages say so. */
  ghost predicate Buried(lu: seq<Entry>, pg: seq<Page>)
    requires Sizes(lu, pg)
  {
    && (forall s: nat :: s < SLOTS && lu[s].Free? ==> pg[s].Erased?)
    && (forall s: nat :: s < SLOTS && lu[s].Deleted? ==> !pg[s].Erased? && !pg[s].hdr.live)
  }

  /** The lookup is in order and the counters and the free cursor agree with it. */
  ghost predicate LookupState(lu: seq<Entry>, pg: seq<Page>, nUsed: int, nDeleted: int, nFreeBlocks: int,
                              block: nat, entry: nat)
  {
    && Sizes(lu, pg) && FreeSuffix(lu)
    && Buried(lu, pg)
    && Counted(lu, nUsed, nDeleted, nFreeBlocks)
    && CursorOk(lu, block, entry)
  }

  /** A block that can be erased without losing anything. */
  ghost predicate Evacuated(lu: seq<Entry>, b: nat)
    requires |lu| == SLOTS && b < BLOCKS
  {
    forall s: nat :: Base(b) <= s < Base(b) + ENTRIES && s < SLOTS ==> !lu[s].Used?
  }

  ghost predicate AllDeleted(lu: seq<Entry>, b: nat)
  {
    forall s: nat :: Base(b) <= s < Base(b) + ENTRIES && s < |lu| ==> lu[s].Deleted?
  }

  lemma CursorNotInside(lu: seq<Entry>, b: nat, block: nat, entry: nat)
    requires |lu| == SLOTS && CursorOk(lu, block, entry) && AllDeleted(lu, b) && block == b
    ensures entry == 0 || entry == ENTRIES
  {
  }

  lemma DeletedBlock(lu: seq<Entry>, b: nat)
    requires |lu| == SLOTS && b < BLOCKS && AllDeleted(lu, b)
    ensures Base(b) + ENTRIES <= SLOTS && Evacuated(lu, b) && !lu[Base(b)].Free?
    ensures Count(lu[Base(b)..Base(b) + ENTRIES], IsDeleted) == ENTRIES
  {
    TimesMono(b, BLOCKS, ENTRIES);
    assert lu[Base(b)].Deleted?;
    CountAll(lu[Base(b)..Base(b) + ENTRIES], IsDeleted);
  }

  /** Erased pages are erased pages, and nothing that is used goes. */
  lemma ErasedPages(lu: seq<Entry>, pg: seq<Page>, b: nat)
    requires Sizes(lu, pg) && b < BLOCKS && Evacuated(lu, b) && Buried(lu, pg)
    ensures Sizes(BlockErased(lu, b), PagesErased(pg, b)) && Buried(BlockErased(lu, b), PagesErased(pg, b))
    ensures KeptBut(lu, pg, BlockErased(lu, b), PagesErased(pg, b), {})
  {
  }

  lemma EraseKeeps(lu: seq<Entry>, pg: seq<Page>, b: nat)
    requires Sizes(lu, pg) && FreeSuffix(lu) && b < BLOCKS && Evacuated(lu, b)
    requires Buried(lu, pg)
    ensures Base(b) + ENTRIES <= SLOTS
    ensures FreeSuffix(BlockErased(lu, b))
    ensures Sizes(BlockErased(lu, b), PagesErased(pg, b)) && Buried(BlockErased(lu, b), PagesErased(pg, b))
    ensures KeptBut(lu, pg, BlockErased(lu, b), PagesErased(pg, b), {})
    ensures Counted(BlockErased(lu, b), Count(lu, IsUsed),
                    Count(lu, IsDeleted) - Count(lu[Base(b)..Base(b) + ENTRIES], IsDeleted),
                    FreeBlocks(lu, BLOCKS) + if lu[Base(b)].Free? then 0 else 1)
  {
    hide BlockErased, PagesErased, FreeSuffix, Buried, KeptBut;
    ErasedPages(lu, pg, b);
    ErasedSuffix(lu, b);
    ErasedFreeBlocks(lu, b);
    ErasedCount(lu, b);
    CountNone(lu[Base(b)..Base(b) + ENTRIES], IsUsed);
  }

  /** The cursor stands behind a free entry of its block. */
  ghost predicate Skips(lu: seq<Entry>, block: nat, entry: nat)
  {
    exists t: nat :: Base(block) <= t < Base(block) + entry && t < |lu| && lu[t].Free?
  }

  /** Erasing a block of deleted pages makes the cursor skip free entries exactly if it
      stands at the end of that block. */
  lemma EraseSkips(lu: seq<Entry>, b: nat, block: nat, entry: nat)
    requires |lu| == SLOTS && b < BLOCKS && AllDeleted(lu, b) && CursorOk(lu, block, entry) && !Skips(lu, block, entry)
    ensures Skips(BlockErased(lu, b), block, entry) <==> block == b && entry == ENTRIES
  {
    var lu' := BlockErased(lu, b);
    TimesMono(b, BLOCKS, ENTRIES);
    if block == b {
      CursorNotInside(lu, b, block, entry);
      if entry == ENTRIES {
        assert lu'[Base(b)].Free?;
      }
    } else {
      forall t: nat | Base(block) <= t < Base(block) + entry && t < |lu'| ensures !lu'[t].Free? {
        InBlock(block, t);
        if Base(b) <= t < Base(b) + ENTRIES {
          InBlock(b, t);
        }
      }
    }
  }

  lemma DeletedErased(lu: seq<Entry>, pg: seq<Page>, nUsed: int, nDeleted: int, nFreeBlocks: int, block: nat, entry: nat, b: nat)
    requires LookupState(lu, pg, nUsed, nDeleted, nFreeBlocks, block, entry) && b < BLOCKS && AllDeleted(lu, b)
    ensures LookupState(BlockErased(lu, b), PagesErased(pg, b), nUsed, nDeleted - ENTRIES, nFreeBlocks + 1, block, entry)
    ensures Sizes(BlockErased(lu, b), PagesErased(pg, b))
    ensures KeptBut(lu, pg, BlockErased(lu, b), PagesErased(pg, b), {})
    ensures !Skips(lu, block, entry) ==> (Skips(BlockErased(lu, b), block, entry) <==> block == b && entry == ENTRIES)
  {
    hide BlockErased, PagesErased, FreeSuffix, Buried, KeptBut, CursorOk, AllDeleted, Skips;
    if !Skips(lu, block, entry) {
      EraseSkips(lu, b, block, entry);
    }
    DeletedBlock(lu, b);
    EraseKeeps(lu, pg, b);
    if block == b {
      CursorNotInside(lu, b, block, entry);
    }
    EraseKeepsCursor(lu, b, block, entry);
  }

  lemma ErasableBlock(lu: seq<Entry>, pg: seq<Page>, nUsed: int, nDeleted: int, nFreeBlocks: int, block: nat, entry: nat, b: nat)
    requires LookupState(lu, pg, nUsed, nDeleted, nFreeBlocks, block, entry) && b < BLOCKS && AllDeleted(lu, b)
    ensures FreeSuffix(lu) && nFreeBlocks == FreeBlocks(lu, BLOCKS) && Base(b) < SLOTS && !lu[Base(b)].Free?
  {
    DeletedBlock(lu, b);
  }

  /** Erasing a block does not disturb the free cursor if the cursor is in another
      block, or at the start or the end of this one. */
  lemma EraseKeepsCursor(lu: seq<Entry>, b: nat, block: nat, entry: nat)
    requires |lu| == SLOTS && b < BLOCKS && CursorOk(lu, block, entry)
    requires block == b ==> entry == 0 || entry == ENTRIES
    ensures CursorOk(BlockErased(lu, b), block, entry)
  {
    if 0 < entry < ENTRIES {
      var s := Base(block) + entry;
      InBlock(block, s);
      var lu' := BlockErased(lu, b);
      forall t: nat | t < s && BlockOf(t) == BlockOf(s) ensures !lu'[t].Free? {
        if Base(b) <= t < Base(b) + ENTRIES {
          InBlock(b, t);
        }
      }
      if Base(b) <= s < Base(b) + ENTRIES {
        InBlock(b, s);
      }
    }
  }

  /** A volume whose first block is full of deleted pages, with the cursor behind them. */
  function FirstBlockDeleted(): (lu: seq<Entry>)
    ensures |lu| == SLOTS
  {
    seq(SLOTS, s => if s < ENTRIES then Deleted else Free)
  }

  lemma SkippedBlock()
    ensures var lu := FirstBlockDeleted();
            && FreeSuffix(lu) && CursorOk(lu, 0, ENTRIES) && AllDeleted(lu, 0) && !Skips(lu, 0, ENTRIES)
            && Skips(BlockErased(lu, 0), 0, ENTRIES) && BlockErased(lu, 0)[0].Free?
  {
    var lu := FirstBlockDeleted();
    TimesMono(1, BLOCKS, ENTRIES);
    assert Times(1, ENTRIES) == Times(0, ENTRIES) + ENTRIES;
    EraseSkips(lu, 0, 0, ENTRIES);
    assert BlockErased(lu, 0)[0].Free?;
  }

  /** What is found from the free cursor has no free entry before it in its block. */
  lemma FirstFreeTaken(lu: seq<Entry>, block: nat, entry: nat, s: nat, accept: nat -> bool)
    requires |lu| == SLOTS && CursorOk(lu, block, entry)
    requires forall t: nat :: t < SLOTS ==> (accept(t) <==> lu[t].Free?)
    requires CyclicFirst(FirstSlot(block, entry), s, accept)
    ensures TakenBefore(lu, s) && lu[s].Free?
  {
    var p := FirstSlot(block, entry);
    FirstSlotInRange(block, entry);
    forall t: nat | t < s && BlockOf(t) == BlockOf(s) ensures !lu[t].Free? {
      if Distance(p, t) < Distance(p, s) {
        assert !accept(t);
      } else {
        assert t < p <= s;
        BlockBounds(s);
        BlockBounds(t);
        BlockBounds(p);
        SameBlock(t, p, s);
        if 0 < entry < ENTRIES {
          InBlock(block, p);
        } else {
          StartOfBlock(block, entry, t);
        }
      }
    }
  }

  lemma SameBlock(a: nat, b: nat, c: nat)
    requires a <= b <= c && BlockOf(a) == BlockOf(c)
    ensures BlockOf(b) == BlockOf(a)
  {
    QuotMono(a, b, ENTRIES);
    QuotMono(b, c, ENTRIES);
  }

  /** A search from the start of a block starts at its first entry. */
  lemma StartOfBlock(block: nat, entry: nat, t: nat)
    requires block < BLOCKS && (entry == 0 || entry >= ENTRIES)
    requires t < FirstSlot(block, entry)
    ensures BlockOf(t) != BlockOf(FirstSlot(block, entry))
  {
    var p := FirstSlot(block, entry);
    var b := if entry == 0 then block else block + 1;
    InBlock(b, p);
    BlockBounds(t);
  }

  /** A slot that is taken by the free cursor leaves the cursor in order. */
  lemma TakeKeepsCursor(lu: seq<Entry>, s: nat, e: Entry)
    requires |lu| == SLOTS && FreeSuffix(lu) && s < SLOTS && lu[s].Free? && TakenBefore(lu, s) && !e.Free?
    ensures CursorOk(lu[s := e], BlockOf(s), EntryOf(s) + 1)
  {
    BlockBounds(s);
    var lu' := lu[s := e];
    if EntryOf(s) + 1 < ENTRIES {
      InBlock(BlockOf(s), s + 1);
      assert lu[s].Free? && lu[s + 1].Free?;
      forall t: nat | t < s + 1 && BlockOf(t) == BlockOf(s + 1) ensures !lu'[t].Free? {
      }
    }
  }

  lemma DeleteKeepsCursor(lu: seq<Entry>, s: nat, block: nat, entry: nat)
    requires |lu| == SLOTS && s < SLOTS && !lu[s].Free? && CursorOk(lu, block, entry)
    ensures CursorOk(lu[s := Deleted], block, entry)
  {
    if 0 < entry < ENTRIES {
      assert TakenBefore(lu[s := Deleted], Base(block) + entry);
    }
  }

  const COPY_BUFFER: nat := 64

  lemma CursorInRange(lu: seq<Entry>, block: nat, entry: nat)
    requires |lu| == SLOTS && CursorOk(lu, block, entry)
    ensures block < BLOCKS && entry <= ENTRIES
  {
  }

  /** The counters while a page is chosen. */
  lemma CountTaken(lu: seq<Entry>, nUsed: int, nDeleted: int, nFreeBlocks: int, e: nat)
    requires |lu| == SLOTS && Counted(lu, nUsed, nDeleted, nFreeBlocks)
    ensures var n := if e == 0 then nFreeBlocks - 1 else nFreeBlocks;
            Counted(lu, nUsed, nDeleted, n + if e == 0 then 1 else 0)
  {
  }

  lemma NoneFreeBlocks(lu: seq<Entry>, nUsed: int, nDeleted: int, nFreeBlocks: int)
    requires |lu| == SLOTS && Counted(lu, nUsed, nDeleted, nFreeBlocks) && forall s: nat :: s < SLOTS ==> !lu[s].Free?
    ensures nFreeBlocks == 0
  {
    NoFreeBlocks(lu, BLOCKS);
  }

  /** Erased deleted pages leave a used page alone, and a page that is free then was not
      used. */
  lemma MoveKept(lu: seq<Entry>, pg: seq<Page>, lu': seq<Entry>, pg': seq<Page>, s: nat, d: nat)
    requires Sizes(lu, pg) && Sizes(lu', pg') && KeptBut(lu, pg, lu', pg', {})
    requires s < SLOTS && d < SLOTS && lu[s].Used? && lu'[d].Free?
    ensures lu'[s] == lu[s] && pg'[s] == pg[s] && !lu[d].Used? && s != d
  {
    assert Kept(lu, pg, lu', pg', s) && Kept(lu, pg, lu', pg', d);
  }

  lemma TwoChanged(lu: seq<Entry>, pg: seq<Page>, lu1: seq<Entry>, pg1: seq<Page>, lu2: seq<Entry>, pg2: seq<Page>, d: nat, s: nat)
    requires Sizes(lu, pg) && Sizes(lu1, pg1) && Sizes(lu2, pg2) && KeptBut(lu, pg, lu1, pg1, {}) && d < SLOTS && s < SLOTS
    requires forall t: nat :: t < SLOTS && t != d && t != s ==> lu2[t] == lu1[t] && pg2[t] == pg1[t]
    ensures KeptBut(lu, pg, lu2, pg2, {d, s})
  {
    forall t: nat | t < SLOTS && t !in {d, s} ensures Kept(lu, pg, lu2, pg2, t) {
      assert Kept(lu, pg, lu1, pg1, t);
    }
  }

  /** What a search from the cursor finds is the first free entry. */
  lemma FirstFound(lu: seq<Entry>, block: nat, entry: nat, d: nat, accept: nat -> bool)
    requires |lu| == SLOTS && d < SLOTS && lu[d].Free? && forall t: nat :: t < SLOTS ==> (accept(t) <==> lu[t].Free?)
    requires CyclicFirst(FirstSlot(block, entry), d, accept)
    ensures FirstFree(lu, block, entry, d)
  {
  }

  /** Slot `d` is the cyclically first free one from the cursor. */
  ghost predicate FirstFree(lu: seq<Entry>, block: nat, entry: nat, d: nat)
  {
    && d < SLOTS == |lu| && lu[d].Free?
    && var p := FirstSlot(block, entry);
       forall t: nat :: t < SLOTS && Distance(p, t) < Distance(p, d) ==> !lu[t].Free?
  }

  /** No page of the volume is free. */
  ghost predicate NoneFree(lu: seq<Entry>)
  {
    forall s: nat :: s < |lu| ==> !lu[s].Free?
  }

  /** What a search for an index or data page by id and span accepts. */
  predicate Matches(lu: seq<Entry>, pg: seq<Page>, id: nat, ix: bool, span: nat, s: nat)
  {
    && s < |lu| && s < |pg| && lu[s] == Used(id, ix)
    && !pg[s].Erased? && pg[s].hdr.id == id && pg[s].hdr.ix == ix && pg[s].hdr.span == span
    && pg[s].hdr.final && pg[s].hdr.live
    && !(ix && !pg[s].hdr.ixlive && span == 0)
  }

  /** Deleting a used page keeps the agreement of lookup and counters. */
  lemma DeletedState(lu: seq<Entry>, pg: seq<Page>, nUsed: int, nDeleted: int, nFreeBlocks: int, block: nat, entry: nat, s: nat)
    requires LookupState(lu, pg, nUsed, nDeleted, nFreeBlocks, block, entry) && s < SLOTS && lu[s].Used?
    ensures Sizes(lu, pg)
    ensures LookupState(lu[s := Deleted], pg[s := Dead(pg[s])], nUsed - 1, nDeleted + 1, nFreeBlocks, block, entry)
  {
    hide FreeSuffix, CursorOk;
    DeleteUsed(lu, s);
    CountUpdate(lu, s, Deleted, IsUsed);
    CountUpdate(lu, s, Deleted, IsDeleted);
    DeleteKeepsCursor(lu, s, block, entry);
  }

  /** Flash held `start`, and the operations since then lead to what it holds now;
      each of them was one that leaves copies of pages equal to flash. */
  ghost predicate Recorded(start: seq<byte>, trace: seq<FlashOp>, flash: seq<byte>)
  {
    AllSound(start, trace) && After(start, trace) == flash
  }

  /** Flash holds the volume, as the record of what it was asked says. */
  ghost predicate FlashState(start: seq<byte>, trace: seq<FlashOp>, flash: seq<byte>, lu: seq<Entry>, pg: seq<Page>, counts: seq<nat>)
  {
    Recorded(start, trace, flash) && OnFlash(flash, lu, pg, counts)
  }

  // ---------------------------------------------------------------------------
  // When a page can be had

  /** The slots of deleted pages. */
  function DeletedSlots(lu: seq<Entry>): set<nat>
  {
    set s: nat | s < |lu| && lu[s].Deleted?
  }

  /** Some block has these slots only. */
  ghost predicate AnyBlockIn(slots: set<nat>)
  {
    exists b: nat :: b < BLOCKS && BlockIn(slots, b)
  }

  ghost predicate BlockIn(slots: set<nat>, b: nat)
  {
    forall s: nat :: Base(b) <= s < Base(b) + ENTRIES ==> s in slots
  }

  ghost predicate AnyDeletedBlock(lu: seq<Entry>)
  {
    exists b: nat :: b < BLOCKS && AllDeleted(lu, b)
  }

  /** Pages certain to be had outside a collection: those left in the block of the free
      cursor, and those of the blocks that may be begun while two are free. */
  ghost function SurePages(blocks: int, entry: nat): nat
  {
    if blocks < 2 then 0
    else (if 0 < entry < ENTRIES then ENTRIES - entry else 0) + Times(blocks - 2, ENTRIES) + 1
  }

  /** The free slots of a lookup. */
  function FreeSlots(lu: seq<Entry>): set<nat>
  {
    set s: nat | s < |lu| && lu[s].Free?
  }

  /** Of the slots `free`, `d` is the one a search from the cursor comes to first. */
  ghost predicate Nearest(free: set<nat>, block: nat, entry: nat, d: nat)
  {
    d in free && forall t :: t in free ==> Distance(FirstSlot(block, entry), d) <= Distance(FirstSlot(block, entry), t)
  }

  lemma {:induction false} SomeNearest(free: set<nat>, block: nat, entry: nat)
    requires free != {}
    ensures exists d :: Nearest(free, block, entry, d)
    decreases |free|
  {
    var s :| s in free;
    if free == {s} {
      assert Nearest(free, block, entry, s);
    } else {
      assert free - {s} != {};
      SomeNearest(free - {s}, block, entry);
      var d :| Nearest(free - {s}, block, entry, d);
      var p := FirstSlot(block, entry);
      assert Nearest(free, block, entry, if Distance(p, s) < Distance(p, d) then s else d);
    }
  }

  /** The pages that can be had one after another by searches from the cursor while two
      blocks are free, if none is erased meanwhile. */
  ghost function Supply(free: set<nat>, block: nat, entry: nat, blocks: int): nat
    decreases |free|
  {
    if blocks < 2 || free == {} then 0
    else
      SomeNearest(free, block, entry);
      var d :| Nearest(free, block, entry, d);
      1 + Supply(free - {d}, BlockOf(d), EntryOf(d) + 1, if EntryOf(d) == 0 then blocks - 1 else blocks)
  }

  /** Taking the page found first leaves one less. */
  lemma SupplyTaken(lu: seq<Entry>, block: nat, entry: nat, blocks: int, d: nat)
    requires FirstFree(lu, block, entry, d) && blocks >= 2
    ensures Supply(FreeSlots(lu), block, entry, blocks)
         == 1 + Supply(FreeSlots(lu) - {d}, BlockOf(d), EntryOf(d) + 1, if EntryOf(d) == 0 then blocks - 1 else blocks)
  {
    var free := FreeSlots(lu);
    assert d in free;
    forall e: nat | Nearest(free, block, entry, e) ensures e == d {
      assert e < SLOTS;
    }
  }

  lemma SlotTaken(lu: seq<Entry>, d: nat, e: Entry)
    requires d < |lu| && !e.Free?
    ensures FreeSlots(lu[d := e]) == FreeSlots(lu) - {d} && (!lu[d].Free? ==> FreeSlots(lu[d := e]) == FreeSlots(lu))
    ensures !lu[d].Deleted? || e.Deleted? ==> DeletedSlots(lu) <= DeletedSlots(lu[d := e])
    ensures !lu[d].Deleted? && !e.Deleted? ==> DeletedSlots(lu[d := e]) == DeletedSlots(lu)
    ensures e.Deleted? ==> DeletedSlots(lu[d := e]) == DeletedSlots(lu) + {d}
  {
  }

  /** What decides whether a page can be had, and how many. */
  datatype Room = Room(lu: seq<Entry>, blocks: int, block: nat, entry: nat, taken: int, cleaning: bool)
  {
    /** A page can be had: during a collection if any is free; otherwise if two blocks
        are free, or one is and another one holds deleted pages only. */
    ghost predicate CanTake()
    {
      if cleaning then !NoneFree(lu) else blocks >= 2 || (blocks == 1 && AnyDeletedBlock(lu))
    }

    ghost function Sure(): nat
    {
      SurePages(blocks, entry)
    }

    /** The pages to be had if no block comes to hold deleted pages only. */
    ghost function Left(): nat
    {
      Supply(FreeSlots(lu), block, entry, blocks)
    }
  }

  /** At most `n` pages have been taken. */
  ghost predicate Drew(a: Room, b: Room, n: nat)
  {
    a.Sure() <= b.Sure() + n && a.blocks <= b.blocks + n && b.taken <= a.taken + n && b.cleaning == a.cleaning
  }

  /** There is one page less to be had. */
  ghost predicate OneLess(a: Room, b: Room)
  {
    a.Left() == b.Left() + 1
  }

  /** A page has been asked for, and was had exactly if one could be had.  If one free
      block was too little, asking again is no use. */
  ghost predicate Took(r: Status, a: Room, b: Room)
  {
    && (r == Ok <==> a.CanTake())
    && (r == Ok ==> Drew(a, b, 1) && (!a.cleaning ==> b.blocks >= 1))
    && (r == Ok && !a.cleaning && a.blocks >= 2 ==> OneLess(a, b) && DeletedSlots(a.lu) <= DeletedSlots(b.lu))
    && (r != Ok ==> Drew(a, b, 0) && b.blocks < 2)
    && (r != Ok && !a.cleaning && (a.blocks == 1 || !AnyDeletedBlock(a.lu)) ==> b.blocks == a.blocks && b.lu == a.lu)
    && (r != Ok && !a.cleaning ==> r == ErrFull)
    && (b.blocks <= a.blocks || b.blocks <= 2)
  }

  /** What has happened to the pages that were taken already does not matter. */
  lemma TookSame(r: Status, a: Room, b: Room, c: Room)
    requires Took(r, a, b) && r == Ok && c == b.(lu := c.lu) && FreeSlots(c.lu) == FreeSlots(b.lu)
    requires !a.cleaning && a.blocks >= 2 ==> DeletedSlots(a.lu) <= DeletedSlots(c.lu)
    ensures Took(r, a, c)
  {
    hide Supply, FreeSlots, DeletedSlots, SurePages, AnyDeletedBlock, NoneFree;
  }

  lemma DrewMore(a: Room, b: Room, c: Room, n: nat, m: nat)
    requires Drew(a, b, n) && Drew(b, c, m)
    ensures Drew(a, c, n + m)
  {
  }

  /** The free cursor in a block is at the page that is taken next. */
  lemma CursorIsNext(lu: seq<Entry>, block: nat, entry: nat, d: nat)
    requires |lu| == SLOTS && CursorOk(lu, block, entry) && FirstFree(lu, block, entry, d) && 0 < entry < ENTRIES
    ensures EntryOf(d) == entry
  {
    var p := Base(block) + entry;
    assert Distance(p, p) == 0;
    InBlock(block, p);
  }

  /** Taking the first free page from the cursor costs at most one sure page. */
  lemma SureAfter(lu: seq<Entry>, blocks: int, block: nat, entry: nat, d: nat)
    requires |lu| == SLOTS && CursorOk(lu, block, entry) && FirstFree(lu, block, entry, d)
    ensures SurePages(blocks, entry) <= SurePages(if EntryOf(d) == 0 then blocks - 1 else blocks, EntryOf(d) + 1) + 1
  {
    SlotInBlock(d);
    if 0 < entry < ENTRIES {
      CursorIsNext(lu, block, entry, d);
    } else if EntryOf(d) == 0 && blocks > 2 {
      assert Times(blocks - 2, ENTRIES) == Times(blocks - 3, ENTRIES) + ENTRIES;
    }
  }

  lemma NoSurePages(blocks: int, entry: nat)
    ensures blocks < 2 ==> SurePages(blocks, entry) == 0
  {
  }

  lemma SlotInBlock(d: nat)
    requires d < SLOTS
    ensures EntryOf(d) < ENTRIES
  {
    BlockBounds(d);
  }

  class Spiffs {
    var lu: seq<Entry>
    var pg: seq<Page>
    var eraseCount: seq<nat>
    var maxEraseCount: nat
    var pAllocated: int
    var pDeleted: int
    var freeBlocks: int
    var freeBlock: nat      // free cursor
    var freeEntry: nat
    var cursorBlock: nat    // search cursor
    var cursorEntry: nat
    var cleaning: bool
    var fds: seq<Fd>
    ghost var cat: Catalogue
    var trace: seq<FlashOp>      // what has been asked of flash since it held `start`
    ghost var start: seq<byte>
    ghost var flash: seq<byte>   // what flash holds

    ghost function Space(): Room
      reads this`lu, this`freeBlocks, this`freeBlock, this`freeEntry, this`pAllocated, this`pDeleted, this`cleaning
    {
      Room(lu, freeBlocks, freeBlock, freeEntry, pAllocated + pDeleted, cleaning)
    }

    /** The erase counts of the blocks, and that of the block erased next. */
    ghost function Ages(): (seq<nat>, nat)
      reads this`eraseCount, this`maxEraseCount
    {
      (eraseCount, maxEraseCount)
    }

    /** The room when slot `d`, which has been found, is taken. */
    ghost function SpaceTaken(d: nat): Room
      requires d < |lu|
      reads this`lu, this`freeBlocks, this`freeBlock, this`freeEntry, this`pAllocated, this`pDeleted, this`cleaning
    {
      Room(lu[d := Deleted], freeBlocks, freeBlock, freeEntry, pAllocated + pDeleted + 1, cleaning)
    }

    /** The lookup, the counters and the cursors agree, and flash holds the volume. */
    ghost predicate LookupOk()
      reads this`lu, this`pg, this`eraseCount, this`pAllocated, this`pDeleted, this`freeBlocks,
            this`freeBlock, this`freeEntry, this`cursorBlock, this`start, this`flash, this`trace
    {
      && LookupState(lu, pg, pAllocated, pDeleted, freeBlocks, freeBlock, freeEntry)
      && Sizes(lu, pg)
      && cursorBlock < BLOCKS
      && |eraseCount| == BLOCKS
      && FlashState(start, trace, flash, lu, pg, eraseCount)
    }

    /** Slot `d` has been chosen for a page that is about to be written, and flash
        holds `image` there. */
    ghost predicate ReservedWith(d: nat, image: seq<byte>)
      reads this`lu, this`pg, this`eraseCount, this`pAllocated, this`pDeleted, this`freeBlocks,
            this`freeBlock, this`freeEntry, this`cursorBlock, this`start, this`flash, this`trace
    {
      && Sizes(lu, pg) && FreeSuffix(lu)
      && Buried(lu, pg)
      && d < SLOTS && lu[d].Free? && TakenBefore(lu, d)
      && Counted(lu, pAllocated, pDeleted, freeBlocks + if EntryOf(d) == 0 then 1 else 0)
      && freeBlock == BlockOf(d) && freeEntry == EntryOf(d) + 1
      && cursorBlock < BLOCKS
      && |eraseCount| == BLOCKS
      && |image| == PAGE_SIZE
      && Recorded(start, trace, flash)
      && SlotIs(flash, lu, pg, eraseCount, d, image)
    }

    /** Slot `d` has been chosen for a page that is about to be written. */
    ghost predicate Reserved(d: nat)
      reads this`lu, this`pg, this`eraseCount, this`pAllocated, this`pDeleted, this`freeBlocks,
            this`freeBlock, this`freeEntry, this`cursorBlock, this`start, this`flash, this`trace
    {
      ReservedWith(d, PageImage(Erased))
    }

    /** The entry of slot `d` is taken, and flash holds `image` there. */
    ghost predicate Filling(d: nat, image: seq<byte>)
      reads this`lu, this`pg, this`eraseCount, this`pAllocated, this`pDeleted, this`freeBlocks,
            this`freeBlock, this`freeEntry, this`cursorBlock, this`start, this`flash, this`trace
    {
      && LookupState(lu, pg, pAllocated, pDeleted, freeBlocks, freeBlock, freeEntry)
      && Sizes(lu, pg) && d < SLOTS && lu[d].Used?
      && cursorBlock < BLOCKS
      && |eraseCount| == BLOCKS
      && |image| == PAGE_SIZE
      && Recorded(start, trace, flash)
      && SlotIs(flash, lu, pg, eraseCount, d, image)
    }

    // -------------------------------------------------------------------------
    // Flash

    /** Asks something of flash. */
    method Log(op: FlashOp)
      requires Recorded(start, trace, flash) && Sound(flash, op)
      modifies this`flash, this`trace
      ensures Recorded(start, trace, flash)
      ensures flash == Apply(old(flash), op) && trace == old(trace) + [op]
    {
      OneMore(start, trace, op);
      flash := Apply(flash, op);
      trace := trace + [op];
    }

    /** Starts a new record of what is asked of flash. */
    method NewRecord()
      modifies this`trace, this`start
      ensures trace == [] && start == flash && Recorded(start, trace, flash)
      ensures OnFlash(flash, lu, pg, eraseCount) ==> FlashState(start, trace, flash, lu, pg, eraseCount)
    {
      trace := [];
      start := flash;
    }

    /** Writes bytes of the page in slot `s`, which holds `image`. */
    method PutBytes(s: nat, ghost image: seq<byte>, kind: OpType, command: OpCommand, o: nat, src: seq<byte>)
      requires Recorded(start, trace, flash) && SlotIs(flash, lu, pg, eraseCount, s, image)
      requires s < SLOTS && |image| == PAGE_SIZE && o + |src| <= PAGE_SIZE
      requires (command == Delete && kind != OnLookup) || (command != WriteThrough && OnlyClears(image, o, src))
      modifies this`flash, this`trace
      ensures Recorded(start, trace, flash) && SlotIs(flash, lu, pg, eraseCount, s, Program(image, o, src))
      ensures trace == old(trace) + [Wr(kind, command, PixOfSlot(s), o, src)]
    {
      hide SlotIs, Program, OnlyClears, Recorded;
      WriteSlot(flash, lu, pg, eraseCount, s, image, o, src);
      Log(Wr(kind, command, PixOfSlot(s), o, src));
    }

    /** Writes the entry of slot `s` to the lookup; slot `x` holds `image`. */
    method PutEntry(s: nat, e: Entry, command: OpCommand, ghost x: nat, ghost image: seq<byte>)
      requires Recorded(start, trace, flash) && SlotIs(flash, lu, pg, eraseCount, x, image)
      requires x < SLOTS && s < SLOTS && |lu| == SLOTS && EntryClears(lu[s], e) && command != WriteThrough
      modifies this`lu, this`flash, this`trace
      ensures lu == old(lu)[s := e]
      ensures Recorded(start, trace, flash) && SlotIs(flash, lu, pg, eraseCount, x, image)
      ensures trace == old(trace) + [Wr(OnLookup, command, LuPix(s), LuOffset(s), EntryImage(e))]
    {
      hide SlotIs, Program, OnlyClears, Recorded, EntryClears, EntryImage;
      WriteEntry(flash, lu, pg, eraseCount, x, image, s, e);
      Log(Wr(OnLookup, command, LuPix(s), LuOffset(s), EntryImage(e)));
      lu := lu[s := e];
    }

    /** Erases a block, which is free then, and records its erase count, the largest so
        far.  Flash holds the volume again, free entries are still behind all others,
        and the number of free blocks follows. */
    method EraseBlock(b: nat)
      requires Sizes(lu, pg) && b < BLOCKS && |eraseCount| == BLOCKS
      requires FlashState(start, trace, flash, lu, pg, eraseCount)
      requires FreeSuffix(lu) && Base(b) < SLOTS && !lu[Base(b)].Free? && freeBlocks == FreeBlocks(lu, BLOCKS)
      modifies this`lu, this`pg, this`flash, this`trace, this`freeBlocks, this`eraseCount, this`maxEraseCount
      ensures FlashState(start, trace, flash, lu, pg, eraseCount)
      ensures FreeSuffix(lu) && freeBlocks == FreeBlocks(lu, BLOCKS) == old(freeBlocks) + 1
      ensures lu == BlockErased(old(lu), b) && pg == PagesErased(old(pg), b)
      ensures eraseCount == old(eraseCount)[b := old(maxEraseCount)]
      ensures maxEraseCount == if old(maxEraseCount) + 1 == 0x8000 then 0 else old(maxEraseCount) + 1
      ensures old(maxEraseCount) < IX_FLAG ==> maxEraseCount < IX_FLAG
    {
      hide OnFlash, Apply, BlockErased, PagesErased, FreeSuffix, FreeBlocks, CountImage, Recorded, Sound;
      EraseImage(flash, lu, pg, eraseCount, b, maxEraseCount);
      ErasedSuffix(lu, b);
      ErasedFreeBlocks(lu, b);
      Log(Er(b, CountImage(maxEraseCount)));
      lu := BlockErased(lu, b);
      pg := PagesErased(pg, b);
      freeBlocks := freeBlocks + 1;
      eraseCount := eraseCount[b := maxEraseCount];
      maxEraseCount := maxEraseCount + 1;
      if maxEraseCount == IX_FLAG {
        maxEraseCount := 0;
      }
    }

    /** Erases block `b`, whose entries are all deleted.  A cursor at the end of that block,
        and no other, then stands behind free entries. */
    method EraseDeleted(b: nat)
      requires LookupOk() && b < BLOCKS && AllDeleted(lu, b)
      modifies this`lu, this`pg, this`flash, this`trace, this`freeBlocks, this`eraseCount, this`maxEraseCount, this`pDeleted
      ensures LookupOk() && Sizes(old(lu), old(pg)) && KeptBut(old(lu), old(pg), lu, pg, {})
      ensures freeBlocks == old(freeBlocks) + 1 && lu == BlockErased(old(lu), b)
      ensures !old(Skips(lu, freeBlock, freeEntry)) ==>
                (Skips(lu, freeBlock, freeEntry) <==> freeBlock == b && freeEntry == ENTRIES)
      ensures pDeleted <= old(pDeleted)
    {
      hide Skips, LookupState, BlockErased, PagesErased, AllDeleted, KeptBut, OnFlash, Recorded, FreeSuffix, FreeBlocks;
      DeletedErased(lu, pg, pAllocated, pDeleted, freeBlocks, freeBlock, freeEntry, b);
      ErasableBlock(lu, pg, pAllocated, pDeleted, freeBlocks, freeBlock, freeEntry, b);
      pDeleted := pDeleted - ENTRIES;
      EraseBlock(b);
    }

    /** Erases block `b` if its entries are all deleted. */
    method EraseIfDeleted(b: nat) returns (erased: bool)
      requires LookupOk() && b < BLOCKS
      modifies this`lu, this`pg, this`flash, this`trace, this`freeBlocks, this`eraseCount, this`maxEraseCount, this`pDeleted
      ensures LookupOk() && Sizes(old(lu), old(pg))
      ensures erased <==> old(AllDeleted(lu, b))
      ensures erased ==> KeptBut(old(lu), old(pg), lu, pg, {}) && freeBlocks == old(freeBlocks) + 1
      ensures erased ==> lu == BlockErased(old(lu), b)
      ensures !erased ==> lu == old(lu) && pg == old(pg) && freeBlocks == old(freeBlocks) && pDeleted == old(pDeleted)
      ensures pDeleted <= old(pDeleted)
    {
      hide LookupState, FlashState;
      TimesMono(b, BLOCKS, ENTRIES);
      var deletedPages := 0;
      while deletedPages < ENTRIES && lu[Base(b) + deletedPages].Deleted?
        invariant deletedPages <= ENTRIES
        invariant forall s: nat :: Base(b) <= s < Base(b) + deletedPages ==> lu[s].Deleted?
      {
        deletedPages := deletedPages + 1;
      }
      if deletedPages < ENTRIES {
        return false;
      }
      EraseDeleted(b);
      return true;
    }

    /** Erases the first block whose entries are all deleted. */
    method GcQuick() returns (r: Status)
      requires LookupOk()
      modifies this`lu, this`pg, this`flash, this`trace, this`freeBlocks, this`eraseCount, this`maxEraseCount, this`pDeleted
      ensures LookupOk()
      ensures r == Ok || r == ErrNoDeletedBlocks
      ensures r == ErrNoDeletedBlocks ==> lu == old(lu) && pg == old(pg) && freeBlocks == old(freeBlocks)
      ensures r == ErrNoDeletedBlocks <==> forall b: nat :: b < BLOCKS ==> !AllDeleted(old(lu), b)
      ensures r == Ok ==>
                && KeptBut(old(lu), old(pg), lu, pg, {}) && freeBlocks == old(freeBlocks) + 1
                && exists b: nat :: b < BLOCKS && AllDeleted(old(lu), b) && lu == BlockErased(old(lu), b)
                                    && forall c: nat :: c < b ==> !AllDeleted(old(lu), c)
      ensures pDeleted <= old(pDeleted)
    {
      hide LookupState, FlashState;
      var curBlock := 0;
      while curBlock < BLOCKS
        invariant curBlock <= BLOCKS && LookupOk()
        invariant lu == old(lu) && pg == old(pg) && freeBlocks == old(freeBlocks) && pDeleted == old(pDeleted)
        invariant forall b: nat :: b < curBlock ==> !AllDeleted(lu, b)
      {
        var erased := EraseIfDeleted(curBlock);
        if erased {
          return Ok;
        }
        curBlock := curBlock + 1;
      }
      return ErrNoDeletedBlocks;
    }

    // -------------------------------------------------------------------------
    // Pages

    /** The free slot a search from the free cursor finds; the cursor moves past it. */
    method FindFreeEntry() returns (r: Status, d: nat)
      requires LookupOk()
      modifies this`freeBlocks, this`freeBlock, this`freeEntry
      ensures r == Ok ==> Reserved(d) && FirstFree(lu, old(freeBlock), old(freeEntry), d)
      ensures r != Ok ==> LookupOk() && r == ErrNotFound && NoneFree(lu)
      ensures freeBlocks <= old(freeBlocks) <= freeBlocks + 1 && (r != Ok ==> freeBlocks == 0 == old(freeBlocks))
      ensures r == Ok ==> old(freeBlocks) == freeBlocks + if EntryOf(d) == 0 then 1 else 0
      ensures old(SurePages(freeBlocks, freeEntry)) <= SurePages(freeBlocks, freeEntry) + 1
    {
      hide OnFlash, SlotIs, PageImage, Recorded, Counted, FreeSuffix, CursorOk, TakenBefore, CyclicFirst;
      var lookup := lu;
      var accept := (t: nat) => t < |lookup| && lookup[t].Free?;
      CursorInRange(lu, freeBlock, freeEntry);
      var found := Visit(freeBlock, freeEntry, true, accept);
      if found.None? {
        assert forall s: nat :: s < SLOTS && lu[s].Free? ==> accept(s);
        NoneFreeBlocks(lu, pAllocated, pDeleted, freeBlocks);
        return ErrNotFound, 0;
      }
      d := found.value;
      FirstFreeTaken(lu, freeBlock, freeEntry, d, accept);
      FirstFound(lu, freeBlock, freeEntry, d, accept);
      SureAfter(lu, freeBlocks, freeBlock, freeEntry, d);
      OneSlot(flash, lu, pg, eraseCount, d, Erased);
      BlockBounds(d);
      CountTaken(lu, pAllocated, pDeleted, freeBlocks, EntryOf(d));
      freeBlock := BlockOf(d);
      freeEntry := EntryOf(d) + 1;
      if EntryOf(d) == 0 {
        freeBlocks := freeBlocks - 1;
      }
      return Ok, d;
    }

    /** Chooses a free slot for a page: the cyclically first one from the free cursor. */
    method FindFree() returns (r: Status, d: nat)
      requires LookupOk()
      modifies this`lu, this`pg, this`flash, this`trace, this`freeBlocks, this`eraseCount, this`maxEraseCount, this`pDeleted,
               this`freeBlock, this`freeEntry
      ensures Sizes(lu, pg) && KeptBut(old(lu), old(pg), lu, pg, {})
      ensures cleaning || old(freeBlocks) >= 2 ==> lu == old(lu) && pg == old(pg)
      ensures r == Ok ==> Reserved(d) && FirstFree(lu, old(freeBlock), old(freeEntry), d)
      ensures r != Ok ==> LookupOk() && (r == ErrFull || r == ErrNotFound)
      ensures r == ErrNotFound ==> NoneFree(lu)
      ensures r == ErrFull <==> r != Ok && !cleaning
      ensures Took(r, old(Space()), if r == Ok then SpaceTaken(d) else Space())
      ensures cleaning ==> Ages() == old(Ages())
    {
      hide LookupState, FlashState, SlotIs, FirstFree, AllDeleted, BlockErased, FreeSuffix, Buried, Counted, SurePages, Supply, FreeSlots;
      NoSurePages(freeBlocks, freeEntry);
      if !cleaning && freeBlocks < 2 {
        r := GcQuick();
        if freeBlocks < 2 {
          return ErrFull, 0;
        }
      }
      ghost var blocks, block, entry := freeBlocks, freeBlock, freeEntry;
      r, d := FindFreeEntry();
      if r == Ok && blocks >= 2 {
        SupplyTaken(lu, block, entry, blocks, d);
        SlotTaken(lu, d, Deleted);
      }
    }

    /** Writes the lookup entry of a reserved slot. */
    method TakeEntry(d: nat, id: nat, ix: bool, ghost image: seq<byte>)
      requires ReservedWith(d, image)
      modifies this`lu, this`flash, this`trace, this`pAllocated
      ensures Filling(d, image) && lu == old(lu)[d := Used(id, ix)]
      ensures trace == old(trace) + [Wr(OnLookup, Update, LuPix(d), LuOffset(d), EntryImage(Used(id, ix)))]
      ensures pAllocated == old(pAllocated) + 1
    {
      hide SlotIs, Recorded, EntryClears, EntryImage;
      TakeFree(lu, d, Used(id, ix));
      TakeKeepsCursor(lu, d, Used(id, ix));
      CountUpdate(lu, d, Used(id, ix), IsUsed);
      CountUpdate(lu, d, Used(id, ix), IsDeleted);
      EntryWritesClear(Used(id, ix));
      PutEntry(d, Used(id, ix), Update, d, image);
      pAllocated := pAllocated + 1;
    }

    /** The page of a slot has been written. */
    method Settle(d: nat, page: Page)
      requires Filling(d, PageImage(page))
      modifies this`pg
      ensures LookupOk() && pg == old(pg)[d := page]
    {
      hide PageImage, SlotIs, OnFlash, Counted, FreeSuffix, CursorOk;
      OneSlot(flash, lu, pg, eraseCount, d, page);
      pg := pg[d := page];
    }

    /** Writes a new page with the given header and payload; with `finalize` its header
        is marked as final at the end. */
    method AllocateData(hdr: Header, data: seq<byte>, finalize: bool) returns (r: Status, d: nat)
      requires LookupOk() && |data| <= DATA_SIZE && (hdr.ix ==> hdr.span > 0 && data == [])
      modifies this`lu, this`pg, this`flash, this`trace, this`freeBlocks, this`eraseCount, this`maxEraseCount, this`pDeleted,
               this`freeBlock, this`freeEntry, this`pAllocated
      ensures LookupOk()
      ensures r != Ok ==> KeptBut(old(lu), old(pg), lu, pg, {}) && (r == ErrFull || r == ErrNotFound)
      ensures r == Ok ==>
                && d < SLOTS && KeptBut(old(lu), old(pg), lu, pg, {d}) && !old(lu)[d].Used?
                && lu[d] == Used(hdr.id, hdr.ix)
                && pg[d] == FreshPage(if finalize then hdr.(final := true) else hdr, data)
      ensures Took(r, old(Space()), Space())
    {
      hide LookupState, FlashState, FreshPage, FirstFree, Buried, FreeSuffix, Counted, TakenBefore, Recorded, SlotIs, PageImage, Took, FreeSlots;
      r, d := FindFree();
      if r == Ok {
        assert Kept(old(lu), old(pg), lu, pg, d);
        ghost var room := SpaceTaken(d);
        SlotTaken(lu, d, Deleted);
        SlotTaken(lu, d, Used(hdr.id, hdr.ix));
        WriteAllocated(d, hdr, data, finalize);
        TookSame(r, old(Space()), room, Space());
      }
    }

    /** Writes a new page to a reserved slot. */
    method WriteAllocated(d: nat, hdr: Header, data: seq<byte>, finalize: bool)
      requires Reserved(d) && |data| <= DATA_SIZE && (hdr.ix ==> hdr.span > 0 && data == [])
      modifies this`lu, this`pg, this`flash, this`trace, this`pAllocated
      ensures LookupOk() && lu == old(lu)[d := Used(hdr.id, hdr.ix)]
      ensures pg == old(pg)[d := FreshPage(if finalize then hdr.(final := true) else hdr, data)]
      ensures pAllocated == old(pAllocated) + 1
    {
      hide Counted, FreeSuffix, CursorOk, TakenBefore, FreshPage, PageImage, Recorded, OnFlash, SlotIs, Program;
      TakeEntry(d, hdr.id, hdr.ix, PageImage(Erased));
      FillPage(d, hdr, data);
      if finalize && !hdr.final {
        var h := hdr.(final := true);
        FlagWritesClear(hdr);
        FreshFlags(hdr, data);
        PutBytes(d, PageImage(FreshPage(hdr, data)), OnData, Update, 4, [FlagsOf(h)]);
      }
      Settle(d, FreshPage(if finalize then hdr.(final := true) else hdr, data));
    }

    /** Writes header and payload of a new page. */
    method FillPage(d: nat, hdr: Header, data: seq<byte>)
      requires Filling(d, PageImage(Erased)) && |data| <= DATA_SIZE && (hdr.ix ==> hdr.span > 0 && data == [])
      modifies this`flash, this`trace
      ensures Filling(d, PageImage(FreshPage(hdr, data)))
    {
      hide LookupState, PageImage, Recorded, SlotIs, Program, OnlyClears, HeaderImage;
      DataWritten(hdr, data);
      PutBytes(d, PageImage(Erased), OnData, Update, 0, HeaderImage(hdr));
      if hdr.ix {
        IndexWritten(hdr, TableLen(hdr.span));
        assert EmptyTable(hdr.span) == seq(TableLen(hdr.span), e => NoPage);
      }
      if !hdr.ix {
        PutBytes(d, Program(PageImage(Erased), 0, HeaderImage(hdr)), OnData, Update, PAGE_HEADER, data);
      }
    }

    /** Deletes a page in the lookup and in its header. */
    method PageDelete(s: nat)
      requires LookupOk() && s < SLOTS && lu[s].Used?
      modifies this`lu, this`pg, this`flash, this`trace, this`pDeleted, this`pAllocated
      ensures LookupOk()
      ensures lu == old(lu)[s := Deleted] && pg == old(pg)[s := Dead(old(pg)[s])]
      ensures trace == old(trace) + [Wr(OnLookup, Delete, LuPix(s), LuOffset(s), EntryImage(Deleted)),
                                     Wr(OnData, Delete, PixOfSlot(s), 4, [DELETE_FLAGS])]
      ensures pAllocated == old(pAllocated) - 1 && pDeleted == old(pDeleted) + 1
    {
      hide OnFlash, SlotIs, Recorded, EntryClears, EntryImage, PageImage, Program, LookupState;
      DeletedState(lu, pg, pAllocated, pDeleted, freeBlocks, freeBlock, freeEntry, s);
      EntryWritesClear(lu[s]);
      ghost var image := PageImage(pg[s]);
      OneSlot(flash, lu, pg, eraseCount, s, pg[s]);
      PutEntry(s, Deleted, Delete, s, image);
      pDeleted := pDeleted + 1;
      pAllocated := pAllocated - 1;
      DeletionWritten(pg[s]);
      PutBytes(s, image, OnData, Delete, 4, [DELETE_FLAGS]);
      OneSlot(flash, lu, pg, eraseCount, s, Dead(pg[s]));
      pg := pg[s := Dead(pg[s])];
    }

    /** Moves a page to a free slot.  Without new contents the page is copied. */
    method PageMove(contents: Option<Page>, id: nat, ix: bool, src: nat) returns (r: Status, d: nat)
      requires LookupOk() && src < SLOTS && lu[src].Used? && (contents.Some? ==> contents.value.IndexPage?)
      modifies this`lu, this`pg, this`flash, this`trace, this`freeBlocks, this`eraseCount, this`maxEraseCount, this`pDeleted,
               this`freeBlock, this`freeEntry, this`pAllocated
      ensures r != Ok && cleaning ==> r == ErrNotFound && NoneFree(lu) && lu == old(lu) && pg == old(pg)
      ensures LookupOk()
      ensures r == Ok ==>
                && d < SLOTS && d != src && !old(lu)[d].Used?
                && KeptBut(old(lu), old(pg), lu, pg, {d, src})
                && lu[d] == Used(id, ix) && pg[d] == (if contents.Some? then contents.value else old(pg)[src])
                && lu[src] == Deleted
                && freeBlock == BlockOf(d) && freeEntry == EntryOf(d) + 1
      ensures r == Ok && cleaning ==>
                && old(lu)[d].Free? && lu == old(lu)[d := Used(id, ix)][src := Deleted]
                && TakenBefore(old(lu), d)
      ensures cleaning ==> Ages() == old(Ages())
      ensures r != Ok ==> KeptBut(old(lu), old(pg), lu, pg, {}) && (r == ErrFull || r == ErrNotFound)
      ensures Took(r, old(Space()), Space())
    {
      hide Spiffs.Ages, DeletedSlots, AnyDeletedBlock, Supply, LookupState, FlashState, PageImage, SlotIs, Recorded, Counted, FreeSuffix, Buried, FirstFree, Dead, KeptBut, NoneFree, Took, FreeSlots;
      r, d := FindFree();
      if r != Ok {
        return;
      }
      ghost var room := SpaceTaken(d);
      SlotTaken(lu, d, Deleted);
      SlotTaken(lu, d, Used(id, ix));
      SlotTaken(lu[d := Used(id, ix)], src, Deleted);
      MoveKept(old(lu), old(pg), lu, pg, src, d);
      var page := if contents.Some? then contents.value else pg[src];
      ghost var lu1, pg1 := lu, pg;
      WriteMoved(d, id, ix, src, contents, page);
      TwoChanged(old(lu), old(pg), lu1, pg1, lu, pg, d, src);
      TookSame(r, old(Space()), room, Space());
    }

    /** Writes the new page of a move to the slot chosen and deletes the old one. */
    method WriteMoved(d: nat, id: nat, ix: bool, src: nat, contents: Option<Page>, page: Page)
      requires Reserved(d) && src < SLOTS && src != d && lu[src].Used?
      requires page == (if contents.Some? then contents.value else pg[src]) && (contents.Some? ==> page.IndexPage?)
      modifies this`lu, this`pg, this`flash, this`trace, this`pAllocated, this`pDeleted
      ensures LookupOk() && pAllocated + pDeleted == old(pAllocated + pDeleted) + 1
      ensures lu == old(lu)[d := Used(id, ix)][src := Deleted] && pg == old(pg)[d := page][src := Dead(old(pg)[src])]
    {
      hide LookupState, FlashState, PageImage, SlotIs, Recorded, Counted, FreeSuffix, Buried, Dead;
      FillMoved(d, id, ix, src, contents, page);
      Settle(d, page);
      PageDelete(src);
    }

    /** Writes the new page of a move and its lookup entry. */
    method FillMoved(d: nat, id: nat, ix: bool, src: nat, contents: Option<Page>, page: Page)
      requires Reserved(d) && src < SLOTS && src != d && page == if contents.Some? then contents.value else pg[src]
      requires contents.Some? ==> page.IndexPage?
      modifies this`lu, this`flash, this`trace, this`pAllocated
      ensures Filling(d, PageImage(page)) && lu == old(lu)[d := Used(id, ix)]
      ensures pAllocated == old(pAllocated) + 1
    {
      hide LookupState, PageImage, SlotIs, Recorded, Counted, FreeSuffix, Buried, FlagsOf, Program, OnlyClears;
      if contents.None? {
        CopyPage(d, src);
        TakeEntry(d, id, ix, PageImage(page));
      } else {
        FillGiven(d, id, ix, page);
      }
    }

    /** Writes a given page, marks its entry and then its header. */
    method FillGiven(d: nat, id: nat, ix: bool, page: Page)
      requires Reserved(d) && page.IndexPage?
      modifies this`lu, this`flash, this`trace, this`pAllocated
      ensures Filling(d, PageImage(page)) && lu == old(lu)[d := Used(id, ix)]
      ensures pAllocated == old(pAllocated) + 1
    {
      hide LookupState, PageImage, SlotIs, Recorded, Counted, FreeSuffix, Buried, FlagsOf, Program, OnlyClears, TakenBefore;
      WriteUnfinished(d, page);
      TakeEntry(d, id, ix, PageImage(Unfinished(page)));
      assert WithHeader(Unfinished(page), page.hdr) == page;
      if page.hdr.final {
        FlagWritesClear(page.hdr.(final := false));
        FlagsWritten(Unfinished(page), page.hdr, FlagsOf(page.hdr));
        PutBytes(d, PageImage(Unfinished(page)), OnData, Update, 4, [FlagsOf(page.hdr)]);
      }
    }

    /** Writes a whole page whose header is not marked as final. */
    method WriteUnfinished(d: nat, page: Page)
      requires Reserved(d) && page.IndexPage?
      modifies this`flash, this`trace
      ensures ReservedWith(d, PageImage(Unfinished(page)))
      ensures trace == old(trace) + [Wr(OnData, Update, PixOfSlot(d), 0, PageImage(Unfinished(page)))]
    {
      hide PageImage, SlotIs, Recorded, Program, OnlyClears, Counted, FreeSuffix, Buried, TakenBefore;
      BlankTakes(PageImage(Unfinished(page)));
      PutBytes(d, PageImage(Erased), OnData, Update, 0, PageImage(Unfinished(page)));
    }

    /** Copies the page in slot `src` to a reserved slot, through a small buffer. */
    method CopyPage(d: nat, src: nat)
      requires Reserved(d) && src < SLOTS && src != d
      modifies this`flash, this`trace
      ensures ReservedWith(d, PageImage(pg[src]))
    {
      hide PageImage, SlotIs, Recorded, Program, OnlyClears, Counted, FreeSuffix, Buried, TakenBefore;
      var page, done := PageImage(pg[src]), 0;
      ErasedIsBlank();
      assert Fit(page[..0], PAGE_SIZE) == Fit([], PAGE_SIZE);
      while done < PAGE_SIZE
        invariant done <= PAGE_SIZE && ReservedWith(d, Fit(page[..done], PAGE_SIZE))
      {
        var chunk := if PAGE_SIZE - done < COPY_BUFFER then PAGE_SIZE - done else COPY_BUFFER;
        var buffer := page[done..done + chunk];
        ReadSound(flash, lu, pg, eraseCount, d, Fit(page[..done], PAGE_SIZE), src, done, chunk);
        Log(Rd(OnData, PixOfSlot(src), done, chunk));
        ProgramBehind(page[..done], buffer, PAGE_SIZE);
        PutBytes(d, Fit(page[..done], PAGE_SIZE), OnData, MoveDest, done, buffer);
        assert page[..done] + buffer == page[..done + chunk];
        done := done + chunk;
      }
      assert page[..PAGE_SIZE] == page;
      FitWhole(page, PAGE_SIZE);
    }

    /** Tells every descriptor of an object that an index page changed. */
    method CbObjectEvent(ev: Event, id: nat, span: nat, newPix: nat, newSize: Option<Option<nat>>)
      modifies this`fds
      ensures fds == EventOnFds(old(fds), ev, id, span, newPix, newSize)
    {
      var i := 0;
      while i < |fds|
        invariant i <= |fds| == |old(fds)|
        invariant forall j :: 0 <= j < i ==> fds[j] == EventOnFd(old(fds)[j], ev, id, span, newPix, newSize)
        invariant forall j :: i <= j < |fds| ==> fds[j] == old(fds)[j]
      {
        fds := fds[i := EventOnFd(fds[i], ev, id, span, newPix, newSize)];
        i := i + 1;
      }
    }

    /** Finds the page of an object with the given span, from the search cursor on. */
    method FindIdAndSpan(id: nat, ix: bool, span: nat) returns (r: Option<nat>)
      requires Sizes(lu, pg) && cursorBlock < BLOCKS
      modifies this`cursorBlock, this`cursorEntry
      ensures cursorBlock < BLOCKS
      ensures r.Some? ==> Matches(lu, pg, id, ix, span, r.value)
      ensures r.None? ==> forall s: nat :: !Matches(lu, pg, id, ix, span, s)
    {
      var lookup, pages := lu, pg;
      var accept := (t: nat) => Matches(lookup, pages, id, ix, span, t);
      r := Visit(cursorBlock, cursorEntry, true, accept);
      if r.None? {
        forall s: nat ensures !Matches(lu, pg, id, ix, span, s) {
          assert s < SLOTS ==> !accept(s);
        }
      }
      if r.Some? {
        BlockBounds(r.value);
        cursorBlock := BlockOf(r.value);
        cursorEntry := EntryOf(r.value);
      }
    }

    /** Writes an object index header, given or read from flash, to a new page,
        with a new size if one is given, and tells the descriptors. */
    method UpdateIndexHdr(id: nat, hdr: nat, contents: Option<Page>, size: Option<Option<nat>>) returns (r: Status, d: nat)
      requires LookupOk() && hdr < SLOTS && lu[hdr].Used?
      requires (if contents.Some? then contents.value else pg[hdr]).IndexPage?
      modifies this`lu, this`pg, this`flash, this`trace, this`freeBlocks, this`eraseCount, this`maxEraseCount, this`pDeleted,
               this`freeBlock, this`freeEntry, this`pAllocated, this`fds
      ensures r != Ok && cleaning ==> r == ErrNotFound && NoneFree(lu) && lu == old(lu) && pg == old(pg)
      ensures LookupOk() && (r == Ok || r == ErrFull || r == ErrNotFound)
      ensures r != Ok ==> fds == old(fds) && Sizes(lu, pg) && KeptBut(old(lu), old(pg), lu, pg, {})
      ensures r == Ok ==>
                var p := if contents.Some? then contents.value else old(pg)[hdr];
                var page := if size.Some? then p.(size := size.value) else p;
                && d < SLOTS && d != hdr && !old(lu)[d].Used?
                && KeptBut(old(lu), old(pg), lu, pg, {d, hdr})
                && lu[d] == Used(id, true) && pg[d] == page && lu[hdr] == Deleted
                && fds == EventOnFds(old(fds), if contents.Some? then IxUpdated else IxHeaderUpdated, id, 0, d, Some(page.size))
                && freeBlock == BlockOf(d) && freeEntry == EntryOf(d) + 1
      ensures r == Ok && cleaning ==>
                && old(lu)[d].Free? && lu == old(lu)[d := Used(id, true)][hdr := Deleted]
      ensures cleaning ==> Ages() == old(Ages())
      ensures Took(r, old(Space()), Space())
    {
      hide LookupState, FlashState, TakenBefore;
      var page := if contents.Some? then contents.value else pg[hdr];
      if size.Some? {
        page := page.(size := size.value);
      }
      r, d := PageMove(Some(page), id, true, hdr);
      if r == Ok {
        CbObjectEvent(if contents.Some? then IxUpdated else IxHeaderUpdated, id, 0, d, Some(page.size));
      }
    }

    /** Programs bytes of a data page; no bit is asked to go from 0 to 1. */
    method ProgramData(s: nat, offset: nat, data: seq<byte>, command: OpCommand)
      requires LookupOk() && s < SLOTS && lu[s].Used? && pg[s].DataPage? && offset + |data| <= |pg[s].bytes| == DATA_SIZE
      requires OnlyClears(pg[s].bytes, offset, data) && command != WriteThrough
      modifies this`pg, this`flash, this`trace
      ensures LookupOk()
      ensures pg == old(pg)[s := old(pg)[s].(bytes := Program(old(pg)[s].bytes, offset, data))]
    {
      hide OnFlash, SlotIs, Recorded, PageImage, Program, OnlyClears, Counted, FreeSuffix, CursorOk;
      OneSlot(flash, lu, pg, eraseCount, s, pg[s]);
      PayloadWritten(pg[s].hdr, pg[s].bytes, offset, data);
      PutBytes(s, PageImage(pg[s]), OnData, command, PAGE_HEADER + offset, data);
      OneSlot(flash, lu, pg, eraseCount, s, pg[s].(bytes := Program(pg[s].bytes, offset, data)));
      pg := pg[s := pg[s].(bytes := Program(pg[s].bytes, offset, data))];
    }

    /** Clears the flag that a page is being written. */
    method Finalize(s: nat)
      requires LookupOk() && s < SLOTS && lu[s].Used? && pg[s].DataPage?
      modifies this`pg, this`flash, this`trace
      ensures LookupOk()
      ensures pg == old(pg)[s := DataPage(old(pg)[s].hdr.(final := true), old(pg)[s].bytes)]
    {
      hide OnFlash, SlotIs, Recorded, PageImage, Counted, FreeSuffix, CursorOk;
      FlagWritesClear(pg[s].hdr);
      PutFlags(s, pg[s].hdr.(final := true), OnData, FlagsOf(pg[s].hdr.(final := true)));
    }

    /** Writes the flags byte of a page. */
    method PutFlags(s: nat, h: Header, kind: OpType, flags: byte)
      requires LookupOk() && s < SLOTS && lu[s].Used? && !pg[s].Erased?
      requires h.id == pg[s].hdr.id && h.ix == pg[s].hdr.ix && h.span == pg[s].hdr.span
      requires FlagsOf(pg[s].hdr) & flags == FlagsOf(h) == flags
      modifies this`pg, this`flash, this`trace
      ensures LookupOk()
      ensures pg == old(pg)[s := WithHeader(old(pg)[s], h)]
      ensures trace == old(trace) + [Wr(kind, Update, PixOfSlot(s), 4, [flags])]
    {
      hide OnFlash, SlotIs, Recorded, PageImage, Program, FlagsOf, Counted, FreeSuffix, CursorOk;
      OneSlot(flash, lu, pg, eraseCount, s, pg[s]);
      FlagsWritten(pg[s], h, flags);
      PutBytes(s, PageImage(pg[s]), kind, Update, 4, [flags]);
      OneSlot(flash, lu, pg, eraseCount, s, WithHeader(pg[s], h));
      pg := pg[s := WithHeader(pg[s], h)];
    }

    /** Copies a range of bytes from one data page to the same place in another,
        through a small buffer. */
    method PhysCpy(dst: nat, src: nat, offset: nat, len: nat)
      requires LookupOk() && dst < SLOTS && src < SLOTS && dst != src && lu[dst].Used?
      requires pg[dst].DataPage? && pg[src].DataPage?
      requires offset + len <= |pg[dst].bytes| == DATA_SIZE && offset + len <= |pg[src].bytes| == DATA_SIZE
      requires forall i :: offset <= i < offset + len ==> pg[dst].bytes[i] == ERASED_BYTE
      modifies this`pg, this`flash, this`trace
      ensures LookupOk()
      ensures pg == old(pg)[dst := old(pg)[dst].(bytes :=
                      Program(old(pg)[dst].bytes, offset, old(pg)[src].bytes[offset..offset + len]))]
    {
      hide FreeSuffix, Counted, CursorOk, OnFlash, SlotIs, Recorded, PageImage;
      var done := 0;
      ghost var from := pg[src].bytes;
      ghost var to := pg[dst].bytes;
      ghost var hdr := pg[dst].hdr;
      ghost var lu0, pg0 := lu, pg;
      assert Program(to, offset, from[offset..offset]) == to;
      assert pg == pg0[dst := DataPage(hdr, to)];
      while done < len
        invariant done <= len && lu == lu0 && LookupOk()
        invariant pg == pg0[dst := DataPage(hdr, Program(to, offset, from[offset..offset + done]))]
      {
        var chunk := if len - done < COPY_BUFFER then len - done else COPY_BUFFER;
        var buffer := pg[src].bytes[offset + done..offset + done + chunk];
        CopyBuffer(dst, src, offset + done, buffer);
        ProgramTwice(to, offset, from[offset..offset + done], buffer);
        assert from[offset..offset + done] + buffer == from[offset..offset + done + chunk];
        done := done + chunk;
      }
    }

    /** Copies what fits in the buffer. */
    method CopyBuffer(dst: nat, src: nat, offset: nat, buffer: seq<byte>)
      requires LookupOk() && dst < SLOTS && src < SLOTS && dst != src && lu[dst].Used? && pg[dst].DataPage?
      requires offset + |buffer| <= |pg[dst].bytes| == DATA_SIZE
      requires forall i :: offset <= i < offset + |buffer| ==> pg[dst].bytes[i] == ERASED_BYTE
      modifies this`pg, this`flash, this`trace
      ensures LookupOk()
      ensures pg == old(pg)[dst := old(pg)[dst].(bytes := Program(old(pg)[dst].bytes, offset, buffer))]
    {
      hide FreeSuffix, Counted, CursorOk, OnFlash, SlotIs, Recorded, PageImage, Program;
      ErasedTakesAll(pg[dst].bytes, offset, buffer);
      OneSlot(flash, lu, pg, eraseCount, src, pg[src]);
      ReadSound(flash, lu, pg, eraseCount, src, PageImage(pg[src]), src, PAGE_HEADER + offset, |buffer|);
      Log(Rd(OnData, PixOfSlot(src), PAGE_HEADER + offset, |buffer|));
      ProgramData(dst, offset, buffer, MoveDest);
    }

    /** Programs an index page again, over its present contents. */
    method ProgramIndex(x: nat, page: Page)
      requires LookupOk() && x < SLOTS && lu[x].Used? && CanProgram(pg[x], page)
      modifies this`pg, this`flash, this`trace
      ensures LookupOk()
      ensures pg == old(pg)[x := page]
    {
      hide OnFlash, SlotIs, Recorded, PageImage, Program, OnlyClears, CanProgram, Counted, FreeSuffix, CursorOk;
      OneSlot(flash, lu, pg, eraseCount, x, pg[x]);
      IndexWritesClear(pg[x], page);
      PutBytes(x, PageImage(pg[x]), OnIndex, Update, 0, PageImage(page));
      OneSlot(flash, lu, pg, eraseCount, x, page);
      pg := pg[x := page];
    }
  }
}

/** Where the calls fall short of plain byte sequences: inputs that show it.  Each is a
    whole family of states that a caller can recognise beforehand. */
module Shortfalls {
  import opened Geometry
  import opened Image
  import opened Steps
  import opened Lookup
  import opened Volume
  import opened Nor
  import opened Nucleus
  import opened Gc
  import opened Objects
  import opened Modify
  import opened Append
  import opened Cache
  import opened Hydrogen
  import opened Pending
  import opened Api
  import opened Runs

  /** Two descriptors are open on the same empty file.  What one of them writes stays in
      the cache, and the other is told that the file has ended, although it stands
      before a byte that has been written. */
  method HiddenRead(s: Session, f: nat, g: nat, b: byte) returns (r: Status)
    requires s.Valid() && f < |s.fs.fds| && g < |s.fs.fds| && f != g && Tracked(s.fs.fds[f]) && Tracked(s.fs.fds[g])
    requires s.fs.fds[g].id == s.fs.fds[f].id && s.fs.fds[f].id !in s.pending
    requires s.fs.fds[g].size.None? && Unused in s.cache.pages
    modifies s, s.fs, s.dev, s.cache
    ensures r == ErrEndOfObject && s.Valid() && s.Before(s.State(), g)
    ensures s.State().files[s.State().handles[g].id].bytes == [b]
  {
    hide FlashState, LookupState, Mounted, CacheState, Synced, Listed, Linked, SeenFiles, GapFree, Within;
    ghost var id := s.fs.fds[f].id;
    s.OpenStands(f);
    s.OpenStands(g);
    s.SizeHidden(g);
    var r1;
    ghost var done;
    r1, done := s.Write(f, [b]);
    SpliceFirst([b]);
    assert s.Seen()[id].bytes == [b];
    assert s.fs.fds[g] == old(s.fs.fds)[g] && s.Hidden(g);
    s.OpenStands(g);
    var bytes, flushed;
    ghost var mid;
    r, bytes, flushed, mid := s.Read(g, 1);
  }

  // ---------------------------------------------------------------------------
  // Writes of no bytes

  /** A write of no bytes within a file, and then a flush, while the work buffer holds the
      header of another file and the collector has nothing to do: success is reported, that
      header has been stored as the header of this file, and flash holds no volume with the
      files there were. */
  method EmptyWrite(s: Session, f: nat, other: nat) returns (r: Status)
    requires s.Valid() && f < |s.fs.fds| && Tracked(s.fs.fds[f]) && s.fs.fds[f].id !in s.pending
    requires s.fs.fds[f].id in s.Seen() && s.fs.fds[f].offset < |s.Seen()[s.fs.fds[f].id].bytes| && Unused in s.cache.pages
    requires other in s.fs.cat && other != s.fs.fds[f].id && s.work == IndexImage(other, s.fs.cat[other], 0)
    requires Quiet(s.fs, DATA_SIZE)
    modifies s, s.fs, s.dev, s.cache
    ensures r == Ok && s.ending == StaleHeader && s.Clobbered(old(FilesOf(s.fs)))
  {
    hide FlashState, LookupState, Mounted, CacheState, Synced, Listed, Linked, SeenFiles, GapFree, Within, Table;
    s.OpenStands(f);
    s.SizeKnown(f);
    var r1;
    ghost var done;
    r1, done := s.Write(f, []);
    r := s.FflushCache(f);
  }

  /** The same with at most three free blocks and no deleted page, and the header of this
      very file in the work buffer: the collector blanks the buffer out, and the flush
      fails although the header it is to store was there. */
  method CollectedWrite(s: Session, f: nat) returns (r: Status)
    requires s.Valid() && f < |s.fs.fds| && Tracked(s.fs.fds[f]) && s.fs.fds[f].id !in s.pending
    requires s.fs.fds[f].id in s.Seen() && s.fs.fds[f].offset < |s.Seen()[s.fs.fds[f].id].bytes| && Unused in s.cache.pages
    requires s.IsHeader(s.work, s.fs.fds[f].id)
    requires s.fs.freeBlocks <= 3 && s.fs.pDeleted == 0 && FreePages(s.fs) > 1
    modifies s, s.fs, s.dev, s.cache
    ensures r == ErrCheck && s.InSync()
  {
    hide FlashState, LookupState, Mounted, CacheState, Synced, Listed, Linked, SeenFiles, GapFree, Within, Table;
    OnePageNeeded();
    s.OpenStands(f);
    s.SizeKnown(f);
    var r1;
    ghost var done;
    r1, done := s.Write(f, []);
    r := s.FflushCache(f);
  }

  lemma OnePageNeeded()
    ensures NeededPages(DATA_SIZE) == 1
  {
    DivUnique(2 * DATA_SIZE - 1, DATA_SIZE, 1, DATA_SIZE - 1);
  }

  // ---------------------------------------------------------------------------
  // Writes when no page can be had

  /** A volume on which no page can be had outside a collection, although free pages are
      left: at most one block is free and no page is deleted. */
  ghost predicate Stuck(fs: Spiffs, len: nat)
    reads fs`freeBlocks, fs`pAllocated, fs`pDeleted
  {
    fs.freeBlocks < 2 && fs.pDeleted == 0 && NeededPages(len + DATA_SIZE) < FreePages(fs)
  }

  lemma StuckIsStuck(fs: Spiffs, len: nat, m: nat)
    requires fs.LookupOk() && !fs.cleaning && Stuck(fs, len) && m <= len
    ensures !fs.Space().CanTake() && Roomy(fs, m + DATA_SIZE)
  {
    hide FlashState, NeededPages;
    RoomAsItIs(fs, len, m);
    NoDeletedBlock(fs);
  }

  lemma NoDeletedBlock(fs: Spiffs)
    requires fs.LookupOk() && fs.pDeleted == 0
    ensures !AnyDeletedBlock(fs.lu)
  {
    hide FlashState, FreeSuffix, Buried, CursorOk;
    forall b: nat | b < BLOCKS ensures !AllDeleted(fs.lu, b) {
      if AllDeleted(fs.lu, b) {
        DeletedBlock(fs.lu, b);
        BlockCount(fs.lu, b, IsDeleted);
      }
    }
  }

  /** Whole pages of a file are written over while two blocks are free, none of them begun,
      no page is deleted, and every block has a page that is free or another file's: the
      first page takes one of the blocks, the second one is lost, and a full volume is
      reported. */
  method LostPages(s: Session, f: nat, data: seq<byte>, ghost d: nat) returns (r: Status)
    requires s.Valid() && f < |s.fs.fds| && Tracked(s.fs.fds[f]) && s.fs.fds[f].id !in s.pending && |data| >= PAGE_SIZE
    requires s.fs.fds[f].id in s.Seen() && OffsetIn(s.fs.fds[f].offset) == 0 && |data| >= 2 * DATA_SIZE
    requires s.fs.fds[f].offset + 2 * DATA_SIZE <= |s.Seen()[s.fs.fds[f].id].bytes|
    requires var j := PageOf(s.fs.fds[f].offset); IxSpan(j) == IxSpan(j + 1)
    requires s.fs.freeBlocks == 2 && FirstFree(s.fs.lu, s.fs.freeBlock, s.fs.freeEntry, d) && EntryOf(d) == 0
    requires s.fs.pDeleted == 0 && NeededPages(|data| + DATA_SIZE) < FreePages(s.fs) && Barren(s.fs.lu, s.fs.fds[f].id)
    modifies s, s.fs, s.dev, s.cache
    ensures r == ErrFull && s.ending == LostPage
    ensures s.EndsFrom(f, old(s.fs.fds)[f], old(FilesOf(s.fs)), data)
  {
    hide FlashState, LookupState, Mounted, CacheState, Synced, Listed, Linked, SeenFiles, GapFree, Within, Sheltered, Emptied, Ample, Roomy, AppendForetold, Foretold, Session.EndsFrom, LosesFirst, FilesOf, FirstFree, NeededPages, Loses, Quiet;
    s.SizeKnown(f);
    ghost var n, offset := |s.Seen()[s.fs.fds[f].id].bytes|, s.fs.fds[f].offset;
    OneBlockLeft(s.fs, d);
    SecondIsLost(offset, Inside(n, offset, |data|));
    NotEmptied(s.fs, s.fs.fds[f].id, offset, Inside(n, offset, |data|));
    RoomAsItIs(s.fs, |data|, Inside(n, offset, |data|));
    ghost var done;
    ghost var o := s.ForetellFor(s.fs.fds[f].id, offset, |data|);
    r, done := s.Write(f, data);
    LossReported(o, r, s.ending);
  }

  /** When the next page begins one of two free blocks, it is the only one to be had. */
  lemma OneBlockLeft(fs: Spiffs, d: nat)
    requires fs.freeBlocks == 2 && FirstFree(fs.lu, fs.freeBlock, fs.freeEntry, d) && EntryOf(d) == 0
    ensures fs.Space().Left() == 1
  {
    hide FirstFree, FreeSlots;
    SupplyTaken(fs.lu, fs.freeBlock, fs.freeEntry, 2, d);
  }

  lemma SecondIsLost(offset: nat, len: nat)
    requires OffsetIn(offset) == 0 && len >= 2 * DATA_SIZE && IxSpan(PageOf(offset)) == IxSpan(PageOf(offset) + 1)
    ensures Loses(offset, len, 1)
  {
    var j := PageOf(offset) + 1;
    assert Start(PageOf(offset)) == offset;
    assert Start(j) == Start(PageOf(offset)) + DATA_SIZE;
    assert LosesAt(offset, len, 1, j);
  }

  lemma RoomAsItIs(fs: Spiffs, len: nat, m: nat)
    requires fs.pDeleted == 0 && NeededPages(len + DATA_SIZE) < FreePages(fs) && m <= len
    ensures Roomy(fs, m + DATA_SIZE)
  {
    hide NeededPages;
    NeededLess(m + DATA_SIZE, len + DATA_SIZE);
  }

  lemma LossReported(o: Outlook, r: Status, end: Ending)
    requires Foretold(o, r, end) && o.inRoom && o.sheltered && !o.emptied && o.offset < o.n && o.len > 0
    requires Loses(o.offset, Inside(o.n, o.offset, o.len), o.room().Left())
    ensures r == ErrFull && end == LostPage
  {
    hide AppendForetold, Loses, Supply, FreeSlots, ModifyPages;
    LosesBelow(o.offset, Inside(o.n, o.offset, o.len), o.room().Left());
  }

  lemma NotEmptied(fs: Spiffs, id: nat, offset: nat, len: nat)
    requires Mounted(fs) && id in fs.cat && Barren(fs.lu, id) && len > 0
    ensures Sheltered(fs.lu, fs.cat[id], offset, len) && !Emptied(fs.lu, fs.cat[id], offset, len)
  {
    hide Barren, Sheltered, Emptied, Holds;
    BarrenStays(fs.lu, fs.pg, fs.cat, id, offset, len);
  }

  lemma Calm(s: Session)
    requires s.Valid()
    ensures s.fs.LookupOk() && !s.fs.cleaning
  {
  }

  /** The data pages of file `g` that a range of its bytes belongs to. */
  function OldPages(g: File, offset: nat, len: nat): set<nat>
    requires len > 0
  {
    set j: nat | PageOf(offset) <= j <= PageOf(offset + len - 1) && j < |g.data| :: g.data[j]
  }

  /** Whole pages that belong to one index page are written over when no page can be had:
      some are lost, and success is reported exactly if one block is free and the pages
      deleted leave another one to be erased for the index page. */
  lemma WholePagesLost(o: Outlook, r: Status, end: Ending)
    requires Foretold(o, r, end) && o.inRoom && o.sheltered && o.room().Left() == 0
    requires o.len > 0 && o.offset + o.len <= o.n && OffsetIn(o.offset) == 0 && OffsetIn(o.offset + o.len) == 0
    requires IxSpan(PageOf(o.offset)) == IxSpan(PageOf(o.offset + o.len - 1))
    ensures end == LostPage && r == if o.room().blocks >= 1 && o.emptied then Ok else ErrFull
  {
    hide AppendForetold, Supply, FreeSlots, ModifyPages, TakenSoFar;
    FirstOfAll(o.offset, o.len);
    LosesBelow(o.offset, o.len, 0);
  }

  lemma FirstOfAll(offset: nat, len: nat)
    requires len > 0 && OffsetIn(offset) == 0 && OffsetIn(offset + len) == 0
    ensures Loses(offset, len, 0)
    ensures IxSpan(PageOf(offset)) == IxSpan(PageOf(offset + len - 1)) ==> LosesToEnd(offset, len, 0)
  {
    hide TakenSoFar;
    var j := PageOf(offset);
    TakenAtFirst(j);
    assert Start(j) == offset && Start(PageOf(offset + len)) == offset + len;
    QuotMono(offset, offset + len, DATA_SIZE);
    TimesMono(j, PageOf(offset + len), DATA_SIZE);
    assert LosesAt(offset, len, 0, j);
  }

  /** What such a write empties, if no page is deleted before. */
  lemma EmptiesOldPages(lu: seq<Entry>, g: File, offset: nat, len: nat)
    requires len > 0 && DeletedSlots(lu) == {} && IxSpan(PageOf(offset)) == IxSpan(PageOf(offset + len - 1))
    ensures Emptied(lu, g, offset, len) <==> AnyBlockIn(OldPages(g, offset, len))
  {
    hide AnyBlockIn, DeletedSlots;
    var first, last := PageOf(offset), PageOf(offset + len - 1);
    assert DeletedSlots(lu) + Doomed(g, first, last + 1, IxSpan(last)) == OldPages(g, offset, len);
  }

  lemma NoneDeleted(fs: Spiffs)
    requires fs.LookupOk() && fs.pDeleted == 0
    ensures DeletedSlots(fs.lu) == {}
  {
    hide FlashState, FreeSuffix, Buried, CursorOk;
    NoneCounted(fs.lu, IsDeleted);
  }

  lemma NothingLeft(fs: Spiffs)
    requires fs.freeBlocks < 2
    ensures fs.Space().Left() == 0
  {
    hide FreeSlots;
  }

  /** At most a block of whole pages that belong to one index page is written over on a
      stuck volume.  Pages are lost, and the write reports success exactly if one block is
      free and the old pages are all there is in some block. */
  method UnnoticedLoss(s: Session, f: nat, data: seq<byte>) returns (r: Status)
    requires s.Valid() && f < |s.fs.fds| && Tracked(s.fs.fds[f]) && s.fs.fds[f].id !in s.pending && |data| >= PAGE_SIZE
    requires var id, offset := s.fs.fds[f].id, s.fs.fds[f].offset;
             && id in FilesOf(s.fs) && offset + |data| <= |FilesOf(s.fs)[id].bytes|
             && OffsetIn(offset) == 0 && OffsetIn(offset + |data|) == 0
             && IxSpan(PageOf(offset)) == IxSpan(PageOf(offset + |data| - 1)) && |data| <= Times(ENTRIES, DATA_SIZE)
    requires Stuck(s.fs, |data|)
    modifies s, s.fs, s.dev, s.cache
    ensures s.ending == LostPage && s.EndsFrom(f, old(s.fs.fds)[f], old(FilesOf(s.fs)), data)
    ensures var g, offset := old(s.fs.cat[s.fs.fds[f].id]), old(s.fs.fds)[f].offset;
            r == if old(s.fs.freeBlocks) == 1 && AnyBlockIn(OldPages(g, offset, |data|)) then Ok else ErrFull
  {
    hide FlashState, LookupState, Mounted, CacheState, Synced, Listed, Linked, SeenFiles, GapFree, Within, Sheltered, Emptied, Stuck, Ample, Roomy, AppendForetold, AnyDeletedBlock, Foretold, Session.EndsFrom, LosesFirst, FilesOf, FreeSlots, DeletedSlots, OldPages, AnyBlockIn;
    Calm(s);
    s.SizeKnown(f);
    ghost var g, offset, len := s.fs.cat[s.fs.fds[f].id], s.fs.fds[f].offset, |data|;
    StuckIsStuck(s.fs, len, len);
    StuckNumbers(s.fs, len);
    PagesInBlock(offset, len);
    FewPages(s.fs.lu, g, offset, len);
    EmptiesOldPages(s.fs.lu, g, offset, len);
    ghost var done;
    ghost var o := s.ForetellFor(s.fs.fds[f].id, offset, len);
    r, done := s.Write(f, data);
    WholePagesLost(o, r, s.ending);
  }

  lemma StuckNumbers(fs: Spiffs, len: nat)
    requires fs.LookupOk() && Stuck(fs, len)
    ensures DeletedSlots(fs.lu) == {} && fs.Space().Left() == 0 && fs.freeBlocks >= 0
  {
    hide FlashState, FreeSlots, NeededPages, FreeSuffix, Buried, CursorOk;
    NoneDeleted(fs);
    NothingLeft(fs);
  }

  /** At most a block of whole pages of one index page. */
  lemma PagesInBlock(offset: nat, len: nat)
    requires 0 < len <= Times(ENTRIES, DATA_SIZE) && OffsetIn(offset) == 0 && OffsetIn(offset + len) == 0
    requires IxSpan(PageOf(offset)) == IxSpan(PageOf(offset + len - 1))
    ensures ModifyPages(offset, len) <= ENTRIES + 1
  {
    var first, end := PageOf(offset), PageOf(offset + len);
    assert Start(first) == offset && Start(end) == offset + len;
    QuotMono(offset, offset + len, DATA_SIZE);
    TimesSum(first, ENTRIES, DATA_SIZE);
    FewTimes(first, end);
    BytePlace(end - 1, DATA_SIZE - 1);
  }

  lemma FewTimes(first: nat, end: nat)
    requires first <= end
    ensures Times(first, DATA_SIZE) <= Times(end, DATA_SIZE)
    ensures Times(end, DATA_SIZE) <= Times(first + ENTRIES, DATA_SIZE) ==> end <= first + ENTRIES
  {
    if first + ENTRIES < end {
      TimesMono(first + ENTRIES, end, DATA_SIZE);
    }
    TimesMono(first, end, DATA_SIZE);
  }

  lemma {:induction false} TimesSum(m: nat, n: nat, d: nat)
    ensures Times(m + n, d) == Times(m, d) + Times(n, d)
  {
    if n > 0 {
      TimesSum(m, n - 1, d);
    }
  }

  // ---------------------------------------------------------------------------
  // A volume on which such a write reports success

  /** The first block holds the data pages of file 1 and nothing else, the last block is free,
      and the first page of every other one is a header: the second that of file 1, and block
      `b` that of the empty file `b`. */
  function FilledEntry(s: nat): Entry
  {
    var b := BlockOf(s);
    if b == 0 then Used(1, false) else if EntryOf(s) == 0 && b + 1 < BLOCKS then Used(b, true) else Free
  }

  function FilledPage(s: nat): Page
  {
    var b := BlockOf(s);
    if b == 0 then DataPage(LiveHeader(1, false, s), ErasedBytes())
    else if EntryOf(s) == 0 && b + 1 < BLOCKS then IndexImage(b, FilledFile(b), 0)
    else Erased
  }

  function FilledFile(id: nat): File
  {
    if id == 1 then File("", Some(Times(ENTRIES, DATA_SIZE)), [Base(1)], seq(ENTRIES, j requires 0 <= j => j))
    else File("", None, [Base(id)], [])
  }

  function FilledLookup(): (lu: seq<Entry>)
    ensures |lu| == SLOTS
  {
    seq(SLOTS, s requires 0 <= s => FilledEntry(s))
  }

  function FilledPages(): (pg: seq<Page>)
    ensures |pg| == SLOTS
  {
    seq(SLOTS, s requires 0 <= s => FilledPage(s))
  }

  function FilledFiles(): Catalogue
  {
    map id: nat | 0 < id < BLOCKS - 1 :: FilledFile(id)
  }

  /** Where a slot is in its block. */
  lemma AtEntry(b: nat, e: nat)
    requires b < BLOCKS && e < ENTRIES
    ensures Base(b) + e < SLOTS && BlockOf(Base(b) + e) == b && EntryOf(Base(b) + e) == e
  {
    InBlock(b, Base(b) + e);
  }

  lemma FilledFileOk(id: nat)
    requires 0 < id < BLOCKS - 1 && 1 <= ENTRIES <= HDR_REFS
    ensures FileOk(FilledLookup(), FilledPages(), id, FilledFile(id)) && |FilledFile(id).ixs| == IxCount(|FilledFile(id).data|)
  {
    var lu, pg, f := FilledLookup(), FilledPages(), FilledFile(id);
    AtEntry(id, 0);
    assert IndexOk(lu, pg, id, f, 0);
    if id == 1 {
      FilledLength();
      assert |f.data| == PagesFor(Length(f.size)) && IxCount(|f.data|) == 1;
      forall j: nat | j < ENTRIES ensures DataOk(lu, pg, 1, f, j) {
        AtEntry(0, j);
      }
      assert SlackErased(pg, f);
    }
  }

  lemma FilledLength()
    ensures var n := Times(ENTRIES, DATA_SIZE); n > 0 && PageOf(n - 1) == ENTRIES - 1 && OffsetIn(n) == 0 && PageOf(0) == 0
  {
    BytePlace(ENTRIES - 1, DATA_SIZE - 1);
    BytePlace(ENTRIES, 0);
  }

  lemma FilledHolds()
    requires BLOCKS >= 3 && 1 <= ENTRIES <= HDR_REFS
    ensures Holds(FilledLookup(), FilledPages(), FilledFiles()) && Tight(FilledFiles())
    ensures FreeSuffix(FilledLookup()) && Buried(FilledLookup(), FilledPages())
  {
    hide FileOk;
    var lu, pg, cat := FilledLookup(), FilledPages(), FilledFiles();
    forall id | id in cat ensures FileOk(lu, pg, id, cat[id]) && |cat[id].ixs| == IxCount(|cat[id].data|) {
      FilledFileOk(id);
    }
    forall s: nat | s < SLOTS ensures SlotOk(lu, pg, cat, s) {
      BlockBounds(s);
    }
    forall s: nat, t: nat | s < t < SLOTS && BlockOf(s) == BlockOf(t) && lu[s].Free? ensures lu[t].Free? {
    }
  }

  /** What a scan of the first `n` blocks counts. */
  lemma {:induction false} FilledCounts(n: nat)
    requires 1 <= n <= BLOCKS
    ensures Base(n) <= SLOTS && Count(FilledLookup()[..Base(n)], IsDeleted) == 0
    ensures Count(FilledLookup()[..Base(n)], IsUsed) == ENTRIES + (if n < BLOCKS then n - 1 else BLOCKS - 2)
    ensures FreeBlocks(FilledLookup(), n) == if n < BLOCKS then 0 else 1
  {
    hide Count, FilledLookup, FilledEntry;
    var lu, a := FilledLookup(), Base(n - 1);
    FilledBlock(n - 1);
    CountTwo(lu, a, Base(n), IsUsed);
    CountTwo(lu, a, Base(n), IsDeleted);
    if n == 1 {
      assert lu[..a] == [];
      CountNone([], IsUsed);
      CountNone([], IsDeleted);
      assert FreeBlocks(lu, 0) == 0;
    } else {
      FilledCounts(n - 1);
    }
  }

  lemma CountTwo(es: seq<Entry>, a: nat, b: nat, k: Kind)
    requires a <= b <= |es|
    ensures Count(es[..b], k) == Count(es[..a], k) + Count(es[a..b], k)
  {
    CountConcat(es[..a], es[a..b], k);
    assert es[..b] == es[..a] + es[a..b];
  }

  lemma FilledBlock(b: nat)
    requires b < BLOCKS
    ensures Base(b) + ENTRIES == Base(b + 1) <= SLOTS && (FilledLookup()[Base(b)].Free? <==> b + 1 == BLOCKS)
    ensures var es := FilledLookup()[Base(b)..Base(b) + ENTRIES];
            && Count(es, IsDeleted) == 0
            && Count(es, IsUsed) == if b == 0 then ENTRIES else if b + 1 < BLOCKS then 1 else 0
  {
    hide Count;
    TimesMono(b, BLOCKS, ENTRIES);
    var es := FilledLookup()[Base(b)..Base(b) + ENTRIES];
    forall e: nat | e < ENTRIES
      ensures es[e] == if b == 0 then Used(1, false) else if e == 0 && b + 1 < BLOCKS then Used(b, true) else Free
    {
      AtEntry(b, e);
    }
    if b == 0 {
      CountAll(es, IsUsed);
    } else if b + 1 < BLOCKS {
      assert es == [es[0]] + es[1..];
      CountConcat([es[0]], es[1..], IsUsed);
      CountConcat([es[0]], es[1..], IsDeleted);
      CountAll([es[0]], IsUsed);
      CountAll(es[1..], IsFree);
    } else {
      CountAll(es, IsFree);
    }
  }

  /** With at least eight blocks of at least two pages, and no more than the header of a file
      refers to, that volume is in order and stuck for the length of file 1, with one block
      free, and the old pages of that file are all there is in a block. */
  lemma FilledIsUnnoticed()
    requires BLOCKS >= 8 && 2 <= ENTRIES <= HDR_REFS
    ensures var lu, pg, cat, len := FilledLookup(), FilledPages(), FilledFiles(), Times(ENTRIES, DATA_SIZE);
            && Holds(lu, pg, cat) && Tight(cat) && 1 in cat && |Files(pg, cat)[1].bytes| == len
            && LookupState(lu, pg, ENTRIES + BLOCKS - 2, 0, 1, BLOCKS - 1, 0)
            && NeededPages(len + DATA_SIZE) < ENTRIES * (BLOCKS - 2) - (ENTRIES + BLOCKS - 2)
            && PAGE_SIZE <= len && OffsetIn(0) == OffsetIn(len) == 0 && IxSpan(PageOf(0)) == IxSpan(PageOf(len - 1))
            && AnyBlockIn(OldPages(cat[1], 0, len))
  {
    hide Holds, FreeSuffix, Buried, Count, FreeBlocks;
    var lu, cat, len := FilledLookup(), FilledFiles(), Times(ENTRIES, DATA_SIZE);
    FilledHolds();
    FilledCounts(BLOCKS);
    assert lu[..SLOTS] == lu;
    FilledLength();
    FilledRoom();
    assert Files(FilledPages(), cat)[1] == View(FilledPages(), cat[1]);
    assert BlockIn(OldPages(cat[1], 0, len), 0) by {
      forall s: nat | Base(0) <= s < Base(0) + ENTRIES ensures s in OldPages(cat[1], 0, len) {
        assert cat[1].data[s] == s;
      }
    }
  }

  lemma FilledRoom()
    requires BLOCKS >= 8 && ENTRIES >= 2
    ensures PAGE_SIZE <= Times(ENTRIES, DATA_SIZE)
    ensures NeededPages(Times(ENTRIES, DATA_SIZE) + DATA_SIZE) < ENTRIES * (BLOCKS - 2) - (ENTRIES + BLOCKS - 2)
  {
    var n := Times(ENTRIES, DATA_SIZE) + DATA_SIZE;
    TimesMono(2, ENTRIES, DATA_SIZE);
    assert Times(2, DATA_SIZE) == Times(1, DATA_SIZE) + DATA_SIZE && Times(1, DATA_SIZE) == Times(0, DATA_SIZE) + DATA_SIZE;
    assert PAGE_SIZE <= DATA_SIZE + DATA_SIZE;
    TimesIsProduct(ENTRIES + 1, DATA_SIZE);
    assert n == (ENTRIES + 1) * DATA_SIZE;
    DivUnique(n + DATA_SIZE - 1, DATA_SIZE, ENTRIES + 1, DATA_SIZE - 1);
    ManyBlocks(ENTRIES, BLOCKS);
  }

  lemma ManyBlocks(e: nat, b: nat)
    requires e >= 2 && b >= 8
    ensures e + 1 < e * (b - 2) - (e + b - 2)
  {
    var c := b - 4;
    if e > 2 {
      MulStep(2, e, c);
    }
    assert e * (c + 2) == e * c + 2 * e;
  }

  /** An append to an empty file when no page can be had. */
  lemma NoPageForEmpty(o: Outlook, r: Status, end: Ending)
    requires Foretold(o, r, end) && o.roomy && o.n == 0 && o.offset == 0 && !o.room().CanTake()
    ensures r == ErrFull && end == ZeroSize
  {
  }

  /** Data is written to an empty file on such a volume: length 0 is programmed in the
      header, where the length can then never be programmed again. */
  method ZeroLength(s: Session, f: nat, data: seq<byte>) returns (r: Status)
    requires s.Valid() && f < |s.fs.fds| && Tracked(s.fs.fds[f]) && s.fs.fds[f].id !in s.pending && |data| >= PAGE_SIZE
    requires s.fs.fds[f].id in s.Seen() && s.Seen()[s.fs.fds[f].id].bytes == [] && Stuck(s.fs, |data|)
    modifies s, s.fs, s.dev, s.cache
    ensures r == ErrFull && s.ending == ZeroSize
    ensures s.EndsFrom(f, old(s.fs.fds)[f], old(FilesOf(s.fs)), data)
  {
    hide FlashState, LookupState, Mounted, CacheState, Synced, Listed, Linked, SeenFiles, GapFree, Within, Sheltered, Emptied, Stuck, Ample, Roomy, Foretold, Session.EndsFrom, LosesFirst, FilesOf, AppendForetold;
    s.OpenStands(f);
    s.SizeKnown(f);
    Calm(s);
    StuckIsStuck(s.fs, |data|, |data|);
    ghost var done;
    ghost var o := s.ForetellFor(s.fs.fds[f].id, s.fs.fds[f].offset, |data|);
    r, done := s.Write(f, data);
    NoPageForEmpty(o, r, s.ending);
  }

  /** Data that belongs to one index page is written behind a file whose last index page is
      full, while two blocks are free, none of them begun, and no page is deleted: the index
      page takes one of the blocks, and stays without a reference. */
  method SpareIndexPage(s: Session, f: nat, data: seq<byte>, ghost d: nat) returns (r: Status)
    requires s.Valid() && f < |s.fs.fds| && Tracked(s.fs.fds[f]) && s.fs.fds[f].id !in s.pending && |data| >= PAGE_SIZE
    requires s.fs.fds[f].id in s.Seen() && s.fs.fds[f].offset == |s.Seen()[s.fs.fds[f].id].bytes|
    requires NewIndexNeeded(s.fs.fds[f].offset) && OneIndex(s.fs.fds[f].offset, |data|)
    requires s.fs.freeBlocks == 2 && FirstFree(s.fs.lu, s.fs.freeBlock, s.fs.freeEntry, d) && EntryOf(d) == 0
    requires s.fs.pDeleted == 0 && NeededPages(|data| + DATA_SIZE) < FreePages(s.fs)
    modifies s, s.fs, s.dev, s.cache
    ensures r == ErrFull && s.ending == SpareIndex
    ensures s.EndsFrom(f, old(s.fs.fds)[f], old(FilesOf(s.fs)), data)
  {
    hide FlashState, LookupState, Mounted, CacheState, Synced, Listed, Linked, SeenFiles, GapFree, Within, Sheltered, Emptied, Ample, Roomy, AppendForetold, Foretold, Session.EndsFrom, LosesFirst, FilesOf, FirstFree, NeededPages, Loses, Quiet, OneIndex, NewIndexNeeded, AnyDeletedBlock;
    s.SizeKnown(f);
    Calm(s);
    OneBlockLeft(s.fs, d);
    NoDeletedBlock(s.fs);
    RoomAsItIs(s.fs, |data|, |data|);
    ghost var done;
    ghost var o := s.ForetellFor(s.fs.fds[f].id, s.fs.fds[f].offset, |data|);
    r, done := s.Write(f, data);
    IndexIsSpare(o, r, s.ending);
  }

  lemma IndexIsSpare(o: Outlook, r: Status, end: Ending)
    requires Foretold(o, r, end) && o.roomy && o.offset == o.n && NewIndexNeeded(o.n) && OneIndex(o.n, o.len)
    requires !AnyDeletedBlock(o.room().lu) && o.room().Left() == 1
    ensures r == ErrFull && end == SpareIndex
  {
    hide AppendFails, AnyDeletedBlock, Supply, FreeSlots, NewIndexNeeded;
    NewIndexAtStart(o.n);
  }

  /** An append to the last page of a file when no page can be had. */
  lemma NoPageForHeader(o: Outlook, r: Status, end: Ending)
    requires Foretold(o, r, end) && o.roomy && o.offset == o.n && !o.room().CanTake()
    requires OffsetIn(o.n) > 0 && o.len <= DATA_SIZE - OffsetIn(o.n)
    ensures r == ErrFull && end == Torn
  {
    hide AfterCollecting, AppendCounts, AnyDeletedBlock, NoneFree, SurePages;
  }

  /** Bytes that fit in the last page of a file are pending at its end on such a volume: they
      are programmed there, but the header with the new length cannot be stored. */
  method TornAppend(s: Session, f: nat) returns (r: Status)
    requires s.Valid() && f < |s.fs.fds| && Tracked(s.fs.fds[f]) && s.fs.fds[f].id in s.pending
    requires var id := s.fs.fds[f].id; var p := s.pending[id];
             && id in FilesOf(s.fs) && p.offset == |FilesOf(s.fs)[id].bytes| && p.data != []
             && OffsetIn(p.offset) > 0 && |p.data| <= DATA_SIZE - OffsetIn(p.offset) && Stuck(s.fs, |p.data|)
    modifies s, s.fs, s.dev, s.cache
    ensures r == ErrFull && s.ending == Torn
    ensures var id := old(s.fs.fds)[f].id; var p := old(s.pending)[id];
            EndsSomehow(s.fs, f, id, old(FilesOf(s.fs)), p.offset, p.data, Torn)
  {
    hide FlashState, LookupState, Mounted, CacheState, Synced, Listed, Linked, SeenFiles, GapFree, Within, Sheltered, Emptied, Stuck, Ample, Roomy, EndsSomehow, Foretold, LosesFirst;
    Calm(s);
    ghost var p := s.pending[s.fs.fds[f].id];
    StuckIsStuck(s.fs, |p.data|, |p.data|);
    ghost var o := s.ForetellFor(s.fs.fds[f].id, p.offset, |p.data|);
    r := s.FflushCache(f);
    NoPageForHeader(o, r, s.ending);
  }

  // ---------------------------------------------------------------------------
  // Seeks and descriptors

  /** A seek to the end of a file whose last index page is full is refused, unless the
      descriptor has the next index page at hand. */
  method FullEnd(s: Session, f: nat) returns (r: Status)
    requires s.Valid() && f < |s.fs.fds| && Tracked(s.fs.fds[f]) && s.fs.fds[f].id !in s.pending
    requires s.fs.fds[f].id in s.Seen()
    requires var n := |s.Seen()[s.fs.fds[f].id].bytes|;
             0 < n < 0x8000_0000 && n == Start(FirstRef(IxCount(PagesFor(n)))) && s.fs.fds[f].ixSpan != IxSpan(PageOf(n))
    modifies s, s.fs, s.dev, s.cache
    ensures r == ErrNotFound && s.InSync()
  {
    hide FirstRef, IxCount, PagesFor, Start, PageOf, IxSpan, FlashState, LookupState, Mounted, CacheState, Synced, Listed, Linked, SeenFiles, GapFree, Within;
    ghost var n := |s.Seen()[s.fs.fds[f].id].bytes|;
    s.OpenStands(f);
    s.SeekInFile(f, n);
    SeekMissesOnlyFullEnd(n, n);
    var flushed;
    ghost var mid;
    r, flushed, mid := s.Lseek(f, 0, End);
  }

  /** After mounting, no descriptor has been used by name.  Removing a file takes one of
      them for good: no handle refers to it and it is not closed. */
  method LeakyRemove(s: Session, path: string, block: nat, entry: nat) returns (r: Status, c: nat)
    requires s.Valid() && block < BLOCKS && |path| < NAME_LEN && |s.fs.fds| > 0
    requires forall i :: 0 <= i < |s.fs.fds| ==> s.fs.fds[i].nbr == 0 && s.fs.fds[i].score == 0
    requires Named(s.State(), path) && NonePending(s, path)
    modifies s, s.fs, s.dev, s.cache
    ensures r == Ok && s.Valid() && c < |s.fs.fds| && s.fs.fds[c].nbr != 0
    ensures c < |s.State().handles| && s.State().handles[c] == Closed
  {
    hide FlashState, LookupState, Mounted, CacheState, Synced, Listed, Linked, SeenFiles, GapFree, Within;
    assert s.fs.fds[0].nbr == 0;
    ghost var id;
    r, c, id := s.Remove(path, block, entry);
  }
}

/** The object operations: each is a loop over the data pages of a file that keeps
    the current index page in a work buffer, and each is proved to do to the bytes
    of the file what its name says, and nothing to any other file. */
module Objects {
  import opened Geometry
  import opened Image
  import opened Steps
  import opened Lookup
  import opened Volume
  import opened Nor
  import opened Encoding
  import opened Trace
  import opened Nucleus
  import opened Gc
  import Bytes
  import Cache
  import Flash

  /** A volume between operations. */
  ghost predicate Mounted(fs: Spiffs)
    reads fs
  {
    && fs.LookupOk() && !fs.cleaning
    && Holds(fs.lu, fs.pg, fs.cat) && Tight(fs.cat)
    && FdsPagesOk(fs.fds, fs.cat) && FdsSizesOk(fs.fds, fs.cat)
  }

  /** The files of a volume. */
  ghost function FilesOf(fs: Spiffs): map<nat, FileView>
    reads fs`pg, fs`cat
  {
    Files(fs.pg, fs.cat)
  }

  /** Descriptor `f` is open on a file. */
  ghost predicate OpenOn(fs: Spiffs, f: nat, id: nat)
    reads fs
  {
    f < |fs.fds| && Tracked(fs.fds[f]) && fs.fds[f].id == id && id in fs.cat
  }

  function ChunkSize(left: nat, off: nat): (n: nat)
    requires off < DATA_SIZE
    ensures n <= left && off + n <= DATA_SIZE && (left > 0 ==> n > 0)
    ensures n == left || off + n == DATA_SIZE
  {
    if left < DATA_SIZE - off then left else DATA_SIZE - off
  }

  lemma DataPageExists(f: File, pos: nat)
    requires Sized(f) && pos < Length(f.size)
    ensures PageOf(pos) < |f.data| && IxSpan(PageOf(pos)) < |f.ixs|
  {
    SizeBound(f);
    PageBelow(pos, |f.data|);
    IxSpanMono(PageOf(pos), |f.data| - 1);
  }

  lemma ViewLength(lu: seq<Entry>, pg: seq<Page>, cat: Catalogue, id: nat)
    requires Holds(lu, pg, cat) && id in cat
    ensures id in Files(pg, cat) && |Files(pg, cat)[id].bytes| == Length(cat[id].size) && Sized(cat[id])
  {
    assert FileOk(lu, pg, id, cat[id]);
  }

  lemma NextPosition(pos: nat, n: nat)
    requires OffsetIn(pos) + n == DATA_SIZE
    ensures PageOf(pos + n) == PageOf(pos) + 1 && OffsetIn(pos + n) == 0
  {
    BytePlace(PageOf(pos) + 1, 0);
  }

  /** The collector has changed no file. */
  lemma AfterCollection(fds0: seq<Fd>, fs: Spiffs, f: nat, id: nat, files: map<nat, FileView>)
    requires fs.LookupOk() && !fs.cleaning && Steady(fs, files) && FdsKept(fds0, fs.fds)
    requires f < |fds0| && Tracked(fds0[f]) && fds0[f].id == id && id in files
    ensures Mounted(fs) && OpenOn(fs, f, id) && FilesOf(fs) == files
  {
    hide FlashState, LookupState, Holds, Tight, FdsPagesOk, FdsSizesOk;
    assert Files(fs.pg, fs.cat).Keys == fs.cat.Keys;
  }

  // ---------------------------------------------------------------------------
  // What flash still leads to when an index page in it is out of date

  /** The index pages in flash lead to slot `s` for data page `j` of the object, and it is
      a live page of the object with that number. */
  ghost predicate Found(lu: seq<Entry>, pg: seq<Page>, id: nat, f: File, j: nat, s: nat)
  {
    && IxSpan(j) < |f.ixs| && f.ixs[IxSpan(j)] < |pg| && pg[f.ixs[IxSpan(j)]].IndexPage?
    && IxEntry(j) < |pg[f.ixs[IxSpan(j)]].table| && pg[f.ixs[IxSpan(j)]].table[IxEntry(j)] == At(s)
    && s < |lu| && s < |pg| && lu[s] == Used(id, false) && pg[s].DataPage? && pg[s].hdr == LiveHeader(id, false, j)
  }

  /** Byte `k` of the object is found through the index pages in flash. */
  ghost predicate Shows(lu: seq<Entry>, pg: seq<Page>, id: nat, f: File, k: nat, b: byte)
  {
    exists s: nat :: Found(lu, pg, id, f, PageOf(k), s) && OffsetIn(k) < |pg[s].bytes| && pg[s].bytes[OffsetIn(k)] == b
  }

  /** The bytes of the object are found through the index pages in flash, except for those
      in the data pages that are gone, which are not found. */
  ghost predicate Legible(lu: seq<Entry>, pg: seq<Page>, id: nat, f: File, bytes: seq<byte>, gone: set<nat>)
  {
    && (forall k: nat :: k < |bytes| && PageOf(k) !in gone ==> Shows(lu, pg, id, f, k, bytes[k]))
    && (forall j, s :: j in gone ==> !Found(lu, pg, id, f, j, s))
  }

  /** Index page `k` of an object is in flash, the header with this name and length. */
  ghost predicate IndexFound(lu: seq<Entry>, pg: seq<Page>, id: nat, f: File, k: nat, name: string, n: nat)
    requires k < |f.ixs|
  {
    var x := f.ixs[k];
    && x < |lu| && x < |pg| && lu[x] == Used(id, true) && pg[x].IndexPage? && pg[x].hdr == LiveHeader(id, true, k)
    && (k == 0 ==> pg[x].name == name && Length(pg[x].size) == n)
  }

  /** What a change of file `id` that came to no good end leaves in flash: the files there
      were, but of file `id` its name, the length and the bytes of `v`, without the data
      pages that are gone. */
  ghost predicate LeftOf(fs: Spiffs, id: nat, files: map<nat, FileView>, v: FileView, gone: set<nat>)
    reads fs
  {
    && fs.cat.Keys == files.Keys && id in fs.cat
    && (forall i :: i in fs.cat && i != id ==> FileOk(fs.lu, fs.pg, i, fs.cat[i]) && View(fs.pg, fs.cat[i]) == files[i])
    && (forall k: nat :: k < |fs.cat[id].ixs| ==> IndexFound(fs.lu, fs.pg, id, fs.cat[id], k, v.name, |v.bytes|))
    && Legible(fs.lu, fs.pg, id, fs.cat[id], v.bytes, gone)
  }

  // ---------------------------------------------------------------------------
  // Read

  /** What a read may change: where searches start and which index page the
      descriptor used last. */
  ghost predicate OnlyCursors(fds0: seq<Fd>, fds: seq<Fd>)
  {
    && |fds| == |fds0|
    && forall i :: 0 <= i < |fds| ==> fds[i] == fds0[i].(ixSpan := fds[i].ixSpan, ixPix := fds[i].ixPix)
  }

  /** A chunk of one data page is the slice of the file at its place. */
  lemma PageSlice(lu: seq<Entry>, pg: seq<Page>, id: nat, f: File, pos: nat, n: nat)
    requires FileOk(lu, pg, id, f) && pos + n <= Length(f.size) && n > 0 && OffsetIn(pos) + n <= DATA_SIZE
    ensures PageOf(pos) < |f.data| && DataOk(lu, pg, id, f, PageOf(pos))
    ensures pg[f.data[PageOf(pos)]].bytes[OffsetIn(pos)..OffsetIn(pos) + n] == View(pg, f).bytes[pos..pos + n]
  {
    DataPageExists(f, pos);
    assert DataOk(lu, pg, id, f, PageOf(pos));
    var p := pg[f.data[PageOf(pos)]].bytes;
    var a, b := p[OffsetIn(pos)..OffsetIn(pos) + n], View(pg, f).bytes[pos..pos + n];
    forall i | 0 <= i < n ensures a[i] == b[i] {
      BytePlace(PageOf(pos), OffsetIn(pos) + i);
    }
  }

  /** The device a volume is on: its copies of pages equal flash, and flash holds the volume. */
  ghost predicate Synced(fs: Spiffs, dev: Flash.Flash)
    reads fs`flash, dev, dev.cache
  {
    dev.Coherent() && dev.bytes == fs.flash
  }

  /** Reads an index page of a file through the cache. */
  method ReadIndex(fs: Spiffs, dev: Flash.Flash, ghost id: nat, ghost k: nat, x: nat) returns (work: seq<byte>)
    requires fs.LookupOk() && Synced(fs, dev) && id in fs.cat && x < SLOTS && fs.pg[x] == IndexImage(id, fs.cat[id], k)
    modifies dev.cache
    ensures Synced(fs, dev) && Cache.WritesKept(old(dev.cache.pages), old(dev.cache.mem), dev.cache.pages, dev.cache.mem)
    ensures work == PageImage(IndexImage(id, fs.cat[id], k))
  {
    hide LookupState, PageImage, OnFlash, Recorded;
    SlotRead(fs.flash, fs.lu, fs.pg, fs.eraseCount, x, 0, PAGE_SIZE);
    work := dev.PhysRd(OnIndex, PageStart(PixOfSlot(x)), PAGE_SIZE);
    assert PageImage(fs.pg[x])[0..0 + PAGE_SIZE] == PageImage(fs.pg[x]);
  }

  /** Reads from the data page that an index page refers to, through the cache. */
  method ReadPage(fs: Spiffs, dev: Flash.Flash, ghost id: nat, work: seq<byte>, pos: nat, n: nat) returns (chunk: seq<byte>)
    requires Mounted(fs) && Synced(fs, dev) && id in fs.cat && id in FilesOf(fs)
    requires work == PageImage(IndexImage(id, fs.cat[id], IxSpan(PageOf(pos))))
    requires pos + n <= |FilesOf(fs)[id].bytes| && n > 0 && OffsetIn(pos) + n <= DATA_SIZE
    modifies dev.cache
    ensures Synced(fs, dev) && Cache.WritesKept(old(dev.cache.pages), old(dev.cache.mem), dev.cache.pages, dev.cache.mem)
    ensures chunk == FilesOf(fs)[id].bytes[pos..pos + n]
  {
    hide LookupState, PageImage, OnFlash, Recorded, FdsPagesOk, FdsSizesOk, Tight, Holds, SlackErased, RefImage;
    ViewLength(fs.lu, fs.pg, fs.cat, id);
    FileOf(fs.lu, fs.pg, fs.cat, id);
    PageSlice(fs.lu, fs.pg, id, fs.cat[id], pos, n);
    var j := PageOf(pos);
    IndexPlace(j);
    ghost var s := fs.cat[id].data[j];
    RefRead(IndexImage(id, fs.cat[id], IxSpan(j)), IxEntry(j));
    PixFits(s);
    var entry := TableOffset(IxSpan(j)) + 2 * IxEntry(j);
    var dataPix := Bytes.Value(work[entry..entry + 2]);
    SlotRead(fs.flash, fs.lu, fs.pg, fs.eraseCount, s, PAGE_HEADER + OffsetIn(pos), n);
    PayloadRead(fs.pg[s].hdr, fs.pg[s].bytes, OffsetIn(pos), n);
    chunk := dev.PhysRd(OnData, PageStart(dataPix) + (PAGE_HEADER + OffsetIn(pos)), n);
  }

  /** One round of the read loop. */
  method ReadRound(fs: Spiffs, dev: Flash.Flash, f: nat, id: nat, pos: nat, n: nat, loaded: Option<nat>, k: nat, page: seq<byte>)
    returns (chunk: seq<byte>, work: seq<byte>, x: nat)
    requires Mounted(fs) && Synced(fs, dev) && OpenOn(fs, f, id)
    requires pos + n <= |FilesOf(fs)[id].bytes| && n > 0 && OffsetIn(pos) + n <= DATA_SIZE
    requires loaded.Some? ==>
               && k < |fs.cat[id].ixs| && page == PageImage(IndexImage(id, fs.cat[id], k))
               && loaded.value < SLOTS && fs.pg[loaded.value] == IndexImage(id, fs.cat[id], k)
    modifies fs`fds, fs`cursorBlock, fs`cursorEntry, dev.cache
    ensures Mounted(fs) && Synced(fs, dev) && OnlyCursors(old(fs.fds), fs.fds) && FilesOf(fs) == old(FilesOf(fs))
    ensures Cache.WritesKept(old(dev.cache.pages), old(dev.cache.mem), dev.cache.pages, dev.cache.mem)
    ensures chunk == FilesOf(fs)[id].bytes[pos..pos + n]
    ensures IxSpan(PageOf(pos)) < |fs.cat[id].ixs| && work == PageImage(IndexImage(id, fs.cat[id], IxSpan(PageOf(pos))))
    ensures x < |fs.pg| == SLOTS && fs.pg[x] == IndexImage(id, fs.cat[id], IxSpan(PageOf(pos)))
  {
    hide FlashState, LookupState, FdsPagesOk, FdsSizesOk, Tight, Holds, PageImage;
    ViewLength(fs.lu, fs.pg, fs.cat, id);
    DataPageExists(fs.cat[id], pos);
    var curSpix := IxSpan(PageOf(pos));
    work := page;
    if loaded.Some? && curSpix == k {
      x := loaded.value;
    } else {
      NothingLost(fs.lu, fs.pg, fs.cat, id);
      x := IndexSlot(fs, f, curSpix, {});
      SetCursor(fs.fds, fs.cat, f, curSpix, x);
      fs.fds := fs.fds[f := fs.fds[f].(ixSpan := curSpix, ixPix := x)];
      work := ReadIndex(fs, dev, id, curSpix, x);
    }
    chunk := ReadPage(fs, dev, id, work, pos, n);
  }

  lemma FileOf(lu: seq<Entry>, pg: seq<Page>, cat: Catalogue, id: nat)
    requires Holds(lu, pg, cat) && id in cat
    ensures FileOk(lu, pg, id, cat[id])
  {
  }

  /** Reads bytes of the file of descriptor `f`: index pages and data pages are read
      through the cache, and what is read are the bytes of the file.  `loaded` is where the
      index page read last is, which the work buffer holds then. */
  method Read(fs: Spiffs, dev: Flash.Flash, f: nat, offset: nat, len: nat) returns (bytes: seq<byte>, loaded: Option<nat>)
    requires Mounted(fs) && Synced(fs, dev) && f < |fs.fds| && OpenOn(fs, f, fs.fds[f].id)
    requires offset + len <= |FilesOf(fs)[fs.fds[f].id].bytes|
    modifies fs`fds, fs`cursorBlock, fs`cursorEntry, dev.cache
    ensures Mounted(fs) && Synced(fs, dev) && OnlyCursors(old(fs.fds), fs.fds)
    ensures Cache.WritesKept(old(dev.cache.pages), old(dev.cache.mem), dev.cache.pages, dev.cache.mem)
    ensures FilesOf(fs) == old(FilesOf(fs)) && f < |fs.fds| && fs.fds[f].id in FilesOf(fs) && fs.fds[f].id in fs.cat
    ensures bytes == FilesOf(fs)[fs.fds[f].id].bytes[offset..offset + len]
    ensures loaded.Some? <==> len > 0
    ensures loaded.Some? ==>
              var id := fs.fds[f].id;
              && loaded.value < |fs.pg| == SLOTS
              && fs.pg[loaded.value] == IndexImage(id, fs.cat[id], IxSpan(PageOf(offset + len - 1)))
  {
    hide FlashState, LookupState, Mounted, Synced, PageImage, Cache.WritesKept, OnlyCursors, FilesOf;
    var id := fs.fds[f].id;
    FileIn(fs, id);
    ghost var v := FilesOf(fs)[id];
    CursorsChain(fs.fds, fs.fds, fs.fds);
    var curOffset := offset;
    var k: nat, work := 0, [];
    loaded := None;
    CacheSized(fs, dev);
    bytes := [];
    while curOffset < offset + len
      invariant offset <= curOffset <= offset + len
      invariant Mounted(fs) && Synced(fs, dev) && OpenOn(fs, f, id) && OnlyCursors(old(fs.fds), fs.fds)
      invariant FilesOf(fs) == old(FilesOf(fs))
      invariant Cache.WritesKept(old(dev.cache.pages), old(dev.cache.mem), dev.cache.pages, dev.cache.mem)
      invariant loaded.Some? <==> curOffset > offset
      invariant loaded.Some? ==>
                  && k < |fs.cat[id].ixs| && work == PageImage(IndexImage(id, fs.cat[id], k))
                  && loaded.value < |fs.pg| == SLOTS && fs.pg[loaded.value] == IndexImage(id, fs.cat[id], k)
                  && k == IxSpan(PageOf(curOffset - 1))
      invariant bytes == v.bytes[offset..curOffset]
    {
      var n := ChunkSize(offset + len - curOffset, OffsetIn(curOffset));
      var chunk, x;
      ghost var fds1, pages1, mem1 := fs.fds, dev.cache.pages, dev.cache.mem;
      chunk, work, x := ReadRound(fs, dev, f, id, curOffset, n, loaded, k, work);
      CursorsChain(old(fs.fds), fds1, fs.fds);
      Cache.KeptChain(old(dev.cache.pages), old(dev.cache.mem), pages1, mem1, dev.cache.pages, dev.cache.mem);
      LastOfChunk(curOffset, n);
      k, loaded := IxSpan(PageOf(curOffset)), Some(x);
      bytes := bytes + chunk;
      curOffset := curOffset + n;
    }
  }

  /** A chunk of one data page ends in that page. */
  lemma LastOfChunk(pos: nat, n: nat)
    requires n > 0 && OffsetIn(pos) + n <= DATA_SIZE
    ensures PageOf(pos + n - 1) == PageOf(pos)
  {
    BytePlace(PageOf(pos), OffsetIn(pos) + n - 1);
  }

  lemma CacheSized(fs: Spiffs, dev: Flash.Flash)
    requires Synced(fs, dev)
    ensures Cache.WritesKept(dev.cache.pages, dev.cache.mem, dev.cache.pages, dev.cache.mem)
  {
  }

  lemma FileIn(fs: Spiffs, id: nat)
    requires id in fs.cat
    ensures id in FilesOf(fs)
  {
  }

  lemma CursorsChain(a: seq<Fd>, b: seq<Fd>, c: seq<Fd>)
    ensures OnlyCursors(a, a)
    ensures OnlyCursors(a, b) && OnlyCursors(b, c) ==> OnlyCursors(a, c)
    ensures OnlyCursors(a, c) ==> |a| == |c| && forall f :: 0 <= f < |a| ==> c[f].id == a[f].id && Tracked(c[f]) == Tracked(a[f])
  {
  }

  // ---------------------------------------------------------------------------
  // Create


  /** No descriptor follows an object that does not exist. */
  lemma CreateKeepsFds(fds: seq<Fd>, cat: Catalogue, id: nat, g: File, d: nat)
    requires id !in cat && FdsPagesOk(fds, cat) && FdsSizesOk(fds, cat)
    ensures var fds' := EventOnFds(fds, IxNew, id, 0, d, Some(None));
            FdsPagesOk(fds', cat[id := g]) && FdsSizesOk(fds', cat[id := g]) && FdsKept(fds, fds')
  {
    var fds' := EventOnFds(fds, IxNew, id, 0, d, Some(None));
    forall i | 0 <= i < |fds'| ensures FdPagesOk(fds'[i], cat[id := g]) && FdSizeOk(fds'[i], cat[id := g]) {
      assert FdPagesOk(fds[i], cat) && FdSizeOk(fds[i], cat);
    }
  }

  /** Fills the slot found for the header page of a new object. */
  method FillHeader(fs: Spiffs, hdr: nat, id: nat, name: string)
    requires fs.Reserved(hdr)
    modifies fs`lu, fs`pg, fs`flash, fs`trace, fs`pAllocated
    ensures fs.LookupOk() && fs.lu == old(fs.lu)[hdr := Used(id, true)]
    ensures fs.pg == old(fs.pg)[hdr := IndexPage(LiveHeader(id, true, 0), None, name, EmptyTable(0))]
    ensures fs.pAllocated == old(fs.pAllocated) + 1
  {
    hide FlashState, LookupState, Counted, FreeSuffix, Buried, TakenBefore, PageImage, SlotIs, Recorded, Program, OnlyClears;
    var page := IndexPage(LiveHeader(id, true, 0), None, name, EmptyTable(0));
    fs.TakeEntry(hdr, id, true, PageImage(Erased));
    HeaderPageWritten(LiveHeader(id, true, 0), name, TableLen(0));
    assert EmptyTable(0) == seq(TableLen(0), e => NoPage);
    fs.PutBytes(hdr, PageImage(Erased), OnData, Update, 0, PageImage(page)[..OBJ_IX_HDR_SIZE]);
    fs.Settle(hdr, page);
  }

  /** Writes the header page of a new object. */
  method WriteHeader(fs: Spiffs, id: nat, name: string) returns (r: Status, hdr: nat)
    requires fs.LookupOk()
    modifies fs`lu, fs`pg, fs`flash, fs`trace, fs`freeBlocks, fs`eraseCount, fs`maxEraseCount, fs`pDeleted,
             fs`freeBlock, fs`freeEntry, fs`pAllocated
    ensures fs.LookupOk() && (r == Ok || r == ErrFull || r == ErrNotFound)
    ensures r != Ok ==> Sizes(fs.lu, fs.pg) && KeptBut(old(fs.lu), old(fs.pg), fs.lu, fs.pg, {})
    ensures r == Ok ==>
              && hdr < SLOTS && KeptBut(old(fs.lu), old(fs.pg), fs.lu, fs.pg, {hdr}) && !old(fs.lu)[hdr].Used?
              && fs.lu[hdr] == Used(id, true)
              && fs.pg[hdr] == IndexPage(LiveHeader(id, true, 0), None, name, EmptyTable(0))
    ensures Took(r, old(fs.Space()), fs.Space())
  {
    hide FlashState, LookupState, Counted, FreeSuffix, Buried, TakenBefore, PageImage, SlotIs, Recorded, FirstFree, Took, FreeSlots;
    r, hdr := fs.FindFree();
    if r == Ok {
      assert Kept(old(fs.lu), old(fs.pg), fs.lu, fs.pg, hdr);
      ghost var room := fs.SpaceTaken(hdr);
      SlotTaken(fs.lu, hdr, Deleted);
      SlotTaken(fs.lu, hdr, Used(id, true));
      FillHeader(fs, hdr, id, name);
      TookSame(r, old(fs.Space()), room, fs.Space());
    }
  }

  /** Creates an empty object. */
  method Create(fs: Spiffs, id: nat, name: string) returns (r: Status, hdr: nat, end: Ending)
    requires Mounted(fs) && id !in fs.cat && |name| < NAME_LEN
    modifies fs
    ensures fs.LookupOk() && fs.start == old(fs.start)
    ensures r == Ok || r == ErrFull || r == ErrNotFound
    ensures end.Complete? || (end.Torn? && r == ErrNotFound && Behind(fs, old(FilesOf(fs))))
    ensures old(Quiet(fs, DATA_SIZE)) ==> r == Ok
    ensures PageAfter(old(LayoutOf(fs)), DATA_SIZE, r)
    ensures r != Ok && end.Complete? ==> Mounted(fs) && FdsKept(old(fs.fds), fs.fds) && FilesOf(fs) == old(FilesOf(fs))
    ensures r == Ok ==>
              && Mounted(fs) && FdsKept(old(fs.fds), fs.fds)
              && FilesOf(fs) == old(FilesOf(fs))[id := FileView(name, [])]
              && id in fs.cat && |fs.cat[id].ixs| > 0 && fs.cat[id].ixs[0] == hdr && fs.cat[id].size == None
    ensures r != Ok ==> Scarce(fs, DATA_SIZE)
  {
    hide NoneFree, NeededPages, Behind, Collected, PageAfter, DeletedSlots, AnyDeletedBlock, Supply, FreeSlots, FlashState, LookupState, FdsPagesOk, FdsSizesOk, FdsKept, EventOnFd, Holds;
    hdr, end := 0, Complete;
    var work;
    ghost var a := LayoutOf(fs);
    r, work := GcCheck(fs, DATA_SIZE, Erased);
    ghost var c := LayoutOf(fs);
    if r != Ok {
      PageTaken(a, DATA_SIZE, c, r, r);
      end := if r == ErrFull then Complete else Torn;
      return;
    }
    ghost var fds1 := fs.fds;
    assert id !in fs.cat by { assert Files(fs.pg, fs.cat).Keys == fs.cat.Keys; }
    r, hdr := NewObject(fs, id, name);
    PageTaken(a, DATA_SIZE, c, Ok, r);
    FdsKeptChain(old(fs.fds), fds1, fs.fds);
  }

  /** Enters an empty object, if a page can be had for its header. */
  method NewObject(fs: Spiffs, id: nat, name: string) returns (r: Status, hdr: nat)
    requires Mounted(fs) && id !in fs.cat && |name| < NAME_LEN
    modifies fs
    ensures Mounted(fs) && FdsKept(old(fs.fds), fs.fds) && fs.start == old(fs.start)
    ensures r == (if old(fs.Space()).CanTake() then Ok else ErrFull) && (r != Ok ==> fs.freeBlocks < 2)
    ensures FilesOf(fs) == if r == Ok then old(FilesOf(fs))[id := FileView(name, [])] else old(FilesOf(fs))
    ensures r == Ok ==> id in fs.cat && |fs.cat[id].ixs| > 0 && fs.cat[id].ixs[0] == hdr && fs.cat[id].size == None
  {
    hide DeletedSlots, AnyDeletedBlock, NoneFree, Supply, FreeSlots, FlashState, LookupState, FdsPagesOk, FdsSizesOk, FdsKept, EventOnFd, Holds;
    ghost var lu1, pg1, fds1 := fs.lu, fs.pg, fs.fds;
    FdsKeptSelf(fs.fds);
    r, hdr := WriteHeader(fs, id, name);
    if r != Ok {
      WipeStep(lu1, pg1, fs.cat, fs.lu, fs.pg);
      return;
    }
    fs.CbObjectEvent(IxNew, id, 0, hdr, Some(None));
    AddFile(lu1, pg1, fs.cat, fs.lu, fs.pg, id, name, hdr);
    CreateKeepsFds(fds1, fs.cat, id, File(name, None, [hdr], []), hdr);
    fs.cat := fs.cat[id := File(name, None, [hdr], [])];
  }
}

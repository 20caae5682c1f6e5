/** The calls a user makes.  A mounted volume with its page cache is a set of files
    and open descriptors; every call that succeeds does to them what it would do to
    plain byte sequences, wherever the bytes are, in flash or pending in the cache. */
module Api {
  import opened Geometry
  import opened Image
  import opened Steps
  import opened Lookup
  import opened Visitor
  import opened Volume
  import opened Nor
  import opened Encoding
  import opened Trace
  import opened Nucleus
  import opened Gc
  import opened Objects
  import opened Modify
  import opened Append
  import opened Truncate
  import opened Cache
  import opened Hydrogen
  import opened Pending
  import opened FreeId
  import Flash

  /** A descriptor as its user sees it. */
  datatype Handle = Closed | Opened(id: nat, offset: nat)

  function HandleOf(fd: Fd): Handle
  {
    if Tracked(fd) then Opened(fd.id, fd.offset) else Closed
  }

  /** What the users of a volume see. */
  datatype Plain = Plain(files: map<nat, FileView>, handles: seq<Handle>)

  function Handles(fds: seq<Fd>): seq<Handle>
  {
    seq(|fds|, f requires 0 <= f < |fds| => HandleOf(fds[f]))
  }

  datatype Whence = Set | Cur | End

  /** Handle `f` is open on a file and stands within it. */
  ghost predicate Standing(p: Plain, f: nat)
  {
    && f < |p.handles| && p.handles[f].Opened? && p.handles[f].id in p.files
    && p.handles[f].offset <= |p.files[p.handles[f].id].bytes|
  }

  /** A write replaces bytes at the offset and what lies beyond the end is appended. */
  ghost function PlainWrite(p: Plain, f: nat, data: seq<byte>): Plain
    requires Standing(p, f)
  {
    var h := p.handles[f];
    Plain(p.files[h.id := Spliced(p.files[h.id], h.offset, data)], p.handles[f := Opened(h.id, h.offset + |data|)])
  }

  /** A read gives bytes from the offset to the end of the file, as many as are asked for. */
  ghost function PlainRead(p: Plain, f: nat, len: nat): (Plain, seq<byte>)
    requires Standing(p, f)
  {
    var h := p.handles[f];
    var left := |p.files[h.id].bytes| - h.offset;
    var n := if len < left then len else left;
    (p.(handles := p.handles[f := Opened(h.id, h.offset + n)]), p.files[h.id].bytes[h.offset..h.offset + n])
  }

  /** Handle `f` was closed and is now open at the start of a file with the name; if
      there was none, there is now an empty one. */
  ghost predicate PlainOpened(p: Plain, p': Plain, f: nat, path: string)
  {
    && f < |p.handles| && p.handles[f] == Closed
    && exists id: nat ::
         && id in p'.files && p'.handles == p.handles[f := Opened(id, 0)]
         && if exists i :: i in p.files && p.files[i].name == path
            then id in p.files && p.files[id].name == path && p'.files == p.files
            else LeastFree(p.files, id) && p'.files == p.files[id := FileView(path, [])]
  }

  lemma OpensPlain(p: Plain, p': Plain, f: nat, path: string, id: nat, created: bool)
    requires f < |p.handles| && p.handles[f] == Closed && id in p'.files && p'.handles == p.handles[f := Opened(id, 0)]
    requires if created then (forall i :: i in p.files ==> p.files[i].name != path)
                             && LeastFree(p.files, id) && p'.files == p.files[id := FileView(path, [])]
             else id in p.files && p.files[id].name == path && p'.files == p.files
    ensures PlainOpened(p, p', f, path)
  {
  }

  /** The least id that no file has. */
  ghost predicate LeastFree(files: map<nat, FileView>, id: nat)
  {
    1 <= id && id !in files && forall i: nat :: 1 <= i < id ==> i in files
  }

  lemma LeastOfAll(lu: seq<Entry>, pg: seq<Page>, cat: Catalogue, files: map<nat, FileView>, id: nat)
    requires Holds(lu, pg, cat) && files.Keys == cat.Keys
    requires 1 <= id && !InUse(lu, id, SLOTS) && forall i: nat :: 1 <= i < id ==> InUse(lu, i, SLOTS)
    ensures LeastFree(files, id)
  {
    hide InUse, Holds;
    InUseIsFile(lu, pg, cat, id);
    forall i: nat | 1 <= i < id ensures i in files {
      InUseIsFile(lu, pg, cat, i);
    }
  }

  /** A file is gone and its handles are closed. */
  ghost function PlainRemoved(p: Plain, id: nat): Plain
  {
    Plain(p.files - {id}, seq(|p.handles|, f requires 0 <= f < |p.handles| =>
      if p.handles[f].Opened? && p.handles[f].id == id then Closed else p.handles[f]))
  }

  ghost function PlainSeek(p: Plain, f: nat, to: nat): Plain
    requires Standing(p, f)
  {
    p.(handles := p.handles[f := Opened(p.handles[f].id, to)])
  }

  /** The only position within a file that has no index page is its end, and only when
      its last index page is full. */
  lemma SeekMissesOnlyFullEnd(n: nat, to: nat)
    requires to <= n
    ensures IxSpan(PageOf(to)) >= IxCount(PagesFor(n)) <==>
            to == n && n > 0 && n == Start(FirstRef(IxCount(PagesFor(n))))
  {
    if n > 0 {
      var last := PageOf(n - 1);
      IxSpanNext(last);
      if to < n {
        QuotMono(to, n - 1, DATA_SIZE);
        IxSpanMono(PageOf(to), last);
      } else if OffsetIn(n - 1) + 1 == DATA_SIZE {
        NextPosition(n - 1, 1);
        assert n == Start(last + 1);
        StartInjective(last + 1, FirstRef(IxSpan(last) + 1));
      } else {
        BytePlace(last, OffsetIn(n - 1) + 1);
        if n == Start(FirstRef(IxSpan(last) + 1)) {
          BytePlace(FirstRef(IxSpan(last) + 1), 0);
          assert false;
        }
      }
    } else {
      BytePlace(0, 0);
    }
  }

  lemma StartInjective(i: nat, j: nat)
    ensures Start(i) == Start(j) <==> i == j
  {
    if i < j {
      TimesMono(i, j, DATA_SIZE);
    } else if j < i {
      TimesMono(j, i, DATA_SIZE);
    }
  }

  lemma SmallStep(k: nat)
    ensures PageOf(k + 1) <= PageOf(k) + 1
  {
    if OffsetIn(k) + 1 == DATA_SIZE {
      NextPosition(k, 1);
    } else {
      BytePlace(PageOf(k), OffsetIn(k) + 1);
    }
  }

  /** Different numbers below `n` are at most `n`. */
  lemma {:induction false} AtMost(a: seq<nat>, n: nat)
    requires forall i :: 0 <= i < |a| ==> a[i] < n
    requires forall i, j :: 0 <= i < j < |a| ==> a[i] != a[j]
    ensures |a| <= n
  {
    assert |a| > 0 ==> a[0] < n;
    if n > 0 && exists i :: 0 <= i < |a| && a[i] == n - 1 {
      var i :| 0 <= i < |a| && a[i] == n - 1;
      AtMost(a[..i] + a[i + 1..], n - 1);
    } else if n > 0 {
      AtMost(a, n - 1);
    }
  }

  /** A file has fewer data pages than a volume has pages. */
  lemma FilePages(lu: seq<Entry>, pg: seq<Page>, cat: Catalogue, id: nat)
    requires Holds(lu, pg, cat) && id in cat
    ensures |cat[id].data| < 0xffff
  {
    FileOf(lu, pg, cat, id);
    FileSlotsDistinct(lu, pg, id, cat[id]);
    forall j | 0 <= j < |cat[id].data| ensures cat[id].data[j] < SLOTS {
      assert DataOk(lu, pg, id, cat[id], j);
    }
    AtMost(cat[id].data, SLOTS);
    TimesIsProduct(BLOCKS, ENTRIES);
    MulLess(BLOCKS, ENTRIES, ENTRIES + LOOKUP_PAGES);
  }

  lemma MulLess(a: nat, b: nat, c: nat)
    requires a > 0 && b < c
    ensures a * b < a * c
  {
    MulStep(b, c, a);
  }

  lemma KeptHandles(fds: seq<Fd>, fds': seq<Fd>)
    requires FdsKept(fds, fds')
    ensures Handles(fds') == Handles(fds)
  {
  }

  /** Moving a descriptor's offset. */
  lemma OffsetMoved(fds: seq<Fd>, f: nat, offset: nat, cat: Catalogue, links: seq<Option<nat>>, pages: seq<CachePage>)
    requires f < |fds| && Tracked(fds[f])
    requires FdsPagesOk(fds, cat) && FdsSizesOk(fds, cat) && Linked(fds, links, pages)
    ensures var fds' := fds[f := fds[f].(offset := offset)];
            && FdsPagesOk(fds', cat) && FdsSizesOk(fds', cat) && Linked(fds', links, pages)
            && Handles(fds') == Handles(fds)[f := Opened(fds[f].id, offset)]
  {
    var fds' := fds[f := fds[f].(offset := offset)];
    forall i | 0 <= i < |fds'| ensures FdPagesOk(fds'[i], cat) && FdSizeOk(fds'[i], cat) {
      assert FdPagesOk(fds[i], cat) && FdSizeOk(fds[i], cat);
    }
  }

  class Session {
    const fs: Spiffs
    const dev: Flash.Flash
    const cache: Cache                // the page cache of the device
    var links: seq<Option<nat>>       // the cache page each descriptor refers to
    var work: Page                    // what the work buffer was last used for
    var ending: Ending                // how the last write to flash ended
    ghost var left: Page              // what the last write to flash found in the work buffer when it stored an index page
    ghost var pending: map<nat, Pending>

    /** A mounted volume with no open descriptors, on a device whose page cache is unused. */
    constructor (fs: Spiffs, dev: Flash.Flash)
      requires Mounted(fs) && Synced(fs, dev) && forall i :: 0 <= i < |dev.cache.pages| ==> dev.cache.pages[i].Unused?
      requires forall f :: 0 <= f < |fs.fds| ==> !Tracked(fs.fds[f])
      ensures Valid() && this.fs == fs && this.dev == dev
      ensures State().files == FilesOf(fs) && forall f :: 0 <= f < |fs.fds| ==> State().handles[f] == Closed
    {
      var any: Page := *;
      this.fs, this.dev, this.cache := fs, dev, dev.cache;
      links := seq(|fs.fds|, i => None);
      work, ending := any, Complete;
      pending := map[];
    }

    /** The files as their users see them. */
    ghost function Seen(): map<nat, FileView>
      reads this, fs
    {
      SeenFiles(FilesOf(fs), pending)
    }

    ghost function State(): Plain
      reads this, fs
    {
      Plain(Seen(), Handles(fs.fds))
    }

    /** Lookup, counters and cursors agree, flash holds the volume, and every copy in the
        cache equals flash.  This is so after every call, however it ended. */
    ghost predicate InSync()
      reads this, fs, dev, cache
    {
      dev.cache == cache && Synced(fs, dev) && fs.LookupOk()
    }

    /** Everything agrees, except that descriptors may stand past the end of their files. */
    ghost predicate Agree()
      reads this, fs, dev, cache
    {
      && InSync() && ending.Complete? && Mounted(fs) && |links| == |fs.fds|
      && Listed(cache.pages, cache.mem, pending)
      && GapFree(FilesOf(fs), pending)
      && Linked(fs.fds, links, cache.pages)
    }

    /** Everything agrees. */
    ghost predicate Valid()
      reads this, fs, dev, cache
    {
      Agree() && Within(fs.fds, Seen())
    }

    /** Everything agrees, and no file but `id` has changed. */
    ghost predicate OthersKept(seen: map<nat, FileView>, id: nat)
      reads this, fs, dev, cache
    {
      && Agree() && Seen().Keys == seen.Keys
      && forall i :: i in seen && i != id ==> Seen()[i] == seen[i]
    }

    /** Flash holds no volume with these files. */
    ghost predicate Clobbered(files: map<nat, FileView>)
      reads fs
    {
      forall cat :: !(Holds(fs.lu, fs.pg, cat) && Files(fs.pg, cat) == files)
    }

    /** The page is index page `k` of object `id`. */
    ghost predicate IsIndex(page: Page, id: nat, k: nat)
      reads fs`cat
    {
      id in fs.cat && page == IndexImage(id, fs.cat[id], k)
    }

    /** What has been read at the offset of object `id` last was read through the index page
        in the work buffer. */
    ghost predicate LastRead(id: nat, offset: nat, n: nat)
      reads this`work, fs`cat
    {
      n > 0 ==> IsIndex(work, id, IxSpan(PageOf(offset + n - 1)))
    }

    /** A page that may be stored as the header of `id` without anyone noticing. */
    ghost predicate IsHeader(page: Page, id: nat)
      reads fs`cat
    {
      id in fs.cat && page == IndexImage(id, fs.cat[id], 0)
    }

    /** What a write of no bytes below the end of object `id` comes to: what the collector has
        left in the work buffer is stored as the header, which goes unnoticed exactly if it
        is the header; or it is rejected.  If the collector has nothing to do (`quiet`) that
        is what was there before; if it finds nothing to erase (`clean`) it is rejected, or
        a full volume is reported if there is no room for a page; otherwise, on volumes of
        up to 128 blocks, it is an index page.  Unless it is rejected, the collection of the
        volume `found` and one page more decide. */
    ghost predicate StaleOutcome(r: Status, id: nat, quiet: bool, clean: bool, roomy: bool, before: Page, found: Layout)
      reads this`left, this`ending, fs`cat
    {
      && (r == ErrCheck ==> !PassesForHeader(left))
      && (r == Ok ==> PassesForHeader(left) && (ending.Complete? <==> IsHeader(left, id)))
      && (quiet ==> left == before && r == if PassesForHeader(before) then Ok else ErrCheck)
      && (!quiet && clean ==> r == if roomy then ErrCheck else ErrFull)
      && (!quiet && r == Ok && BLOCKS <= 128 ==> IsIndexImage(fs.cat, left))
      && (r != ErrCheck ==> PageAfter(found, DATA_SIZE, r))
    }

    /** What can be said of a write before it. */
    ghost function ForetellFor(id: nat, offset: nat, len: nat): Outlook
      reads fs
    {
      if id in FilesOf(fs) && offset <= |FilesOf(fs)[id].bytes| then OutlookFor(fs, id, offset, len)
      else Outlook(false, false, false, false, false, false, 0, 0, len, id, LayoutOf(fs))
    }

    /** There is ample room for a write at the offset of a descriptor. */
    ghost predicate AmpleFor(id: nat, offset: nat, len: nat)
      reads fs
    {
      id in FilesOf(fs) && offset <= |FilesOf(fs)[id].bytes| && Ample(fs, |FilesOf(fs)[id].bytes|, offset, len)
    }

    /** There is ample room for data at the offset of a descriptor whose object has nothing pending. */
    ghost predicate AmpleToWrite(f: nat, data: seq<byte>)
      requires f < |fs.fds|
      reads this`pending, fs
    {
      data != [] && fs.fds[f].id !in pending && AmpleFor(fs.fds[f].id, fs.fds[f].offset, |data|)
    }

    /** There is ample room for the data pending for the object of a descriptor. */
    ghost predicate AmpleToFlush(f: nat)
      requires f < |fs.fds|
      reads this`pending, fs
    {
      && fs.fds[f].id in pending && pending[fs.fds[f].id].data != []
      && AmpleFor(fs.fds[f].id, pending[fs.fds[f].id].offset, |pending[fs.fds[f].id].data|)
    }

    /** Descriptor `f` may be used: it is closed, or it was opened by name. */
    ghost predicate Usable(f: int)
      reads fs
    {
      0 <= f < |fs.fds| && fs.fds[f].nbr != 0 ==> Tracked(fs.fds[f])
    }

    /** Why a descriptor that is not open cannot be used. */
    ghost function WhyClosed(f: int): Status
      reads fs
    {
      if 0 <= f < |fs.fds| then ErrFileClosed else ErrBadDescriptor
    }

    method FdGet(f: int) returns (r: Status)
      ensures r == if IsOpen(f) then Ok else WhyClosed(f)
    {
      if !(0 <= f < |fs.fds|) {
        return ErrBadDescriptor;
      }
      return if fs.fds[f].nbr == 0 then ErrFileClosed else Ok;
    }

    /** What is asked of flash from here on is recorded. */
    method Begin()
      requires InSync()
      modifies fs`trace, fs`start
      ensures InSync() && fs.start == dev.bytes && (old(Mounted(fs)) ==> Mounted(fs))
    {
      hide LookupState, OnFlash, Recorded, CacheState, Mirrors;
      fs.NewRecord();
    }

    /** What has been recorded goes to the device: read pages come and go, write pages
        stay as they are, and flash holds the volume again. */
    method Sync()
      requires dev.cache == cache && dev.Coherent() && fs.LookupOk() && dev.bytes == fs.start
      modifies dev, cache, this`work
      ensures InSync() && WritesKept(old(cache.pages), old(cache.mem), cache.pages, cache.mem)
    {
      hide LookupState, OnFlash, CacheState;
      dev.Play(fs.trace);
      var any: Page := *;
      work := any;
    }

    lemma CacheInOrder()
      requires Agree()
      ensures cache.Ok() && |cache.pages| == |cache.mem| && dev.Coherent() && dev.cache == cache && Mirrors(cache.pages, cache.mem, dev.bytes)
    {
    }

    /** The object of a write page has a file. */
    lemma PendingAt(i: nat)
      requires Agree() && i < |cache.pages| && cache.pages[i].WritePage?
      ensures Mounted(fs) && cache.pages[i].id in fs.cat && cache.pages[i].id in Seen()
      ensures Seen()[cache.pages[i].id].name == fs.cat[cache.pages[i].id].name
    {
      FilesHaveIds(fs.pg, fs.cat, cache.pages[i].id);
    }

    lemma ImageInOrder()
      requires Agree()
      ensures Holds(fs.lu, fs.pg, fs.cat)
    {
    }

    /** A write to flash: what is asked of flash is recorded and played through the device. */
    method ToFlash(f: nat, data: seq<byte>, offset: nat) returns (r: Status, done: nat)
      requires InSync() && Mounted(fs) && f < |fs.fds| && OpenOn(fs, f, fs.fds[f].id) && fs.fds[f].id in FilesOf(fs)
      requires offset <= |FilesOf(fs)[fs.fds[f].id].bytes|
      modifies this`work, this`ending, this`left, fs, dev, cache
      ensures InSync() && WritesKept(old(cache.pages), old(cache.mem), cache.pages, cache.mem)
      ensures done <= |data| && WriteStatus(r, data)
      ensures r == Ok ==> (ending.Complete? && done == |data|) || (ending.LostPage? && data != []) || (ending.StaleHeader? && data == [])
      ensures ending.StaleHeader? ==> r == Ok && data == [] && Clobbered(old(FilesOf(fs)))
      ensures ending.LostPage? ==> LostIn(fs, old(fs.fds)[f].id, offset, data)
      ensures WriteEnds(fs, f, old(fs.fds)[f].id, old(FilesOf(fs)), offset, data[..done], ending)
      ensures ending.Complete? ==>
                var id := old(fs.fds)[f].id;
                && Mounted(fs) && FdsKept(old(fs.fds), fs.fds)
                && FilesOf(fs) == old(FilesOf(fs))[id := Spliced(old(FilesOf(fs))[id], offset, data[..done])]
      ensures var id := old(fs.fds)[f].id;
              data == [] ==>
                if offset == |old(FilesOf(fs))[id].bytes| then r == Ok && ending.Complete? && fs.fds == old(fs.fds)
                else StaleOutcome(r, id, old(Quiet(fs, DATA_SIZE)), old(fs.pDeleted) == 0, old(Roomy(fs, DATA_SIZE)), old(work), old(LayoutOf(fs)))
      ensures data != [] ==> Foretold(old(OutlookFor(fs, fs.fds[f].id, offset, |data|)), r, ending)
      ensures data != [] && old(Ample(fs, |FilesOf(fs)[fs.fds[f].id].bytes|, offset, |data|)) ==> r == Ok && ending.Complete?
      ensures r == ErrFull || r == ErrNotFound || ending.LostPage? ==> Scarce(fs, |data| + DATA_SIZE)
    {
      hide Spiffs.Space, Inside, FlashState, LookupState, FdsPagesOk, FdsSizesOk, Holds, Tight, FdsKept, WritesKept, CacheState, Splice, Scarce;
      hide PageAfter, Mounted, WriteEnds, LostIn, Foretold, Ample, LosesFirst, Sheltered, Emptied, IsIndexImage, Quiet, Roomy, Mirrors, Files, StaleOutcome, StoresStale, IndexImage, PassesForHeader;
      ghost var id, files := fs.fds[f].id, FilesOf(fs);
      ghost var quiet, clean, roomy, before, found := Quiet(fs, DATA_SIZE), fs.pDeleted == 0, Roomy(fs, DATA_SIZE), work, LayoutOf(fs);
      Begin();
      var end, buffer;
      r, done, end, buffer := HydroWrite(fs, f, data, offset, work);
      Sync();
      ending, left := end, buffer;
      if data == [] && offset < |files[id].bytes| {
        StaleFrom(r, id, quiet, clean, roomy, before, found);
      }
      if end.StaleHeader? {
        EndsStale(fs, f, id, files, offset, data[..done]);
      }
      if end.Complete? {
        EndsComplete(fs, f, id, files, offset, data[..done]);
      }
    }

    lemma StaleFrom(r: Status, id: nat, quiet: bool, clean: bool, roomy: bool, before: Page, found: Layout)
      requires StoresStale(fs, id, r, ending, left)
      requires quiet ==> left == before && r == if PassesForHeader(before) then Ok else ErrCheck
      requires !quiet && clean ==> r == if roomy then ErrCheck else ErrFull
      requires !quiet && r == Ok && BLOCKS <= 128 ==> IsIndexImage(fs.cat, left)
      requires r != ErrCheck ==> PageAfter(found, DATA_SIZE, r)
      ensures StaleOutcome(r, id, quiet, clean, roomy, before, found) && (r == ErrCheck ==> !PassesForHeader(left))
    {
      hide PassesForHeader, IndexImage, IsIndexImage, PageAfter;
    }

    /** Writes data to flash when nothing of the file is pending. */
    method WriteFlash(f: nat, data: seq<byte>, offset: nat) returns (r: Status, done: nat)
      requires Valid() && f < |fs.fds| && Tracked(fs.fds[f]) && fs.fds[f].id !in pending
      requires fs.fds[f].id in Seen() && offset <= |Seen()[fs.fds[f].id].bytes|
      modifies this`work, this`ending, this`left, fs, dev, cache
      ensures InSync() && done <= |data| && WriteStatus(r, data)
      ensures r == Ok ==> (ending.Complete? && done == |data|) || (ending.LostPage? && data != []) || (ending.StaleHeader? && data == [])
      ensures ending.StaleHeader? ==> r == Ok && data == [] && Clobbered(old(FilesOf(fs)))
      ensures ending.LostPage? ==> LostIn(fs, old(fs.fds)[f].id, offset, data)
      ensures var id := old(fs.fds)[f].id;
              id in old(FilesOf(fs)) && old(Seen())[id] == old(FilesOf(fs))[id] && offset <= |old(FilesOf(fs))[id].bytes|
              && WriteEnds(fs, f, id, old(FilesOf(fs)), offset, data[..done], ending)
      ensures ending.Complete? ==>
                var id := old(fs.fds)[f].id;
                && Valid() && FdsKept(old(fs.fds), fs.fds)
                && Seen() == old(Seen())[id := Spliced(old(Seen())[id], offset, data[..done])]
      ensures var id := old(fs.fds)[f].id;
              data == [] ==>
                if offset == |old(Seen())[id].bytes| then r == Ok && ending.Complete?
                else StaleOutcome(r, id, old(Quiet(fs, DATA_SIZE)), old(fs.pDeleted) == 0, old(Roomy(fs, DATA_SIZE)), old(work), old(LayoutOf(fs)))
      ensures data != [] ==> Foretold(old(ForetellFor(fs.fds[f].id, offset, |data|)), r, ending)
      ensures RanShort(r, |data|)
      ensures data != [] && old(fs.fds[f].id !in pending && AmpleFor(fs.fds[f].id, offset, |data|)) ==> r == Ok && ending.Complete?
    {
      hide Foretold, OutlookFor, LayoutOf, FlashState, LookupState, FdsPagesOk, FdsSizesOk, Holds, Tight, FdsKept, Listed, Linked, WritesKept, CacheState, Splice, SeenFiles;
      hide Mounted, Within, GapFree, Synced, WriteEnds, LostIn, AppendForetold, Sheltered, Emptied, Succeeds, Loses, LosesFirst, Quiet, Roomy, StaleOutcome, Ample, FilesOf, Scarce;
      ghost var id := fs.fds[f].id;
      ghost var files := FilesOf(fs);
      SeenAlone(files, pending, id, fs.fds, f);
      OpenOnFile(f);
      CacheInOrder();
      r, done := ToFlash(f, data, offset);
      ShortBy(r, |data|, |data|);
      if ending.Complete? {
        ghost var v := Spliced(files[id], offset, data[..done]);
        WriteSeen(files, pending, id, v);
        KeptListed(old(cache.pages), old(cache.mem), cache.pages, cache.mem, pending);
        KeptLinked(old(fs.fds), fs.fds, links, old(cache.pages), old(cache.mem), cache.pages, cache.mem);
        GrowWithin(old(fs.fds), SeenFiles(files, pending), id, v);
        KeptWithin(old(fs.fds), fs.fds, Seen());
      }
    }

    lemma MountedInOrder()
      requires Mounted(fs)
      ensures fs.LookupOk()
    {
    }

    lemma LookupInOrder()
      requires Agree()
      ensures fs.LookupOk() && InSync() && ending.Complete?
    {
    }

    lemma OpenOnFile(f: nat)
      requires Mounted(fs) && f < |fs.fds| && Tracked(fs.fds[f])
      ensures OpenOn(fs, f, fs.fds[f].id) && fs.fds[f].id in FilesOf(fs)
    {
      assert FdPagesOk(fs.fds[f], fs.cat);
    }

    /** Writes the pending page of descriptor `f` to flash and gives the cache page up.
        What does not reach flash is gone. */
    method Dump(f: nat) returns (r: Status, done: nat)
      requires Valid() && f < |fs.fds| && Tracked(fs.fds[f]) && links[f].Some?
      modifies this, fs, dev, cache
      ensures InSync()
      ensures var id := old(fs.fds)[f].id;
              && id in old(pending) && id in old(FilesOf(fs)) && old(pending)[id].offset <= |old(FilesOf(fs))[id].bytes|
              && var p := old(pending)[id];
              && done <= |p.data| && WriteStatus(r, p.data)
              && WriteEnds(fs, f, id, old(FilesOf(fs)), p.offset, p.data[..done], ending)
              && (r == Ok ==> (ending.Complete? && done == |p.data|) || (ending.LostPage? && p.data != []) || (ending.StaleHeader? && p.data == []))
              && (ending.StaleHeader? ==> r == Ok && p.data == [] && Clobbered(old(FilesOf(fs))))
              && (p.data == [] ==>
                    if p.offset == |old(FilesOf(fs))[id].bytes| then r == Ok && ending.Complete?
                    else StaleOutcome(r, id, old(Quiet(fs, DATA_SIZE)), old(fs.pDeleted) == 0, old(Roomy(fs, DATA_SIZE)), old(work), old(LayoutOf(fs))))
              && (old(AmpleToFlush(f)) ==> r == Ok && ending.Complete?)
              && (p.data != [] ==> Foretold(old(ForetellFor(fs.fds[f].id, pending[fs.fds[f].id].offset, |pending[fs.fds[f].id].data|)), r, ending))
              && (ending.Complete? ==>
                    && Agree() && FdsKept(old(fs.fds), fs.fds) && pending == old(pending) - {id} && links[f] == None
                    && Seen() == old(Seen())[id := Spliced(old(FilesOf(fs))[id], p.offset, p.data[..done])])
              && (ending.Complete? && r == Ok ==> Valid() && Seen() == old(Seen()))
              && (ending.Complete? && r == Ok && |Seen()[id].bytes| == 0 ==> fs.fds == old(fs.fds))
      ensures RanShort(r, 0)
    {
      hide Foretold, OutlookFor, LayoutOf, FlashState, LookupState, FdsPagesOk, FdsSizesOk, Holds, Tight, FdsKept, WritesKept, CacheState, Splice, SeenFiles, Linked, Listed;
      hide Mounted, Within, GapFree, Synced, WriteEnds, LostIn, Sheltered, Emptied, Succeeds, Loses, LosesFirst, Quiet, Roomy, AppendForetold, StaleOutcome, Ample, FilesOf, Scarce;
      LinkedPage(f);
      var i := links[f].value;
      var page := cache.pages[i];
      ghost var id := fs.fds[f].id;
      ghost var files, p := FilesOf(fs), pending[fs.fds[f].id];
      var data := Held(page, cache.mem[i]);
      GapFreeAt(files, pending, id);
      OpenOnFile(f);
      CacheInOrder();
      r, done := ToFlash(f, data, page.offset);
      ShortBy(r, |data|, 0);
      if ending.Complete? {
        KeptListed(old(cache.pages), old(cache.mem), cache.pages, cache.mem, pending);
        KeptLinked(old(fs.fds), fs.fds, links, old(cache.pages), old(cache.mem), cache.pages, cache.mem);
        DumpPart(files, pending, id, done);
        if r == Ok {
          assert data[..done] == data;
          DumpUnseen(files, pending, id);
          KeptWithin(old(fs.fds), fs.fds, SeenFiles(files, pending));
          SpliceEmpty(files[id], p.offset, p.data);
        }
        Release(i, id);
      }
    }

    /** Finds the write page of the object of a descriptor that has none yet. */
    method Link(f: nat)
      requires Agree() && f < |fs.fds| && Tracked(fs.fds[f])
      modifies this`links
      ensures Agree() && |links| == |old(links)|
      ensures links[f].Some? <==> fs.fds[f].id in pending
      ensures links[f].Some? ==> links[f].value == pending[fs.fds[f].id].page
    {
      hide Mounted, FdsKept, WritesKept, SeenFiles, GapFree, Synced;
      CacheInOrder();
      if links[f].None? {
        var page := cache.GetByObject(fs.fds[f].id);
        links := links[f := page];
      }
    }

    /** Takes a cache page for what descriptor `f` writes at its offset, if one can be had. */
    method Allocate(f: nat)
      requires Valid() && f < |fs.fds| && Tracked(fs.fds[f]) && fs.fds[f].id !in pending && links[f].None?
      modifies this`links, this`pending, cache
      ensures Valid() && Seen() == old(Seen())
      ensures links[f].None? ==> pending == old(pending) && Unused !in old(cache.pages)
      ensures links[f].Some? ==> pending == old(pending)[fs.fds[f].id := Pending(links[f].value, fs.fds[f].offset, [])]
    {
      hide Mounted, FdsKept, CacheState, SeenFiles, GapFree, Within, MirrorsAt, Mirrors, FlashState, LookupState, Handles;
      ghost var id := fs.fds[f].id;
      ghost var files := FilesOf(fs);
      SeenAlone(files, pending, id, fs.fds, f);
      WithinAt(fs.fds, f, Seen());
      CacheInOrder();
      var page := cache.AllocateFor(fs.fds[f].id, fs.fds[f].offset);
      FewerCopies(old(cache.pages), old(cache.mem), cache.pages, cache.mem, dev.bytes);
      if page.None? {
        KeptListed(old(cache.pages), old(cache.mem), cache.pages, cache.mem, pending);
        KeptLinked(fs.fds, fs.fds, links, old(cache.pages), old(cache.mem), cache.pages, cache.mem);
      } else {
        ghost var pages1 := cache.pages[page.value := Unused];
        KeptListed(old(cache.pages), old(cache.mem), pages1, cache.mem, pending);
        KeptLinked(fs.fds, fs.fds, links, old(cache.pages), old(cache.mem), pages1, cache.mem);
        EmptyUnseen(files, pending, id, page.value, fs.fds[f].offset);
        AllocatedListed(pages1, cache.pages, cache.mem, pending, id, page.value, fs.fds[f].offset, fs.fds, links, f);
        links := links[f := page];
        pending := pending[id := Pending(page.value, fs.fds[f].offset, [])];
      }
    }

    /** Stores data in the write page of descriptor `f`, where it fits without a gap. */
    method Store(f: nat, data: seq<byte>)
      requires Valid() && f < |fs.fds| && Tracked(fs.fds[f]) && links[f].Some?
      requires var p := cache.pages[links[f].value];
               p.offset <= fs.fds[f].offset <= p.offset + p.size && fs.fds[f].offset + |data| <= p.offset + PAGE_SIZE
      modifies this`pending, cache
      ensures Valid()
      ensures var id, offset := fs.fds[f].id, fs.fds[f].offset;
              && id in old(pending) && old(pending)[id].offset <= offset <= old(pending)[id].offset + |old(pending)[id].data|
              && pending == old(pending)[id := old(pending)[id].(data :=
                   Splice(old(pending)[id].data, offset - old(pending)[id].offset, data))]
              && id in old(Seen()) && offset <= |old(Seen())[id].bytes|
              && Seen() == old(Seen())[id := Spliced(old(Seen())[id], offset, data)]
    {
      hide Mounted, FdsKept, SeenFiles, GapFree, Within, Splice, Listed, CacheState, Linked, Overwrite, Mirrors, FlashState, LookupState, Handles, FilesOf;
      ghost var files := FilesOf(fs);
      LinkedPage(f);
      CacheInOrder();
      var i := links[f].value;
      var page := cache.pages[i];
      var o := fs.fds[f].offset - page.offset;
      StoreSeen(files, pending, page.id, fs.fds[f].offset, data);
      GrowWithin(fs.fds, Seen(), page.id, Spliced(Seen()[page.id], fs.fds[f].offset, data));
      StoredListed(cache.pages, cache.mem, cache.now, pending, i, o, data, fs.fds, links);
      cache.mem := cache.mem[i := Overwrite(cache.mem[i], o, data)];
      cache.pages := cache.pages[i := page.(size := if o + |data| > page.size then o + |data| else page.size)];
      FewerCopies(old(cache.pages), old(cache.mem), cache.pages, cache.mem, dev.bytes);
      pending := pending[page.id := pending[page.id].(data := Splice(pending[page.id].data, o, data))];
    }

    /** The page a descriptor refers to holds what is pending for its object. */
    lemma LinkedPage(f: nat)
      requires Agree() && f < |fs.fds| && Tracked(fs.fds[f]) && links[f].Some?
      ensures f < |links|
      ensures var i, id := links[f].value, fs.fds[f].id;
              && i < |cache.pages| == |cache.mem| && |cache.mem[i]| == PAGE_SIZE && id in pending
              && cache.pages[i] == WritePage(id, pending[id].offset, |pending[id].data|)
              && pending[id].page == i && |pending[id].data| <= PAGE_SIZE
              && pending[id].data == Held(cache.pages[i], cache.mem[i])
    {
    }

    /** Marks a descriptor closed. */
    method SetClosed(f: nat)
      requires Valid() && f < |fs.fds| && links[f] == None
      modifies fs`fds
      ensures Valid() && State() == Plain(old(Seen()), Handles(old(fs.fds))[f := Closed])
    {
      hide FlashState, LookupState, Synced;
      ClosedKeeps(fs.fds, f, fs.cat, links, cache.pages, Seen());
      fs.fds := fs.fds[f := fs.fds[f].(nbr := 0)];
    }

    /** Moves the offset of a descriptor. */
    method MoveTo(f: nat, offset: nat)
      requires Agree() && f < |fs.fds| && Tracked(fs.fds[f])
      modifies fs`fds
      ensures fs.fds == old(fs.fds)[f := old(fs.fds)[f].(offset := offset)]
      ensures Agree() && State() == Plain(old(Seen()), Handles(old(fs.fds))[f := Opened(old(fs.fds)[f].id, offset)])
      ensures old(Valid()) && old(fs.fds)[f].id in old(Seen()) && offset <= |old(Seen())[old(fs.fds)[f].id].bytes| ==> Valid()
    {
      hide FlashState, LookupState, Synced;
      OffsetMoved(fs.fds, f, offset, fs.cat, links, cache.pages);
      fs.fds := fs.fds[f := fs.fds[f].(offset := offset)];
    }

    /** Data of this length at the offset of a descriptor fits in what is pending. */
    ghost predicate Fits(f: nat, len: nat)
      reads this, fs
    {
      && f < |fs.fds| && fs.fds[f].id in pending
      && var p, offset := pending[fs.fds[f].id], fs.fds[f].offset;
         p.offset <= offset <= p.offset + |p.data| && offset + len <= p.offset + PAGE_SIZE
    }

    /** What can be in the way of a write: the volume is full, or the work buffer does not
        even look like a header when a write of no bytes stores it. */
    ghost predicate WriteStatus(r: Status, data: seq<byte>)
      reads this`left
    {
      r == Ok || r == ErrFull || r == ErrNotFound || (r == ErrCheck && data == [] && !PassesForHeader(left))
    }

    /** Pages only run out when room is scarce: for the data, what was pending, and a page. */
    ghost predicate RanShort(r: Status, len: nat)
      reads fs, this`ending
    {
      r in {ErrFull, ErrNotFound} || ending.LostPage? ==> Scarce(fs, len + PAGE_SIZE + DATA_SIZE)
    }

    lemma RanShortFor(r: Status, a: nat, b: nat)
      requires a <= b && RanShort(r, a)
      ensures RanShort(r, b)
    {
      hide Scarce;
      if r in {ErrFull, ErrNotFound} || ending.LostPage? {
        Scarcer(fs, a + PAGE_SIZE + DATA_SIZE, b + PAGE_SIZE + DATA_SIZE);
      }
    }

    lemma ShortBy(r: Status, n: nat, len: nat)
      requires n <= len + PAGE_SIZE && (r == ErrFull || r == ErrNotFound ==> Scarce(fs, n + DATA_SIZE))
      requires ending.LostPage? ==> Scarce(fs, n + DATA_SIZE)
      ensures RanShort(r, len)
    {
      if r in {ErrFull, ErrNotFound} || ending.LostPage? {
        Scarcer(fs, n + DATA_SIZE, len + PAGE_SIZE + DATA_SIZE);
      }
    }

    /** Dumps the pending page of descriptor `f` if data at its offset does not fit in
        it without a gap. */
    method DumpIfOutside(f: nat, len: nat) returns (r: Status)
      requires Valid() && f < |fs.fds| && Tracked(fs.fds[f])
      requires links[f].Some? <==> fs.fds[f].id in pending
      modifies this, fs, dev, cache
      ensures InSync()
      ensures old(Fits(f, len)) || old(fs.fds)[f].id !in old(pending) ==>
                r == Ok && unchanged(this) && unchanged(fs) && unchanged(dev) && unchanged(cache)
      ensures r == Ok ==> ending.Complete? || ending.LostPage? || ending.StaleHeader?
      ensures ending.StaleHeader? || r == ErrCheck ==> old(fs.fds)[f].id in old(pending) && old(pending)[old(fs.fds)[f].id].data == []
      ensures r in {Ok, ErrFull, ErrNotFound, ErrCheck}
      ensures r == Ok && ending.Complete? ==>
                && Valid() && FdsKept(old(fs.fds), fs.fds) && Seen() == old(Seen())
                && f < |fs.fds| && Tracked(fs.fds[f])
                && (links[f].Some? <==> fs.fds[f].id in pending)
                && (links[f].Some? ==>
                      var p := cache.pages[links[f].value];
                      && p.offset <= fs.fds[f].offset <= p.offset + p.size
                      && fs.fds[f].offset + len <= p.offset + PAGE_SIZE)
      ensures r != Ok && ending.Complete? ==> OthersKept(old(Seen()), old(fs.fds)[f].id) && FdsKept(old(fs.fds), fs.fds)
      ensures RanShort(r, 0)
    {
      hide Foretold, WriteEnds, StaleOutcome, LostIn, LayoutOf, OutlookFor, PageAfter, Session.ForetellFor, FlashState, LookupState, Mounted, CacheState, SeenFiles, GapFree, Within, Splice, Listed, Linked, Synced;
      LookupInOrder();
      r := Ok;
      if links[f].Some? {
        LinkedPage(f);
        var p := cache.pages[links[f].value];
        assert ending.Complete?;
        if fs.fds[f].offset < p.offset || fs.fds[f].offset > p.offset + p.size || fs.fds[f].offset + len > p.offset + PAGE_SIZE {
          OpenOnFile(f);
          SeenKeys(FilesOf(fs), pending);
          var done;
          r, done := Dump(f);
        }
      }
    }

    /** A write that may be held back in the cache. */
    method WriteSmall(f: nat, data: seq<byte>) returns (r: Status, ghost done: nat)
      requires Valid() && f < |fs.fds| && Tracked(fs.fds[f]) && |data| < PAGE_SIZE
      requires links[f].Some? <==> fs.fds[f].id in pending
      modifies this, fs, dev, cache
      ensures InSync()
      ensures old(StaysPending(f, data)) ==>
                && r == Ok && ending.Complete? && unchanged(fs) && work == old(work)
                && IsPending(f, data, old(fs.fds)[f].id in old(pending), old(fs.fds))
      ensures WriteOutcome(r, f, data, done, old(fs.fds), old(Seen()), old(pending))
      ensures RanShort(r, |data|)
      ensures old(AmpleToWrite(f, data)) ==> r == Ok && ending.Complete?
    {
      hide Mounted, CacheState, SeenFiles, GapFree, Within, Splice, Listed, Linked, FdsKept, Synced, Written, OthersKept, InSync, FilesOf, Handles, AmpleFor, StaleOutcome;
      done := 0;
      r := DumpIfOutside(f, |data|);
      RanShortFor(r, 0, |data|);
      if r != Ok || !ending.Complete? {
        return;
      }
      SameFd(old(fs.fds), fs.fds, f);
      ghost var fds1 := fs.fds;
      r, done := PutSmall(f, data);
      if ending.Complete? {
        WrittenFrom(f, data[..done], old(fs.fds), fds1, old(Seen()));
        if r == Ok {
          assert data[..done] == data;
        }
      }
    }

    /** A write to the cache page of a descriptor, where it fits, or to a new one, or else
        to flash. */
    method PutSmall(f: nat, data: seq<byte>) returns (r: Status, ghost done: nat)
      requires Valid() && f < |fs.fds| && Tracked(fs.fds[f]) && |data| < PAGE_SIZE
      requires links[f].Some? <==> fs.fds[f].id in pending
      requires links[f].Some? ==>
                 var p := cache.pages[links[f].value];
                 p.offset <= fs.fds[f].offset <= p.offset + p.size && fs.fds[f].offset + |data| <= p.offset + PAGE_SIZE
      modifies this, fs, dev, cache
      ensures InSync() && r in {Ok, ErrFull, ErrNotFound, ErrCheck} && done <= |data|
      ensures old(fs.fds)[f].id in old(pending) || Unused in old(cache.pages) ==>
                && r == Ok && ending.Complete? && unchanged(fs) && work == old(work)
                && IsPending(f, data, old(fs.fds)[f].id in old(pending), old(fs.fds))
      ensures r == Ok ==> (ending.Complete? && done == |data|) || ending.LostPage? || ending.StaleHeader?
      ensures ending.StaleHeader? || r == ErrCheck ==> data == []
      ensures ending.Complete? ==> Written(f, data[..done], old(fs.fds), old(Seen()))
      ensures RanShort(r, |data|)
      ensures old(AmpleToWrite(f, data)) ==> r == Ok && ending.Complete?
    {
      hide Foretold, WriteEnds, LostIn, StaleOutcome, AppendForetold, Ample, Quiet, Roomy, Sheltered, Emptied, LosesFirst, Mounted, CacheState, SeenFiles, GapFree, Within, Splice, Listed, Linked, FdsKept, Synced, Handles, FilesOf, AmpleFor;
      ghost var before := fs.fds[f].id in pending;
      FdsKeptSelf(fs.fds);
      WithinAt(fs.fds, f, Seen());
      if links[f].None? {
        Allocate(f);
      }
      if links[f].None? {
        r, done := WriteFlash(f, data, fs.fds[f].offset);
        return;
      }
      r, done := Ok, |data|;
      assert data[..done] == data;
      LookupInOrder();
      LinkedPage(f);
      PutPending(f, data, before);
    }

    /** Data goes to the write page of a descriptor, which was there before or is empty. */
    method PutPending(f: nat, data: seq<byte>, ghost before: bool)
      requires Valid() && f < |fs.fds| && Tracked(fs.fds[f]) && links[f].Some?
      requires var p := cache.pages[links[f].value];
               p.offset <= fs.fds[f].offset <= p.offset + p.size && fs.fds[f].offset + |data| <= p.offset + PAGE_SIZE
      requires !before ==>
                 fs.fds[f].id in pending && pending[fs.fds[f].id].offset == fs.fds[f].offset && pending[fs.fds[f].id].data == []
      modifies this`pending, cache
      ensures Written(f, data, fs.fds, old(Seen())) && IsPending(f, data, before, fs.fds)
    {
      hide Mounted, CacheState, SeenFiles, GapFree, Within, Splice, Listed, Linked, FdsKept, Synced, Handles, FilesOf;
      FdsKeptSelf(fs.fds);
      WithinAt(fs.fds, f, Seen());
      SpliceFirst(data);
      LinkedPage(f);
      Store(f, data);
    }

    /** What has been written through a descriptor that has only been moved meanwhile. */
    lemma WrittenFrom(f: nat, data: seq<byte>, fds: seq<Fd>, fds1: seq<Fd>, seen: map<nat, FileView>)
      requires f < |fds| && FdsKept(fds, fds1) && f < |fds1| && Written(f, data, fds1, seen)
      ensures Written(f, data, fds, seen) && OthersKept(seen, fds[f].id) && FdsKept(fds, fs.fds)
    {
      hide Agree, Within, Splice;
      SameFd(fds, fds1, f);
      FdsKeptChain(fds, fds1, fs.fds);
    }

    /** A small write that is sure to be held back: what is pending has room for it, or
        nothing is pending and a cache page is unused. */
    ghost predicate StaysPending(f: nat, data: seq<byte>)
      reads this, fs, cache
    {
      Fits(f, |data|) || (f < |fs.fds| && fs.fds[f].id !in pending && Unused in cache.pages)
    }

    /** What has been written is pending; if nothing was before, nothing else is. */
    ghost predicate IsPending(f: nat, data: seq<byte>, before: bool, fds: seq<Fd>)
      requires f < |fds|
      reads this
    {
      && fds[f].id in pending
      && (!before ==> pending[fds[f].id].offset == fds[f].offset && pending[fds[f].id].data == data)
    }

    /** The data of a write is in the file, and everything agrees. */
    ghost predicate Written(f: nat, data: seq<byte>, fds: seq<Fd>, seen: map<nat, FileView>)
      requires f < |fds|
      reads this, fs, dev, cache
    {
      && Valid() && FdsKept(fds, fs.fds)
      && fds[f].id in seen && fds[f].offset <= |seen[fds[f].id].bytes|
      && Seen() == seen[fds[f].id := Spliced(seen[fds[f].id], fds[f].offset, data)]
    }

    /** How a write can end.  If it fails but the volume agrees, no other file has changed,
        and if nothing was pending the first `done` bytes have been written. */
    ghost predicate WriteOutcome(r: Status, f: nat, data: seq<byte>, done: nat, fds: seq<Fd>, seen: map<nat, FileView>,
                                 before: map<nat, Pending>)
      requires f < |fds|
      reads this, fs, dev, cache
    {
      && r in {Ok, ErrFull, ErrNotFound, ErrCheck}
      && (r == Ok ==> ending.Complete? || ending.LostPage? || ending.StaleHeader?)
      && (ending.StaleHeader? || r == ErrCheck ==>
            data == [] || (fds[f].id in before && before[fds[f].id].data == []))
      && (r == Ok && ending.Complete? ==> Written(f, data, fds, seen))
      && (r != Ok && ending.Complete? ==>
            && OthersKept(seen, fds[f].id) && FdsKept(fds, fs.fds)
            && (fds[f].id !in before ==> done <= |data| && Written(f, data[..done], fds, seen)))
    }

    /** How a write at the offset of descriptor `f`, which was `fd`, has ended in flash. */
    ghost predicate EndsFrom(f: nat, fd: Fd, files: map<nat, FileView>, data: seq<byte>)
      reads fs, this`ending
    {
      fd.id in files && fd.offset <= |files[fd.id].bytes| && EndsSomehow(fs, f, fd.id, files, fd.offset, data, ending)
    }

    lemma SomehowEnds(f: nat, fd: Fd, files: map<nat, FileView>, data: seq<byte>, done: nat)
      requires done <= |data| && fd.id in files && fd.offset <= |files[fd.id].bytes|
      requires WriteEnds(fs, f, fd.id, files, fd.offset, data[..done], ending)
      ensures EndsFrom(f, fd, files, data)
    {
      hide WriteEnds;
    }

    /** A write too big for a cache page. */
    method WriteBig(f: nat, data: seq<byte>) returns (r: Status, ghost done: nat)
      requires Valid() && f < |fs.fds| && Tracked(fs.fds[f])
      requires links[f].Some? <==> fs.fds[f].id in pending
      modifies this, fs, dev, cache
      ensures InSync()
      ensures WriteOutcome(r, f, data, done, old(fs.fds), old(Seen()), old(pending))
      ensures RanShort(r, |data|)
      ensures old(AmpleToWrite(f, data)) ==> r == Ok && ending.Complete?
      ensures old(fs.fds)[f].id !in old(pending) && data != [] ==>
                && Foretold(old(ForetellFor(fs.fds[f].id, fs.fds[f].offset, |data|)), r, ending)
                && (!ending.Complete? ==> EndsFrom(f, old(fs.fds)[f], old(FilesOf(fs)), data))
    {
      hide Mounted, CacheState, SeenFiles, GapFree, Within, Splice, Listed, Linked, FdsKept, Synced, InSync, Handles, Written, AmpleFor, Foretold, ForetellFor, EndsFrom, WriteEnds, StaleOutcome, LostIn, EndsSomehow;
      done := 0;
      FdsKeptSelf(fs.fds);
      OpenOnFile(f);
      SeenKeys(FilesOf(fs), pending);
      if links[f].Some? {
        LinkedPage(f);
        var n;
        r, n := Dump(f);
        RanShortFor(r, 0, |data|);
        if r != Ok || !ending.Complete? {
          return;
        }
        SameFd(old(fs.fds), fs.fds, f);
      }
      r, done := WriteRest(f, data, old(fs.fds), old(Seen()), old(pending));
    }

    /** The write to flash that follows. */
    method WriteRest(f: nat, data: seq<byte>, ghost fds: seq<Fd>, ghost seen: map<nat, FileView>, ghost before: map<nat, Pending>)
      returns (r: Status, ghost done: nat)
      requires Valid() && f < |fs.fds| && Tracked(fs.fds[f]) && fs.fds[f].id !in pending
      requires f < |fds| && FdsKept(fds, fs.fds) && fds[f].id == fs.fds[f].id && Seen() == seen
      modifies this, fs, dev, cache
      ensures InSync()
      ensures WriteOutcome(r, f, data, done, fds, seen, before)
      ensures RanShort(r, |data|)
      ensures old(AmpleToWrite(f, data)) ==> r == Ok && ending.Complete?
      ensures data != [] ==>
                && Foretold(old(ForetellFor(fs.fds[f].id, fs.fds[f].offset, |data|)), r, ending)
                && (!ending.Complete? ==> EndsFrom(f, old(fs.fds)[f], old(FilesOf(fs)), data))
    {
      hide Mounted, CacheState, SeenFiles, GapFree, Within, Splice, Listed, Linked, FdsKept, Synced, Valid, OthersKept, AmpleFor, Foretold, ForetellFor, EndsFrom, WriteEnds, StaleOutcome, LostIn, EndsSomehow;
      ghost var fds1 := fs.fds;
      OpenStands(f);
      r, done := WriteFlash(f, data, fs.fds[f].offset);
      SomehowEnds(f, fds1[f], old(FilesOf(fs)), data, done);
      if ending.Complete? {
        WrittenFrom(f, data[..done], fds, fds1, seen);
        if r == Ok {
          assert data[..done] == data;
        }
      }
    }

    /** Writes at the offset of a descriptor. */
    method Write(f: int, data: seq<byte>) returns (r: Status, ghost done: nat)
      requires Valid() && Usable(f)
      modifies this, fs, dev, cache
      ensures InSync()
      ensures !old(IsOpen(f)) ==> r == old(WhyClosed(f)) && Valid() && State() == old(State())
      ensures old(IsOpen(f)) && |data| < PAGE_SIZE && old(StaysPending(f, data)) ==>
                && r == Ok && ending.Complete? && fs.lu == old(fs.lu) && fs.pg == old(fs.pg) && fs.cat == old(fs.cat)
                && fs.Space() == old(fs.Space()) && fs.pDeleted == old(fs.pDeleted)
                && work == old(work) && IsPending(f, data, old(fs.fds)[f].id in old(pending), old(fs.fds))
                && fs.fds == old(fs.fds)[f := old(fs.fds)[f].(offset := old(fs.fds)[f].offset + |data|)]
      ensures old(IsOpen(f)) ==>
                && old(Standing(State(), f)) && r in {Ok, ErrFull, ErrNotFound, ErrCheck}
                && (r == Ok ==> ending.Complete? || ending.LostPage? || ending.StaleHeader?)
                && (ending.StaleHeader? || r == ErrCheck ==>
                      data == [] || (old(fs.fds)[f].id in old(pending) && old(pending)[old(fs.fds)[f].id].data == []))
      ensures r == Ok && ending.Complete? ==> Valid() && State() == PlainWrite(old(State()), f, data)
      ensures old(IsOpen(f)) && r != Ok && ending.Complete? ==>
                var id := old(fs.fds)[f].id;
                && OthersKept(old(Seen()), id) && State().handles == old(State()).handles
                && (id !in old(pending) ==>
                      done <= |data| && Valid() && State().files == PlainWrite(old(State()), f, data[..done]).files)
      ensures RanShort(r, |data|)
      ensures old(IsOpen(f)) && old(AmpleToWrite(f, data)) ==> r == Ok && ending.Complete?
      ensures old(IsOpen(f)) && |data| >= PAGE_SIZE && old(fs.fds)[f].id !in old(pending) && data != [] ==>
                && Foretold(old(ForetellFor(fs.fds[f].id, fs.fds[f].offset, |data|)), r, ending)
                && (!ending.Complete? ==> EndsFrom(f, old(fs.fds)[f], old(FilesOf(fs)), data))
    {
      hide FlashState, LookupState, Mounted, CacheState, SeenFiles, GapFree, Within, Splice, Listed, Linked, FdsKept, Synced, AmpleFor, AmpleToWrite, StaleOutcome, Foretold, ForetellFor, EndsFrom, WriteEnds, StaleOutcome, LostIn, EndsSomehow;
      LookupInOrder();
      done := 0;
      r := FdGet(f);
      if r != Ok {
        return;
      }
      WithinAt(fs.fds, f, Seen());
      Link(f);
      if |data| < PAGE_SIZE {
        r, done := WriteSmall(f, data);
      } else {
        r, done := WriteBig(f, data);
      }
      if ending.Complete? {
        KeptHandles(old(fs.fds), fs.fds);
        if r == Ok {
          Advance(f, data, old(fs.fds), old(Seen()));
        }
      }
    }

    /** After the data of a write is in the file, the descriptor moves past it. */
    method Advance(f: nat, data: seq<byte>, ghost fds: seq<Fd>, ghost seen: map<nat, FileView>)
      requires f < |fds| && Tracked(fds[f]) && Written(f, data, fds, seen)
      modifies fs`fds
      ensures InSync() && Valid() && Standing(Plain(seen, Handles(fds)), f)
      ensures State() == PlainWrite(Plain(seen, Handles(fds)), f, data)
      ensures fs.fds == old(fs.fds)[f := old(fs.fds)[f].(offset := fds[f].offset + |data|)]
    {
      hide FlashState, LookupState, Mounted, CacheState, SeenFiles, GapFree, Within, Splice, Listed, Linked, FdsKept, Synced;
      SameFd(fds, fs.fds, f);
      KeptHandles(fds, fs.fds);
      MoveTo(f, fs.fds[f].offset + |data|);
    }

    ghost predicate IsOpen(f: int)
      reads fs
    {
      0 <= f < |fs.fds| && fs.fds[f].nbr != 0
    }

    // -------------------------------------------------------------------------
    // Flush and close

    /** Writes what is pending for the object of a descriptor to flash, which succeeds if
        there is ample room.  If it is empty and below the end of the file, and success is
        reported, then the volume agrees exactly if what the collector leaves in the work
        buffer is the header of the file. */
    method FflushCache(f: int) returns (r: Status)
      requires Valid() && Usable(f)
      modifies this, fs, dev, cache
      ensures InSync()
      ensures !old(IsOpen(f)) ==> r == old(WhyClosed(f)) && Valid() && State() == old(State())
      ensures old(IsOpen(f)) && old(fs.fds)[f].id !in old(pending) ==>
                r == Ok && ending.Complete? && fs.fds == old(fs.fds) && FilesOf(fs) == old(FilesOf(fs))
      ensures old(IsOpen(f)) ==>
                && r in {Ok, ErrFull, ErrNotFound, ErrCheck}
                && (r == Ok ==> ending.Complete? || ending.LostPage? || ending.StaleHeader?)
      ensures old(IsOpen(f)) && old(fs.fds)[f].id in old(pending) && old(pending)[old(fs.fds)[f].id].data == [] ==>
                var id := old(fs.fds)[f].id;
                && id in old(FilesOf(fs))
                && (if old(pending)[id].offset == |old(FilesOf(fs))[id].bytes| then r == Ok && ending.Complete?
                    else StaleOutcome(r, id, old(Quiet(fs, DATA_SIZE)), old(fs.pDeleted) == 0, old(Roomy(fs, DATA_SIZE)), old(work), old(LayoutOf(fs))))
                && (r == Ok && !ending.Complete? ==> ending.StaleHeader? && Clobbered(old(FilesOf(fs))))
      ensures old(IsOpen(f)) && old(AmpleToFlush(f)) ==> r == Ok && ending.Complete?
      ensures r == Ok && ending.Complete? ==>
                && old(IsOpen(f)) && Valid() && FdsKept(old(fs.fds), fs.fds) && Seen() == old(Seen())
                && pending == old(pending) - {old(fs.fds)[f].id} && links[f] == None
                && old(fs.fds)[f].id in Seen() && (|Seen()[old(fs.fds)[f].id].bytes| == 0 ==> fs.fds == old(fs.fds))
      ensures old(IsOpen(f)) && r != Ok && ending.Complete? ==>
                && OthersKept(old(Seen()), old(fs.fds)[f].id) && FdsKept(old(fs.fds), fs.fds)
                && pending == old(pending) - {old(fs.fds)[f].id} && links[f] == None
      ensures RanShort(r, 0)
      ensures old(IsOpen(f)) && old(fs.fds)[f].id in old(pending) && old(pending)[old(fs.fds)[f].id].data != [] ==>
                var id, p := old(fs.fds)[f].id, old(pending)[old(fs.fds)[f].id];
                && id in old(FilesOf(fs)) && p.offset <= |old(FilesOf(fs))[id].bytes|
                && Foretold(old(ForetellFor(fs.fds[f].id, pending[fs.fds[f].id].offset, |pending[fs.fds[f].id].data|)), r, ending)
                && EndsSomehow(fs, f, id, old(FilesOf(fs)), p.offset, p.data, ending)
    {
      hide FlashState, LookupState, Mounted, CacheState, SeenFiles, GapFree, Within, Splice, Listed, Linked, FdsKept, Synced, Foretold, WriteEnds, StaleOutcome, ForetellFor;
      LookupInOrder();
      r := FdGet(f);
      if r != Ok {
        return;
      }
      FdsKeptSelf(fs.fds);
      WithinAt(fs.fds, f, Seen());
      OpenOnFile(f);
      SeenKeys(FilesOf(fs), pending);
      Link(f);
      if links[f].Some? {
        LinkedPage(f);
        var done;
        r, done := Dump(f);
      } else {
        assert pending - {fs.fds[f].id} == pending;
      }
    }

    /** Closes a descriptor; its object has nothing pending then. */
    method Close(f: int) returns (r: Status)
      requires Valid() && Usable(f)
      modifies this, fs, dev, cache
      ensures InSync()
      ensures !old(IsOpen(f)) ==> r == old(WhyClosed(f)) && Valid() && State() == old(State())
      ensures old(IsOpen(f)) ==> r in {Ok, ErrFull, ErrNotFound, ErrCheck}
      ensures old(IsOpen(f)) && old(fs.fds)[f].id !in old(pending) ==> r == Ok && ending.Complete?
      ensures r == Ok && ending.Complete? ==>
                && old(Standing(State(), f)) && Valid()
                && State() == old(State()).(handles := old(State()).handles[f := Closed])
                && old(fs.fds)[f].id !in pending
      ensures old(IsOpen(f)) && r != Ok && ending.Complete? ==>
                OthersKept(old(Seen()), old(fs.fds)[f].id) && State().handles == old(State()).handles
      ensures RanShort(r, 0)
      ensures old(IsOpen(f)) && old(AmpleToFlush(f)) ==> r == Ok && ending.Complete?
    {
      hide FlashState, LookupState, Mounted, CacheState, SeenFiles, GapFree, Within, Splice, Listed, Linked, FdsKept, Synced, AmpleFor, AmpleToFlush;
      LookupInOrder();
      r := FdGet(f);
      if r == Ok {
        WithinAt(fs.fds, f, Seen());
      }
      r := FflushCache(f);
      if !ending.Complete? {
        return;
      }
      if old(IsOpen(f)) {
        KeptHandles(old(fs.fds), fs.fds);
      }
      if r == Ok {
        SetClosed(f);
      }
    }

    // -------------------------------------------------------------------------
    // Read and seek

    /** What descriptor `f` believes about the length of its file when nothing of it
        is pending. */
    lemma SizeKnown(f: nat)
      requires Agree() && f < |fs.fds| && Tracked(fs.fds[f]) && fs.fds[f].id !in pending
      ensures fs.fds[f].id in FilesOf(fs) && OpenOn(fs, f, fs.fds[f].id) && fs.fds[f].id in Seen()
      ensures Seen()[fs.fds[f].id] == FilesOf(fs)[fs.fds[f].id]
      ensures Length(fs.fds[f].size) == |Seen()[fs.fds[f].id].bytes|
    {
      OpenOnFile(f);
      SizeMeansEmpty(fs, f);
    }

    /** Reads from flash what nothing pending covers, and moves on. */
    method ReadFlash(f: nat, n: nat) returns (bytes: seq<byte>)
      requires Agree() && f < |fs.fds| && Tracked(fs.fds[f]) && fs.fds[f].id !in pending && fs.fds[f].id in Seen()
      requires fs.fds[f].offset + n <= |Seen()[fs.fds[f].id].bytes|
      modifies this`work, fs`fds, fs`cursorBlock, fs`cursorEntry, cache
      ensures Agree() && (old(Valid()) ==> Valid())
      ensures var id, offset := old(fs.fds)[f].id, old(fs.fds)[f].offset;
              && bytes == old(Seen())[id].bytes[offset..offset + n]
              && State() == Plain(old(Seen()), Handles(old(fs.fds))[f := Opened(id, offset + n)])
              && (n == 0 ==> work == old(work))
              && LastRead(id, offset, n)
    {
      hide FlashState, LookupState, FdsPagesOk, FdsSizesOk, Holds, Tight, CacheState, SeenFiles, GapFree, Within, Splice, Listed, Linked, Synced;
      SizeKnown(f);
      CacheInOrder();
      var loaded;
      bytes, loaded := Objects.Read(fs, dev, f, fs.fds[f].offset, n);
      if loaded.Some? {
        work := fs.pg[loaded.value];
      }
      CursorsOnly(old(fs.fds), fs.fds);
      KeptListed(old(cache.pages), old(cache.mem), cache.pages, cache.mem, pending);
      KeptLinked(old(fs.fds), fs.fds, links, old(cache.pages), old(cache.mem), cache.pages, cache.mem);
      if old(Within(fs.fds, Seen())) {
        KeptWithin(old(fs.fds), fs.fds, Seen());
      }
      KeptHandles(old(fs.fds), fs.fds);
      MoveTo(f, fs.fds[f].offset + n);
    }

    /** Handle `f` is open on a file, wherever it stands. */
    ghost predicate Reaches(p: Plain, f: int)
    {
      0 <= f < |p.handles| && p.handles[f].Opened? && p.handles[f].id in p.files
    }

    /** ... before the end of it. */
    ghost predicate Before(p: Plain, f: int)
    {
      Reaches(p, f) && p.handles[f].offset < |p.files[p.handles[f].id].bytes|
    }

    /** A read through a descriptor that takes its file for empty while data is pending
        from another descriptor. */
    ghost predicate Hidden(f: nat)
      requires f < |fs.fds|
      reads this, fs
    {
      fs.fds[f].size.None? && fs.fds[f].id in pending
    }

    /** The files after something has been written back: as they were if that succeeded;
        otherwise only the file written back may differ. */
    ghost predicate WrittenBack(before: Plain, mid: Plain, id: nat, flushed: Status)
    {
      && mid.handles == before.handles && mid.files.Keys == before.files.Keys
      && (forall i :: i in before.files && i != id ==> mid.files[i] == before.files[i])
      && (flushed == Ok ==> mid == before)
    }

    lemma NothingWrittenBack(p: Plain, id: nat)
      ensures WrittenBack(p, p, id, Ok)
    {
    }

    /** Writes back what is pending for the object of an open descriptor, before a read or a
        seek.  `mid` is what that leaves. */
    method WriteBack(f: nat) returns (flushed: Status, ghost mid: Plain)
      requires Valid() && f < |fs.fds| && Tracked(fs.fds[f])
      modifies this, fs, dev, cache
      ensures InSync() && flushed in {Ok, ErrFull, ErrNotFound, ErrCheck} && RanShort(flushed, 0)
      ensures old(fs.fds)[f].id !in old(pending) ==> flushed == Ok && ending.Complete? && fs.fds == old(fs.fds)
      ensures ending.Complete? ==>
                var id := old(fs.fds)[f].id;
                && Agree() && mid == State() && WrittenBack(old(State()), mid, id, flushed) && Reaches(mid, f)
                && f < |fs.fds| && Tracked(fs.fds[f]) && fs.fds[f].id == id && fs.fds[f].offset == old(fs.fds)[f].offset
                && id !in pending && id in Seen() && Length(fs.fds[f].size) == |Seen()[id].bytes|
                && (flushed == Ok ==> mid == old(State()) && Valid() && (|Seen()[id].bytes| == 0 ==> fs.fds == old(fs.fds)))
    {
      hide FlashState, LookupState, Mounted, CacheState, SeenFiles, GapFree, Within, Splice, Listed, Linked, FdsKept, Synced, AmpleToFlush;
      hide StaleOutcome, AmpleFor, Quiet, Roomy, Ample, IsIndexImage;
      LookupInOrder();
      mid := State();
      flushed := FflushCache(f);
      if !ending.Complete? {
        return;
      }
      SameFd(old(fs.fds), fs.fds, f);
      KeptHandles(old(fs.fds), fs.fds);
      mid := State();
      SizeKnown(f);
    }

    /** Reads from the offset of a descriptor, up to the end of the file.  What is
        pending is written back first; `flushed` is the outcome of that, which the source
        ignores, and `mid` what it leaves.  The read gives the bytes of the plain file, or
        the end of it, unless `Hidden`: then a read of anything reports the end of the
        file at once. */
    method Read(f: int, len: nat) returns (r: Status, bytes: seq<byte>, flushed: Status, ghost mid: Plain)
      requires Valid() && Usable(f)
      modifies this, fs, dev, cache
      ensures InSync()
      ensures !old(IsOpen(f)) ==> r == old(WhyClosed(f)) && Valid() && State() == old(State())
      ensures old(IsOpen(f)) ==>
                && old(Standing(State(), f)) && flushed in {Ok, ErrFull, ErrNotFound, ErrCheck}
                && r !in {ErrBadDescriptor, ErrFileClosed}
      ensures old(IsOpen(f)) && (old(fs.fds)[f].id !in old(pending) || (len > 0 && old(fs.fds)[f].size.None?)) ==>
                flushed == Ok && ending.Complete?
      ensures old(IsOpen(f)) && ending.Complete? ==>
                && Agree() && WrittenBack(old(State()), mid, old(fs.fds)[f].id, flushed)
                && Reaches(mid, f) && ReadOutcome(r, bytes, f, len, mid)
      ensures old(IsOpen(f)) && ending.Complete? && flushed == Ok ==>
                var offset, n := old(fs.fds)[f].offset, |old(Seen())[old(fs.fds)[f].id].bytes|;
                && Valid() && (r == Ok || r == ErrEndOfObject)
                && (r == ErrEndOfObject <==>
                      if len > 0 then offset == n || old(Hidden(f)) else offset == n && (n > 0 || old(fs.fds)[f].size.Some?))
      ensures old(IsOpen(f)) && ending.Complete? && flushed != Ok && Before(mid, f) ==> r == Ok
      ensures old(IsOpen(f)) && ending.Complete? ==> LastRead(old(fs.fds)[f].id, old(fs.fds)[f].offset, |bytes|)
      ensures RanShort(flushed, 0)
    {
      hide FlashState, LookupState, Mounted, CacheState, SeenFiles, GapFree, Within, Splice, Listed, Linked, FdsKept, Synced;
      hide PlainRead, StaleOutcome, AmpleFor, Quiet, Roomy, Ample, IsIndexImage, LastRead, Agree, WrittenBack;
      LookupInOrder();
      bytes, flushed, mid := [], Ok, State();
      r := FdGet(f);
      if r != Ok {
        return;
      }
      OpenStands(f);
      SizeHidden(f);
      NothingRead(fs.fds[f].id, fs.fds[f].offset);
      NothingWrittenBack(mid, fs.fds[f].id);
      if fs.fds[f].size.None? && len > 0 {
        return ErrEndOfObject, [], Ok, State();
      }
      flushed, mid := WriteBack(f);
      if !ending.Complete? {
        return;
      }
      r, bytes := ReadFlushed(f, len);
      LookupInOrder();
    }

    /** What a read gives, in terms of the files when it reaches flash. */
    ghost predicate ReadOutcome(r: Status, bytes: seq<byte>, f: nat, len: nat, mid: Plain)
      requires Reaches(mid, f)
      reads this, fs
    {
      var offset, n := mid.handles[f].offset, |mid.files[mid.handles[f].id].bytes|;
      && (r == Ok || r == ErrEndOfObject || (r == ErrIndexRefFree && n == 0 && len > 0))
      && (r != Ok ==> State() == mid && bytes == [])
      && (r == Ok ==> if offset <= n then (State(), bytes) == PlainRead(mid, f, len) else State() == mid && bytes == [] && len == 0)
    }

    /** Reads when nothing is pending.  A file known to be empty has no page to read from. */
    method ReadFlushed(f: nat, len: nat) returns (r: Status, bytes: seq<byte>)
      requires Agree() && f < |fs.fds| && Tracked(fs.fds[f]) && fs.fds[f].id !in pending && fs.fds[f].id in Seen()
      modifies this`work, fs`fds, fs`cursorBlock, fs`cursorEntry, cache
      ensures Agree() && (old(Valid()) ==> Valid())
      ensures old(Reaches(State(), f)) && ReadOutcome(r, bytes, f, len, old(State()))
      ensures var fd := old(fs.fds)[f];
              && (bytes == [] ==> work == old(work))
              && LastRead(fd.id, fd.offset, |bytes|)
              && (r == ErrIndexRefFree <==> fd.size.None? && len > 0)
              && (r == ErrEndOfObject <==> fd.size.Some? && |old(Seen())[fd.id].bytes| <= fd.offset)
    {
      hide FlashState, LookupState, Mounted, CacheState, SeenFiles, GapFree, Within, Splice, Listed, Linked, FdsKept, Synced, LastRead;
      SizeKnown(f);
      NothingRead(fs.fds[f].id, fs.fds[f].offset);
      r := Ok;
      var offset, n := fs.fds[f].offset, len;
      if fs.fds[f].size.None? {
        EmptyRead(f);
        return if len > 0 then ErrIndexRefFree else Ok, [];
      }
      if offset + len >= fs.fds[f].size.value {
        if fs.fds[f].size.value <= offset {
          return ErrEndOfObject, [];
        }
        n := fs.fds[f].size.value - offset;
      }
      bytes := ReadFlash(f, n);
    }

    lemma NothingRead(id: nat, offset: nat)
      ensures LastRead(id, offset, 0)
    {
    }

    /** Reading nothing changes nothing. */
    lemma EmptyRead(f: nat)
      requires f < |fs.fds| && Tracked(fs.fds[f]) && fs.fds[f].id in Seen()
      ensures Standing(State(), f) ==> PlainRead(State(), f, 0) == (State(), [])
    {
      hide SeenFiles;
      if Standing(State(), f) {
        var p := State();
        assert p.handles[f := Opened(p.handles[f].id, p.handles[f].offset)] == p.handles;
        var (after, bytes) := PlainRead(p, f, 0);
        assert after == p && bytes == [];
      }
    }

    lemma OpenStands(f: nat)
      requires Valid() && f < |fs.fds| && Tracked(fs.fds[f])
      ensures Standing(State(), f) && fs.fds[f].id in Seen()
    {
      WithinAt(fs.fds, f, Seen());
    }

    lemma StateAt(f: nat)
      requires f < |fs.fds| && Tracked(fs.fds[f]) && fs.fds[f].id in Seen()
      ensures Reaches(State(), f) && State().handles[f] == Opened(fs.fds[f].id, fs.fds[f].offset)
    {
    }

    /** A descriptor that takes its file for empty is right if nothing is pending. */
    lemma SizeHidden(f: nat)
      requires Valid() && f < |fs.fds| && Tracked(fs.fds[f])
      ensures fs.fds[f].id in Seen()
      ensures fs.fds[f].size.None? && fs.fds[f].id !in pending ==> |Seen()[fs.fds[f].id].bytes| == 0
    {
      WithinAt(fs.fds, f, Seen());
      if fs.fds[f].id !in pending {
        SizeKnown(f);
      }
    }

    /** What a descriptor hides that takes its file for empty is all there is in the file: at
        most a cache page. */
    lemma HiddenIsPending(f: nat)
      requires Valid() && f < |fs.fds| && Tracked(fs.fds[f]) && Hidden(f)
      ensures Reaches(State(), f) && State().files[State().handles[f].id].bytes == pending[fs.fds[f].id].data
      ensures |pending[fs.fds[f].id].data| <= PAGE_SIZE
    {
      hide FlashState, LookupState, Linked, Holds, FdsPagesOk, Tight;
      var id := fs.fds[f].id;
      OpenStands(f);
      OpenOnFile(f);
      CacheInOrder();
      GapFreeAt(FilesOf(fs), pending, id);
      SizeMeansEmpty(fs, f);
      SpliceFirst(pending[id].data);
    }

    /** The position a seek asks for. */
    ghost function Target(p: Plain, f: int, offs: int, whence: Whence): int
    {
      if !Reaches(p, f) then offs else
      match whence
      case Set => offs
      case Cur => Signed32(p.handles[f].offset + offs)
      case End => Signed32(|p.files[p.handles[f].id].bytes| + offs)
    }

    /** A sum as a signed number of 32 bits. */
    function Signed32(n: int): int
    {
      (n + 0x8000_0000) % 0x1_0000_0000 - 0x8000_0000
    }

    /** The offset a position stands for, which has 32 bits, and its data page, which has 16. */
    function SeekTo(position: int): nat
    {
      if position < 0 then position % 0x1_0000_0000 else position
    }

    function SeekPage(position: int): nat
    {
      PageOf(SeekTo(position)) % 0x10000
    }

    /** A position from the start to the end of the file of a handle. */
    ghost predicate InFile(mid: Plain, f: int, position: int)
    {
      Reaches(mid, f) && 0 <= position <= |mid.files[mid.handles[f].id].bytes|
    }

    /** A file of `n` bytes has no index page for the position, and the descriptor with
        the index page `span` at hand does not know better. */
    predicate NoIndex(n: nat, position: int, span: nat)
    {
      var k := IxSpan(SeekPage(position)); span != k && k >= IxCount(PagesFor(n))
    }

    /** What a seek to a position does, in terms of the files when nothing is pending. */
    ghost predicate SeekOutcome(r: Status, f: int, position: int, mid: Plain)
      reads this, fs
    {
      Reaches(mid, f) && f < |fs.fds| &&
      var id, n := mid.handles[f].id, |mid.files[mid.handles[f].id].bytes|;
      && (r == Ok || r == ErrNotFound || r == ErrEndOfObject)
      && (r == ErrEndOfObject ==> position > n)
      && (position > n > 0 ==> r == ErrEndOfObject)
      && (r == Ok && position > n ==> fs.fds[f].size.None?)
      && (r == Ok && fs.fds[f].size.None? ==> n == 0)
      && (r == ErrNotFound && 0 <= position <= n ==> IxSpan(PageOf(position)) >= IxCount(PagesFor(n)))
      && State() == if r == Ok then mid.(handles := mid.handles[f := Opened(id, SeekTo(position))]) else mid
    }

    /** The page number of a position in a file has 16 bits. */
    lemma SeekInFile(f: nat, position: int)
      requires Agree() && f < |fs.fds| && Tracked(fs.fds[f]) && fs.fds[f].id !in pending && fs.fds[f].id in Seen()
      ensures 0 <= position <= |Seen()[fs.fds[f].id].bytes| ==> SeekPage(position) == PageOf(position)
    {
      hide FlashState, LookupState, Synced, Listed, Linked, GapFree, SeenFiles, FdsPagesOk, FdsSizesOk, Tight, Holds;
      var id := fs.fds[f].id;
      SizeKnown(f);
      ViewLength(fs.lu, fs.pg, fs.cat, id);
      FilePages(fs.lu, fs.pg, fs.cat, id);
      var n := |Seen()[id].bytes|;
      if 0 <= position <= n && n > 0 {
        QuotMono(position, n, DATA_SIZE);
        SmallStep(n - 1);
      } else if position == 0 {
        BytePlace(0, 0);
      }
    }

    /** Finds the index page for a position and remembers it in the descriptor. */
    method SeekIndex(f: nat, span: nat) returns (r: Status)
      requires Agree() && f < |fs.fds| && Tracked(fs.fds[f]) && fs.fds[f].id !in pending && fs.fds[f].id in Seen()
      modifies fs`fds, fs`cursorBlock, fs`cursorEntry
      ensures Agree() && (old(Valid()) ==> Valid()) && Seen() == old(Seen())
      ensures FdsKept(old(fs.fds), fs.fds) && fs.fds[f].size == old(fs.fds)[f].size
      ensures r == Ok || r == ErrNotFound
      ensures r == ErrNotFound <==>
                && old(fs.fds)[f].ixSpan != span
                && span >= IxCount(PagesFor(|old(Seen())[old(fs.fds)[f].id].bytes|))
    {
      hide FlashState, LookupState, Holds, FdsPagesOk, FdsSizesOk, SeenFiles, GapFree, Within, Splice, Listed, Linked, Synced;
      SizeKnown(f);
      CacheInOrder();
      ghost var id := fs.fds[f].id;
      ViewLength(fs.lu, fs.pg, fs.cat, id);
      assert |fs.cat[id].ixs| == IxCount(|fs.cat[id].data|);
      FdsKeptSelf(fs.fds);
      r := Ok;
      if fs.fds[f].ixSpan != span {
        var found := fs.FindIdAndSpan(fs.fds[f].id, true, span);
        if found.None? {
          if span < |fs.cat[id].ixs| {
            FindIsUnique(fs.lu, fs.pg, fs.cat, id, true, span, fs.cat[id].ixs[span]);
          }
          return ErrNotFound;
        }
        FindIsUnique(fs.lu, fs.pg, fs.cat, id, true, span, found.value);
        SetCursor(fs.fds, fs.cat, f, span, found.value);
        ghost var fds0 := fs.fds;
        fs.fds := fs.fds[f := fs.fds[f].(ixSpan := span, ixPix := found.value)];
        KeptLinked(fds0, fs.fds, links, cache.pages, cache.mem, cache.pages, cache.mem);
        if Within(fds0, Seen()) {
          KeptWithin(fds0, fs.fds, Seen());
        }
      }
    }

    /** Moves the offset of a descriptor.  What is pending is written back first, as for a
        read.  A position past the end of a file that is not empty is refused; so is the
        very end of a file whose last index page is full, unless the descriptor already
        stands there.  The position is the sum as a signed number of 32 bits; one below 0
        stands for one 2^32 further on. */
    method Lseek(f: int, offs: int, whence: Whence) returns (r: Status, flushed: Status, ghost mid: Plain)
      requires Valid() && Usable(f)
      modifies this, fs, dev, cache
      ensures InSync()
      ensures !old(IsOpen(f)) ==> r == old(WhyClosed(f)) && Valid() && State() == old(State())
      ensures old(IsOpen(f)) ==>
                && old(Standing(State(), f)) && flushed in {Ok, ErrFull, ErrNotFound, ErrCheck}
                && r !in {ErrBadDescriptor, ErrFileClosed}
      ensures old(IsOpen(f)) && old(fs.fds)[f].id !in old(pending) ==> flushed == Ok && ending.Complete?
      ensures old(IsOpen(f)) && ending.Complete? ==>
                && Agree() && WrittenBack(old(State()), mid, old(fs.fds)[f].id, flushed)
                && SeekOutcome(r, f, Target(mid, f, offs, whence), mid)
      ensures old(IsOpen(f)) && ending.Complete? && flushed == Ok ==>
                Valid() || (r == Ok && !InFile(mid, f, Target(mid, f, offs, whence)))
      ensures old(IsOpen(f)) && old(fs.fds)[f].id !in old(pending) && r != ErrEndOfObject ==>
                (r == ErrNotFound <==>
                   NoIndex(|old(Seen())[old(fs.fds)[f].id].bytes|, Target(mid, f, offs, whence), old(fs.fds)[f].ixSpan))
      ensures RanShort(flushed, 0)
    {
      hide FlashState, LookupState, Mounted, CacheState, SeenFiles, GapFree, Within, Splice, Listed, Linked, FdsKept, Synced;
      hide SeekOutcome, NoIndex, Target, FilesOf, Handles, InSync;
      LookupInOrder();
      flushed, mid := Ok, State();
      r := FdGet(f);
      if r != Ok {
        return;
      }
      OpenStands(f);
      flushed, mid := WriteBack(f);
      if !ending.Complete? {
        return;
      }
      StateAt(f);
      r := SeekFrom(f, offs, whence);
    }

    /** Moves the offset to a position given in one of three ways, when nothing is pending. */
    method SeekFrom(f: nat, offs: int, whence: Whence) returns (r: Status)
      requires Agree() && f < |fs.fds| && Tracked(fs.fds[f]) && fs.fds[f].id !in pending && fs.fds[f].id in Seen()
      modifies fs`fds, fs`cursorBlock, fs`cursorEntry
      ensures Agree() && r in {Ok, ErrNotFound, ErrEndOfObject}
      ensures var position := old(Target(State(), f, offs, whence));
              && SeekOutcome(r, f, position, old(State()))
              && (old(Valid()) ==> Valid() || (r == Ok && !InFile(old(State()), f, position)))
              && (r != ErrEndOfObject ==>
                   (r == ErrNotFound <==> NoIndex(|old(Seen())[old(fs.fds)[f].id].bytes|, position, old(fs.fds)[f].ixSpan)))
    {
      hide FlashState, LookupState, Mounted, CacheState, SeenFiles, GapFree, Within, Splice, Listed, Linked, FdsKept, Synced, Agree;
      hide SeekOutcome, NoIndex;
      SizeKnown(f);
      var position := match whence
        case Set => offs
        case Cur => Signed32(fs.fds[f].offset + offs)
        case End => Signed32(Length(fs.fds[f].size) + offs);
      r := SeekFlushed(f, position);
    }

    /** Moves the offset when nothing is pending. */
    method SeekFlushed(f: nat, position: int) returns (r: Status)
      requires Agree() && f < |fs.fds| && Tracked(fs.fds[f]) && fs.fds[f].id !in pending && fs.fds[f].id in Seen()
      modifies fs`fds, fs`cursorBlock, fs`cursorEntry
      ensures Agree() && SeekOutcome(r, f, position, old(State())) && r in {Ok, ErrNotFound, ErrEndOfObject}
      ensures old(Valid()) ==> Valid() || (r == Ok && !InFile(old(State()), f, position))
      ensures r != ErrEndOfObject ==>
                (r == ErrNotFound <==> NoIndex(|old(Seen())[old(fs.fds)[f].id].bytes|, position, old(fs.fds)[f].ixSpan))
    {
      hide FlashState, LookupState, Mounted, CacheState, SeenFiles, GapFree, Within, Splice, Listed, Linked, FdsKept, Synced;
      SizeKnown(f);
      SeekInFile(f, position);
      if fs.fds[f].size.Some? && position > fs.fds[f].size.value {
        return ErrEndOfObject;
      }
      r := SeekIndex(f, IxSpan(SeekPage(position)));
      KeptHandles(old(fs.fds), fs.fds);
      SameFd(old(fs.fds), fs.fds, f);
      if r == Ok {
        MoveTo(f, SeekTo(position));
      }
    }

    // -------------------------------------------------------------------------
    // Open and remove

    method AgeScores()
      requires Valid()
      modifies fs`fds
      ensures Valid() && State() == old(State())
      ensures fs.fds == Aged(old(fs.fds)) && ClosedAged(old(fs.fds), fs.fds)
    {
      hide FlashState, LookupState, SeenFiles, GapFree, Splice, Listed, Synced, Linked, Within, FdsPagesOk, FdsSizesOk, Holds, Tight;
      AgedKeeps(fs.fds, Aged(fs.fds), fs.cat, links, cache.pages, Seen());
      var i := 0;
      while i < |fs.fds|
        invariant i <= |fs.fds| == |old(fs.fds)|
        invariant forall j :: 0 <= j < i ==> fs.fds[j] == Aged(old(fs.fds))[j]
        invariant forall j :: i <= j < |fs.fds| ==> fs.fds[j] == old(fs.fds)[j]
      {
        if fs.fds[i].nbr == 0 && fs.fds[i].score > 1 {
          fs.fds := fs.fds[i := fs.fds[i].(score := fs.fds[i].score - 1)];
        }
        i := i + 1;
      }
      assert fs.fds == Aged(old(fs.fds));
    }

    method SetScore(c: nat, score: nat)
      requires Valid() && c < |fs.fds| && fs.fds[c].nbr == 0
      modifies fs`fds
      ensures Valid() && State() == old(State())
      ensures fs.fds == old(fs.fds)[c := old(fs.fds)[c].(score := score)]
    {
      hide FlashState, LookupState, SeenFiles, GapFree, Splice, Listed, Synced, Linked, Within, FdsPagesOk, FdsSizesOk, Holds, Tight;
      AgedKeeps(fs.fds, fs.fds[c := fs.fds[c].(score := score)], fs.cat, links, cache.pages, Seen());
      fs.fds := fs.fds[c := fs.fds[c].(score := score)];
    }

    /** There is a closed descriptor that may be used. */
    ghost predicate HasFreeFd()
      reads fs
    {
      exists i :: 0 <= i < |fs.fds| && fs.fds[i].nbr == 0 && fs.fds[i].score < MAX_SCORE
    }

    /** Chooses a closed descriptor: the one `hint` names, if it is closed, or the
        first of those with the lowest score.  When it is for a file given by name the
        scores of closed descriptors age, and the score of the chosen one is set. */
    method FindNew(named: bool, hint: Option<nat>) returns (r: Status, c: nat)
      requires Valid()
      modifies fs`fds
      ensures Valid() && State() == old(State()) && ClosedAged(old(fs.fds), fs.fds)
      ensures r == Ok || r == ErrOutOfFileDescs
      ensures r == Ok ==> c < |fs.fds| && fs.fds[c].nbr == 0 && (named ==> fs.fds[c].score > 0)
      ensures !named ==> fs.fds == old(fs.fds)
      ensures (forall i :: 0 <= i < |fs.fds| ==> old(fs.fds)[i].nbr != 0) ==> r == ErrOutOfFileDescs
      ensures r == ErrOutOfFileDescs ==> !old(HasFreeFd())
    {
      hide SeenFiles, GapFree, Listed, CacheState, Mounted, Linked, Within;
      if named {
        AgeScores();
      }
      var cand := Candidate(fs.fds, if named then hint else None);
      if cand.None? {
        return ErrOutOfFileDescs, 0;
      }
      c := cand.value;
      if named {
        var score :=
          if hint != cand || fs.fds[c].score == 0 then HIT_SCORE
          else if fs.fds[c].score < MAX_SCORE - HIT_SCORE then fs.fds[c].score + HIT_SCORE
          else MAX_SCORE;
        SetScore(c, score);
      }
      return Ok, c;
    }

    /** Finds the header of the file with a name, searching from anywhere. */
    method FindByName(path: string, startBlock: nat, startEntry: nat) returns (r: Option<nat>)
      requires Mounted(fs) && startBlock < BLOCKS
      modifies fs`cursorBlock, fs`cursorEntry
      ensures Mounted(fs)
      ensures r.None? ==> forall id :: id in fs.cat ==> fs.cat[id].name != path
      ensures r.Some? ==>
                && r.value < SLOTS && fs.lu[r.value].Used? && fs.pg[r.value].IndexPage?
                && fs.lu[r.value].id in fs.cat && |fs.cat[fs.lu[r.value].id].ixs| > 0
                && r.value == fs.cat[fs.lu[r.value].id].ixs[0]
                && fs.cat[fs.lu[r.value].id].name == path
                && fs.pg[r.value].size == fs.cat[fs.lu[r.value].id].size
    {
      hide FlashState, LookupState, FdsPagesOk, FdsSizesOk;
      var lookup, pages := fs.lu, fs.pg;
      var accept := (t: nat) => NamedHeader(lookup, pages, path, t);
      r := Visit(startBlock, startEntry, true, accept);
      if r.Some? {
        HeaderNamed(fs.lu, fs.pg, fs.cat, path, r.value);
        BlockBounds(r.value);
        fs.cursorBlock := BlockOf(r.value);
        fs.cursorEntry := EntryOf(r.value);
      } else {
        forall id | id in fs.cat ensures fs.cat[id].name != path {
          NamedIsHeader(fs.lu, fs.pg, fs.cat, id);
          assert !accept(fs.cat[id].ixs[0]);
        }
      }
    }

    /** Fills descriptor `c` in from a header page. */
    method OpenByPage(c: nat, pix: nat)
      requires Valid() && c < |fs.fds| && fs.fds[c].nbr == 0 && fs.fds[c].score > 0
      requires pix < SLOTS && fs.lu[pix].Used? && fs.pg[pix].IndexPage? && fs.lu[pix].id in fs.cat
      requires |fs.cat[fs.lu[pix].id].ixs| > 0 && pix == fs.cat[fs.lu[pix].id].ixs[0]
      requires fs.pg[pix].size == fs.cat[fs.lu[pix].id].size
      modifies fs`fds
      ensures Valid() && State() == Plain(old(Seen()), Handles(old(fs.fds))[c := Opened(fs.lu[pix].id, 0)])
    {
      hide FlashState, LookupState, Splice, Listed, Distinct;
      var id := fs.lu[pix].id;
      OpenKeeps(fs.fds, c, id, pix, fs.cat, links, cache.pages, Seen());
      fs.fds := fs.fds[c := Fd(c + 1, id, fs.pg[pix].size, pix, 0, pix, 0, fs.fds[c].score)];
    }

    /** Every id that can be given is that of a file. */
    ghost predicate IdsTaken(files: map<nat, FileView>)
    {
      forall i: nat :: 1 <= i <= ID_BITS ==> i in files
    }

    lemma NoIdLeft()
      requires Agree() && forall i: nat :: 1 <= i <= ID_BITS ==> InUse(fs.lu, i, SLOTS)
      ensures IdsTaken(Seen())
    {
      hide FlashState, LookupState, Holds, InUse;
      SeenKeys(FilesOf(fs), pending);
      forall i: nat | 1 <= i <= ID_BITS ensures i in Seen() {
        InUseIsFile(fs.lu, fs.pg, fs.cat, i);
        FilesHaveIds(fs.pg, fs.cat, i);
      }
    }

    /** The least id that no file has. */
    method FreshId() returns (r: Status, id: nat)
      requires Valid() && IdsFitBitmap()
      ensures r == Ok || r == ErrFull
      ensures r == Ok ==> id !in fs.cat && id !in FilesOf(fs) && LeastFree(Seen(), id)
      ensures r != Ok ==> IdsTaken(Seen())
    {
      hide FlashState, LookupState, FdsPagesOk, FdsSizesOk, Holds, Tight, SeenFiles, GapFree, Within, Listed, Linked, WritesKept, CacheState, FdsKept, Mounted, Synced, InUse, LeastFree;
      LookupInOrder();
      ImageInOrder();
      r, id := FindFreeId(fs.lu, fs.pg, None);
      if r != Ok {
        NoIdLeft();
        return;
      }
      InUseIsFile(fs.lu, fs.pg, fs.cat, id);
      FilesHaveIds(fs.pg, fs.cat, id);
      SeenIds();
      LeastOfAll(fs.lu, fs.pg, fs.cat, Seen(), id);
    }

    /** Creates an empty object in flash. */
    method CreateInFlash(id: nat, path: string) returns (r: Status, pix: nat)
      requires InSync() && Mounted(fs) && id !in fs.cat && |path| < NAME_LEN
      modifies this`work, this`ending, fs, dev, cache
      ensures InSync() && WritesKept(old(cache.pages), old(cache.mem), cache.pages, cache.mem)
      ensures r in {Ok, ErrFull, ErrNotFound} && (r == Ok ==> ending.Complete?)
      ensures ending.Complete? ==>
                && Mounted(fs) && FdsKept(old(fs.fds), fs.fds)
                && FilesOf(fs) == if r == Ok then old(FilesOf(fs))[id := FileView(path, [])] else old(FilesOf(fs))
      ensures r == Ok ==>
                && id in fs.cat && |fs.cat[id].ixs| > 0 && fs.cat[id].ixs[0] == pix && pix < SLOTS && fs.lu[pix] == Used(id, true)
                && fs.pg[pix].IndexPage? && fs.pg[pix].size == fs.cat[id].size
      ensures r != Ok ==> Scarce(fs, DATA_SIZE)
      ensures PageAfter(old(LayoutOf(fs)), DATA_SIZE, r)
    {
      hide LayoutOf, Scarce, FlashState, LookupState, FdsPagesOk, FdsSizesOk, Holds, Tight, WritesKept, CacheState, FdsKept, PageAfter;
      Begin();
      var end;
      r, pix, end := Create(fs, id, path);
      Sync();
      ending := if r == Ok then Complete else end;
      if r == Ok {
        CreatedHeader(fs, id, pix);
      }
    }

    /** Creates an empty object with a fresh id. */
    method CreateFile(path: string) returns (r: Status, pix: nat)
      requires Valid() && IdsFitBitmap() && |path| < NAME_LEN
      modifies this`work, this`ending, fs, dev, cache
      ensures InSync() && r in {Ok, ErrFull, ErrNotFound}
      ensures r == Ok ==> ending.Complete?
      ensures r != Ok && ending.Complete? ==> Valid() && FdsKept(old(fs.fds), fs.fds) && Seen() == old(Seen())
      ensures r == Ok ==>
                && Valid() && FdsKept(old(fs.fds), fs.fds)
                && pix < SLOTS && fs.lu[pix].Used? && fs.pg[pix].IndexPage? && fs.lu[pix].id in fs.cat
                && |fs.cat[fs.lu[pix].id].ixs| > 0 && pix == fs.cat[fs.lu[pix].id].ixs[0]
                && fs.pg[pix].size == fs.cat[fs.lu[pix].id].size
                && LeastFree(old(Seen()), fs.lu[pix].id) && Seen() == old(Seen())[fs.lu[pix].id := FileView(path, [])]
      ensures r != Ok ==> Scarce(fs, DATA_SIZE) || IdsTaken(old(Seen()))
      ensures IdsTaken(old(Seen())) || PageAfter(old(LayoutOf(fs)), DATA_SIZE, r)
    {
      hide IdsTaken, LayoutOf, Scarce, FlashState, LookupState, FdsPagesOk, FdsSizesOk, Holds, Tight, SeenFiles, GapFree, Within, Listed, Linked, WritesKept, CacheState, FdsKept, Mounted, Synced, InUse, LeastFree, PageAfter;
      pix := 0;
      var id;
      FdsKeptSelf(fs.fds);
      LookupInOrder();
      r, id := FreshId();
      if r != Ok {
        return;
      }
      ghost var files := FilesOf(fs);
      CacheInOrder();
      r, pix := CreateInFlash(id, path);
      if !ending.Complete? {
        return;
      }
      KeptListed(old(cache.pages), old(cache.mem), cache.pages, cache.mem, pending);
      KeptLinked(old(fs.fds), fs.fds, links, old(cache.pages), old(cache.mem), cache.pages, cache.mem);
      if r == Ok {
        NewSeen(files, pending, id, FileView(path, []));
        NewWithin(old(fs.fds), SeenFiles(files, pending), id, FileView(path, []));
      }
      KeptWithin(old(fs.fds), fs.fds, Seen());
    }

    /** What users see are the files there are. */
    lemma SeenIds()
      requires Valid()
      ensures Seen().Keys == fs.cat.Keys && Holds(fs.lu, fs.pg, fs.cat)
    {
      SeenKeys(FilesOf(fs), pending);
      assert FilesOf(fs).Keys == fs.cat.Keys;
    }

    /** Opens the file with a name, which is created if there is none. */
    method Open(path: string, hint: Option<nat>, startBlock: nat, startEntry: nat) returns (r: Status, f: nat)
      requires Valid() && IdsFitBitmap() && startBlock < BLOCKS
      modifies this`work, this`ending, fs, dev, cache
      ensures InSync() && r in {Ok, ErrNameTooLong, ErrOutOfFileDescs, ErrFull, ErrNotFound}
      ensures r == Ok ==> ending.Complete?
      ensures r != Ok && ending.Complete? ==> Valid() && State() == old(State())
      ensures r in {ErrFull, ErrNotFound} ==> forall id :: id in old(Seen()) ==> old(Seen())[id].name != path
      ensures r == ErrNameTooLong ==> |path| >= NAME_LEN
      ensures |path| >= NAME_LEN ==> r == ErrNameTooLong && Valid() && State() == old(State())
      ensures |path| < NAME_LEN && (forall i :: 0 <= i < |old(fs.fds)| ==> old(fs.fds)[i].nbr != 0) ==>
                r == ErrOutOfFileDescs && Valid() && State() == old(State())
      ensures |path| < NAME_LEN && old(HasFreeFd()) && (exists id :: id in old(Seen()) && old(Seen())[id].name == path) ==> r == Ok
      ensures r == ErrOutOfFileDescs ==> !old(HasFreeFd())
      ensures r == Ok ==> Valid() && PlainOpened(old(State()), State(), f, path)
      ensures r in {ErrFull, ErrNotFound} ==> Scarce(fs, DATA_SIZE) || IdsTaken(old(Seen()))
      ensures |path| < NAME_LEN && old(HasFreeFd()) && (forall id :: id in old(Seen()) ==> old(Seen())[id].name != path) ==>
                IdsTaken(old(Seen())) || PageAfter(old(LayoutOf(fs)), DATA_SIZE, r)
    {
      hide LayoutOf, Scarce, FlashState, LookupState, FdsPagesOk, FdsSizesOk, Holds, Tight, SeenFiles, GapFree, Within, Listed, Linked, CacheState;
      hide Session.HasFreeFd, PlainOpened, IdsTaken, LeastFree, FdsKept, Mounted, Synced, PageAfter;
      LookupInOrder();
      f := 0;
      if |path| > NAME_LEN - 1 {
        return ErrNameTooLong, 0;
      }
      r, f := FindNew(true, hint);
      if r != Ok {
        return;
      }
      var pix;
      var found := FindByNameIn(path, startBlock, startEntry);
      if found.Some? {
        pix := found.value;
      } else {
        ghost var fds1 := fs.fds;
        r, pix := CreateFile(path);
        if !ending.Complete? {
          return;
        }
        SameFd(fds1, fs.fds, f);
        KeptHandles(fds1, fs.fds);
        if r != Ok {
          return;
        }
      }
      ghost var id := fs.lu[pix].id;
      OpenByPage(f, pix);
      LookupInOrder();
      OpensPlain(old(State()), State(), f, path, id, found.None?);
    }

    /** FindByName, in terms of what users see. */
    method FindByNameIn(path: string, startBlock: nat, startEntry: nat) returns (r: Option<nat>)
      requires Valid() && startBlock < BLOCKS
      modifies fs`cursorBlock, fs`cursorEntry
      ensures Valid() && State() == old(State())
      ensures r.None? ==> forall id :: id in Seen() ==> Seen()[id].name != path
      ensures r.Some? ==>
                && r.value < SLOTS && r.value < |fs.lu| && r.value < |fs.pg| && fs.lu[r.value].Used? && fs.pg[r.value].IndexPage?
                && fs.lu[r.value].id in fs.cat && |fs.cat[fs.lu[r.value].id].ixs| > 0
                && r.value == fs.cat[fs.lu[r.value].id].ixs[0]
                && fs.pg[r.value].size == fs.cat[fs.lu[r.value].id].size
                && fs.lu[r.value].id in Seen() && Seen()[fs.lu[r.value].id].name == path
    {
      hide FlashState, LookupState, FdsPagesOk, FdsSizesOk, Holds, Tight, CacheState, Listed, Linked, Within, GapFree;
      r := FindByName(path, startBlock, startEntry);
      forall id | id in Seen() ensures id in fs.cat && Seen()[id].name == fs.cat[id].name {
        FilesHaveIds(fs.pg, fs.cat, id);
      }
    }

    /** The object of a write page is gone, and the page is still there. */
    ghost predicate Orphaned(id: nat)
      reads this, fs, dev, cache
    {
      && InSync() && Mounted(fs) && Listed(cache.pages, cache.mem, pending)
      && id in pending && id !in FilesOf(fs)
    }

    /** Removes the file with a name, through descriptor `c`, which was closed.  A
        descriptor that was never used to open a file by name is not closed again, and a
        write page of the file is not freed. */
    method Remove(path: string, startBlock: nat, startEntry: nat) returns (r: Status, c: nat, ghost id: nat)
      requires Valid() && startBlock < BLOCKS
      modifies this`work, fs, dev, cache
      ensures InSync()
      ensures r in {Ok, ErrNameTooLong, ErrOutOfFileDescs, ErrNotFound}
      ensures r != Ok ==> Valid()
      ensures r == ErrNameTooLong <==> |path| >= NAME_LEN
      ensures r == ErrNotFound ==> forall id :: id in old(Seen()) ==> old(Seen())[id].name != path
      ensures r == ErrOutOfFileDescs ==> !old(HasFreeFd())
      ensures r != Ok ==> State() == old(State())
      ensures r == Ok ==> id in old(Seen()) && old(Seen())[id].name == path && FilesOf(fs) == old(FilesOf(fs)) - {id}
      ensures r == Ok && id !in old(pending) ==> Valid() && State() == PlainRemoved(old(State()), id)
      ensures r == Ok && id in old(pending) ==> Orphaned(id)
      ensures r == Ok ==> c < |fs.fds| == |old(fs.fds)| && old(fs.fds)[c].nbr == 0
                          && (fs.fds[c].nbr != 0 <==> old(fs.fds)[c].score == 0)
    {
      hide FlashState, LookupState, FdsPagesOk, FdsSizesOk, Holds, Tight, SeenFiles, GapFree, Within, Listed, Linked, CacheState, WritesKept;
      hide Mounted, Synced;
      c, id := 0, 0;
      LookupInOrder();
      CacheInOrder();
      if |path| > NAME_LEN - 1 {
        return ErrNameTooLong, 0, 0;
      }
      r, c := FindNew(false, None);
      if r != Ok {
        return;
      }
      var found := FindByNameIn(path, startBlock, startEntry);
      if found.None? {
        return ErrNotFound, 0, 0;
      }
      ghost var files := FilesOf(fs);
      id := fs.lu[found.value].id;
      ghost var fds0, fs0size := fs.fds, fs.pg[found.value].size;
      r := RemoveThrough(c, found.value);
      if id !in pending {
        GoneSeen(files, pending, id);
        WritesListed(old(cache.pages), old(cache.mem), pending);
        GoneFds(fds0, c, Filled(fds0, c, id, fs0size, found.value), fs.fds, id, links, old(cache.pages), pending, SeenFiles(files, pending));
        FdsKeptSelf(fs.fds);
        KeptLinked(fs.fds, fs.fds, links, old(cache.pages), old(cache.mem), cache.pages, cache.mem);
        assert State() == PlainRemoved(old(State()), id);
      }
    }

    /** Removes the object of a header page through a closed descriptor. */
    method RemoveThrough(c: nat, pix: nat) returns (r: Status)
      requires Agree() && c < |fs.fds| && fs.fds[c].nbr == 0
      requires pix < SLOTS && pix < |fs.lu| && pix < |fs.pg| && fs.lu[pix].Used? && fs.pg[pix].IndexPage? && fs.lu[pix].id in fs.cat
      requires |fs.cat[fs.lu[pix].id].ixs| > 0 && pix == fs.cat[fs.lu[pix].id].ixs[0]
      requires fs.pg[pix].size == fs.cat[fs.lu[pix].id].size
      modifies this`work, fs, dev, cache
      ensures r == Ok && InSync() && Mounted(fs)
      ensures FilesOf(fs) == old(FilesOf(fs)) - {old(fs.lu)[pix].id}
      ensures Listed(cache.pages, cache.mem, pending) && WritesKept(old(cache.pages), old(cache.mem), cache.pages, cache.mem)
      ensures ClosedFor(Filled(old(fs.fds), c, old(fs.lu)[pix].id, old(fs.pg)[pix].size, pix), fs.fds, old(fs.lu)[pix].id)
    {
      hide FlashState, LookupState, FdsPagesOk, FdsSizesOk, Holds, Tight, Listed, Linked, CacheState, WritesKept, GapFree;
      hide ClosedFor, Mounted, Synced;
      CacheInOrder();
      LookupInOrder();
      FillUnnamed(c, pix);
      Begin();
      r := RemoveObject(fs, c);
      MountedInOrder();
      Sync();
      KeptListed(old(cache.pages), old(cache.mem), cache.pages, cache.mem, pending);
    }

    /** Fills a descriptor in from a header page without counting it as used by name. */
    method FillUnnamed(c: nat, pix: nat)
      requires Mounted(fs) && InSync() && c < |fs.fds| && fs.fds[c].nbr == 0
      requires pix < SLOTS && pix < |fs.lu| && pix < |fs.pg| && fs.lu[pix].Used? && fs.pg[pix].IndexPage? && fs.lu[pix].id in fs.cat
      requires |fs.cat[fs.lu[pix].id].ixs| > 0 && pix == fs.cat[fs.lu[pix].id].ixs[0]
      requires fs.pg[pix].size == fs.cat[fs.lu[pix].id].size
      modifies fs`fds
      ensures Mounted(fs) && InSync() && fs.fds == Filled(old(fs.fds), c, fs.lu[pix].id, fs.pg[pix].size, pix)
      ensures OpenedOn(fs, c, fs.lu[pix].id)
    {
      hide FlashState, LookupState, Synced;
      var fd := Fd(c + 1, fs.lu[pix].id, fs.pg[pix].size, pix, 0, pix, 0, fs.fds[c].score);
      var fds' := fs.fds[c := fd];
      forall i | 0 <= i < |fds'| ensures FdPagesOk(fds'[i], fs.cat) && FdSizeOk(fds'[i], fs.cat) {
        assert FdPagesOk(fs.fds[i], fs.cat) && FdSizeOk(fs.fds[i], fs.cat);
      }
      fs.fds := fds';
    }

    /** Unlinks every descriptor from a write page and frees it. */
    method Release(i: nat, ghost id: nat)
      requires Synced(fs, dev) && dev.cache == cache && Listed(cache.pages, cache.mem, pending) && Linked(fs.fds, links, cache.pages)
      requires id in pending && pending[id].page == i
      modifies this`links, this`pending, cache`pages
      ensures Synced(fs, dev) && Listed(cache.pages, cache.mem, pending) && Linked(fs.fds, links, cache.pages)
      ensures pending == old(pending) - {id}
      ensures |links| == |old(links)|
      ensures forall f :: 0 <= f < |links| ==> links[f] == if old(links)[f] == Some(i) then None else old(links)[f]
    {
      hide Mirrors;
      var f := 0;
      while f < |links|
        invariant f <= |links| == |old(links)| && cache.pages == old(cache.pages) && pending == old(pending) && cache.Ok()
        invariant forall g :: 0 <= g < f ==> links[g] == if old(links)[g] == Some(i) then None else old(links)[g]
        invariant forall g :: f <= g < |links| ==> links[g] == old(links)[g]
      {
        if fs.fds[f].nbr != 0 && links[f] == Some(i) {
          links := links[f := None];
        }
        f := f + 1;
      }
      ReleaseKeeps(fs.fds, old(links), links, cache.pages, cache.mem, pending, id);
      cache.PageFree(i);
      FewerCopies(old(cache.pages), old(cache.mem), cache.pages, cache.mem, dev.bytes);
      pending := pending - {id};
    }
  }

  /** A closed descriptor filled in from a header page. */
  function Filled(fds: seq<Fd>, c: nat, id: nat, size: Option<nat>, pix: nat): seq<Fd>
    requires c < |fds|
  {
    fds[c := Fd(c + 1, id, size, pix, 0, pix, 0, fds[c].score)]
  }

  lemma GapFreeAt(files: map<nat, FileView>, pending: map<nat, Pending>, id: nat)
    requires GapFree(files, pending) && id in pending
    ensures id in files && pending[id].offset <= |files[id].bytes|
  {
  }

  lemma SeenKeys(files: map<nat, FileView>, pending: map<nat, Pending>)
    ensures SeenFiles(files, pending).Keys == files.Keys
  {
  }

  /** The data of the first small write is what is pending. */
  lemma SpliceFirst(data: seq<byte>)
    ensures Splice([], 0, data) == data
  {
  }

  lemma SpliceEmpty(v: FileView, offset: nat, data: seq<byte>)
    requires offset <= |v.bytes|
    ensures |Spliced(v, offset, data).bytes| == 0 ==> data == [] && offset == |v.bytes|
  {
  }

  /** What `Complete` means after a write to flash. */
  lemma EndsComplete(fs: Spiffs, f: nat, id: nat, files: map<nat, FileView>, offset: nat, data: seq<byte>)
    requires id in files && offset <= |files[id].bytes| && WriteEnds(fs, f, id, files, offset, data, Complete)
    ensures Mounted(fs) && FilesOf(fs) == files[id := Spliced(files[id], offset, data)]
  {
  }

  /** What `StaleHeader` means. */
  lemma EndsStale(fs: Spiffs, f: nat, id: nat, files: map<nat, FileView>, offset: nat, data: seq<byte>)
    requires id in files && offset <= |files[id].bytes| && WriteEnds(fs, f, id, files, offset, data, StaleHeader)
    ensures forall cat :: !(Holds(fs.lu, fs.pg, cat) && Files(fs.pg, cat) == files)
  {
  }

  /** A file with nothing pending is seen as it is in flash. */
  lemma SeenAlone(files: map<nat, FileView>, pending: map<nat, Pending>, id: nat, fds: seq<Fd>, f: nat)
    requires id !in pending && f < |fds| && Tracked(fds[f]) && fds[f].id == id && Within(fds, SeenFiles(files, pending))
    ensures id in files && id in SeenFiles(files, pending) && SeenFiles(files, pending)[id] == files[id]
  {
  }

  const HIT_SCORE: nat := 4
  const MAX_SCORE: nat := 0xffff

  /** The scores of closed descriptors that have been used by name go down, to 1. */
  function Aged(fds: seq<Fd>): seq<Fd>
  {
    seq(|fds|, i requires 0 <= i < |fds| =>
      if fds[i].nbr == 0 && fds[i].score > 1 then fds[i].(score := fds[i].score - 1) else fds[i])
  }

  /** Only scores of closed descriptors differ. */
  ghost predicate ClosedAged(fds: seq<Fd>, fds': seq<Fd>)
  {
    && |fds'| == |fds|
    && forall i :: 0 <= i < |fds| ==> fds'[i] == if fds[i].nbr == 0 then fds[i].(score := fds'[i].score) else fds[i]
  }

  /** The closed descriptor to use: the one hinted at, or the first with the lowest score. */
  method Candidate(fds: seq<Fd>, hint: Option<nat>) returns (r: Option<nat>)
    ensures r.Some? ==> r.value < |fds| && fds[r.value].nbr == 0
    ensures r.None? ==> forall i :: 0 <= i < |fds| && fds[i].nbr == 0 ==> fds[i].score >= MAX_SCORE
    ensures hint.Some? && hint.value < |fds| && fds[hint.value].nbr == 0 ==> r == hint
    ensures r.Some? && r != hint ==>
              forall i :: 0 <= i < |fds| && fds[i].nbr == 0 ==>
                fds[r.value].score <= fds[i].score && (i < r.value ==> fds[r.value].score < fds[i].score)
  {
    var best := MAX_SCORE;
    r := None;
    var i := 0;
    while i < |fds|
      invariant i <= |fds|
      invariant hint.Some? && hint.value < i ==> fds[hint.value].nbr != 0
      invariant r.None? ==> best == MAX_SCORE
      invariant r.Some? ==> r.value < i && fds[r.value].nbr == 0 && best == fds[r.value].score < MAX_SCORE
      invariant forall j :: 0 <= j < i && fds[j].nbr == 0 ==>
                  fds[j].score >= best && (r.Some? && j < r.value ==> fds[j].score > best)
    {
      if fds[i].nbr == 0 {
        if hint == Some(i) {
          return hint;
        }
        if fds[i].score < best {
          best := fds[i].score;
          r := Some(i);
        }
      }
      i := i + 1;
    }
  }

  lemma AgedKeeps(fds: seq<Fd>, fds': seq<Fd>, cat: Catalogue, links: seq<Option<nat>>, pages: seq<CachePage>,
                  seen: map<nat, FileView>)
    requires ClosedAged(fds, fds') && FdsPagesOk(fds, cat) && FdsSizesOk(fds, cat)
    requires Linked(fds, links, pages) && Within(fds, seen)
    ensures FdsPagesOk(fds', cat) && FdsSizesOk(fds', cat) && Linked(fds', links, pages) && Within(fds', seen)
    ensures Handles(fds') == Handles(fds)
  {
    forall i | 0 <= i < |fds'|
      ensures FdPagesOk(fds'[i], cat) && FdSizeOk(fds'[i], cat) && HandleOf(fds'[i]) == HandleOf(fds[i])
    {
      assert FdPagesOk(fds[i], cat) && FdSizeOk(fds[i], cat);
    }
  }

  lemma OpenKeeps(fds: seq<Fd>, c: nat, id: nat, pix: nat, cat: Catalogue, links: seq<Option<nat>>,
                  pages: seq<CachePage>, seen: map<nat, FileView>)
    requires c < |fds| && fds[c].nbr == 0 && fds[c].score > 0 && FdsPagesOk(fds, cat) && FdsSizesOk(fds, cat)
    requires Linked(fds, links, pages) && Within(fds, seen) && id in seen
    requires id in cat && |cat[id].ixs| > 0 && cat[id].ixs[0] == pix
    ensures var fds' := fds[c := Fd(c + 1, id, cat[id].size, pix, 0, pix, 0, fds[c].score)];
            && FdsPagesOk(fds', cat) && FdsSizesOk(fds', cat) && Linked(fds', links, pages) && Within(fds', seen)
            && Handles(fds') == Handles(fds)[c := Opened(id, 0)]
  {
    var fds' := fds[c := Fd(c + 1, id, cat[id].size, pix, 0, pix, 0, fds[c].score)];
    forall i | 0 <= i < |fds'| ensures FdPagesOk(fds'[i], cat) && FdSizeOk(fds'[i], cat) {
      assert FdPagesOk(fds[i], cat) && FdSizeOk(fds[i], cat);
    }
  }

  /** A header page with a name is the header of a file with that name. */
  lemma HeaderNamed(lu: seq<Entry>, pg: seq<Page>, cat: Catalogue, path: string, s: nat)
    requires Holds(lu, pg, cat) && NamedHeader(lu, pg, path, s)
    ensures var id := lu[s].id;
            id in cat && |cat[id].ixs| > 0 && s == cat[id].ixs[0] && cat[id].name == path && pg[s].size == cat[id].size
  {
    var id := lu[s].id;
    assert SlotOk(lu, pg, cat, s);
    assert FileOk(lu, pg, id, cat[id]);
    assert IndexOk(lu, pg, id, cat[id], 0);
  }

  lemma NamedIsHeader(lu: seq<Entry>, pg: seq<Page>, cat: Catalogue, id: nat)
    requires Holds(lu, pg, cat) && id in cat
    ensures |cat[id].ixs| > 0 && cat[id].ixs[0] < SLOTS && NamedHeader(lu, pg, cat[id].name, cat[id].ixs[0])
  {
    assert FileOk(lu, pg, id, cat[id]);
    assert IndexOk(lu, pg, id, cat[id], 0);
  }

  lemma FilesHaveIds(pg: seq<Page>, cat: Catalogue, id: nat)
    ensures id in Files(pg, cat) <==> id in cat
    ensures id in cat ==> Files(pg, cat)[id].name == cat[id].name
  {
  }

  lemma CreatedHeader(fs: Spiffs, id: nat, pix: nat)
    requires Mounted(fs) && id in fs.cat && |fs.cat[id].ixs| > 0 && fs.cat[id].ixs[0] == pix
    ensures pix < SLOTS && pix < |fs.lu| && pix < |fs.pg| && fs.lu[pix] == Used(id, true) && fs.pg[pix].IndexPage?
    ensures fs.pg[pix].size == fs.cat[id].size
  {
    HeaderFacts(fs.lu, fs.pg, fs.cat, id);
  }

  lemma HeaderFacts(lu: seq<Entry>, pg: seq<Page>, cat: Catalogue, id: nat)
    requires Holds(lu, pg, cat) && id in cat && |cat[id].ixs| > 0
    ensures var pix := cat[id].ixs[0];
            pix < SLOTS && pix < |lu| && pix < |pg| && lu[pix] == Used(id, true) && pg[pix].IndexPage? && pg[pix].size == cat[id].size
  {
    assert FileOk(lu, pg, id, cat[id]);
    assert IndexOk(lu, pg, id, cat[id], 0);
  }

  lemma NewSeen(files: map<nat, FileView>, pending: map<nat, Pending>, id: nat, v: FileView)
    requires GapFree(files, pending) && id !in files
    ensures GapFree(files[id := v], pending) && id !in SeenFiles(files, pending)
    ensures SeenFiles(files[id := v], pending) == SeenFiles(files, pending)[id := v]
  {
    var a, b := SeenFiles(files[id := v], pending), SeenFiles(files, pending)[id := v];
    forall i | i in a ensures a[i] == b[i] {
    }
  }

  lemma NewWithin(fds: seq<Fd>, seen: map<nat, FileView>, id: nat, v: FileView)
    requires Within(fds, seen) && id !in seen
    ensures Within(fds, seen[id := v])
  {
  }

  lemma GoneSeen(files: map<nat, FileView>, pending: map<nat, Pending>, id: nat)
    requires GapFree(files, pending) && id !in pending
    ensures GapFree(files - {id}, pending) && SeenFiles(files - {id}, pending) == SeenFiles(files, pending) - {id}
  {
  }

  lemma WritesListed(pages: seq<CachePage>, mem: seq<seq<byte>>, pending: map<nat, Pending>)
    requires |pages| == |mem| && Listed(pages, mem, pending)
    ensures forall i :: 0 <= i < |pages| && pages[i].WritePage? ==> pages[i].id in pending
  {
  }

  /** Removing an object through descriptor `c` closes the handles on it. */
  lemma GoneFds(fds0: seq<Fd>, c: nat, fds1: seq<Fd>, fds: seq<Fd>, id: nat, links: seq<Option<nat>>,
                pages: seq<CachePage>, pending: map<nat, Pending>, seen: map<nat, FileView>)
    requires c < |fds0| == |fds1| && fds0[c].nbr == 0 && fds1[c].id == id && fds1[c].score == fds0[c].score && fds1[c].nbr != 0
    requires fds1 == fds0[c := fds1[c]] && ClosedFor(fds1, fds, id)
    requires Linked(fds0, links, pages) && Within(fds0, seen)
    requires id !in pending && forall i :: 0 <= i < |pages| && pages[i].WritePage? ==> pages[i].id in pending
    ensures Linked(fds, links, pages) && Within(fds, seen - {id})
    ensures |fds| == |fds0| && (fds[c].nbr != 0 <==> fds0[c].score == 0)
    ensures Handles(fds) == PlainRemoved(Plain(seen, Handles(fds0)), id).handles
  {
    forall f | 0 <= f < |fds|
      ensures HandleOf(fds[f]) == if HandleOf(fds0[f]).Opened? && fds0[f].id == id then Closed else HandleOf(fds0[f])
    {
    }
  }

  lemma CursorsOnly(fds: seq<Fd>, fds': seq<Fd>)
    requires OnlyCursors(fds, fds')
    ensures FdsKept(fds, fds')
  {
  }

  lemma ClosedKeeps(fds: seq<Fd>, f: nat, cat: Catalogue, links: seq<Option<nat>>, pages: seq<CachePage>,
                    seen: map<nat, FileView>)
    requires f < |fds| && FdsPagesOk(fds, cat) && FdsSizesOk(fds, cat)
    requires Linked(fds, links, pages) && links[f] == None && Within(fds, seen)
    ensures var fds' := fds[f := fds[f].(nbr := 0)];
            && FdsPagesOk(fds', cat) && FdsSizesOk(fds', cat) && Linked(fds', links, pages) && Within(fds', seen)
            && Handles(fds') == Handles(fds)[f := Closed]
  {
    var fds' := fds[f := fds[f].(nbr := 0)];
    forall i | 0 <= i < |fds'| ensures FdPagesOk(fds'[i], cat) && FdSizeOk(fds'[i], cat) {
      assert FdPagesOk(fds[i], cat) && FdSizeOk(fds[i], cat);
    }
  }

  lemma SameFd(fds: seq<Fd>, fds': seq<Fd>, f: nat)
    requires FdsKept(fds, fds') && f < |fds|
    ensures f < |fds'| && fds'[f].nbr == fds[f].nbr && fds'[f].id == fds[f].id && fds'[f].score == fds[f].score
    ensures fds'[f].offset == fds[f].offset
  {
  }

  lemma WithinAt(fds: seq<Fd>, f: nat, seen: map<nat, FileView>)
    requires Within(fds, seen) && f < |fds| && Tracked(fds[f])
    ensures fds[f].id in seen && fds[f].offset <= |seen[fds[f].id].bytes|
  {
  }

  /** A new write page is listed, and its descriptor may refer to it. */
  lemma AllocatedListed(pages: seq<CachePage>, pages': seq<CachePage>, mem: seq<seq<byte>>, pending: map<nat, Pending>,
                        id: nat, i: nat, offset: nat, fds: seq<Fd>, links: seq<Option<nat>>, f: nat)
    requires |pages| == |mem| && Listed(pages, mem, pending) && Linked(fds, links, pages) && id !in pending
    requires i < |pages| && !pages[i].WritePage? && pages' == pages[i := WritePage(id, offset, 0)]
    requires f < |fds| && Tracked(fds[f]) && fds[f].id == id
    ensures Listed(pages', mem, pending[id := Pending(i, offset, [])])
    ensures Linked(fds, links[f := Some(i)], pages')
  {
  }

  /** Data copied into a write page is pending with what was. */
  lemma StoredListed(pages: seq<CachePage>, mem: seq<seq<byte>>, now: nat, pending: map<nat, Pending>, i: nat, o: nat,
                     data: seq<byte>, fds: seq<Fd>, links: seq<Option<nat>>)
    requires CacheState(pages, mem, now) && Listed(pages, mem, pending) && Linked(fds, links, pages)
    requires i < |pages| && pages[i].WritePage? && o <= pages[i].size && o + |data| <= PAGE_SIZE
    ensures var page := pages[i];
            var size := if o + |data| > page.size then o + |data| else page.size;
            var pages', mem' := pages[i := page.(size := size)], mem[i := Overwrite(mem[i], o, data)];
            && page.id in pending && o <= |pending[page.id].data|
            && CacheState(pages', mem', now) && Linked(fds, links, pages')
            && Listed(pages', mem', pending[page.id := pending[page.id].(data := Splice(pending[page.id].data, o, data))])
  {
    hide Overwrite, Splice;
    HeldSpliced(mem[i], pages[i].size, o, data);
  }

  /** Bytes copied into a write page extend or replace what it holds. */
  lemma HeldSpliced(mem: seq<byte>, size: nat, o: nat, data: seq<byte>)
    requires o <= size <= |mem| && o + |data| <= |mem|
    ensures Overwrite(mem, o, data)[..if o + |data| > size then o + |data| else size] == Splice(mem[..size], o, data)
  {
  }
}

/** Writes to flash through a descriptor, and what a write does to the bytes of a file. */
module Hydrogen {
  import opened Geometry
  import opened Image
  import opened Steps
  import opened Lookup
  import opened Volume
  import opened Nor
  import opened Nucleus
  import opened Gc
  import opened Objects
  import opened Modify
  import opened Append
  import opened Truncate

  /** Bytes with `data` written at `offset`, which may reach past their end. */
  function Splice(bytes: seq<byte>, offset: nat, data: seq<byte>): (r: seq<byte>)
    requires offset <= |bytes|
    ensures |r| == if offset + |data| > |bytes| then offset + |data| else |bytes|
  {
    bytes[..offset] + data + (if offset + |data| <= |bytes| then bytes[offset + |data|..] else [])
  }

  function Spliced(v: FileView, offset: nat, data: seq<byte>): FileView
    requires offset <= |v.bytes|
  {
    v.(bytes := Splice(v.bytes, offset, data))
  }

  /** Replacing what exists and appending the rest is one splice. */
  lemma ModifyThenAppend(bytes: seq<byte>, offset: nat, data: seq<byte>, m: nat)
    requires offset <= |bytes| && m <= |data|
    requires m == if |bytes| - offset < |data| then |bytes| - offset else |data|
    ensures Overwrite(bytes, offset, data[..m]) + data[m..] == Splice(bytes, offset, data)
  {
    if m < |data| {
      assert bytes[offset + m..] == [];
      assert data == data[..m] + data[m..];
    } else {
      assert data[..m] == data && data[m..] == [];
    }
  }

  /** Writing inside or at the end of a pending page is writing over what it is laid over. */
  lemma SpliceSplice(bytes: seq<byte>, o1: nat, d1: seq<byte>, o2: nat, d2: seq<byte>)
    requires o1 <= |bytes| && o1 <= o2 <= o1 + |d1|
    ensures o2 <= |Splice(bytes, o1, d1)|
    ensures Splice(Splice(bytes, o1, d1), o2, d2) == Splice(bytes, o1, Splice(d1, o2 - o1, d2))
  {
  }

  lemma SizeMeansEmpty(fs: Spiffs, f: nat)
    requires Mounted(fs) && f < |fs.fds| && OpenOn(fs, f, fs.fds[f].id)
    ensures fs.fds[f].size.None? ==> |FilesOf(fs)[fs.fds[f].id].bytes| == 0
    ensures Length(fs.fds[f].size) == |FilesOf(fs)[fs.fds[f].id].bytes|
  {
    assert FdSizeOk(fs.fds[f], fs.cat);
  }

  /** What a write to flash leaves there.  Only after `Complete` does the volume hold
      the file with what was written, and everything else as it was.  Otherwise the other
      files are as they were and of this one the bytes can be found that are not in a data
      page that is gone; or one index page is out of date because the collector could not
      finish; or another page is stored as the header. */
  ghost predicate WriteEnds(fs: Spiffs, f: nat, id: nat, files: map<nat, FileView>, offset: nat, data: seq<byte>, end: Ending)
    requires id in files && offset <= |files[id].bytes|
    reads fs
  {
    var after := files[id := Spliced(files[id], offset, data)];
    match end
    case Complete => Mounted(fs) && FilesOf(fs) == after
    case LostPage => ModifyLeft(fs, id, files, after[id])
    case StaleHeader => data == [] && forall cat :: !(Holds(fs.lu, fs.pg, cat) && Files(fs.pg, cat) == files)
    case Torn =>
      || Behind(fs, after)
      || ModifyLeft(fs, id, files, after[id])
      || AppendEnds(fs, f, id, |files[id].bytes|, |after[id].bytes|, after, Torn)
    case _ => AppendEnds(fs, f, id, |files[id].bytes|, |after[id].bytes|, after, end)
  }

  /** A modification left the file without some of the data pages it touched. */
  ghost predicate ModifyLeft(fs: Spiffs, id: nat, files: map<nat, FileView>, v: FileView)
    reads fs
  {
    exists gone: set<nat> :: gone != {} && LeftOf(fs, id, files, v, gone)
  }

  // ---------------------------------------------------------------------------
  // What can be said before the call

  /** Bytes of a write that replace bytes of a file of length `n`. */
  function Inside(n: nat, offset: nat, len: nat): nat
    requires offset <= n
  {
    if n - offset < len then n - offset else len
  }

  /** The pages that a write takes at most. */
  function WritePages(n: nat, offset: nat, len: nat): nat
    requires offset <= n
  {
    var m := Inside(n, offset, len);
    (if m > 0 then ModifyPages(offset, m) else 0) + (if len > m then AppendPages(n, len - m) else 0)
  }

  /** There is ample room for a write: its pages are sure to be had, with two blocks and a
      page to spare, and the pages free beside them hold the data and a page. */
  ghost predicate Ample(fs: Spiffs, n: nat, offset: nat, len: nat)
    requires offset <= n
    reads fs`lu, fs`freeBlocks, fs`freeBlock, fs`freeEntry, fs`pAllocated, fs`pDeleted, fs`cleaning
  {
    var p := WritePages(n, offset, len);
    fs.Space().Sure() >= 2 * ENTRIES + 1 + p && len + DATA_SIZE < (FreePages(fs) - p) * DATA_SIZE
  }

  /** With more than two blocks of sure pages, more than three blocks are free. */
  lemma SureBlocks(blocks: int, entry: nat)
    requires SurePages(blocks, entry) > 2 * ENTRIES
    ensures blocks > 3
  {
    if blocks == 3 {
      assert Times(1, ENTRIES) == Times(0, ENTRIES) + ENTRIES;
    }
  }

  /** In numbers of free blocks: beside four of them the others hold the pages of the write. */
  lemma AmpleBlocks(fs: Spiffs, n: nat, offset: nat, len: nat)
    requires offset <= n && fs.freeBlocks >= 4
    requires var p := WritePages(n, offset, len);
             Times(fs.freeBlocks - 4, ENTRIES) >= p && len + DATA_SIZE < (FreePages(fs) - p) * DATA_SIZE
    ensures Ample(fs, n, offset, len)
  {
    hide WritePages;
    var b := fs.freeBlocks;
    assert Times(b - 2, ENTRIES) == Times(b - 3, ENTRIES) + ENTRIES && Times(b - 3, ENTRIES) == Times(b - 4, ENTRIES) + ENTRIES;
  }

  lemma MoreRoom(a: int, b: int, len: int)
    requires a <= b && len < a * DATA_SIZE
    ensures len < b * DATA_SIZE
  {
    var d := b - a;
    assert b * DATA_SIZE == a * DATA_SIZE + d * DATA_SIZE;
    TimesNotNegative(d, DATA_SIZE);
  }

  lemma TimesNotNegative(a: int, b: nat)
    requires a >= 0
    ensures a * b >= 0
  {
  }

  lemma AmpleIsQuiet(fs: Spiffs, n: nat, offset: nat, len: nat, m: nat)
    requires offset <= n && Ample(fs, n, offset, len) && m <= len
    ensures Quiet(fs, m + DATA_SIZE)
  {
    hide WritePages;
    SureBlocks(fs.freeBlocks, fs.freeEntry);
    MoreRoom(FreePages(fs) - WritePages(n, offset, len), FreePages(fs), m + DATA_SIZE);
  }

  /** After the modification there is still room for the append. */
  lemma AmpleLeft(a: Room, b: Room, free: int, free': int, p: nat, q: nat, len: nat)
    requires Drew(a, b, p) && a.Sure() >= 2 * ENTRIES + 1 + p + q && len < (free - (p + q)) * DATA_SIZE
    requires free' - free == a.taken - b.taken
    ensures b.blocks > 3 && b.Sure() >= q && len < free' * DATA_SIZE
  {
    SureBlocks(b.blocks, b.entry);
    MoreRoom(free - (p + q), free', len);
  }

  /** A write that loses its first page: no page can be had, and it is replaced as a whole. */
  ghost predicate LosesFirst(fs: Spiffs, n: nat, offset: nat, len: nat)
    requires offset <= n
    reads fs`lu, fs`freeBlocks, fs`freeBlock, fs`freeEntry, fs`pAllocated, fs`pDeleted, fs`cleaning
  {
    var m := Inside(n, offset, len);
    Roomy(fs, m + DATA_SIZE) && !fs.Space().CanTake() && m > 0 && ChunkSize(m, OffsetIn(offset)) == DATA_SIZE
  }

  // ---------------------------------------------------------------------------
  // The write

  /** A modification by no bytes of a file that reaches past the offset. */
  method WriteNothing(fs: Spiffs, f: nat, offset: nat, stale: Page) returns (r: Status, end: Ending, work: Page)
    requires Mounted(fs) && f < |fs.fds| && OpenOn(fs, f, fs.fds[f].id)
    requires offset <= |FilesOf(fs)[fs.fds[f].id].bytes|
    modifies fs
    ensures fs.LookupOk() && fs.start == old(fs.start)
    ensures r == Ok || r == ErrFull || r == ErrNotFound || r == ErrCheck
    ensures WriteEnds(fs, f, old(fs.fds)[f].id, old(FilesOf(fs)), offset, [], end)
    ensures end.Complete? ==> FdsKept(old(fs.fds), fs.fds)
    ensures end.Complete? || (end.StaleHeader? && r == Ok) || (end.Torn? && r == ErrNotFound)
    ensures offset == |old(FilesOf(fs))[old(fs.fds)[f].id].bytes| ==> r == Ok && end.Complete? && unchanged(fs) && work == stale
    ensures offset < |old(FilesOf(fs))[old(fs.fds)[f].id].bytes| ==> StoresStale(fs, old(fs.fds)[f].id, r, end, work)
    ensures offset < |old(FilesOf(fs))[old(fs.fds)[f].id].bytes| && old(Quiet(fs, DATA_SIZE)) ==>
              work == stale && r == if PassesForHeader(stale) then Ok else ErrCheck
    ensures offset < |old(FilesOf(fs))[old(fs.fds)[f].id].bytes| && !old(Quiet(fs, DATA_SIZE)) ==>
              && (old(fs.pDeleted) == 0 ==> r == if old(Roomy(fs, DATA_SIZE)) then ErrCheck else ErrFull)
              && (r == Ok && BLOCKS <= 128 ==> IsIndexImage(fs.cat, work))
    ensures r == ErrFull || r == ErrNotFound ==> Scarce(fs, DATA_SIZE)
    ensures offset < |old(FilesOf(fs))[old(fs.fds)[f].id].bytes| && r != ErrCheck ==> PageAfter(old(LayoutOf(fs)), DATA_SIZE, r)
  {
    hide PageAfter, FlashState, LookupState, FdsPagesOk, FdsSizesOk, FdsKept, Holds, Tight, Splice, Behind, IsIndexImage, NeededPages;
    ghost var files := FilesOf(fs);
    ghost var id := fs.fds[f].id;
    SizeMeansEmpty(fs, f);
    FdsKeptSelf(fs.fds);
    SpliceNothing(files[id], offset);
    assert files[id := files[id]] == files;
    r, end, work := Ok, Complete, stale;
    if fs.fds[f].size.Some? && offset < fs.fds[f].size.value {
      r, end, work := StoreStale(fs, f, stale);
    }
  }

  /** A page stored as the header of an object goes unnoticed exactly if it is the header;
      one that does not look like a header is rejected. */
  ghost predicate StoresStale(fs: Spiffs, id: nat, r: Status, end: Ending, work: Page)
    reads fs
  {
    && (r == ErrCheck ==> !PassesForHeader(work))
    && (r == Ok ==> id in fs.cat && PassesForHeader(work) && (end.Complete? <==> work == IndexImage(id, fs.cat[id], 0)))
  }

  lemma SpliceNothing(v: FileView, offset: nat)
    requires offset <= |v.bytes|
    ensures Spliced(v, offset, []) == v
  {
    assert Splice(v.bytes, offset, []) == v.bytes;
  }

  /** Replacing existing bytes is a splice. */
  lemma OverlaidIsSpliced(v: FileView, offset: nat, data: seq<byte>)
    requires offset + |data| <= |v.bytes|
    ensures Overlaid(v, offset, data) == Spliced(v, offset, data)
  {
  }

  /** What can be said of a write of at least a byte before it: that there is ample room;
      that its first page will be lost; that no block comes to hold deleted pages only before
      the last page it replaces is deleted, and whether one does then; that there is room as
      it is, for what it replaces and for all of it; where it starts; and the object and the
      volume the collector finds. */
  datatype Outlook = Outlook(ample: bool, loses: bool, sheltered: bool, emptied: bool, inRoom: bool, roomy: bool,
                             n: nat, offset: nat, len: nat, id: nat, found: Layout)
  {
    function room(): Room
    {
      found.space
    }
  }

  ghost function OutlookFor(fs: Spiffs, id: nat, offset: nat, len: nat): Outlook
    requires id in FilesOf(fs) && offset <= |FilesOf(fs)[id].bytes|
    reads fs`lu, fs`pg, fs`cat, fs`freeBlocks, fs`freeBlock, fs`freeEntry, fs`pAllocated, fs`pDeleted, fs`cleaning,
          fs`eraseCount, fs`maxEraseCount
  {
    var n := |FilesOf(fs)[id].bytes|;
    var m, g := Inside(n, offset, len), fs.cat[id];
    Outlook(Ample(fs, n, offset, len), LosesFirst(fs, n, offset, len),
            m > 0 && Sheltered(fs.lu, g, offset, m), m > 0 && Emptied(fs.lu, g, offset, m),
            Roomy(fs, m + DATA_SIZE), Roomy(fs, len + DATA_SIZE), n, offset, len, id, LayoutOf(fs))
  }

  /** What comes of it: with ample room the write succeeds; if no page can be had for a first
      page that is replaced as a whole, that page is lost; what else is lost, and whether
      success is reported, the room there is decides, and how an append fails.  If there is no
      room as it is, the room that the collector leaves decides. */
  ghost predicate Foretold(o: Outlook, r: Status, end: Ending)
  {
    && (o.ample ==> r == Ok && end.Complete?)
    && (o.loses ==> end.LostPage?)
    && (o.inRoom && o.sheltered && o.offset < o.n && o.len > 0 ==> Predicted(o, o.room(), o.emptied, r, end))
    && (o.roomy && o.offset == o.n ==> exists done: nat :: AppendForetold(o.n, o.len, o.room(), r, done, end))
    && (o.offset <= o.n && o.len > 0 ==> exists gc: Gathering :: AfterCollecting(o, gc, r, end))
  }

  /** A write starts with the collection for what it replaces or, at the end of the file, for
      what it appends.  If that fails the write does with the same report; otherwise the room
      it leaves decides how the modification, or the append, ends. */
  ghost predicate AfterCollecting(o: Outlook, gc: Gathering, r: Status, end: Ending)
    requires o.offset <= o.n && o.len > 0
  {
    var m, room := Inside(o.n, o.offset, o.len), gc.after.space;
    && Gathers(o.found, (if m > 0 then m else o.len) + DATA_SIZE, gc, o.id)
    && (gc.r != Ok ==> r == gc.r && (r == ErrFull ==> end.Complete?))
    && (gc.r == Ok && m > 0 ==>
          && (room.Sure() >= ModifyPages(o.offset, m) ==> !end.LostPage? && (m == o.len ==> r == Ok && end.Complete?))
          && (Sheltered(room.lu, gc.file, o.offset, m) ==> Predicted(o, room, Emptied(room.lu, gc.file, o.offset, m), r, end))
          && (!room.CanTake() && ChunkSize(m, OffsetIn(o.offset)) == DATA_SIZE ==> end.LostPage?))
    && (gc.r == Ok && m == 0 ==> exists done: nat :: AppendForetold(o.n, o.len, room, r, done, end))
  }

  /** A write into a file, while no block comes to hold deleted pages only before the last
      page is deleted, loses a page exactly if the first page that cannot be had is for a
      whole one.  One that stays within the file reports success exactly if there are enough
      pages, or the loop ends and what it has deleted leaves a block to be erased. */
  ghost predicate Predicted(o: Outlook, room: Room, emptied: bool, r: Status, end: Ending)
    requires o.offset < o.n && o.len > 0
  {
    var m := Inside(o.n, o.offset, o.len);
    var succeeds := Succeeds(o.offset, m, room.Left(), room.blocks >= 1 && emptied);
    && (end.LostPage? <==> Loses(o.offset, m, room.Left()))
    && (end.LostPage? && !succeeds ==> r == ErrFull)
    && (m == o.len ==> r == if succeeds then Ok else ErrFull)
  }

  /** How a write of data, or of a first part of it, has ended. */
  ghost predicate EndsSomehow(fs: Spiffs, f: nat, id: nat, files: map<nat, FileView>, offset: nat, data: seq<byte>, end: Ending)
    requires id in files && offset <= |files[id].bytes|
    reads fs
  {
    exists done: nat :: done <= |data| && WriteEnds(fs, f, id, files, offset, data[..done], end)
  }

  /** Writes to flash: what exists is modified, the rest is appended.  The work buffer was
      last used for `stale`: a write of no bytes below the end stores `work`, what the
      collector leaves there.  If a modification that reaches the end has lost a page and
      success was reported, the model ends there with that status. */
  method HydroWrite(fs: Spiffs, f: nat, data: seq<byte>, offset: nat, stale: Page)
    returns (r: Status, done: nat, end: Ending, work: Page)
    requires Mounted(fs) && f < |fs.fds| && OpenOn(fs, f, fs.fds[f].id)
    requires offset <= |FilesOf(fs)[fs.fds[f].id].bytes|
    modifies fs
    ensures fs.LookupOk() && fs.start == old(fs.start)
    ensures r == Ok || r == ErrFull || r == ErrNotFound || (r == ErrCheck && data == [])
    ensures done <= |data| && (r == Ok && end.Complete? ==> done == |data|)
    ensures WriteEnds(fs, f, old(fs.fds)[f].id, old(FilesOf(fs)), offset, data[..done], end)
    ensures end.Complete? || end.SpareIndex? ==> FdsKept(old(fs.fds), fs.fds)
    ensures r == Ok ==> end.Complete? || (end.LostPage? && data != []) || (end.StaleHeader? && data == [])
    ensures end.StaleHeader? ==> r == Ok && data == []
    ensures end.LostPage? ==> LostIn(fs, old(fs.fds)[f].id, offset, data)
    ensures var id := old(fs.fds)[f].id;
            data == [] ==>
              && (offset == |old(FilesOf(fs))[id].bytes| ==> r == Ok && end.Complete? && unchanged(fs) && work == stale)
              && (offset < |old(FilesOf(fs))[id].bytes| ==>
                    && StoresStale(fs, id, r, end, work) && (r != ErrCheck ==> PageAfter(old(LayoutOf(fs)), DATA_SIZE, r))
                    && (old(Quiet(fs, DATA_SIZE)) ==> work == stale && r == if PassesForHeader(stale) then Ok else ErrCheck)
                    && (!old(Quiet(fs, DATA_SIZE)) ==>
                          && (old(fs.pDeleted) == 0 ==> r == if old(Roomy(fs, DATA_SIZE)) then ErrCheck else ErrFull)
                          && (r == Ok && BLOCKS <= 128 ==> IsIndexImage(fs.cat, work))))
    ensures data != [] ==> Foretold(old(OutlookFor(fs, fs.fds[f].id, offset, |data|)), r, end)
    ensures data != [] && old(Ample(fs, |FilesOf(fs)[fs.fds[f].id].bytes|, offset, |data|)) ==> r == Ok && end.Complete?
    ensures r == ErrFull || r == ErrNotFound || end.LostPage? ==> Scarce(fs, |data| + DATA_SIZE)
  {
    hide PageAfter, FlashState, LookupState, FdsPagesOk, FdsSizesOk, FdsKept, Holds, Tight, Overwrite, Splice, LostIn, WriteEnds, Foretold, StoresStale, IsIndexImage, NeededPages, OutlookFor;
    if data == [] {
      done := 0;
      r, end, work := WriteNothing(fs, f, offset, stale);
    } else {
      work := stale;
      ghost var o := OutlookFor(fs, fs.fds[f].id, offset, |data|);
      OutlookAmple(fs, fs.fds[f].id, offset, |data|);
      r, done, end := WriteSome(fs, f, data, offset);
      AmpleForetold(o, r, end);
    }
  }

  lemma OutlookAmple(fs: Spiffs, id: nat, offset: nat, len: nat)
    requires id in FilesOf(fs) && offset <= |FilesOf(fs)[id].bytes|
    ensures OutlookFor(fs, id, offset, len).ample == Ample(fs, |FilesOf(fs)[id].bytes|, offset, len)
  {
    hide Ample;
  }

  lemma AmpleForetold(o: Outlook, r: Status, end: Ending)
    requires Foretold(o, r, end)
    ensures o.ample ==> r == Ok && end.Complete?
  {
    hide Predicted, AppendForetold, AfterCollecting;
  }

  /** A data page that `data` was to replace as a whole is lost. */
  ghost predicate LostIn(fs: Spiffs, id: nat, offset: nat, data: seq<byte>)
    reads fs
  {
    exists j: nat :: offset <= Start(j) && Start(j) + DATA_SIZE <= offset + |data| && PageLost(fs.lu, fs.pg, id, j)
  }

  /** Writes to flash, at least a byte. */
  method WriteSome(fs: Spiffs, f: nat, data: seq<byte>, offset: nat) returns (r: Status, done: nat, end: Ending)
    requires Mounted(fs) && f < |fs.fds| && OpenOn(fs, f, fs.fds[f].id) && |data| > 0
    requires offset <= |FilesOf(fs)[fs.fds[f].id].bytes|
    modifies fs
    ensures fs.LookupOk() && fs.start == old(fs.start) && (r == Ok || r == ErrFull || r == ErrNotFound)
    ensures done <= |data| && (r == Ok && end.Complete? ==> done == |data|)
    ensures WriteEnds(fs, f, old(fs.fds)[f].id, old(FilesOf(fs)), offset, data[..done], end)
    ensures end.Complete? || end.SpareIndex? ==> FdsKept(old(fs.fds), fs.fds)
    ensures (r == Ok ==> end.Complete? || end.LostPage?) && !end.StaleHeader?
    ensures end.LostPage? ==> LostIn(fs, old(fs.fds)[f].id, offset, data)
    ensures r != Ok || end.LostPage? ==> Scarce(fs, |data| + DATA_SIZE)
    ensures Foretold(old(OutlookFor(fs, fs.fds[f].id, offset, |data|)), r, end)
  {
    hide NoneFree, AnyDeletedBlock, SurePages, Supply, FreeSlots, ModifyPages, AppendPages, Expected, Foretold, Predicted, Gathers, PartForetold, AfterCollecting, FlashState, LookupState, FdsPagesOk, FdsSizesOk, FdsKept, Holds, Tight, Splice, LostIn, Scarce, WriteEnds, Behind, LeftOf, PageLost, WritePages, Ample, LosesFirst, Sheltered, Emptied, Succeeds, Loses, Drew, Quiet, Roomy, AppendForetold;
    ghost var files, id := FilesOf(fs), fs.fds[f].id;
    ghost var n := |files[id].bytes|;
    ghost var ample, room0, free := Ample(fs, n, offset, |data|), fs.Space(), FreePages(fs);
    ghost var o := OutlookFor(fs, id, offset, |data|);
    SizeMeansEmpty(fs, f);
    SpliceNothing(files[id], offset);
    assert data[..0] == [];
    assert files[id := files[id]] == files;
    FdsKeptSelf(fs.fds);
    BeforeWrite(fs, n, offset, |data|);
    ghost var g := fs.cat[id];
    if offset < n {
      IsExpected(fs, id, offset, |data|);
    }
    ghost var fds1 := fs.fds;
    var m: nat := 0;
    ghost var gc, r1, end1;
    if fs.fds[f].size.Some? && offset < fs.fds[f].size.value {
      var size := fs.fds[f].size.value;
      m := if size - offset < |data| then size - offset else |data|;
      r, done, end, gc := ModifyPart(fs, f, data, offset, m);
      r1, end1 := r, end;
      if r != Ok || end.LostPage? {
        PartDecides(o, g, gc, r1, end1, r, end);
        return;
      }
      FdAt(old(fs.fds), fs.fds, f);
      fds1 := fs.fds;
      AfterModify(fs, ample, room0, free, n, offset, |data|);
    }
    r, done, end := Ok, m, Complete;
    if |data| - m > 0 {
      OpenOfFiles(fs, f, id, files, Spliced(files[id], offset, data[..m]));
      ghost var gc2;
      r, done, end, gc2 := AppendRest(fs, f, offset, data, m, fds1, files);
      if m == 0 {
        AppendDecides(o, gc2, r, done, end);
      } else {
        PartDecides(o, g, gc, r1, end1, r, end);
      }
      FdsKeptMaybe(old(fs.fds), fds1, fs.fds);
    } else {
      PartDecides(o, g, gc, r1, end1, r, end);
      CompleteEnds(fs, f, id, files, offset, data[..m]);
    }
  }

  lemma CompleteEnds(fs: Spiffs, f: nat, id: nat, files: map<nat, FileView>, offset: nat, data: seq<byte>)
    requires id in files && offset <= |files[id].bytes| && Mounted(fs) && FilesOf(fs) == files[id := Spliced(files[id], offset, data)]
    ensures WriteEnds(fs, f, id, files, offset, data, Complete)
  {
  }

  /** What follows from ample room and from the loss of the first page, before the write. */
  lemma BeforeWrite(fs: Spiffs, n: nat, offset: nat, len: nat)
    requires offset <= n && len > 0
    ensures Inside(n, offset, len) == 0 <==> offset == n
    ensures Ample(fs, n, offset, len) && offset < n ==>
              var m := Inside(n, offset, len); Roomy(fs, m + DATA_SIZE) && fs.Space().Sure() >= ModifyPages(offset, m)
    ensures Ample(fs, n, offset, len) && offset == n ==> Roomy(fs, len + DATA_SIZE) && fs.Space().Sure() >= AppendPages(n, len)
    ensures Ample(fs, n, offset, len) ==>
              var p := WritePages(n, offset, len);
              fs.Space().Sure() >= 2 * ENTRIES + 1 + p && len + DATA_SIZE < (FreePages(fs) - p) * DATA_SIZE
    ensures LosesFirst(fs, n, offset, len) ==>
              && offset < n && Roomy(fs, Inside(n, offset, len) + DATA_SIZE) && !fs.Space().CanTake()
              && ChunkSize(Inside(n, offset, len), OffsetIn(offset)) == DATA_SIZE
  {
    if Ample(fs, n, offset, len) {
      AmpleIsQuiet(fs, n, offset, len, Inside(n, offset, len));
      AmpleIsQuiet(fs, n, offset, len, len);
    }
  }

  /** The room left for the append. */
  lemma AfterModify(fs: Spiffs, ample: bool, room0: Room, free: int, n: nat, offset: nat, len: nat)
    requires offset < n && len > 0
    requires var m := Inside(n, offset, len);
             ample ==>
               && Drew(room0, fs.Space(), ModifyPages(offset, m)) && FreePages(fs) - free == room0.taken - fs.Space().taken
               && room0.Sure() >= 2 * ENTRIES + 1 + WritePages(n, offset, len)
               && len + DATA_SIZE < (free - WritePages(n, offset, len)) * DATA_SIZE
    ensures var m := Inside(n, offset, len);
            ample && m < len ==> Roomy(fs, len - m + DATA_SIZE) && fs.Space().Sure() >= AppendPages(n, len - m)
  {
    var m := Inside(n, offset, len);
    if ample && m < len {
      AmpleLeft(room0, fs.Space(), free, FreePages(fs), ModifyPages(offset, m), AppendPages(n, len - m), len + DATA_SIZE);
    }
  }

  /** The part of a write that replaces bytes. */
  method ModifyPart(fs: Spiffs, f: nat, data: seq<byte>, offset: nat, m: nat)
    returns (r: Status, done: nat, end: Ending, ghost gc: Gathering)
    requires Mounted(fs) && f < |fs.fds| && OpenOn(fs, f, fs.fds[f].id) && 0 < m <= |data|
    requires offset < |FilesOf(fs)[fs.fds[f].id].bytes| && m == Inside(|FilesOf(fs)[fs.fds[f].id].bytes|, offset, |data|)
    modifies fs
    ensures fs.LookupOk() && fs.start == old(fs.start) && (r == Ok || r == ErrFull || r == ErrNotFound)
    ensures done <= m && WriteEnds(fs, f, old(fs.fds)[f].id, old(FilesOf(fs)), offset, data[..done], end)
    ensures end.Complete? || end.LostPage? || (end.Torn? && r != Ok)
    ensures end.Complete? ==> FdsKept(old(fs.fds), fs.fds)
    ensures end.LostPage? ==> LostIn(fs, old(fs.fds)[f].id, offset, data)
    ensures r == Ok && end.Complete? ==>
              var id := old(fs.fds)[f].id;
              && done == m && Mounted(fs)
              && FilesOf(fs) == old(FilesOf(fs))[id := Spliced(old(FilesOf(fs))[id], offset, data[..m])]
    ensures r != Ok || end.LostPage? ==> Scarce(fs, |data| + DATA_SIZE)
    ensures Gathers(old(LayoutOf(fs)), m + DATA_SIZE, gc, old(fs.fds)[f].id)
    ensures old(Roomy(fs, m + DATA_SIZE)) ==> gc == Gathering(Ok, old(LayoutOf(fs)), old(fs.cat[fs.fds[f].id]))
    ensures gc.r != Ok ==> r == gc.r && (r == ErrFull ==> end.Complete?)
    ensures gc.r == Ok ==>
              && PartForetold(offset, m, gc.after.space, gc.file, r, end)
              && Drew(gc.after.space, fs.Space(), ModifyPages(offset, m))
  {
    hide Gathers, FlashState, LookupState, FdsPagesOk, FdsSizesOk, FdsKept, Holds, Tight, Overwrite, Splice, Behind, LeftOf, PageLost, Sheltered, Emptied, Succeeds, Loses, Drew, Roomy, NeededPages;
    ghost var files, id := FilesOf(fs), fs.fds[f].id;
    ghost var lost, gone;
    r, done, end, lost, gone, gc := ObjectModify(fs, f, offset, data[..m]);
    assert data[..m][..done] == data[..done];
    OverlaidIsSpliced(files[id], offset, data[..done]);
    SpliceNothing(files[id], offset);
    assert data[..0] == [];
    assert files[id := files[id]] == files;
    if r != Ok || end.LostPage? {
      Scarcer(fs, m + DATA_SIZE, |data| + DATA_SIZE);
    }
    if end.LostPage? {
      LostSome(fs, id, lost, gone, offset, data, m, done);
    }
    if end.Torn? && r != ErrNotFound {
      assert ModifyLeft(fs, id, files, Overlaid(files[id], offset, data[..done]));
    }
  }

  /** What the room there is decides about a modification, in terms of how it ends. */
  ghost predicate PartForetold(offset: nat, m: nat, room: Room, g: File, r: Status, end: Ending)
    requires m > 0
  {
    && (room.Sure() >= ModifyPages(offset, m) ==> r == Ok && end.Complete?)
    && (Sheltered(room.lu, g, offset, m) ==>
          && (end.LostPage? <==> Loses(offset, m, room.Left()))
          && r == if Succeeds(offset, m, room.Left(), room.blocks >= 1 && Emptied(room.lu, g, offset, m)) then Ok else ErrFull)
    && (!room.CanTake() && ChunkSize(m, OffsetIn(offset)) == DATA_SIZE ==> end.LostPage?)
  }

  lemma AppendDecides(o: Outlook, gc: Gathering, r: Status, done: nat, end: Ending)
    requires o.offset == o.n && o.len > 0 && Gathers(o.found, o.len + DATA_SIZE, gc, o.id)
    requires gc.r != Ok ==> r == gc.r && (r == ErrFull ==> end.Complete?)
    requires gc.r == Ok ==> AppendForetold(o.n, o.len, gc.after.space, r, done, end)
    requires !o.loses && (o.ample ==> r == Ok && end.Complete?) && (o.roomy ==> gc.r == Ok && gc.after == o.found)
    ensures Foretold(o, r, end)
  {
    hide Gathers, Sheltered, Emptied, ModifyPages, Supply, FreeSlots, SurePages, AppendForetold, AnyDeletedBlock;
    assert gc.r == Ok && gc.after == o.found ==> AppendForetold(o.n, o.len, o.room(), r, done, end);
    assert AfterCollecting(o, gc, r, end);
  }

  lemma PartCollected(o: Outlook, gc: Gathering, r1: Status, end1: Ending, r: Status, end: Ending)
    requires o.offset < o.n && o.len > 0
    requires var m := Inside(o.n, o.offset, o.len);
             && Gathers(o.found, m + DATA_SIZE, gc, o.id) && (gc.r != Ok ==> r1 == gc.r && (r1 == ErrFull ==> end1.Complete?))
             && (gc.r == Ok ==> PartForetold(o.offset, m, gc.after.space, gc.file, r1, end1))
             && ((r == r1 && end == end1) || (r1 == Ok && end1.Complete? && m < o.len && !end.LostPage?))
    ensures AfterCollecting(o, gc, r, end)
    ensures gc.r == Ok && gc.after == o.found ==>
              var m, room := Inside(o.n, o.offset, o.len), o.room();
              && (room.Sure() >= ModifyPages(o.offset, m) ==> r1 == Ok && end1.Complete?)
              && (Sheltered(room.lu, gc.file, o.offset, m) ==> Predicted(o, room, Emptied(room.lu, gc.file, o.offset, m), r, end))
              && (!room.CanTake() && ChunkSize(m, OffsetIn(o.offset)) == DATA_SIZE ==> end.LostPage?)
  {
    hide Gathers, Sheltered, Emptied, Loses, Succeeds, ModifyPages, Supply, FreeSlots, SurePages, AppendForetold, AnyDeletedBlock;
  }

  /** How the modification ends is how the write ends, unless an append follows. */
  lemma PartDecides(o: Outlook, g: File, gc: Gathering, r1: Status, end1: Ending, r: Status, end: Ending)
    requires o.offset < o.n && o.len > 0
    requires var m := Inside(o.n, o.offset, o.len);
             && Gathers(o.found, m + DATA_SIZE, gc, o.id) && (gc.r != Ok ==> r1 == gc.r && (r1 == ErrFull ==> end1.Complete?))
             && (gc.r == Ok ==> PartForetold(o.offset, m, gc.after.space, gc.file, r1, end1))
             && ((r == r1 && end == end1) || (r1 == Ok && end1.Complete? && m < o.len && !end.LostPage?))
    requires Expected(o, g) && (o.inRoom ==> gc == Gathering(Ok, o.found, g))
    requires o.ample && r1 == Ok && end1.Complete? ==> r == Ok && end.Complete?
    ensures Foretold(o, r, end) && (o.ample ==> r == Ok && end.Complete?)
  {
    PartCollected(o, gc, r1, end1, r, end);
    hide Gathers, PartForetold, AfterCollecting, Predicted, Sheltered, Emptied, ModifyPages, SurePages, AppendForetold, AnyDeletedBlock, NoneFree;
  }

  /** What an outlook on a write into the file in the places `g` says of the room there is. */
  ghost predicate Expected(o: Outlook, g: File)
    requires o.offset < o.n && o.len > 0
  {
    var m, room := Inside(o.n, o.offset, o.len), o.room();
    && (o.sheltered ==> Sheltered(room.lu, g, o.offset, m)) && o.emptied == Emptied(room.lu, g, o.offset, m)
    && (o.loses ==> o.inRoom && !room.CanTake() && ChunkSize(m, OffsetIn(o.offset)) == DATA_SIZE)
    && (o.ample ==> o.inRoom && room.Sure() >= ModifyPages(o.offset, m))
  }

  lemma IsExpected(fs: Spiffs, id: nat, offset: nat, len: nat)
    requires id in FilesOf(fs) && offset < |FilesOf(fs)[id].bytes| && len > 0
    ensures id in fs.cat && Expected(OutlookFor(fs, id, offset, len), fs.cat[id])
  {
    hide Quiet, Ample, Sheltered, Emptied, WritePages, NeededPages, SurePages, NoneFree, AnyDeletedBlock;
    BeforeWrite(fs, |FilesOf(fs)[id].bytes|, offset, len);
  }

  /** A write that finds too little room, on a volume that is not short of free pages by more than
      twice the deleted pages of its best block: that block is erased, and if then three blocks
      are free and the free pages hold what is asked for, the pages sure to be had decide, and
      with enough of them it succeeds. */
  lemma RoomForWrite(o: Outlook, cat: Catalogue, b: nat, r: Status, end: Ending) returns (m: Layout)
    requires Foretold(o, r, end) && o.offset <= o.n && o.len > 0
    requires var a, need := o.found, Asked(o);
             && a.Ok() && Holds(a.space.lu, a.pg, cat) && !(a.space.blocks > 3 && need < a.Free() * DATA_SIZE)
             && NeededPages(need) <= a.Free() + a.Deleted() && b < BLOCKS && Best(a, b) && a.Free() + 2 * DeletedIn(a.space.lu, b) >= 0
    ensures o.found.Ok() && m.Ok() && Cleaned(o.found, b, m)
    ensures var n := Inside(o.n, o.offset, o.len);
            m.space.blocks > 2 && Asked(o) <= m.Free() * DATA_SIZE ==>
              && (n == 0 && m.space.Sure() >= AppendPages(o.n, o.len) ==> r == Ok)
              && (n == o.len && m.space.Sure() >= ModifyPages(o.offset, n) ==> r == Ok && end.Complete?)
  {
    hide Predicted, AppendForetold, Holds, Best, Cleaned, Collection, Sheltered, Emptied, NeededPages, SurePages, ModifyPages, AppendPages, Count, FreeBlocks, Supply, FreeSlots, NoneFree, AnyDeletedBlock;
    var gc: Gathering :| AfterCollecting(o, gc, r, end);
    SomeDeleted(o.found, b);
    m := RoomMade(o.found, cat, Asked(o), 5, gc.after, gc.r, b);
    if gc.r == Ok && Inside(o.n, o.offset, o.len) == 0 {
      var done: nat :| AppendForetold(o.n, o.len, gc.after.space, r, done, end);
      SureAppends(o.n, o.len, gc.after.space, r, done, end);
    }
  }

  /** The bytes for which the collector is asked to make room. */
  function Asked(o: Outlook): nat
    requires o.offset <= o.n
  {
    (if o.offset < o.n then Inside(o.n, o.offset, o.len) else o.len) + DATA_SIZE
  }

  lemma SomeDeleted(a: Layout, b: nat)
    requires a.Ok() && b < BLOCKS && Best(a, b)
    ensures a.Deleted() > 0
  {
    hide Preferred;
    BlockCount(a.space.lu, b, IsDeleted);
  }

  lemma LostSome(fs: Spiffs, id: nat, lost: set<nat>, gone: set<nat>, offset: nat, data: seq<byte>, m: nat, done: nat)
    requires lost != {} && GoneIn(lost, gone, offset, m, done) && m <= |data|
    requires forall j :: j in lost ==> PageLost(fs.lu, fs.pg, id, j)
    ensures LostIn(fs, id, offset, data)
  {
    hide PageLost;
    var j :| j in lost;
    assert PageLost(fs.lu, fs.pg, id, j);
  }

  lemma OpenOfFiles(fs: Spiffs, f: nat, id: nat, files: map<nat, FileView>, v: FileView)
    requires FilesOf(fs) == files[id := v] && f < |fs.fds| && Tracked(fs.fds[f]) && fs.fds[f].id == id
    ensures OpenOn(fs, f, id)
  {
    assert FilesOf(fs).Keys == fs.cat.Keys;
  }

  /** Appending behind a modification that reaches the end of the file. */
  lemma SpliceOn(v: FileView, offset: nat, data: seq<byte>, m: nat, n: nat)
    requires offset <= |v.bytes| && offset + m == |v.bytes| && m + n <= |data|
    ensures Grown(Spliced(v, offset, data[..m]), data[m..][..n]) == Spliced(v, offset, data[..m + n])
    ensures |Spliced(v, offset, data[..m]).bytes| == offset + m
  {
    ModifyThenAppend(v.bytes, offset, data[..m + n], m);
    assert data[..m + n][..m] == data[..m] && data[..m + n][m..] == data[m..][..n];
    OverlaidIsSpliced(v, offset, data[..m]);
  }

  /** The append that follows a modification of `m` bytes. */
  method AppendRest(fs: Spiffs, f: nat, offset: nat, data: seq<byte>, m: nat, ghost fds0: seq<Fd>,
                    ghost files: map<nat, FileView>) returns (r: Status, done: nat, end: Ending, ghost gc: Gathering)
    requires Mounted(fs) && f < |fs.fds| && OpenOn(fs, f, fs.fds[f].id) && m < |data| && fds0 == fs.fds
    requires fs.fds[f].id in files && offset + m == |files[fs.fds[f].id].bytes|
    requires FilesOf(fs) == files[fs.fds[f].id := Spliced(files[fs.fds[f].id], offset, data[..m])]
    modifies fs
    ensures fs.LookupOk() && fs.start == old(fs.start) && (r == Ok || r == ErrFull || r == ErrNotFound)
    ensures done <= |data| && (r == Ok ==> done == |data| && end.Complete?) && !end.LostPage? && !end.StaleHeader?
    ensures WriteEnds(fs, f, old(fs.fds)[f].id, files, offset, data[..done], end)
    ensures end.Complete? || end.SpareIndex? ==> FdsKept(fds0, fs.fds)
    ensures r != Ok ==> Scarce(fs, |data| + DATA_SIZE)
    ensures Gathers(old(LayoutOf(fs)), |data| - m + DATA_SIZE, gc, old(fs.fds)[f].id)
    ensures old(Roomy(fs, |data| - m + DATA_SIZE)) ==> gc.r == Ok && gc.after == old(LayoutOf(fs))
    ensures gc.r != Ok ==> r == gc.r && (r == ErrFull ==> end.Complete?)
    ensures gc.r == Ok ==>
              && m <= done && AppendForetold(offset + m, |data| - m, gc.after.space, r, done - m, end)
              && (gc.after.space.Sure() >= AppendPages(offset + m, |data| - m) ==> r == Ok)
  {
    hide Gathers, FlashState, LookupState, FdsPagesOk, FdsSizesOk, FdsSizesBut, FdsKept, Holds, Tight, Splice, Scarce, Behind, AppendLeft, AppendForetold, Roomy, Drew, AppendPages;
    ghost var id := fs.fds[f].id;
    SpliceOn(files[id], offset, data, m, 0);
    SizeMeansEmpty(fs, f);
    r, done, end, gc := ObjectAppend(fs, f, offset + m, data[m..]);
    if r != Ok {
      Scarcer(fs, |data| - m + DATA_SIZE, |data| + DATA_SIZE);
    }
    SpliceOn(files[id], offset, data, m, done);
    ghost var v := Spliced(files[id], offset, data[..m]);
    assert files[id := v][id := Grown(v, data[m..][..done])] == files[id := Spliced(files[id], offset, data[..m + done])];
    assert files[id := v][id] == v;
    if gc.r == Ok {
      SureAppends(offset + m, |data| - m, gc.after.space, r, done, end);
    }
    done := m + done;
  }
}

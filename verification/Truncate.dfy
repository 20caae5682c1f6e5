/** Truncating an object to nothing and removing it: data pages and index pages are
    deleted from the end, with the work buffer standing for the last index page. */
module Truncate {
  import opened Geometry
  import opened Image
  import opened Steps
  import opened Lookup
  import opened Volume
  import opened Nor
  import opened Bits
  import opened Encoding
  import opened Trace
  import opened Nucleus
  import opened Gc
  import opened Objects
  import opened Append

  /** An index header with the length `n` that is not marked as being removed. */
  function Restored(p: Page, n: nat): Page
    requires p.IndexPage?
  {
    IndexPage(p.hdr.(ixlive := true), SizeOf(n), p.name, p.table)
  }

  /** The image a truncation works on. */
  function Shrinking(pg: seq<Page>, x: nat, work: Page, h: nat, n: nat): seq<Page>
    requires x < |pg| && h < |pg| && work.IndexPage? && pg[h].IndexPage?
  {
    var v := pg[x := work];
    v[h := Restored(v[h], n)]
  }

  /** The length left when the last data page goes, as the source computes it. */
  function LengthBefore(n: nat): nat
    requires n > 0
  {
    ByteModulo(n);
    if OffsetIn(n) == 0 then n - DATA_SIZE else n - OffsetIn(n)
  }

  lemma ByteModulo(n: nat)
    requires n > 0
    ensures OffsetIn(n) == 0 ==> n >= DATA_SIZE
  {
    if OffsetIn(n) == 0 {
      TimesMono(1, PageOf(n), DATA_SIZE);
    }
  }

  lemma LengthBeforeIsStart(n: nat)
    requires n > 0
    ensures LengthBefore(n) == Start(PageOf(n - 1)) && PageOf(n - 1) == PagesFor(n) - 1
  {
    if OffsetIn(n) == 0 {
      BytePlace(PageOf(n) - 1, DATA_SIZE - 1);
    } else {
      BytePlace(PageOf(n), OffsetIn(n) - 1);
    }
  }

  /** The header of object `id` is in slot `h`. */
  ghost predicate HeaderAt(fs: Spiffs, id: nat, h: nat)
    reads fs
  {
    id in fs.cat && |fs.cat[id].ixs| > 0 && fs.cat[id].ixs[0] == h && h < |fs.pg| && fs.pg[h].IndexPage?
  }

  /** A truncation of object `id` has reached length `n`; `work` stands for its last
      index page, number `k`, in slot `x`. */
  ghost predicate Truncating(fs: Spiffs, id: nat, k: nat, x: nat, work: Page, h: nat, n: nat, files: map<nat, FileView>)
    reads fs
  {
    && fs.LookupOk() && !fs.cleaning && HeaderAt(fs, id, h)
    && x < SLOTS && x < |fs.pg| && |fs.cat[id].ixs| == k + 1 && fs.cat[id].ixs[k] == x && work.IndexPage?
    && Holds(fs.lu, Shrinking(fs.pg, x, work, h, n), fs.cat)
    && Files(Shrinking(fs.pg, x, work, h, n), fs.cat) == files
    && Length(fs.cat[id].size) == n
    && TightBut(fs.cat, id) && FdsPagesOk(fs.fds, fs.cat) && FdsSizesBut(fs.fds, fs.cat, id)
  }

  function Cut(v: FileView, n: nat): FileView
    requires n <= |v.bytes|
  {
    v.(bytes := v.bytes[..n])
  }

  /** Deleting the last data page, with its reference wiped in the work buffer. */
  lemma DropStep(lu: seq<Entry>, pg: seq<Page>, cat: Catalogue, lu': seq<Entry>, pg': seq<Page>,
                 id: nat, k: nat, x: nat, work: Page, work': Page, h: nat, n: nat)
    requires Sizes(lu, pg) && Sizes(lu', pg') && x < SLOTS && h < SLOTS && work.IndexPage? && pg[h].IndexPage?
    requires Holds(lu, Shrinking(pg, x, work, h, n), cat) && id in cat && n == Length(cat[id].size) && n > 0
    requires k < |cat[id].ixs| && k == IxSpan(PageOf(n - 1)) && cat[id].ixs[k] == x && cat[id].ixs[0] == h
    requires var f := cat[id]; var j := PageOf(n - 1);
             && j == |f.data| - 1 && f.data[j] < SLOTS && IxEntry(j) < |work.table|
             && KeptBut(lu, pg, lu', pg', {f.data[j]}) && lu'[f.data[j]] == Deleted
             && work' == work.(table := work.table[IxEntry(j) := NoPage])
    ensures pg'[h].IndexPage?
    ensures var f := cat[id]; var j := PageOf(n - 1);
            var f' := f.(data := f.data[..j], size := SizeOf(Start(j)));
            var v, v' := Shrinking(pg, x, work, h, n), Shrinking(pg', x, work', h, Start(j));
            && Holds(lu', v', cat[id := f']) && Start(j) <= |View(v, f).bytes|
            && Files(v', cat[id := f']) == Files(v, cat)[id := Cut(View(v, f), Start(j))]
  {
    var f := cat[id];
    var j := PageOf(n - 1);
    var v := Shrinking(pg, x, work, h, n);
    assert FileOk(lu, v, id, f);
    FileSlotsDistinct(lu, v, id, f);
    assert IndexOk(lu, v, id, f, k) && IndexOk(lu, v, id, f, 0);
    assert Kept(lu, pg, lu', pg', h) && Kept(lu, pg, lu', pg', x);
    var v' := Shrinking(pg', x, work', h, Start(j));
    forall t: nat | t < SLOTS && t !in {f.data[j], x, h} ensures Kept(lu, v, lu', v', t) {
      assert Kept(lu, pg, lu', pg', t);
    }
    DropData(lu, v, cat, lu', v', id);
  }

  /** Deletes the last data page. */
  method DropChunk(fs: Spiffs, id: nat, k: nat, x: nat, work: Page, ghost h: nat, n: nat, ghost files: map<nat, FileView>)
    returns (newWork: Page)
    requires Truncating(fs, id, k, x, work, h, n, files) && n > 0 && k == IxSpan(PageOf(n - 1)) && id in files
    modifies fs`lu, fs`pg, fs`flash, fs`trace, fs`pDeleted, fs`pAllocated, fs`cat
    ensures LengthBefore(n) <= |files[id].bytes|
    ensures Truncating(fs, id, k, x, newWork, h, LengthBefore(n), files[id := Cut(files[id], LengthBefore(n))])
    ensures h < |fs.pg| && fs.pg[h] == old(fs.pg)[h] && newWork.hdr == work.hdr
  {
    hide FlashState, LookupState, FdsPagesOk, FdsSizesBut, TightBut;
    LengthBeforeIsStart(n);
    var j := PageOf(n - 1);
    ghost var v := Shrinking(fs.pg, x, work, h, n);
    FileOf(fs.lu, v, fs.cat, id);
    IndexOfPage(fs.lu, v, id, fs.cat[id], j);
    assert IndexOk(fs.lu, v, id, fs.cat[id], k);
    var dataPix := work.table[IxEntry(j)].slot;
    newWork := work.(table := work.table[IxEntry(j) := NoPage]);
    fs.PageDelete(dataPix);
    DropStep(old(fs.lu), old(fs.pg), fs.cat, fs.lu, fs.pg, id, k, x, work, newWork, h, n);
    ghost var g := fs.cat[id].(data := fs.cat[id].data[..j], size := SizeOf(Start(j)));
    GrowKeepsFds(fs.fds, fs.cat, id, g);
    TightButKept(fs.cat, id, g);
    fs.cat := fs.cat[id := g];
  }

  lemma TightButKept(cat: Catalogue, id: nat, g: File)
    requires TightBut(cat, id)
    ensures TightBut(cat[id := g], id)
  {
  }

  /** A truncation of object `id` has reached length `n` and nothing is in the work buffer. */
  ghost predicate Shrunk(fs: Spiffs, id: nat, h: nat, n: nat, files: map<nat, FileView>)
    reads fs
  {
    && fs.LookupOk() && !fs.cleaning && HeaderAt(fs, id, h)
    && Holds(fs.lu, fs.pg[h := Restored(fs.pg[h], n)], fs.cat)
    && Files(fs.pg[h := Restored(fs.pg[h], n)], fs.cat) == files
    && Length(fs.cat[id].size) == n
    && TightBut(fs.cat, id) && FdsPagesOk(fs.fds, fs.cat) && FdsSizesBut(fs.fds, fs.cat, id)
  }

  /** The descriptor the truncation works through. */
  ghost predicate Through(fs: Spiffs, f: nat, id: nat, h: nat, remove: bool)
    reads fs
  {
    && f < |fs.fds| && fs.fds[f].id == id && fs.fds[f].hdr == h
    && (!remove ==> Tracked(fs.fds[f]))
    && (!remove ==> h < |fs.pg| && fs.pg[h].IndexPage? && fs.pg[h].hdr.ixlive)
  }

  /** An index page after the header is found whether or not the header is marked. */
  lemma FindBehindHeader(lu: seq<Entry>, pg: seq<Page>, cat: Catalogue, id: nat, h: nat, n: nat, k: nat, s: nat)
    requires h < |pg| && pg[h].IndexPage? && Holds(lu, pg[h := Restored(pg[h], n)], cat) && k > 0
    requires id in cat && k < |cat[id].ixs|
    ensures Matches(lu, pg, id, true, k, s) <==> s == cat[id].ixs[k]
  {
    var v := pg[h := Restored(pg[h], n)];
    FindIsUnique(lu, v, cat, id, true, k, s);
    assert Matches(lu, pg, id, true, k, s) <==> Matches(lu, v, id, true, k, s);
  }

  /** Loads index page `k`, the last one, into the work buffer. */
  method LoadLast(fs: Spiffs, f: nat, id: nat, k: nat, n: nat, ghost h: nat, ghost remove: bool, ghost files: map<nat, FileView>)
    returns (x: nat, work: Page)
    requires Shrunk(fs, id, h, n, files) && |fs.cat[id].ixs| == k + 1 && Through(fs, f, id, h, remove)
    modifies fs`fds, fs`cursorBlock, fs`cursorEntry
    ensures Truncating(fs, id, k, x, work, h, n, files) && Through(fs, f, id, h, remove)
    ensures FdsKept(old(fs.fds), fs.fds) && (!remove ==> work.hdr.ixlive)
  {
    hide FlashState, LookupState, FdsPagesOk, FdsSizesBut, TightBut, FdsKept;
    ghost var v := fs.pg[h := Restored(fs.pg[h], n)];
    FileOf(fs.lu, v, fs.cat, id);
    assert IndexOk(fs.lu, v, id, fs.cat[id], k) && IndexOk(fs.lu, v, id, fs.cat[id], 0);
    if k == 0 {
      x := fs.fds[f].hdr;
    } else {
      var found := fs.FindIdAndSpan(id, true, k);
      FindBehindHeader(fs.lu, fs.pg, fs.cat, id, h, n, k, fs.cat[id].ixs[k]);
      if found.None? {
        assert false;
      }
      x := found.value;
      FindBehindHeader(fs.lu, fs.pg, fs.cat, id, h, n, k, x);
    }
    work := fs.pg[x];
    assert Shrinking(fs.pg, x, work, h, n) == v;
    SetCursorBut(fs.fds, fs.cat, f, k, x, fs.fds[f].size);
    fs.fds := fs.fds[f := fs.fds[f].(ixSpan := k, ixPix := x)];
  }

  /** The event about a deleted index page that was the last one. */
  lemma EventLastDeleted(fds: seq<Fd>, cat: Catalogue, id: nat, k: nat, x: nat)
    requires id in cat && |cat[id].ixs| == k + 1 && k > 0
    requires FdsPagesOk(fds, cat) && FdsSizesBut(fds, cat, id)
    ensures var cat' := cat[id := cat[id].(ixs := cat[id].ixs[..k])];
            var fds' := EventOnFds(fds, IxDeleted, id, k, x, None);
            FdsPagesOk(fds', cat') && FdsSizesBut(fds', cat', id) && FdsKept(fds, fds')
            && forall i :: 0 <= i < |fds| ==> fds'[i].hdr == fds[i].hdr
  {
    var cat' := cat[id := cat[id].(ixs := cat[id].ixs[..k])];
    var fds' := EventOnFds(fds, IxDeleted, id, k, x, None);
    forall i | 0 <= i < |fds'| ensures FdPagesOk(fds'[i], cat') && (fds'[i].id != id ==> FdSizeOk(fds'[i], cat')) {
      assert FdPagesOk(fds[i], cat);
      assert fds[i].id != id ==> FdSizeOk(fds[i], cat);
    }
  }

  /** Deletes the last index page, which is not needed any more. */
  method DropIndexPage(fs: Spiffs, f: nat, id: nat, k: nat, x: nat, work: Page, ghost h: nat, n: nat,
                       ghost remove: bool, ghost files: map<nat, FileView>)
    requires Truncating(fs, id, k, x, work, h, n, files) && Through(fs, f, id, h, remove)
    requires k > 0 && k + 1 > IxCount(|fs.cat[id].data|)
    modifies fs`lu, fs`pg, fs`flash, fs`trace, fs`pDeleted, fs`pAllocated, fs`cat, fs`fds
    ensures Shrunk(fs, id, h, n, files) && Through(fs, f, id, h, remove)
    ensures |fs.cat[id].ixs| == k && FdsKept(old(fs.fds), fs.fds)
  {
    hide FlashState, LookupState, FdsPagesOk, FdsSizesBut, TightBut, FdsKept, EventOnFd, IxCount;
    ghost var v := Shrinking(fs.pg, x, work, h, n);
    FileOf(fs.lu, v, fs.cat, id);
    FileSlotsDistinct(fs.lu, v, id, fs.cat[id]);
    assert IndexOk(fs.lu, v, id, fs.cat[id], k);
    fs.PageDelete(x);
    ghost var v' := fs.pg[h := Restored(fs.pg[h], n)];
    forall t: nat | t < SLOTS && t !in {x} ensures Kept(old(fs.lu), v, fs.lu, v', t) {
    }
    DropIndex(old(fs.lu), v, fs.cat, fs.lu, v', id);
    EventLastDeleted(fs.fds, fs.cat, id, k, x);
    fs.CbObjectEvent(IxDeleted, id, k, x, None);
    TightButKept(fs.cat, id, fs.cat[id].(ixs := fs.cat[id].ixs[..k]));
    FdAt(old(fs.fds), fs.fds, f);
    fs.cat := fs.cat[id := fs.cat[id].(ixs := fs.cat[id].ixs[..k])];
  }

  lemma FdAt(fds: seq<Fd>, fds': seq<Fd>, f: nat)
    requires FdsKept(fds, fds') && f < |fds|
    ensures f < |fds'| && fds'[f].id == fds[f].id && Tracked(fds'[f]) == Tracked(fds[f])
  {
  }

  /** Files that an image with another page in the place of `h` holds are still there when no
      page could be had. */
  lemma StillBehind(lu: seq<Entry>, pg: seq<Page>, fs: Spiffs, h: nat, p: Page, files: map<nat, FileView>)
    requires h < |pg| && Holds(lu, pg[h := p], fs.cat) && Files(pg[h := p], fs.cat) == files && lu[h].Used?
    requires Sizes(fs.lu, fs.pg) && Sizes(lu, pg) && KeptBut(lu, pg, fs.lu, fs.pg, {})
    ensures Behind(fs, files)
  {
    hide Holds, Files;
    var v, lu', v' := pg[h := p], fs.lu, fs.pg[h := p];
    forall t: nat | t < SLOTS ensures Kept(lu, v, lu', v', t) {
      assert Kept(lu, pg, fs.lu, fs.pg, t);
    }
    WipeStep(lu, v, fs.cat, lu', v');
    assert HoldsWith(fs, h, p, files);
  }

  /** What a truncation that failed on the way has left: with another header in the place of
      the one in flash, the file is cut somewhere, and the others are as they were. */
  ghost predicate CutBehind(fs: Spiffs, id: nat, files: map<nat, FileView>)
    requires id in files
    reads fs`lu, fs`pg, fs`cat
  {
    exists n: nat :: n <= |files[id].bytes| && Behind(fs, files[id := Cut(files[id], n)])
  }

  /** Writes the header with the present length to a new page. */
  method UpdateLength(fs: Spiffs, f: nat, id: nat, h: nat, n: nat, ghost files: map<nat, FileView>)
    returns (r: Status, newH: nat)
    requires Shrunk(fs, id, h, n, files) && Through(fs, f, id, h, false) && n > 0
    modifies fs`lu, fs`pg, fs`flash, fs`trace, fs`freeBlocks, fs`eraseCount, fs`maxEraseCount, fs`pDeleted,
             fs`freeBlock, fs`freeEntry, fs`pAllocated, fs`fds, fs`cat
    ensures fs.LookupOk() && (r == Ok || r == ErrFull || r == ErrNotFound)
    ensures r == Ok ==>
              && Shrunk(fs, id, newH, n, files) && Through(fs, f, id, newH, false)
              && |fs.cat[id].ixs| == |old(fs.cat)[id].ixs| && FdsKept(old(fs.fds), fs.fds)
    ensures r != Ok ==> fs.freeBlocks < 2 && Behind(fs, files)
  {
    hide FlashState, LookupState, FdsPagesOk, FdsSizesBut, FdsSizesOk, TightBut, FdsKept, EventOnFd;
    ghost var v := fs.pg[h := Restored(fs.pg[h], n)];
    FileOf(fs.lu, v, fs.cat, id);
    assert IndexOk(fs.lu, v, id, fs.cat[id], 0);
    r, newH := fs.UpdateIndexHdr(id, fs.fds[f].hdr, None, Some(Some(n)));
    if r != Ok {
      StillBehind(old(fs.lu), old(fs.pg), fs, h, Restored(old(fs.pg)[h], n), files);
    } else {
      HeaderMoved(old(fs.lu), old(fs.pg), v, fs.cat, fs.lu, fs.pg, id, newH);
      EventSetsSizes(old(fs.fds), fs.cat, IxHeaderUpdated, id, newH);
      FdAt(old(fs.fds), fs.fds, f);
      TightButKept(fs.cat, id, fs.cat[id].(ixs := fs.cat[id].ixs[0 := newH]));
      fs.cat := fs.cat[id := fs.cat[id].(ixs := fs.cat[id].ixs[0 := newH])];
      assert fs.pg[newH := Restored(fs.pg[newH], n)] == fs.pg;
      HeaderOfFd(fs, f, id);
    }
  }

  // ---------------------------------------------------------------------------
  // The loop

  /** One round: the last index page goes if it is not needed any more, then the
      last data page. */
  method TruncateRound(fs: Spiffs, f: nat, id: nat, k: nat, x: nat, work: Page, h: nat, n: nat, remove: bool,
                       ghost files: map<nat, FileView>)
    returns (r: Status, newK: nat, newX: nat, newWork: Page, newH: nat)
    requires Truncating(fs, id, k, x, work, h, n, files) && Through(fs, f, id, h, remove) && n > 0 && id in files
    requires k == IxSpan(PageOf(n - 1)) || k == IxSpan(PageOf(n - 1)) + 1
    requires !remove ==> work.hdr.ixlive
    modifies fs`lu, fs`pg, fs`flash, fs`trace, fs`freeBlocks, fs`eraseCount, fs`maxEraseCount, fs`pDeleted,
             fs`freeBlock, fs`freeEntry, fs`pAllocated, fs`fds, fs`cat, fs`cursorBlock, fs`cursorEntry
    ensures fs.LookupOk() && (r == Ok || r == ErrFull || r == ErrNotFound)
    ensures LengthBefore(n) <= |files[id].bytes|
    ensures remove ==> r == Ok
    ensures r == Ok ==>
              && Truncating(fs, id, newK, newX, newWork, newH, LengthBefore(n), files[id := Cut(files[id], LengthBefore(n))])
              && Through(fs, f, id, newH, remove) && newK == IxSpan(PageOf(n - 1))
              && FdsKept(old(fs.fds), fs.fds) && (if remove then newH == h else newWork.hdr.ixlive)
    ensures r != Ok ==> fs.freeBlocks < 2 && Behind(fs, files)
  {
    hide FlashState, LookupState, FdsPagesOk, FdsSizesBut, TightBut, FdsKept, Holds, Shrinking;
    FdsKeptSelf(fs.fds);
    r, newK, newX, newWork, newH := Ok, k, x, work, h;
    LengthInFiles(fs, id, k, x, work, h, n, files);
    var curSpix := IxSpan(PageOf(n - 1));
    if curSpix != k {
      DropIndexPage(fs, f, id, k, x, work, h, n, remove, files);
      ghost var fds1 := fs.fds;
      if !remove {
        r, newH := UpdateLength(fs, f, id, h, n, files);
        if r != Ok {
          return;
        }
      }
      FdsKeptSelf(fds1);
      FdsKeptChain(old(fs.fds), fds1, fs.fds);
      ghost var fds2 := fs.fds;
      newX, newWork := LoadLast(fs, f, id, curSpix, n, newH, remove, files);
      FdsKeptChain(old(fs.fds), fds2, fs.fds);
      newK := curSpix;
    }
    newWork := DropChunk(fs, id, newK, newX, newWork, newH, n, files);
  }

  lemma LengthInFiles(fs: Spiffs, id: nat, k: nat, x: nat, work: Page, h: nat, n: nat, files: map<nat, FileView>)
    requires Truncating(fs, id, k, x, work, h, n, files) && id in files && n > 0
    ensures LengthBefore(n) <= |files[id].bytes| == n
    ensures IxCount(|fs.cat[id].data|) == IxSpan(PageOf(n - 1)) + 1
  {
    LengthBeforeIsStart(n);
    FileOf(fs.lu, Shrinking(fs.pg, x, work, h, n), fs.cat, id);
  }

  lemma NextRound(n: nat)
    requires n > 0 && LengthBefore(n) > 0
    ensures LengthBefore(n) < n
    ensures var k := IxSpan(PageOf(LengthBefore(n) - 1));
            k == IxSpan(PageOf(n - 1)) || k + 1 == IxSpan(PageOf(n - 1))
  {
    LengthBeforeIsStart(n);
    LengthBeforeIsStart(LengthBefore(n));
    var j := PageOf(n - 1);
    assert OffsetIn(n - 1) < DATA_SIZE;
    BytePlace(j - 1, DATA_SIZE - 1);
    IxSpanNext(j - 1);
  }

  lemma LastRound(n: nat)
    requires n > 0
    ensures LengthBefore(n) < n
    ensures LengthBefore(n) == 0 ==> IxSpan(PageOf(n - 1)) == 0
  {
    LengthBeforeIsStart(n);
    assert OffsetIn(n - 1) < DATA_SIZE;
    if PageOf(n - 1) > 0 {
      TimesMono(1, PageOf(n - 1), DATA_SIZE);
    }
  }

  /** Deletes every data page and every index page but the header. */
  method TruncateAll(fs: Spiffs, f: nat, id: nat, h0: nat, size: nat, remove: bool, ghost files: map<nat, FileView>)
    returns (r: Status, x: nat, work: Page, h: nat)
    requires Shrunk(fs, id, h0, size, files) && Through(fs, f, id, h0, remove) && size > 0 && id in files
    requires |fs.cat[id].ixs| == IxCount(|fs.cat[id].data|)
    modifies fs`lu, fs`pg, fs`flash, fs`trace, fs`freeBlocks, fs`eraseCount, fs`maxEraseCount, fs`pDeleted,
             fs`freeBlock, fs`freeEntry, fs`pAllocated, fs`fds, fs`cat, fs`cursorBlock, fs`cursorEntry
    ensures fs.LookupOk() && (r == Ok || r == ErrFull || r == ErrNotFound)
    ensures remove ==> r == Ok
    ensures r == Ok ==>
              && Truncating(fs, id, 0, x, work, h, 0, files[id := Cut(files[id], 0)])
              && Through(fs, f, id, h, remove) && FdsKept(old(fs.fds), fs.fds)
              && (if remove then h == h0 else work.hdr.ixlive)
    ensures r != Ok ==> fs.freeBlocks < 2 && CutBehind(fs, id, files)
  {
    hide FlashState, LookupState, Truncating, Through, FdsKept, Shrunk, IxCount;
    r, h := Ok, h0;
    var curSize: nat, k: nat := size, IxSpan(PageOf(size - 1));
    FirstLoad(fs, id, h, size, files);
    x, work := LoadLast(fs, f, id, k, size, h, remove, files);
    WorkIsIndex(fs, id, k, x, work, h, size, files);
    assert Cut(files[id], size) == files[id];
    assert files[id := files[id]] == files;
    while curSize > 0
      invariant r == Ok && curSize <= size == |files[id].bytes| && fs.LookupOk()
      invariant Truncating(fs, id, k, x, work, h, curSize, files[id := Cut(files[id], curSize)])
      invariant Through(fs, f, id, h, remove) && FdsKept(old(fs.fds), fs.fds)
      invariant work.IndexPage? && (if remove then h == h0 else work.hdr.ixlive)
      invariant curSize > 0 ==> k == IxSpan(PageOf(curSize - 1)) || k == IxSpan(PageOf(curSize - 1)) + 1
      invariant curSize == 0 ==> k == 0
    {
      ghost var mid := files[id := Cut(files[id], curSize)];
      ghost var fds1 := fs.fds;
      LastRound(curSize);
      r, k, x, work, h := TruncateRound(fs, f, id, k, x, work, h, curSize, remove, mid);
      if r != Ok {
        return;
      }
      FdsKeptChain(old(fs.fds), fds1, fs.fds);
      WorkIsIndex(fs, id, k, x, work, h, LengthBefore(curSize), mid[id := Cut(mid[id], LengthBefore(curSize))]);
      if LengthBefore(curSize) > 0 {
        NextRound(curSize);
      }
      assert Cut(mid[id], LengthBefore(curSize)) == Cut(files[id], LengthBefore(curSize));
      assert mid[id := Cut(mid[id], LengthBefore(curSize))] == files[id := Cut(files[id], LengthBefore(curSize))];
      curSize := LengthBefore(curSize);
    }
  }

  lemma FirstLoad(fs: Spiffs, id: nat, h: nat, size: nat, files: map<nat, FileView>)
    requires Shrunk(fs, id, h, size, files) && size > 0 && id in files
    ensures IxCount(|fs.cat[id].data|) == IxSpan(PageOf(size - 1)) + 1
    ensures |files[id].bytes| == size
  {
    FileOf(fs.lu, fs.pg[h := Restored(fs.pg[h], size)], fs.cat, id);
  }

  lemma WorkIsIndex(fs: Spiffs, id: nat, k: nat, x: nat, work: Page, h: nat, n: nat, files: map<nat, FileView>)
    requires Truncating(fs, id, k, x, work, h, n, files)
    ensures work.IndexPage? && fs.LookupOk()
  {
  }

  // ---------------------------------------------------------------------------
  // Removing and truncating

  /** What the removal of object `id` leaves of the descriptors: those that were used
      by name are closed, the others keep what they are. */
  ghost predicate ClosedFor(fds0: seq<Fd>, fds: seq<Fd>, id: nat)
  {
    && |fds| == |fds0|
    && forall i :: 0 <= i < |fds| ==>
         && fds[i].score == fds0[i].score && fds[i].offset == fds0[i].offset
         && if fds0[i].score > 0 && fds0[i].id == id then fds[i].nbr == 0 && fds[i].id == 0
            else fds[i].nbr == fds0[i].nbr && fds[i].id == fds0[i].id
  }

  lemma EventObjectDeleted(fds: seq<Fd>, cat: Catalogue, id: nat, x: nat)
    requires id in cat && FdsPagesOk(fds, cat) && FdsSizesBut(fds, cat, id)
    ensures var fds' := EventOnFds(fds, IxDeleted, id, 0, x, None);
            FdsPagesOk(fds', cat - {id}) && FdsSizesOk(fds', cat - {id}) && ClosedFor(fds, fds', id)
  {
    var fds' := EventOnFds(fds, IxDeleted, id, 0, x, None);
    forall i | 0 <= i < |fds'| ensures FdPagesOk(fds'[i], cat - {id}) && FdSizeOk(fds'[i], cat - {id}) {
      assert FdPagesOk(fds[i], cat);
      assert fds[i].id != id ==> FdSizeOk(fds[i], cat);
    }
  }

  /** Deletes the header page, the last page of the object. */
  method DeleteHeader(fs: Spiffs, id: nat, h: nat, ghost work: Page, ghost files: map<nat, FileView>)
    requires Truncating(fs, id, 0, h, work, h, 0, files)
    modifies fs`lu, fs`pg, fs`flash, fs`trace, fs`pDeleted, fs`pAllocated, fs`cat, fs`fds
    ensures Mounted(fs) && FilesOf(fs) == files - {id} && ClosedFor(old(fs.fds), fs.fds, id)
  {
    hide FlashState, LookupState, FdsPagesOk, FdsSizesBut, FdsSizesOk, EventOnFd, ClosedFor;
    ghost var v := Shrinking(fs.pg, h, work, h, 0);
    FileOf(fs.lu, v, fs.cat, id);
    assert IndexOk(fs.lu, v, id, fs.cat[id], 0);
    fs.PageDelete(h);
    forall t: nat | t < SLOTS && t !in {h} ensures Kept(old(fs.lu), v, fs.lu, fs.pg, t) {
    }
    RemoveFile(old(fs.lu), v, fs.cat, fs.lu, fs.pg, id);
    EventObjectDeleted(fs.fds, fs.cat, id, h);
    fs.CbObjectEvent(IxDeleted, id, 0, h, None);
    fs.cat := fs.cat - {id};
  }

  lemma ClosedAfterKept(a: seq<Fd>, b: seq<Fd>, c: seq<Fd>, id: nat)
    requires FdsKept(a, b) && ClosedFor(b, c, id)
    ensures ClosedFor(a, c, id)
  {
  }

  /** The descriptor a removal works through: it was opened on the header page, by
      name or not. */
  ghost predicate OpenedOn(fs: Spiffs, f: nat, id: nat)
    reads fs
  {
    && f < |fs.fds| && fs.fds[f].id == id && id in fs.cat && |fs.cat[id].ixs| > 0
    && fs.fds[f].hdr == fs.cat[id].ixs[0]
    && (fs.fds[f].size == fs.cat[id].size || (fs.fds[f].size == Some(0) && fs.cat[id].size == None))
  }

  /** The header is marked before anything is deleted. */
  method MarkRemoved(fs: Spiffs, f: nat, id: nat, ghost files: map<nat, FileView>) returns (h: nat)
    requires Mounted(fs) && OpenedOn(fs, f, id) && FilesOf(fs) == files
    modifies fs`pg, fs`flash, fs`trace
    ensures Shrunk(fs, id, h, Length(fs.cat[id].size), files) && Through(fs, f, id, h, true)
    ensures |fs.cat[id].ixs| == IxCount(|fs.cat[id].data|)
  {
    hide FlashState, FreeSuffix, Counted, CursorOk, FdsPagesOk, FdsSizesOk, FdsSizesBut;
    h := fs.fds[f].hdr;
    FileOf(fs.lu, fs.pg, fs.cat, id);
    assert IndexOk(fs.lu, fs.pg, id, fs.cat[id], 0);
    SizesBut(fs.fds, fs.cat, id);
    ghost var pg0 := fs.pg;
    var p := fs.pg[h];
    FlagWritesClear(p.hdr);
    fs.PutFlags(h, p.hdr.(ixlive := false), OnIndex, REMOVE_FLAGS);
    assert fs.pg[h := Restored(fs.pg[h], Length(fs.cat[id].size))] == pg0;
  }

  /** Removes the object of descriptor `f`.  No page is written, so it never fails:
      the file is gone, the others are as they were. */
  method RemoveObject(fs: Spiffs, f: nat) returns (r: Status)
    requires Mounted(fs) && f < |fs.fds| && OpenedOn(fs, f, fs.fds[f].id)
    modifies fs
    ensures r == Ok && Mounted(fs) && fs.start == old(fs.start)
    ensures var id := old(fs.fds)[f].id;
            FilesOf(fs) == old(FilesOf(fs)) - {id} && ClosedFor(old(fs.fds), fs.fds, id)
  {
    hide FlashState, LookupState, FdsPagesOk, FdsSizesOk, FdsSizesBut, FdsKept, Holds, Shrinking, ClosedFor, Tight, TightBut, Truncating, Shrunk, Through;
    ghost var files := FilesOf(fs);
    var id := fs.fds[f].id;
    var size := Length(fs.fds[f].size);
    ViewLength(fs.lu, fs.pg, fs.cat, id);
    FdsKeptSelf(fs.fds);
    r := Ok;
    var h := MarkRemoved(fs, f, id, files);
    if size > 0 {
      var x, work, h1;
      r, x, work, h1 := TruncateAll(fs, f, id, h, size, true, files);
      ghost var cut := files[id := Cut(files[id], 0)];
      ghost var fds1 := fs.fds;
      HeaderIsLast(fs, id, x, work, h, cut);
      DeleteHeader(fs, id, h, work, cut);
      ClosedAfterKept(old(fs.fds), fds1, fs.fds, id);
      assert cut - {id} == files - {id};
    } else {
      HeaderUnread(fs, id, h, files);
      DeleteHeader(fs, id, h, fs.pg[h], files);
    }
  }

  lemma HeaderIsLast(fs: Spiffs, id: nat, x: nat, work: Page, h: nat, files: map<nat, FileView>)
    requires Truncating(fs, id, 0, x, work, h, 0, files)
    ensures x == h
  {
  }

  /** For an empty object the header in flash is as good as a work buffer. */
  lemma HeaderUnread(fs: Spiffs, id: nat, h: nat, files: map<nat, FileView>)
    requires Shrunk(fs, id, h, 0, files) && |fs.cat[id].ixs| == IxCount(|fs.cat[id].data|)
    ensures Truncating(fs, id, 0, h, fs.pg[h], h, 0, files)
  {
    var v := fs.pg[h := Restored(fs.pg[h], 0)];
    FileOf(fs.lu, v, fs.cat, id);
    assert IndexOk(fs.lu, v, id, fs.cat[id], 0);
    assert Shrinking(fs.pg, h, fs.pg[h], h, 0) == v;
  }

  /** The header of a file that has been emptied, ready to be written. */
  lemma EmptyHeader(fs: Spiffs, id: nat, x: nat, work: Page, h: nat, files: map<nat, FileView>)
    requires Truncating(fs, id, 0, x, work, h, 0, files) && work.hdr.ixlive
    ensures x == h && |fs.cat[id].ixs| == 1 && fs.cat[id].data == [] && fs.cat[id].size == None
    ensures fs.lu[h] == Used(id, true)
    ensures work.(table := EmptyTable(0), size := None) == Shrinking(fs.pg, x, work, h, 0)[h]
  {
    var v := Shrinking(fs.pg, x, work, h, 0);
    FileOf(fs.lu, v, fs.cat, id);
    assert IndexOk(fs.lu, v, id, fs.cat[id], 0);
    EmptyIndex(fs.cat[id].data, 0);
  }

  /** Writes the header of an emptied object to a new page. */
  method StoreEmpty(fs: Spiffs, f: nat, id: nat, x: nat, work: Page, ghost h: nat, ghost files: map<nat, FileView>) returns (r: Status)
    requires Truncating(fs, id, 0, x, work, h, 0, files) && work.hdr.ixlive && Through(fs, f, id, h, false)
    modifies fs`lu, fs`pg, fs`flash, fs`trace, fs`freeBlocks, fs`eraseCount, fs`maxEraseCount, fs`pDeleted,
             fs`freeBlock, fs`freeEntry, fs`pAllocated, fs`fds, fs`cat
    ensures fs.LookupOk() && (r == Ok || r == ErrFull || r == ErrNotFound)
    ensures r == Ok ==> Mounted(fs) && FilesOf(fs) == files && FdsKept(old(fs.fds), fs.fds) && fs.fds[f].size == None
                        && OpenOn(fs, f, id) && fs.cat[id].size == None
    ensures r != Ok ==> fs.freeBlocks < 2 && Behind(fs, files)
  {
    hide FlashState, LookupState, FdsPagesOk, FdsSizesBut, FdsSizesOk, TightBut, Tight, FdsKept, Holds, Shrinking;
    ghost var v := Shrinking(fs.pg, x, work, h, 0);
    EmptyHeader(fs, id, x, work, h, files);
    var d;
    r, d := fs.UpdateIndexHdr(id, x, Some(work.(table := EmptyTable(0))), Some(None));
    ShrinkingElsewhere(old(fs.pg), x, work, h, 0);
    if r != Ok {
      StillBehind(old(fs.lu), old(fs.pg), fs, h, v[h], files);
    } else {
      HeaderMoved(old(fs.lu), old(fs.pg), v, fs.cat, fs.lu, fs.pg, id, d);
      EventSetsSizes(old(fs.fds), fs.cat, IxUpdated, id, d);
      FdAt(old(fs.fds), fs.fds, f);
      EmptyIsTight(fs.cat, id, fs.cat[id].(ixs := fs.cat[id].ixs[0 := d]));
      fs.cat := fs.cat[id := fs.cat[id].(ixs := fs.cat[id].ixs[0 := d])];
    }
  }

  lemma ShrinkingElsewhere(pg: seq<Page>, x: nat, work: Page, h: nat, n: nat)
    requires x < |pg| && h < |pg| && work.IndexPage? && pg[h].IndexPage? && x == h
    ensures forall t: nat :: t < |pg| && t != h ==> Shrinking(pg, x, work, h, n)[t] == pg[t]
    ensures Shrinking(pg, x, work, h, n) == pg[h := Shrinking(pg, x, work, h, n)[h]]
  {
  }

  lemma EmptyIsTight(cat: Catalogue, id: nat, g: File)
    requires TightBut(cat, id) && g.data == [] && |g.ixs| == 1
    ensures Tight(cat[id := g])
  {
  }

  /** The status is that of a collection for `len` bytes if that fails. */
  ghost predicate CollectedFirst(a: Layout, len: nat, r: Status)
  {
    exists c: Layout, g: Status :: Collected(a, len, c, g) && (g != Ok ==> r == g)
  }

  /** Empties the file of descriptor `f`.  If the collector finds no room nothing has
      changed; if pages run out later the source returns at once and the file is torn: the
      header in flash is out of date, and with another one the file is cut and the others
      are as they were. */
  method TruncateObject(fs: Spiffs, f: nat) returns (r: Status, end: Ending)
    requires Mounted(fs) && f < |fs.fds| && OpenOn(fs, f, fs.fds[f].id)
    modifies fs
    ensures fs.LookupOk() && fs.start == old(fs.start) && (r == Ok || r == ErrFull || r == ErrNotFound)
    ensures end.Complete? || (end.Torn? && r != Ok)
    ensures end.Torn? ==> old(fs.fds)[f].id in old(FilesOf(fs)) && CutBehind(fs, old(fs.fds)[f].id, old(FilesOf(fs)))
    ensures r != Ok && end.Complete? ==> Mounted(fs) && FdsKept(old(fs.fds), fs.fds) && FilesOf(fs) == old(FilesOf(fs))
    ensures r == Ok ==>
              var id := old(fs.fds)[f].id;
              && Mounted(fs) && FdsKept(old(fs.fds), fs.fds)
              && FilesOf(fs) == old(FilesOf(fs))[id := Cut(old(FilesOf(fs))[id], 0)]
    ensures r != Ok ==> Scarce(fs, DATA_SIZE * 2)
    ensures Length(old(fs.fds)[f].size) == 0 ==> r == Ok
    ensures Length(old(fs.fds)[f].size) > 0 ==> CollectedFirst(old(LayoutOf(fs)), DATA_SIZE * 2, r)
  {
    hide Collected, FlashState, LookupState, FdsPagesOk, FdsSizesOk, FdsSizesBut, FdsKept, Holds, Shrinking, TightBut, Tight, Shrunk, Cut, CutBehind, Behind, NeededPages, NoneFree;
    ghost var files := FilesOf(fs);
    var id := fs.fds[f].id;
    FdsKeptSelf(fs.fds);
    ViewLength(fs.lu, fs.pg, fs.cat, id);
    var size := SizeOfFd(fs, f);
    if size == 0 {
      NothingCut(fs, id, files);
      return Ok, Complete;
    }
    var buffer;
    ghost var a := LayoutOf(fs);
    r, buffer := GcCheck(fs, DATA_SIZE * 2, Erased);
    ghost var c := LayoutOf(fs);
    assert Collected(a, DATA_SIZE * 2, c, r);
    end := if r == ErrFull then Complete else Torn;
    if r != Ok {
      NothingCut(fs, id, files);
      return;
    }
    ghost var fds1 := fs.fds;
    FdAt(old(fs.fds), fs.fds, f);
    r := EmptyFile(fs, f, id, size, files);
    if r == Ok {
      FdsKeptChain(old(fs.fds), fds1, fs.fds);
    }
    end := if r == Ok then Complete else Torn;
  }

  /** The truncation after the collector has made room. */
  method EmptyFile(fs: Spiffs, f: nat, id: nat, size: nat, ghost files: map<nat, FileView>) returns (r: Status)
    requires Mounted(fs) && OpenOn(fs, f, id) && FilesOf(fs) == files && id in files && |files[id].bytes| == size > 0
    modifies fs
    ensures fs.LookupOk() && fs.start == old(fs.start) && (r == Ok || r == ErrFull || r == ErrNotFound)
    ensures r != Ok ==> CutBehind(fs, id, files) && fs.freeBlocks <= 2
    ensures r == Ok ==> Mounted(fs) && FdsKept(old(fs.fds), fs.fds) && FilesOf(fs) == files[id := Cut(files[id], 0)]
  {
    hide FlashState, LookupState, FdsPagesOk, FdsSizesOk, FdsSizesBut, FdsKept, Holds, Shrinking, TightBut, Tight, Shrunk, Cut, CutBehind, Behind, NeededPages, NoneFree;
    var h := StartTruncate(fs, f, id, size, files);
    var x, work;
    r, x, work, h := TruncateAll(fs, f, id, h, size, false, files);
    if r != Ok {
      return;
    }
    ghost var fds2 := fs.fds;
    r := StoreEmpty(fs, f, id, x, work, h, files[id := Cut(files[id], 0)]);
    if r == Ok {
      FdsKeptChain(old(fs.fds), fds2, fs.fds);
      ghost var fds3 := fs.fds;
      ZeroSize(fs.fds, fs.cat, f);
      fs.fds := fs.fds[f := fs.fds[f].(size := Some(0))];
      FdsKeptChain(old(fs.fds), fds3, fs.fds);
    } else {
      CutIsBehind(fs, id, files, 0);
    }
  }

  lemma CutIsBehind(fs: Spiffs, id: nat, files: map<nat, FileView>, n: nat)
    requires id in files && n <= |files[id].bytes| && Behind(fs, files[id := Cut(files[id], n)])
    ensures CutBehind(fs, id, files)
  {
  }

  lemma NothingCut(fs: Spiffs, id: nat, files: map<nat, FileView>)
    requires id in files
    ensures Behind(fs, files) ==> CutBehind(fs, id, files)
    ensures files[id := Cut(files[id], |files[id].bytes|)] == files
  {
    hide Behind;
    var v := files[id];
    assert Cut(v, |v.bytes|) == v;
    assert files[id := v] == files;
  }

  /** The descriptor that truncated keeps 0 for the length. */
  lemma ZeroSize(fds: seq<Fd>, cat: Catalogue, f: nat)
    requires f < |fds| && FdsPagesOk(fds, cat) && FdsSizesOk(fds, cat) && fds[f].id in cat && cat[fds[f].id].size == None
    ensures var fds' := fds[f := fds[f].(size := Some(0))];
            FdsPagesOk(fds', cat) && FdsSizesOk(fds', cat) && FdsKept(fds, fds')
  {
    var fds' := fds[f := fds[f].(size := Some(0))];
    forall i | 0 <= i < |fds'| ensures FdPagesOk(fds'[i], cat) && FdSizeOk(fds'[i], cat) {
      assert FdPagesOk(fds[i], cat) && FdSizeOk(fds[i], cat);
    }
  }

  method SizeOfFd(fs: Spiffs, f: nat) returns (n: nat)
    requires Mounted(fs) && f < |fs.fds| && OpenOn(fs, f, fs.fds[f].id)
    ensures n == Length(fs.cat[fs.fds[f].id].size) && n == Length(fs.fds[f].size)
  {
    assert FdSizeOk(fs.fds[f], fs.cat);
    n := Length(fs.fds[f].size);
  }

  method StartTruncate(fs: Spiffs, f: nat, id: nat, ghost n: nat, ghost files: map<nat, FileView>) returns (h: nat)
    requires Mounted(fs) && OpenOn(fs, f, id) && FilesOf(fs) == files && id in files && |files[id].bytes| == n
    ensures Shrunk(fs, id, h, n, files) && Through(fs, f, id, h, false)
    ensures |fs.cat[id].ixs| == IxCount(|fs.cat[id].data|)
  {
    hide FlashState, LookupState, FdsSizesOk, FdsSizesBut;
    h := fs.fds[f].hdr;
    assert FdPagesOk(fs.fds[f], fs.cat);
    FileOf(fs.lu, fs.pg, fs.cat, id);
    assert IndexOk(fs.lu, fs.pg, id, fs.cat[id], 0);
    SizesBut(fs.fds, fs.cat, id);
    assert fs.pg[h := Restored(fs.pg[h], n)] == fs.pg;
  }
}

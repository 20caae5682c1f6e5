/** Appending to an object: while it runs, the work buffer stands for the last index
    page and the size in the header lags behind. */
module Append {
  import opened Geometry
  import opened Image
  import opened Steps
  import opened Lookup
  import opened Volume
  import opened Nor
  import opened Encoding
  import opened Trace
  import opened Nucleus
  import opened Gc
  import opened Objects

  /** The image an append works on: the work buffer in the place of index page `x`
      and length `n` in the header `h`. */
  function Growing(pg: seq<Page>, x: nat, work: Page, h: nat, n: nat): seq<Page>
    requires x < |pg| && h < |pg| && work.IndexPage? && pg[h].IndexPage?
  {
    var v := pg[x := work];
    v[h := v[h].(size := SizeOf(n))]
  }

  lemma PagesOfLength(f: File, n: nat)
    requires Sized(f) && Length(f.size) == n
    ensures OffsetIn(n) == 0 ==> |f.data| == PageOf(n) && Start(|f.data|) == n
    ensures OffsetIn(n) > 0 ==> |f.data| == PageOf(n) + 1
  {
    if n > 0 {
      if OffsetIn(n) == 0 {
        TimesMono(PageOf(n), PageOf(n), DATA_SIZE);
        BytePlace(PageOf(n) - 1, DATA_SIZE - 1);
      } else {
        BytePlace(PageOf(n), OffsetIn(n) - 1);
      }
    }
  }

  function Padded(chunk: seq<byte>): (r: seq<byte>)
    requires |chunk| <= DATA_SIZE
    ensures |r| == DATA_SIZE
  {
    chunk + seq(DATA_SIZE - |chunk|, i => ERASED_BYTE)
  }

  lemma FreshIsPadded(chunk: seq<byte>)
    requires |chunk| <= DATA_SIZE
    ensures Program(ErasedBytes(), 0, chunk) == Padded(chunk)
  {
    ProgramErased(ErasedBytes(), 0, chunk);
  }

  /** A new data page at the end of a file whose pages are full. */
  lemma AppendNewStep(lu: seq<Entry>, pg: seq<Page>, cat: Catalogue, lu': seq<Entry>, pg': seq<Page>,
                      id: nat, k: nat, x: nat, work: Page, work': Page, h: nat, d: nat, chunk: seq<byte>, n: nat)
    requires Sizes(lu, pg) && Sizes(lu', pg') && x < SLOTS && h < SLOTS && work.IndexPage? && pg[h].IndexPage?
    requires Holds(lu, Growing(pg, x, work, h, n), cat) && id in cat && n == Length(cat[id].size) && OffsetIn(n) == 0
    requires k < |cat[id].ixs| && k == IxSpan(PageOf(n)) && cat[id].ixs[k] == x && cat[id].ixs[0] == h
    requires d < SLOTS && !lu[d].Used? && KeptBut(lu, pg, lu', pg', {d}) && lu'[d] == Used(id, false)
    requires 0 < |chunk| <= DATA_SIZE && pg'[d] == DataPage(LiveHeader(id, false, PageOf(n)), Padded(chunk))
    requires IxEntry(PageOf(n)) < |work.table| && work' == work.(table := work.table[IxEntry(PageOf(n)) := At(d)])
    ensures pg'[h].IndexPage?
    ensures var f := cat[id];
            var f' := f.(data := f.data + [d], size := Some(n + |chunk|));
            var v, v' := Growing(pg, x, work, h, n), Growing(pg', x, work', h, n + |chunk|);
            && Holds(lu', v', cat[id := f']) && |f.data| == PageOf(n)
            && Files(v', cat[id := f']) == Files(v, cat)[id := FileView(f.name, View(v, f).bytes + chunk)]
  {
    var f := cat[id];
    var v := Growing(pg, x, work, h, n);
    assert FileOk(lu, v, id, f);
    PagesOfLength(f, n);
    assert IndexOk(lu, v, id, f, k) && IndexOk(lu, v, id, f, 0);
    assert Kept(lu, pg, lu', pg', h);
    var v' := Growing(pg', x, work', h, n + |chunk|);
    forall t: nat | t < SLOTS && t !in {d, x, h} ensures Kept(lu, v, lu', v', t) {
      assert Kept(lu, pg, lu', pg', t);
    }
    assert Kept(lu, pg, lu', pg', x);
    AddData(lu, v, cat, lu', v', id, d, Padded(chunk), n + |chunk|);
    assert Padded(chunk)[..|chunk|] == chunk;
  }

  /** The last data page of a file is erased from the end of the file on. */
  lemma LastPageErased(v: seq<Page>, f: File, n: nat)
    requires SlackErased(v, f) && Length(f.size) == n
    requires |f.data| == PageOf(n) + 1 && f.data[PageOf(n)] < |v| && v[f.data[PageOf(n)]].DataPage?
    requires |v[f.data[PageOf(n)]].bytes| == DATA_SIZE
    ensures forall o: nat :: OffsetIn(n) <= o < DATA_SIZE ==> v[f.data[PageOf(n)]].bytes[o] == ERASED_BYTE
  {
    var j, off := PageOf(n), OffsetIn(n);
    forall o: nat | off <= o < DATA_SIZE ensures v[f.data[j]].bytes[o] == ERASED_BYTE {
      BytePlace(j, o);
      TimesMono(j + 1, |f.data|, DATA_SIZE);
      assert ByteAt(v, f, Start(j) + o) == ERASED_BYTE;
    }
  }

  /** More bytes in the last data page of a file. */
  lemma AppendMoreStep(lu: seq<Entry>, pg: seq<Page>, cat: Catalogue, pg': seq<Page>,
                       id: nat, x: nat, work: Page, h: nat, s: nat, chunk: seq<byte>, n: nat)
    requires Sizes(lu, pg) && Sizes(lu, pg') && x < SLOTS && h < SLOTS && work.IndexPage? && pg[h].IndexPage?
    requires Holds(lu, Growing(pg, x, work, h, n), cat) && id in cat && n == Length(cat[id].size) && OffsetIn(n) > 0
    requires |cat[id].ixs| > 0 && cat[id].ixs[0] == h && x in cat[id].ixs
    requires |cat[id].data| == PageOf(n) + 1 && cat[id].data[PageOf(n)] == s && s < SLOTS
    requires 0 < |chunk| && OffsetIn(n) + |chunk| <= DATA_SIZE
    requires pg[s].DataPage? && |pg[s].bytes| == DATA_SIZE
    requires pg' == pg[s := pg[s].(bytes := Program(pg[s].bytes, OffsetIn(n), chunk))]
    ensures pg'[h].IndexPage?
    ensures var f := cat[id];
            var f' := f.(size := Some(n + |chunk|));
            var v, v' := Growing(pg, x, work, h, n), Growing(pg', x, work, h, n + |chunk|);
            && Holds(lu, v', cat[id := f'])
            && Files(v', cat[id := f']) == Files(v, cat)[id := FileView(f.name, View(v, f).bytes + chunk)]
  {
    var f := cat[id];
    var j, off := PageOf(n), OffsetIn(n);
    var v, v' := Growing(pg, x, work, h, n), Growing(pg', x, work, h, n + |chunk|);
    assert FileOk(lu, v, id, f);
    FileSlotsDistinct(lu, v, id, f);
    assert DataOk(lu, v, id, f, j) && IndexOk(lu, v, id, f, 0);
    var bytes := pg[s].bytes;
    LastPageErased(v, f, n);
    ProgramErased(bytes, off, chunk);
    var bytes' := Program(bytes, off, chunk);
    assert Start(j) + off == n;
    assert v'[s] == v[s].(bytes := bytes');
    assert v'[h] == v[h].(size := Some(n + |chunk|));
    forall t: nat | t < SLOTS && t !in {s, h} ensures Kept(lu, v, lu, v', t) {
    }
    ExtendData(lu, v, cat, lu, v', id, bytes', n + |chunk|);
    assert bytes'[off..off + |chunk|] == chunk;
  }

  ghost predicate FdsSizesBut(fds: seq<Fd>, cat: Catalogue, id: nat)
  {
    forall i :: 0 <= i < |fds| && fds[i].id != id ==> FdSizeOk(fds[i], cat)
  }

  ghost predicate TightBut(cat: Catalogue, id: nat)
  {
    forall i :: i in cat && i != id ==> |cat[i].ixs| == IxCount(|cat[i].data|)
  }

  /** An append to object `id` has reached length `n`: `work` stands for its last
      index page, number `k`, in slot `x`. */
  ghost predicate Appending(fs: Spiffs, f: nat, id: nat, k: nat, x: nat, work: Page, n: nat, files: map<nat, FileView>)
    reads fs
  {
    && fs.LookupOk() && !fs.cleaning && OpenOn(fs, f, id)
    && x < SLOTS && |fs.cat[id].ixs| == k + 1 && fs.cat[id].ixs[k] == x
    && (var h := fs.cat[id].ixs[0];
        && h < SLOTS && CanProgram(fs.pg[x], work) && fs.pg[h].IndexPage?
        && Holds(fs.lu, Growing(fs.pg, x, work, h, n), fs.cat) && Files(Growing(fs.pg, x, work, h, n), fs.cat) == files)
    && Length(fs.cat[id].size) == n
    && TightBut(fs.cat, id) && FdsPagesOk(fs.fds, fs.cat) && FdsSizesBut(fs.fds, fs.cat, id)
  }

  /** The last index page is the one the last data page needs. */
  ghost predicate LastIndex(cat: Catalogue, id: nat, k: nat)
  {
    id in cat && |cat[id].data| > 0 && k == IxSpan(|cat[id].data| - 1)
  }

  function Grown(v: FileView, data: seq<byte>): FileView
  {
    v.(bytes := v.bytes + data)
  }

  /** The header in flash has length `m`, and the index pages in flash lead to the data
      pages below it.  With nothing appended since, index page `k`, in slot `x`, is as in
      the work buffer, and the descriptors know the length if they did before (`sized`). */
  ghost predicate InFlash(pg: seq<Page>, fds: seq<Fd>, cat: Catalogue, id: nat, k: nat, x: nat, work: Page, m: nat, n: nat, sized: bool)
  {
    && id in cat && |cat[id].ixs| > 0 && cat[id].ixs[0] < |pg| && x < |pg|
    && pg[cat[id].ixs[0]].IndexPage? && pg[cat[id].ixs[0]].size == SizeOf(m) && pg[x].IndexPage? && m <= n
    && (forall j: nat :: j < PagesFor(m) && IxSpan(j) == k ==>
          j < |cat[id].data| && IxEntry(j) < |pg[x].table| && pg[x].table[IxEntry(j)] == At(cat[id].data[j]))
    && (m == n ==> pg[x] == work && (sized ==> FdsSizesOk(fds, cat)))
  }

  /** What has been appended since does not matter to what was in flash. */
  lemma InFlashMore(pg: seq<Page>, fds: seq<Fd>, cat: Catalogue, pg': seq<Page>, fds': seq<Fd>, cat': Catalogue,
                    id: nat, k: nat, x: nat, work: Page, work': Page, m: nat, n: nat, n': nat, sized: bool)
    requires InFlash(pg, fds, cat, id, k, x, work, m, n, sized) && n < n'
    requires id in cat' && cat'[id].ixs == cat[id].ixs && cat[id].data <= cat'[id].data
    requires cat[id].ixs[0] < |pg'| && x < |pg'| && pg'[x] == pg[x] && pg'[cat[id].ixs[0]] == pg[cat[id].ixs[0]]
    ensures InFlash(pg', fds', cat', id, k, x, work', m, n', sized)
  {
  }

  /** With the image consistent as it is in flash, all of the file is there. */
  lemma AllInFlash(lu: seq<Entry>, pg: seq<Page>, fds: seq<Fd>, cat: Catalogue, id: nat, k: nat, x: nat, n: nat, sized: bool)
    requires Holds(lu, pg, cat) && id in cat && k < |cat[id].ixs| && cat[id].ixs[k] == x && Length(cat[id].size) == n
    requires sized ==> FdsSizesOk(fds, cat)
    ensures x < |pg| && InFlash(pg, fds, cat, id, k, x, pg[x], n, n, sized)
  {
    var f := cat[id];
    assert FileOk(lu, pg, id, f);
    assert IndexOk(lu, pg, id, f, k) && IndexOk(lu, pg, id, f, 0);
    forall j: nat | j < PagesFor(n) && IxSpan(j) == k
      ensures j < |f.data| && IxEntry(j) < |pg[x].table| && pg[x].table[IxEntry(j)] == At(f.data[j])
    {
      IndexPlace(j);
    }
  }

  /** What is in flash leads to the first `m` bytes. */
  lemma FlashLeads(lu: seq<Entry>, pg: seq<Page>, fds: seq<Fd>, cat: Catalogue, id: nat, k: nat, x: nat, work: Page, m: nat, n: nat,
                   sized: bool, i: nat)
    requires x < |pg| && InFlash(pg, fds, cat, id, k, x, work, m, n, sized) && k < |cat[id].ixs| && cat[id].ixs[k] == x
    requires work.IndexPage? && Holds(lu, Growing(pg, x, work, cat[id].ixs[0], n), cat) && Length(cat[id].size) == n && i < m
    ensures Shows(lu, pg, id, cat[id], i, ByteAt(Growing(pg, x, work, cat[id].ixs[0], n), cat[id], i))
  {
    var f := cat[id];
    var v := Growing(pg, x, work, f.ixs[0], n);
    var j := PageOf(i);
    assert FileOk(lu, v, id, f);
    FileSlotsDistinct(lu, v, id, f);
    QuotMono(i, m - 1, DATA_SIZE);
    QuotMono(m - 1, n - 1, DATA_SIZE);
    IndexOfPage(lu, v, id, f, j);
    assert IndexOk(lu, v, id, f, IxSpan(j)) && DataOk(lu, v, id, f, j);
    assert Found(lu, pg, id, f, j, f.data[j]);
  }

  /** The image is as it was before the bytes behind the first `m`. */
  lemma FlashLeft(fs: Spiffs, f: nat, id: nat, k: nat, x: nat, work: Page, m: nat, n: nat, sized: bool, files: map<nat, FileView>)
    requires Appending(fs, f, id, k, x, work, n, files) && InFlash(fs.pg, fs.fds, fs.cat, id, k, x, work, m, n, sized)
    ensures id in files && m <= |files[id].bytes| && LeftOf(fs, id, files, files[id].(bytes := files[id].bytes[..m]), {})
  {
    hide FlashState, LookupState, FdsPagesOk, FdsSizesBut, TightBut, Shows, Found;
    var g := fs.cat[id];
    var h := g.ixs[0];
    var v := Growing(fs.pg, x, work, h, n);
    FileOf(fs.lu, v, fs.cat, id);
    assert Files(v, fs.cat).Keys == fs.cat.Keys;
    assert files[id] == View(v, g);
    FlashOthers(fs.lu, fs.pg, fs.cat, id, k, x, work, n);
    forall l: nat | l < |g.ixs| ensures IndexFound(fs.lu, fs.pg, id, g, l, files[id].name, m) {
      assert IndexOk(fs.lu, v, id, g, l) && IndexOk(fs.lu, v, id, g, k) && IndexOk(fs.lu, v, id, g, 0);
    }
    forall i: nat | i < m ensures Shows(fs.lu, fs.pg, id, g, i, files[id].bytes[i]) {
      FlashLeads(fs.lu, fs.pg, fs.fds, fs.cat, id, k, x, work, m, n, sized, i);
    }
  }

  lemma FlashOthers(lu: seq<Entry>, pg: seq<Page>, cat: Catalogue, id: nat, k: nat, x: nat, work: Page, n: nat)
    requires x < |pg| && id in cat && k < |cat[id].ixs| && cat[id].ixs[k] == x && cat[id].ixs[0] < |pg|
    requires work.IndexPage? && pg[cat[id].ixs[0]].IndexPage? && Holds(lu, Growing(pg, x, work, cat[id].ixs[0], n), cat)
    ensures forall i :: i in cat && i != id ==>
              FileOk(lu, pg, i, cat[i]) && View(pg, cat[i]) == View(Growing(pg, x, work, cat[id].ixs[0], n), cat[i])
  {
    var v := Growing(pg, x, work, cat[id].ixs[0], n);
    FileOf(lu, v, cat, id);
    assert IndexOk(lu, v, id, cat[id], k) && IndexOk(lu, v, id, cat[id], 0);
    forall i | i in cat && i != id ensures FileOk(lu, pg, i, cat[i]) && View(pg, cat[i]) == View(v, cat[i]) {
      FileOf(lu, v, cat, i);
      FileKept(lu, v, lu, pg, i, cat[i]);
    }
  }

  /** Writes a chunk at the end of the file: to a new page, or to the last page. */
  method AppendChunk(fs: Spiffs, f: nat, id: nat, k: nat, x: nat, work: Page, n: nat, chunk: seq<byte>,
                     ghost files: map<nat, FileView>) returns (r: Status, newWork: Page)
    requires Appending(fs, f, id, k, x, work, n, files) && id in files
    requires k == IxSpan(PageOf(n)) && 0 < |chunk| && OffsetIn(n) + |chunk| <= DATA_SIZE
    modifies fs`lu, fs`pg, fs`flash, fs`trace, fs`freeBlocks, fs`eraseCount, fs`maxEraseCount, fs`pDeleted,
             fs`freeBlock, fs`freeEntry, fs`pAllocated, fs`cat
    ensures fs.LookupOk() && (r == Ok || r == ErrFull || r == ErrNotFound)
    ensures r == Ok ==>
              && Appending(fs, f, id, k, x, newWork, n + |chunk|, files[id := Grown(files[id], chunk)])
              && LastIndex(fs.cat, id, k) && fs.cat[id].ixs == old(fs.cat)[id].ixs && fs.pg[x] == old(fs.pg)[x]
    ensures r != Ok ==>
              && Appending(fs, f, id, k, x, work, n, files) && newWork == work
              && fs.cat == old(fs.cat) && fs.pg[x] == old(fs.pg)[x]
    ensures id in fs.cat && id in old(fs.cat)
    ensures fs.cat[id].ixs[0] < |fs.pg| && fs.cat[id].ixs[0] < |old(fs.pg)| && fs.pg[fs.cat[id].ixs[0]] == old(fs.pg)[fs.cat[id].ixs[0]]
    ensures old(fs.cat)[id].data <= fs.cat[id].data && fs.cat[id].ixs == old(fs.cat)[id].ixs
    ensures if OffsetIn(n) == 0 then Took(r, old(fs.Space()), fs.Space()) else r == Ok && fs.Space() == old(fs.Space())
    ensures Spared(old(fs.lu), fs.lu, {})
  {
    hide Took, FlashState, LookupState;
    if OffsetIn(n) == 0 {
      r, newWork := AppendNewPage(fs, f, id, k, x, work, n, chunk, files);
    } else {
      r, newWork := Ok, work;
      AppendToPage(fs, f, id, k, x, work, n, chunk, files);
    }
  }

  /** A chunk that starts a page. */
  method AppendNewPage(fs: Spiffs, f: nat, id: nat, k: nat, x: nat, work: Page, n: nat, chunk: seq<byte>,
                       ghost files: map<nat, FileView>) returns (r: Status, newWork: Page)
    requires Appending(fs, f, id, k, x, work, n, files) && id in files
    requires k == IxSpan(PageOf(n)) && 0 < |chunk| <= DATA_SIZE && OffsetIn(n) == 0
    modifies fs`lu, fs`pg, fs`flash, fs`trace, fs`freeBlocks, fs`eraseCount, fs`maxEraseCount, fs`pDeleted,
             fs`freeBlock, fs`freeEntry, fs`pAllocated, fs`cat
    ensures fs.LookupOk() && (r == Ok || r == ErrFull || r == ErrNotFound)
    ensures r == Ok ==>
              && Appending(fs, f, id, k, x, newWork, n + |chunk|, files[id := Grown(files[id], chunk)])
              && LastIndex(fs.cat, id, k) && fs.cat[id].ixs == old(fs.cat)[id].ixs && fs.pg[x] == old(fs.pg)[x]
    ensures r != Ok ==>
              && Appending(fs, f, id, k, x, work, n, files) && newWork == work
              && fs.cat == old(fs.cat) && fs.pg[x] == old(fs.pg)[x]
    ensures id in fs.cat && id in old(fs.cat)
    ensures fs.cat[id].ixs[0] < |fs.pg| && fs.cat[id].ixs[0] < |old(fs.pg)| && fs.pg[fs.cat[id].ixs[0]] == old(fs.pg)[fs.cat[id].ixs[0]]
    ensures old(fs.cat)[id].data <= fs.cat[id].data && fs.cat[id].ixs == old(fs.cat)[id].ixs
    ensures Took(r, old(fs.Space()), fs.Space())
    ensures Spared(old(fs.lu), fs.lu, {})
  {
    hide Supply, FreeSlots, AnyDeletedBlock, FlashState, LookupState, Program, Padded, Holds, FdsPagesOk, FdsSizesBut, FileOk, Spared, Took;
    newWork := work;
    var j := PageOf(n);
    ghost var h := fs.cat[id].ixs[0];
    NextPlaceIsFree(fs.lu, fs.pg, fs.cat, id, k, x, work, n);
    var d;
    r, d := fs.AllocateData(LiveHeader(id, false, j), chunk, true);
    if r != Ok {
      GrowingKept(old(fs.lu), old(fs.pg), fs.lu, fs.pg, fs.cat, x, work, h, n);
      NoneDeleted(old(fs.lu), old(fs.pg), fs.lu, fs.pg, {});
      return;
    }
    FreshIsPadded(chunk);
    NoneDeleted(old(fs.lu), old(fs.pg), fs.lu, fs.pg, {d});
    assert Kept(old(fs.lu), old(fs.pg), fs.lu, fs.pg, x) && Kept(old(fs.lu), old(fs.pg), fs.lu, fs.pg, h);
    newWork := work.(table := work.table[IxEntry(j) := At(d)]);
    AppendNewStep(old(fs.lu), old(fs.pg), fs.cat, fs.lu, fs.pg, id, k, x, work, newWork, h, d, chunk, n);
    GrowKeepsFds(fs.fds, fs.cat, id, fs.cat[id].(data := fs.cat[id].data + [d], size := Some(n + |chunk|)));
    fs.cat := fs.cat[id := fs.cat[id].(data := fs.cat[id].data + [d], size := Some(n + |chunk|))];
  }

  lemma SparedSelf(lu: seq<Entry>)
    ensures Spared(lu, lu, {})
  {
  }

  /** Taking pages deletes none. */
  lemma NoneDeleted(lu: seq<Entry>, pg: seq<Page>, lu': seq<Entry>, pg': seq<Page>, taken: set<nat>)
    requires Sizes(lu, pg) && Sizes(lu', pg') && KeptBut(lu, pg, lu', pg', taken)
    requires forall s :: s in taken ==> s < SLOTS && lu'[s].Used?
    ensures Spared(lu, lu', {})
  {
    forall t: nat | t < SLOTS && t !in taken ensures lu'[t].Deleted? ==> lu[t].Deleted? {
      assert Kept(lu, pg, lu', pg', t);
    }
  }

  /** Erased deleted pages do not matter to an image that is being worked on. */
  lemma GrowingKept(lu: seq<Entry>, pg: seq<Page>, lu': seq<Entry>, pg': seq<Page>, cat: Catalogue,
                    x: nat, work: Page, h: nat, n: nat)
    requires Sizes(lu, pg) && Sizes(lu', pg') && KeptBut(lu, pg, lu', pg', {})
    requires x < SLOTS && h < SLOTS && lu[x].Used? && lu[h].Used? && work.IndexPage? && pg[h].IndexPage?
    requires Holds(lu, Growing(pg, x, work, h, n), cat)
    ensures lu'[x] == lu[x] && pg'[x] == pg[x] && lu'[h] == lu[h] && pg'[h] == pg[h]
    ensures Holds(lu', Growing(pg', x, work, h, n), cat)
    ensures Files(Growing(pg', x, work, h, n), cat) == Files(Growing(pg, x, work, h, n), cat)
  {
    assert Kept(lu, pg, lu', pg', x) && Kept(lu, pg, lu', pg', h);
    var v, v' := Growing(pg, x, work, h, n), Growing(pg', x, work, h, n);
    forall t: nat | t < SLOTS ensures Kept(lu, v, lu', v', t) {
      assert Kept(lu, pg, lu', pg', t);
    }
    WipeStep(lu, v, cat, lu', v');
  }

  lemma NextPlaceIsFree(lu: seq<Entry>, pg: seq<Page>, cat: Catalogue, id: nat, k: nat, x: nat, work: Page, n: nat)
    requires x < |pg| && id in cat && k < |cat[id].ixs| && k == IxSpan(PageOf(n)) && cat[id].ixs[k] == x
    requires var h := cat[id].ixs[0];
             h < |pg| && work.IndexPage? && pg[h].IndexPage? && Holds(lu, Growing(pg, x, work, h, n), cat)
    requires n == Length(cat[id].size) && OffsetIn(n) == 0
    ensures IxEntry(PageOf(n)) < |work.table| && work.table[IxEntry(PageOf(n))] == NoPage
    ensures |lu| == |pg| && lu[x].Used? && cat[id].ixs[0] < |lu| && lu[cat[id].ixs[0]].Used?
  {
    var h := cat[id].ixs[0];
    var v := Growing(pg, x, work, h, n);
    assert FileOk(lu, v, id, cat[id]);
    assert IndexOk(lu, v, id, cat[id], k) && IndexOk(lu, v, id, cat[id], 0);
    PagesOfLength(cat[id], n);
    TableAdd(cat[id].data, 0, k);
  }

  lemma GrowKeepsFds(fds: seq<Fd>, cat: Catalogue, id: nat, g: File)
    requires id in cat && g.ixs == cat[id].ixs && FdsPagesOk(fds, cat) && FdsSizesBut(fds, cat, id)
    ensures FdsPagesOk(fds, cat[id := g]) && FdsSizesBut(fds, cat[id := g], id)
  {
    forall i | 0 <= i < |fds| ensures FdPagesOk(fds[i], cat[id := g]) && (fds[i].id != id ==> FdSizeOk(fds[i], cat[id := g])) {
      assert FdPagesOk(fds[i], cat);
      assert fds[i].id != id ==> FdSizeOk(fds[i], cat);
    }
  }

  /** A chunk that fills free bytes of the last page. */
  method AppendToPage(fs: Spiffs, f: nat, id: nat, k: nat, x: nat, work: Page, n: nat, chunk: seq<byte>,
                      ghost files: map<nat, FileView>)
    requires Appending(fs, f, id, k, x, work, n, files) && id in files
    requires k == IxSpan(PageOf(n)) && 0 < |chunk| && 0 < OffsetIn(n) && OffsetIn(n) + |chunk| <= DATA_SIZE
    modifies fs`pg, fs`flash, fs`trace, fs`cat
    ensures Appending(fs, f, id, k, x, work, n + |chunk|, files[id := Grown(files[id], chunk)])
    ensures LastIndex(fs.cat, id, k) && fs.cat[id].ixs == old(fs.cat)[id].ixs && fs.pg[x] == old(fs.pg)[x]
    ensures id in fs.cat && id in old(fs.cat)
    ensures fs.cat[id].ixs[0] < |fs.pg| && fs.cat[id].ixs[0] < |old(fs.pg)| && fs.pg[fs.cat[id].ixs[0]] == old(fs.pg)[fs.cat[id].ixs[0]]
    ensures old(fs.cat)[id].data <= fs.cat[id].data && fs.cat[id].ixs == old(fs.cat)[id].ixs
  {
    hide FlashState, LookupState, Program, OnlyClears, SlackErased, FdsPagesOk, FdsSizesOk;
    var j := PageOf(n);
    ghost var h := fs.cat[id].ixs[0];
    ghost var v := Growing(fs.pg, x, work, h, n);
    assert FileOk(fs.lu, v, id, fs.cat[id]);
    PagesOfLength(fs.cat[id], n);
    IndexOfPage(fs.lu, v, id, fs.cat[id], j);
    assert IndexOk(fs.lu, v, id, fs.cat[id], k) && IndexOk(fs.lu, v, id, fs.cat[id], 0);
    assert DataOk(fs.lu, v, id, fs.cat[id], j);
    var s := work.table[IxEntry(j)].slot;
    LastPageErased(v, fs.cat[id], n);
    ErasedTakesAll(fs.pg[s].bytes, OffsetIn(n), chunk);
    fs.ProgramData(s, OffsetIn(n), chunk, Update);
    AppendMoreStep(fs.lu, old(fs.pg), fs.cat, fs.pg, id, x, work, h, s, chunk, n);
    GrowKeepsFds(fs.fds, fs.cat, id, fs.cat[id].(size := Some(n + |chunk|)));
    fs.cat := fs.cat[id := fs.cat[id].(size := Some(n + |chunk|))];
  }

  // ---------------------------------------------------------------------------
  // Storing the work buffer and the new length

  /** The work buffer and the length are in flash; `sized` says that every descriptor
      knows the length. */
  ghost predicate Saved(fs: Spiffs, f: nat, id: nat, n: nat, files: map<nat, FileView>, sized: bool)
    reads fs
  {
    && fs.LookupOk() && !fs.cleaning && OpenOn(fs, f, id)
    && Holds(fs.lu, fs.pg, fs.cat) && Files(fs.pg, fs.cat) == files
    && Length(fs.cat[id].size) == n
    && FdsPagesOk(fs.fds, fs.cat) && FdsSizesBut(fs.fds, fs.cat, id)
    && (sized ==> FdsSizesOk(fs.fds, fs.cat))
  }

  /** The same, and no object has more index pages than it needs. */
  ghost predicate Stored(fs: Spiffs, f: nat, id: nat, n: nat, files: map<nat, FileView>, sized: bool)
    reads fs
  {
    Saved(fs, f, id, n, files, sized) && Tight(fs.cat)
  }

  lemma TightAgain(cat: Catalogue, id: nat, k: nat)
    requires TightBut(cat, id) && LastIndex(cat, id, k) && |cat[id].ixs| == k + 1
    ensures Tight(cat)
  {
  }

  /** An event about a header with its size brings every descriptor of the object up to date. */
  lemma EventSetsSizes(fds: seq<Fd>, cat: Catalogue, ev: Event, id: nat, d: nat)
    requires id in cat && |cat[id].ixs| > 0 && ev != IxDeleted && cat[id].size != Some(0)
    requires FdsPagesOk(fds, cat) && FdsSizesBut(fds, cat, id)
    ensures var cat' := cat[id := cat[id].(ixs := cat[id].ixs[0 := d])];
            var fds' := EventOnFds(fds, ev, id, 0, d, Some(cat[id].size));
            FdsPagesOk(fds', cat') && FdsSizesOk(fds', cat') && FdsSizesBut(fds', cat', id) && FdsKept(fds, fds')
  {
    var cat' := cat[id := cat[id].(ixs := cat[id].ixs[0 := d])];
    var fds' := EventOnFds(fds, ev, id, 0, d, Some(cat[id].size));
    forall i | 0 <= i < |fds'| ensures FdPagesOk(fds'[i], cat') && FdSizeOk(fds'[i], cat') {
      assert FdPagesOk(fds[i], cat);
      assert fds[i].id != id ==> FdSizeOk(fds[i], cat);
    }
  }

  /** An event about a page that has not moved. */
  lemma EventInPlace(fds: seq<Fd>, cat: Catalogue, ev: Event, id: nat, k: nat)
    requires id in cat && k < |cat[id].ixs| && ev != IxDeleted
    requires FdsPagesOk(fds, cat) && FdsSizesBut(fds, cat, id)
    ensures var fds' := EventOnFds(fds, ev, id, k, cat[id].ixs[k], None);
            FdsPagesOk(fds', cat) && FdsSizesBut(fds', cat, id) && FdsKept(fds, fds')
  {
    var fds' := EventOnFds(fds, ev, id, k, cat[id].ixs[k], None);
    forall i | 0 <= i < |fds'| ensures FdPagesOk(fds'[i], cat) && (fds'[i].id != id ==> FdSizeOk(fds'[i], cat)) {
      assert FdPagesOk(fds[i], cat);
      assert fds[i].id != id ==> FdSizeOk(fds[i], cat);
    }
  }

  /** A header of an object that was empty is programmed in place. */
  method StoreFresh(fs: Spiffs, f: nat, id: nat, x: nat, work: Page, n: nat, last: bool, ghost files: map<nat, FileView>)
    requires Appending(fs, f, id, 0, x, work, n, files) && LastIndex(fs.cat, id, 0) && n > 0
    requires fs.pg[x].IndexPage? && fs.pg[x].size == None
    modifies fs`pg, fs`flash, fs`trace, fs`fds
    ensures Stored(fs, f, id, n, files, last) && FdsKept(old(fs.fds), fs.fds)
  {
    hide FlashState, LookupState, FdsPagesOk, FdsSizesBut, FdsSizesOk, FdsKept, Tight, TightBut, EventOnFd;
    assert FileOk(fs.lu, Growing(fs.pg, x, work, x, n), id, fs.cat[id]);
    assert IndexOk(fs.lu, Growing(fs.pg, x, work, x, n), id, fs.cat[id], 0);
    FdsKeptSelf(fs.fds);
    TightAgain(fs.cat, id, 0);
    var page := work.(size := Some(n));
    assert fs.pg[x := page] == Growing(fs.pg, x, work, x, n);
    fs.ProgramIndex(x, page);
    if last {
      EventSetsSizes(fs.fds, fs.cat, IxHeaderUpdated, id, x);
      assert fs.cat[id].ixs[0 := x] == fs.cat[id].ixs;
      assert fs.cat[id := fs.cat[id].(ixs := fs.cat[id].ixs[0 := x])] == fs.cat;
      fs.CbObjectEvent(IxHeaderUpdated, id, 0, x, Some(page.size));
      OpenAfterEvent(old(fs.fds), fs.fds, f);
    }
  }

  lemma OpenAfterEvent(fds: seq<Fd>, fds': seq<Fd>, f: nat)
    requires FdsKept(fds, fds') && f < |fds|
    ensures f < |fds'| && Tracked(fds'[f]) == Tracked(fds[f]) && fds'[f].id == fds[f].id
  {
  }

  /** A header goes to a new page with the new length. */
  method StoreHeader(fs: Spiffs, f: nat, id: nat, x: nat, work: Page, n: nat, ghost m: nat, ghost sized: bool, ghost files: map<nat, FileView>) returns (r: Status)
    requires Appending(fs, f, id, 0, x, work, n, files) && LastIndex(fs.cat, id, 0) && n > 0
    requires InFlash(fs.pg, fs.fds, fs.cat, id, 0, x, work, m, n, sized)
    modifies fs`lu, fs`pg, fs`flash, fs`trace, fs`freeBlocks, fs`eraseCount, fs`maxEraseCount, fs`pDeleted,
             fs`freeBlock, fs`freeEntry, fs`pAllocated, fs`fds, fs`cat
    ensures fs.LookupOk() && (r == Ok || r == ErrFull || r == ErrNotFound)
    ensures r == Ok ==> Stored(fs, f, id, n, files, true) && FdsKept(old(fs.fds), fs.fds)
                        && |fs.cat[id].ixs| == |old(fs.cat)[id].ixs|
    ensures r != Ok ==>
              && Appending(fs, f, id, 0, x, work, n, files) && fs.fds == old(fs.fds)
              && InFlash(fs.pg, fs.fds, fs.cat, id, 0, x, work, m, n, sized)
    ensures Took(r, old(fs.Space()), fs.Space())
  {
    hide DeletedSlots, Took, Spared, Supply, FreeSlots, AnyDeletedBlock, FlashState, LookupState, FdsPagesOk, FdsSizesBut, FdsSizesOk, FdsKept, Tight, TightBut, EventOnFd;
    ghost var v := Growing(fs.pg, x, work, x, n);
    assert FileOk(fs.lu, v, id, fs.cat[id]);
    assert IndexOk(fs.lu, v, id, fs.cat[id], 0);
    TightAgain(fs.cat, id, 0);
    var d;
    GrowingSlots(fs.lu, fs.pg, fs.cat, id, 0, x, work, n);
    r, d := fs.UpdateIndexHdr(id, x, Some(work), Some(Some(n)));
    if r == Ok {
      HeaderMoved(old(fs.lu), old(fs.pg), v, fs.cat, fs.lu, fs.pg, id, d);
      EventSetsSizes(old(fs.fds), fs.cat, IxUpdated, id, d);
      OpenAfterEvent(old(fs.fds), fs.fds, f);
      fs.cat := fs.cat[id := fs.cat[id].(ixs := fs.cat[id].ixs[0 := d])];
    } else {
      GrowingKept(old(fs.lu), old(fs.pg), fs.lu, fs.pg, fs.cat, x, work, x, n);
    }
  }

  /** The header page of `id`, as image `v` has it, has moved to `d`. */
  lemma HeaderMoved(lu: seq<Entry>, pg: seq<Page>, v: seq<Page>, cat: Catalogue, lu': seq<Entry>, pg': seq<Page>, id: nat, d: nat)
    requires Sizes(lu, pg) && Sizes(lu', pg') && Holds(lu, v, cat) && id in cat && |cat[id].ixs| > 0
    requires var h := cat[id].ixs[0];
             && h < SLOTS && d < SLOTS && d != h && !lu[d].Used? && KeptBut(lu, pg, lu', pg', {d, h})
             && lu'[d] == Used(id, true) && pg'[d] == v[h] && lu'[h] == Deleted
             && forall t: nat :: t < SLOTS && t != h ==> v[t] == pg[t]
    ensures var cat' := cat[id := cat[id].(ixs := cat[id].ixs[0 := d])];
            Holds(lu', pg', cat') && Files(pg', cat') == Files(v, cat) && (Tight(cat) ==> Tight(cat'))
  {
    forall t: nat | t < SLOTS && t !in {d, cat[id].ixs[0]} ensures Kept(lu, v, lu', pg', t) {
      assert Kept(lu, pg, lu', pg', t);
    }
    MoveIndex(lu, v, cat, lu', pg', id, 0, d);
  }

  /** The slots of a growing file that the work buffer and the header stand for. */
  lemma GrowingSlots(lu: seq<Entry>, pg: seq<Page>, cat: Catalogue, id: nat, k: nat, x: nat, work: Page, n: nat)
    requires x < |pg| && id in cat && k < |cat[id].ixs| && cat[id].ixs[k] == x
    requires var h := cat[id].ixs[0];
             h < |pg| && work.IndexPage? && pg[h].IndexPage? && Holds(lu, Growing(pg, x, work, h, n), cat)
    ensures |lu| == |pg| == SLOTS && lu[x] == Used(id, true) && lu[cat[id].ixs[0]] == Used(id, true)
    ensures k > 0 ==> x != cat[id].ixs[0]
  {
    var v := Growing(pg, x, work, cat[id].ixs[0], n);
    assert FileOk(lu, v, id, cat[id]);
    assert IndexOk(lu, v, id, cat[id], k) && IndexOk(lu, v, id, cat[id], 0);
  }

  /** An event about an index page after the header tells nothing of lengths. */
  lemma EventBehindHeader(fds: seq<Fd>, cat: Catalogue, id: nat, k: nat, x: nat)
    requires k > 0 && FdsSizesOk(fds, cat)
    ensures FdsSizesOk(EventOnFds(fds, IxUpdated, id, k, x, None), cat)
  {
    var fds' := EventOnFds(fds, IxUpdated, id, k, x, None);
    forall i | 0 <= i < |fds'| ensures FdSizeOk(fds'[i], cat) {
      assert FdSizeOk(fds[i], cat);
    }
  }

  /** With the work buffer programmed the image that is worked on is the same. */
  lemma ProgrammedGrows(pg: seq<Page>, pg': seq<Page>, x: nat, work: Page, h: nat, n: nat)
    requires x < |pg| && h < |pg| && work.IndexPage? && pg[h].IndexPage? && pg' == pg[x := work] && CanProgram(pg[x], work)
    ensures pg'[h].IndexPage? && Growing(pg', x, work, h, n) == Growing(pg, x, work, h, n) && CanProgram(pg'[x], work)
  {
  }

  /** An index page after the header is programmed in place. */
  method ProgramLast(fs: Spiffs, f: nat, id: nat, k: nat, x: nat, work: Page, n: nat, ghost files: map<nat, FileView>)
    requires Appending(fs, f, id, k, x, work, n, files)
    modifies fs`pg, fs`flash, fs`trace, fs`fds
    ensures fs.LookupOk() && fs.pg == old(fs.pg)[x := work]
    ensures FdsPagesOk(fs.fds, fs.cat) && FdsSizesBut(fs.fds, fs.cat, id) && FdsKept(old(fs.fds), fs.fds)
    ensures Appending(fs, f, id, k, x, work, n, files)
    ensures FdsSizesOk(old(fs.fds), fs.cat) && k > 0 ==> FdsSizesOk(fs.fds, fs.cat)
  {
    hide FlashState, LookupState, FdsPagesOk, FdsSizesBut, FdsKept, EventOnFd, Holds, TightBut;
    GrowingSlots(fs.lu, fs.pg, fs.cat, id, k, x, work, n);
    fs.ProgramIndex(x, work);
    EventInPlace(fs.fds, fs.cat, IxUpdated, id, k);
    fs.CbObjectEvent(IxUpdated, id, k, x, None);
    OpenAfterEvent(old(fs.fds), fs.fds, f);
    if k > 0 && FdsSizesOk(old(fs.fds), fs.cat) {
      EventBehindHeader(old(fs.fds), fs.cat, id, k, x);
    }
    ProgrammedGrows(old(fs.pg), fs.pg, x, work, fs.cat[id].ixs[0], n);
  }

  /** Programming the work buffer does not take away what was in flash. */
  lemma InFlashProgrammed(pg: seq<Page>, fds: seq<Fd>, cat: Catalogue, fds': seq<Fd>, id: nat, k: nat, x: nat, work: Page,
                          m: nat, n: nat, sized: bool)
    requires InFlash(pg, fds, cat, id, k, x, work, m, n, sized) && x != cat[id].ixs[0] && CanProgram(pg[x], work)
    requires FdsSizesOk(fds, cat) ==> FdsSizesOk(fds', cat)
    ensures InFlash(pg[x := work], fds', cat, id, k, x, work, m, n, sized)
  {
    forall j: nat | j < PagesFor(m) && IxSpan(j) == k ensures IxEntry(j) < |work.table| && work.table[IxEntry(j)] == At(cat[id].data[j]) {
      assert CanSetRef(pg[x].table[IxEntry(j)], work.table[IxEntry(j)]);
    }
  }

  /** With the work buffer in flash only the length in the header lags behind. */
  lemma PendingHeader(fs: Spiffs, f: nat, id: nat, k: nat, x: nat, work: Page, n: nat, files: map<nat, FileView>)
    requires Appending(fs, f, id, k, x, work, n, files) && fs.pg[x] == work && n > 0
    ensures var h := fs.cat[id].ixs[0];
            && h < SLOTS && h < |fs.lu| && fs.lu[h].Used? && fs.lu[x].Used?
            && Growing(fs.pg, x, work, h, n) == fs.pg[h := fs.pg[h].(size := Some(n))]
  {
    hide FlashState, LookupState, FdsPagesOk, FdsSizesBut, TightBut, Holds;
    GrowingSlots(fs.lu, fs.pg, fs.cat, id, k, x, work, n);
    assert fs.pg[x := work] == fs.pg;
  }

  /** An index page after the header is programmed in place, and the header gets the
      new length on a new page.  If the index page is the one the last data page needs,
      the object has the index pages it needs. */
  method StoreLast(fs: Spiffs, f: nat, id: nat, k: nat, x: nat, work: Page, n: nat, ghost m: nat, ghost sized: bool, ghost files: map<nat, FileView>) returns (r: Status)
    requires Appending(fs, f, id, k, x, work, n, files) && n > 0 && k > 0
    requires InFlash(fs.pg, fs.fds, fs.cat, id, k, x, work, m, n, sized)
    modifies fs`lu, fs`pg, fs`flash, fs`trace, fs`freeBlocks, fs`eraseCount, fs`maxEraseCount, fs`pDeleted,
             fs`freeBlock, fs`freeEntry, fs`pAllocated, fs`fds, fs`cat
    ensures fs.LookupOk() && (r == Ok || r == ErrFull || r == ErrNotFound)
    ensures r == Ok ==> Saved(fs, f, id, n, files, true) && FdsKept(old(fs.fds), fs.fds)
                        && |fs.cat[id].ixs| == |old(fs.cat)[id].ixs| && fs.cat[id].data == old(fs.cat)[id].data
                        && (LastIndex(old(fs.cat), id, k) ==> Tight(fs.cat))
    ensures r != Ok ==>
              && Appending(fs, f, id, k, x, work, n, files) && FdsKept(old(fs.fds), fs.fds)
              && InFlash(fs.pg, fs.fds, fs.cat, id, k, x, work, m, n, sized)
    ensures Took(r, old(fs.Space()), fs.Space())
  {
    hide NoneFree, SlackErased, AllDeleted, Stored, Saved, LastIndex, Files, SurePages, DeletedSlots, Took, Spared, Supply, FreeSlots, AnyDeletedBlock, FlashState, LookupState, FdsPagesOk, FdsSizesBut, FdsSizesOk, FdsKept, Tight, TightBut, Holds;
    GrowingSlots(fs.lu, fs.pg, fs.cat, id, k, x, work, n);
    if LastIndex(fs.cat, id, k) {
      TightAgain(fs.cat, id, k);
    }
    ProgramLast(fs, f, id, k, x, work, n, files);
    ghost var lu1, pg1, fds1 := fs.lu, fs.pg, fs.fds;
    ghost var h := fs.cat[id].ixs[0];
    InFlashProgrammed(old(fs.pg), old(fs.fds), fs.cat, fs.fds, id, k, x, work, m, n, sized);
    PendingHeader(fs, f, id, k, x, work, n, files);
    r := StoreLength(fs, f, id, n, files);
    if r == Ok {
      FdsKeptChain(old(fs.fds), fds1, fs.fds);
    } else {
      GrowingKept(lu1, pg1, fs.lu, fs.pg, fs.cat, x, work, h, n);
    }
  }

  /** The header of an object gets the new length on a new page. */
  method StoreLength(fs: Spiffs, f: nat, id: nat, n: nat, ghost files: map<nat, FileView>) returns (r: Status)
    requires fs.LookupOk() && !fs.cleaning && OpenOn(fs, f, id) && n > 0
    requires |fs.cat[id].ixs| > 0 && Length(fs.cat[id].size) == n
    requires var h := fs.cat[id].ixs[0];
             && h < SLOTS && fs.lu[h].Used? && fs.pg[h].IndexPage?
             && var v := fs.pg[h := fs.pg[h].(size := Some(n))];
                Holds(fs.lu, v, fs.cat) && Files(v, fs.cat) == files
    requires FdsPagesOk(fs.fds, fs.cat) && FdsSizesBut(fs.fds, fs.cat, id)
    modifies fs`lu, fs`pg, fs`flash, fs`trace, fs`freeBlocks, fs`eraseCount, fs`maxEraseCount, fs`pDeleted,
             fs`freeBlock, fs`freeEntry, fs`pAllocated, fs`fds, fs`cat
    ensures fs.LookupOk() && (r == Ok || r == ErrFull || r == ErrNotFound)
    ensures r == Ok ==> Saved(fs, f, id, n, files, true) && FdsKept(old(fs.fds), fs.fds)
                        && |fs.cat[id].ixs| == |old(fs.cat)[id].ixs| && fs.cat[id].data == old(fs.cat)[id].data
                        && (Tight(old(fs.cat)) ==> Tight(fs.cat))
    ensures r != Ok ==> fs.fds == old(fs.fds) && fs.cat == old(fs.cat) && Sizes(fs.lu, fs.pg) && KeptBut(old(fs.lu), old(fs.pg), fs.lu, fs.pg, {})
    ensures Took(r, old(fs.Space()), fs.Space())
  {
    hide FlashState, LookupState, FdsPagesOk, FdsSizesBut, FdsSizesOk, FdsKept, Tight, EventOnFd, Holds;
    ghost var h := fs.cat[id].ixs[0];
    ghost var v := fs.pg[h := fs.pg[h].(size := Some(n))];
    HeaderOfFd(fs, f, id);
    var d;
    r, d := fs.UpdateIndexHdr(id, fs.fds[f].hdr, None, Some(Some(n)));
    if r == Ok {
      HeaderMoved(old(fs.lu), old(fs.pg), v, fs.cat, fs.lu, fs.pg, id, d);
      EventSetsSizes(old(fs.fds), fs.cat, IxHeaderUpdated, id, d);
      OpenAfterEvent(old(fs.fds), fs.fds, f);
      fs.cat := fs.cat[id := fs.cat[id].(ixs := fs.cat[id].ixs[0 := d])];
    }
  }

  lemma HeaderOfFd(fs: Spiffs, f: nat, id: nat)
    requires OpenOn(fs, f, id) && FdsPagesOk(fs.fds, fs.cat)
    ensures |fs.cat[id].ixs| > 0 && fs.fds[f].hdr == fs.cat[id].ixs[0]
  {
    assert FdPagesOk(fs.fds[f], fs.cat);
  }

  /** Stores the work buffer and the length.  `wasEmpty`: the object was empty; `last`:
      the append ends here. */
  method StoreAppend(fs: Spiffs, f: nat, id: nat, k: nat, x: nat, work: Page, n: nat, wasEmpty: bool, last: bool,
                     ghost m: nat, ghost sized: bool, ghost files: map<nat, FileView>) returns (r: Status)
    requires Appending(fs, f, id, k, x, work, n, files) && LastIndex(fs.cat, id, k) && n > 0
    requires wasEmpty && k == 0 ==> fs.pg[x].IndexPage? && fs.pg[x].size == None
    requires InFlash(fs.pg, fs.fds, fs.cat, id, k, x, work, m, n, sized)
    modifies fs`lu, fs`pg, fs`flash, fs`trace, fs`freeBlocks, fs`eraseCount, fs`maxEraseCount, fs`pDeleted,
             fs`freeBlock, fs`freeEntry, fs`pAllocated, fs`fds, fs`cat
    ensures fs.LookupOk() && (r == Ok || r == ErrFull || r == ErrNotFound)
    ensures r == Ok ==>
              && Stored(fs, f, id, n, files, last || k > 0 || !wasEmpty) && FdsKept(old(fs.fds), fs.fds)
              && |fs.cat[id].ixs| == k + 1
    ensures r != Ok ==>
              && Appending(fs, f, id, k, x, work, n, files) && FdsKept(old(fs.fds), fs.fds)
              && InFlash(fs.pg, fs.fds, fs.cat, id, k, x, work, m, n, sized)
    ensures if wasEmpty && k == 0 then r == Ok && fs.Space() == old(fs.Space()) else Took(r, old(fs.Space()), fs.Space())
  {
    hide FlashState, LookupState, FdsPagesOk, FdsSizesBut, FdsSizesOk, FdsKept, TightBut, Holds, Growing, CanProgram;
    FdsKeptSelf(fs.fds);
    if k == 0 {
      if wasEmpty {
        r := Ok;
        StoreFresh(fs, f, id, x, work, n, last, files);
      } else {
        r := StoreHeader(fs, f, id, x, work, n, m, sized, files);
      }
    } else {
      r := StoreLast(fs, f, id, k, x, work, n, m, sized, files);
    }
  }

  // ---------------------------------------------------------------------------
  // Loading or creating the index page

  lemma SetCursorBut(fds: seq<Fd>, cat: Catalogue, f: nat, k: nat, x: nat, size: Option<nat>)
    requires f < |fds| && FdsPagesOk(fds, cat) && FdsSizesBut(fds, cat, fds[f].id)
    requires fds[f].id in cat && (k < |cat[fds[f].id].ixs| ==> cat[fds[f].id].ixs[k] == x)
    ensures var fds' := fds[f := fds[f].(ixSpan := k, ixPix := x, size := size)];
            FdsPagesOk(fds', cat) && FdsSizesBut(fds', cat, fds[f].id) && FdsKept(fds, fds')
  {
    var fds' := fds[f := fds[f].(ixSpan := k, ixPix := x, size := size)];
    forall i | 0 <= i < |fds'|
      ensures FdPagesOk(fds'[i], cat) && (fds'[i].id != fds[f].id ==> FdSizeOk(fds'[i], cat))
    {
      assert FdPagesOk(fds[i], cat);
      assert fds[i].id != fds[f].id ==> FdSizeOk(fds[i], cat);
    }
  }

  lemma EventNewIndex(fds: seq<Fd>, cat: Catalogue, id: nat, d: nat)
    requires id in cat && |cat[id].ixs| > 0 && FdsPagesOk(fds, cat) && FdsSizesBut(fds, cat, id)
    ensures var cat' := cat[id := cat[id].(ixs := cat[id].ixs + [d])];
            var fds' := EventOnFds(fds, IxNew, id, |cat[id].ixs|, d, None);
            FdsPagesOk(fds', cat') && FdsSizesBut(fds', cat', id) && FdsKept(fds, fds')
  {
    var cat' := cat[id := cat[id].(ixs := cat[id].ixs + [d])];
    var fds' := EventOnFds(fds, IxNew, id, |cat[id].ixs|, d, None);
    forall i | 0 <= i < |fds'| ensures FdPagesOk(fds'[i], cat') && (fds'[i].id != id ==> FdSizeOk(fds'[i], cat')) {
      assert FdPagesOk(fds[i], cat);
      assert fds[i].id != id ==> FdSizeOk(fds[i], cat);
    }
  }

  /** The next data page starts a new index page. */
  lemma NeedsNewIndex(f: File, n: nat, k: nat)
    requires Sized(f) && Length(f.size) == n && n > 0 && |f.ixs| == IxCount(|f.data|)
    requires k == IxSpan(PageOf(n)) && k > IxSpan(PageOf(n - 1))
    ensures k == |f.ixs| && |f.data| <= FirstRef(k) && OffsetIn(n) == 0
  {
    var j := |f.data| - 1;
    if OffsetIn(n) > 0 {
      BytePlace(PageOf(n), OffsetIn(n) - 1);
    }
    PagesOfLength(f, n);
    IxSpanNext(j);
  }

  /** Creates index page `k`, the next one, of an object whose index pages are full. */
  method NewIndexPage(fs: Spiffs, f: nat, id: nat, k: nat, n: nat, ghost files: map<nat, FileView>)
    returns (r: Status, x: nat, work: Page)
    requires Stored(fs, f, id, n, files, false) && k == |fs.cat[id].ixs| && k > 0 && n > 0
    requires |fs.cat[id].data| <= FirstRef(k)
    modifies fs`lu, fs`pg, fs`flash, fs`trace, fs`freeBlocks, fs`eraseCount, fs`maxEraseCount, fs`pDeleted,
             fs`freeBlock, fs`freeEntry, fs`pAllocated, fs`fds, fs`cat
    ensures fs.LookupOk() && (r == Ok || r == ErrFull || r == ErrNotFound)
    ensures r == Ok ==> Appending(fs, f, id, k, x, work, n, files) && FdsKept(old(fs.fds), fs.fds)
    ensures r != Ok ==>
              && fs.fds == old(fs.fds) && fs.cat == old(fs.cat)
              && Holds(fs.lu, fs.pg, fs.cat) && Files(fs.pg, fs.cat) == files
    ensures r == Ok ==> InFlash(fs.pg, fs.fds, fs.cat, id, k, x, work, n, n, false) && |fs.cat[id].ixs| == k + 1
    ensures Took(r, old(fs.Space()), fs.Space())
    ensures Spared(old(fs.lu), fs.lu, {})
  {
    hide Supply, FreeSlots, AnyDeletedBlock, FlashState, LookupState, FdsPagesOk, FdsSizesBut, FdsSizesOk, FdsKept, EventOnFd, Growing, CanProgram, Holds, Spared, Took;
    work := Erased;
    r, x := fs.AllocateData(LiveHeader(id, true, k), [], true);
    NoneDeleted(old(fs.lu), old(fs.pg), fs.lu, fs.pg, if r == Ok then {x} else {});
    if r != Ok {
      WipeStep(old(fs.lu), old(fs.pg), fs.cat, fs.lu, fs.pg);
      return;
    }
    work := FreshPage(LiveHeader(id, true, k), []);
    AddIndex(old(fs.lu), old(fs.pg), fs.cat, fs.lu, fs.pg, id, x);
    EventNewIndex(fs.fds, fs.cat, id, x);
    fs.CbObjectEvent(IxNew, id, k, x, None);
    OpenAfterEvent(old(fs.fds), fs.fds, f);
    fs.cat := fs.cat[id := fs.cat[id].(ixs := fs.cat[id].ixs + [x])];
    ghost var fds1 := fs.fds;
    SetCursorBut(fs.fds, fs.cat, f, k, x, Some(n));
    fs.fds := fs.fds[f := fs.fds[f].(ixSpan := k, ixPix := x, size := Some(n))];
    FdsKeptChain(old(fs.fds), fds1, fs.fds);
    OpenAfterEvent(fds1, fs.fds, f);
    NothingPending(fs.lu, fs.pg, fs.cat, id, k, x, n);
    AllInFlash(fs.lu, fs.pg, fs.fds, fs.cat, id, k, x, n, false);
  }

  /** With nothing pending the growing image is the image. */
  lemma NothingPending(lu: seq<Entry>, pg: seq<Page>, cat: Catalogue, id: nat, k: nat, x: nat, n: nat)
    requires Holds(lu, pg, cat) && id in cat && k < |cat[id].ixs| && cat[id].ixs[k] == x && Length(cat[id].size) == n
    ensures var h := cat[id].ixs[0];
            && x < SLOTS && h < SLOTS && pg[x].IndexPage? && pg[h].IndexPage? && CanProgram(pg[x], pg[x])
            && pg[h].size == SizeOf(n) && Growing(pg, x, pg[x], h, n) == pg
            && pg[x] == IndexImage(id, cat[id], k)
  {
    assert FileOk(lu, pg, id, cat[id]);
    assert IndexOk(lu, pg, id, cat[id], k) && IndexOk(lu, pg, id, cat[id], 0);
  }

  /** The page of an object's end belongs to an index page that there is not yet. */
  predicate NewIndexNeeded(n: nat)
  {
    n > 0 && IxSpan(PageOf(n)) > IxSpan(PageOf(n - 1))
  }

  lemma CursorKeepsSizes(fds: seq<Fd>, cat: Catalogue, f: nat, k: nat, x: nat)
    requires f < |fds| && FdsSizesOk(fds, cat)
    ensures FdsSizesOk(fds[f := fds[f].(ixSpan := k, ixPix := x)], cat)
  {
    var fds' := fds[f := fds[f].(ixSpan := k, ixPix := x)];
    forall i | 0 <= i < |fds'| ensures FdSizeOk(fds'[i], cat) {
      assert FdSizeOk(fds[i], cat);
    }
  }

  /** Brings the index page the first appended data page belongs to into the work buffer. */
  method AppendStart(fs: Spiffs, f: nat, id: nat, n: nat, ghost files: map<nat, FileView>)
    returns (r: Status, k: nat, x: nat, work: Page, ghost sized: bool)
    requires Stored(fs, f, id, n, files, true)
    modifies fs`lu, fs`pg, fs`flash, fs`trace, fs`freeBlocks, fs`eraseCount, fs`maxEraseCount, fs`pDeleted,
             fs`freeBlock, fs`freeEntry, fs`pAllocated, fs`fds, fs`cat, fs`cursorBlock, fs`cursorEntry
    ensures fs.LookupOk() && (r == Ok || r == ErrFull || r == ErrNotFound)
    ensures r == Ok ==>
              && Appending(fs, f, id, k, x, work, n, files) && k == IxSpan(PageOf(n))
              && (n == 0 ==> fs.pg[x].IndexPage? && fs.pg[x].size == None)
              && FdsKept(old(fs.fds), fs.fds)
    ensures r != Ok ==>
              && fs.fds == old(fs.fds) && fs.cat == old(fs.cat)
              && Holds(fs.lu, fs.pg, fs.cat) && Files(fs.pg, fs.cat) == files
    ensures r == Ok ==> InFlash(fs.pg, fs.fds, fs.cat, id, k, x, work, n, n, sized)
    ensures sized <==> !NewIndexNeeded(n)
    ensures if NewIndexNeeded(n) then Took(r, old(fs.Space()), fs.Space()) else r == Ok && fs.Space() == old(fs.Space())
    ensures Spared(old(fs.lu), fs.lu, {})
  {
    hide Spared, Supply, FreeSlots, AnyDeletedBlock, FlashState, LookupState, FdsPagesOk, FdsSizesBut, FdsSizesOk, FdsKept, Growing, CanProgram, Holds, Took;
    FdsKeptSelf(fs.fds);
    SparedSelf(fs.lu);
    sized := !NewIndexNeeded(n);
    r, k, work := Ok, IxSpan(PageOf(n)), Erased;
    ghost var g := fs.cat[id];
    StartFacts(fs.lu, fs.pg, fs.cat, id, n);
    if k > 0 && k > IxSpan(PageOf(n - 1)) {
      NeedsNewIndex(g, n, k);
      r, x, work := NewIndexPage(fs, f, id, k, n, files);
      return;
    }
    x, work := LastIndexPage(fs, f, id, k, n, files);
  }

  /** The last index page, which has room for the next data page. */
  method LastIndexPage(fs: Spiffs, f: nat, id: nat, k: nat, n: nat, ghost files: map<nat, FileView>) returns (x: nat, work: Page)
    requires Stored(fs, f, id, n, files, true) && k == IxSpan(PageOf(n)) && |fs.cat[id].ixs| == k + 1
    modifies fs`fds, fs`cursorBlock, fs`cursorEntry
    ensures Appending(fs, f, id, k, x, work, n, files)
    ensures n == 0 ==> fs.pg[x].IndexPage? && fs.pg[x].size == None
    ensures FdsKept(old(fs.fds), fs.fds) && InFlash(fs.pg, fs.fds, fs.cat, id, k, x, work, n, n, true)
  {
    hide FlashState, LookupState, FdsPagesOk, FdsSizesBut, FdsSizesOk, FdsKept, Growing, CanProgram, Holds;
    FdsKeptSelf(fs.fds);
    NothingLost(fs.lu, fs.pg, fs.cat, id);
    x := IndexSlot(fs, f, k, {});
    work := fs.pg[x];
    NothingPending(fs.lu, fs.pg, fs.cat, id, k, x, n);
    if k > 0 {
      SetCursorBut(fs.fds, fs.cat, f, k, x, fs.fds[f].size);
      fs.fds := fs.fds[f := fs.fds[f].(ixSpan := k, ixPix := x)];
      OpenAfterEvent(old(fs.fds), fs.fds, f);
      CursorKeepsSizes(old(fs.fds), fs.cat, f, k, x);
    }
    AllInFlash(fs.lu, fs.pg, fs.fds, fs.cat, id, k, x, n, true);
  }

  lemma StartFacts(lu: seq<Entry>, pg: seq<Page>, cat: Catalogue, id: nat, n: nat)
    requires Holds(lu, pg, cat) && Tight(cat) && id in cat && Length(cat[id].size) == n
    ensures Sized(cat[id]) && |cat[id].ixs| == IxCount(|cat[id].data|)
    ensures var k := IxSpan(PageOf(n));
            && (k == 0 ==> |cat[id].ixs| == 1)
            && (k > 0 ==> n > 0)
            && (k > 0 && k <= IxSpan(PageOf(n - 1)) ==> |cat[id].ixs| == k + 1)
  {
    var f := cat[id];
    assert FileOk(lu, pg, id, f);
    var k := IxSpan(PageOf(n));
    if n > 0 {
      assert |f.data| == PageOf(n - 1) + 1;
      QuotMono(n - 1, n, DATA_SIZE);
      IxSpanMono(PageOf(n - 1), PageOf(n));
    }
  }

  /** The descriptor remembers the length. */
  lemma KnowsLength(fds: seq<Fd>, cat: Catalogue, f: nat, n: nat)
    requires f < |fds| && FdsPagesOk(fds, cat) && FdsSizesBut(fds, cat, fds[f].id)
    requires fds[f].id in cat && n > 0 && Length(cat[fds[f].id].size) == n
    ensures var fds' := fds[f := fds[f].(size := Some(n))];
            && FdsPagesOk(fds', cat) && FdsSizesBut(fds', cat, fds[f].id) && FdsKept(fds, fds')
            && (FdsSizesOk(fds, cat) ==> FdsSizesOk(fds', cat))
  {
    var fds' := fds[f := fds[f].(size := Some(n))];
    forall i | 0 <= i < |fds'|
      ensures FdPagesOk(fds'[i], cat) && (fds'[i].id != fds[f].id ==> FdSizeOk(fds'[i], cat))
    {
      assert FdPagesOk(fds[i], cat);
      assert fds[i].id != fds[f].id ==> FdSizeOk(fds[i], cat);
    }
  }

  /** Flash holds the files, of file `id` the first `m` bytes. */
  ghost predicate AppendLeft(fs: Spiffs, id: nat, files: map<nat, FileView>, m: nat)
    reads fs
  {
    id in files && m <= |files[id].bytes| && LeftOf(fs, id, files, files[id].(bytes := files[id].bytes[..m]), {})
  }

  /** What a step that takes up to `n` pages does to the room there is. */
  ghost predicate Spent(r: Status, a: Room, b: Room, n: nat)
  {
    && Drew(a, b, n) && (r == Ok || r == ErrFull) && (a.Sure() >= n ==> r == Ok)
    && (r == Ok && a.blocks >= 1 ==> b.blocks >= 1) && (r != Ok ==> b.blocks < 2) && (b.blocks <= a.blocks || b.blocks <= 2)
  }

  lemma SpentNothing(a: Room, n: nat)
    ensures Spent(Ok, a, a, n)
  {
  }

  /** After a page could not be had with a block free, none can be had. */
  lemma TookIsSpent(r: Status, a: Room, b: Room)
    requires Took(r, a, b) && !a.cleaning
    ensures Spent(r, a, b, 1) && (r == Ok <==> a.CanTake()) && !b.cleaning
    ensures r != Ok && a.blocks >= 1 ==> !b.CanTake()
  {
  }

  lemma SpentMore(r: Status, a: Room, b: Room, c: Room, n: nat, m: nat)
    requires Spent(Ok, a, b, n) && Spent(r, b, c, m)
    ensures Spent(r, a, c, n + m)
  {
  }

  lemma SpentLess(r: Status, a: Room, b: Room, n: nat, m: nat)
    requires Spent(r, a, b, n) && n <= m
    ensures Spent(r, a, b, m)
  {
  }

  /** Pages have been taken and none deleted: `n` of them, and after a failure none is left.
      That is said if no block held deleted pages only. */
  ghost predicate Tally(r: Status, a: Room, b: Room, n: nat)
  {
    !a.cleaning && !AnyDeletedBlock(a.lu) ==>
      && !b.cleaning && !AnyDeletedBlock(b.lu) && a.Left() == b.Left() + n && (r != Ok ==> b.Left() == 0 && b.blocks < 2)
  }

  lemma TallyNothing(a: Room)
    ensures Tally(Ok, a, a, 0)
  {
    hide AnyDeletedBlock, FreeSlots, Supply;
  }

  /** A page more has been asked for. */
  lemma TallyOne(r: Status, a: Room, b: Room, c: Room, n: nat)
    requires Tally(Ok, a, b, n) && Took(r, b, c) && Spared(b.lu, c.lu, {}) && (!b.cleaning ==> !c.cleaning)
    ensures Tally(r, a, c, if r == Ok then n + 1 else n)
  {
    hide FreeSlots, AllDeleted, SurePages;
    if !a.cleaning && !AnyDeletedBlock(a.lu) {
      StillNoneDeleted(b.lu, c.lu);
    }
  }

  lemma StillNoneDeleted(lu: seq<Entry>, lu': seq<Entry>)
    requires Spared(lu, lu', {}) && !AnyDeletedBlock(lu)
    ensures !AnyDeletedBlock(lu')
  {
    forall b: nat | b < BLOCKS ensures !AllDeleted(lu', b) {
      assert !AllDeleted(lu, b);
    }
  }

  /** The data pages begun by appending `n` bytes at `pos`. */
  function Begun(pos: nat, n: nat): (begun: nat)
    ensures n > 0 && OffsetIn(pos) == 0 ==> begun > 0
  {
    if n == 0 then 0
    else
      QuotMono(pos, pos + n - 1, DATA_SIZE);
      PageOf(pos + n - 1) - PageOf(pos) + if OffsetIn(pos) == 0 then 1 else 0
  }

  lemma BegunMore(pos: nat, done: nat, n: nat)
    requires n > 0 && OffsetIn(pos + done) + n <= DATA_SIZE && (done > 0 ==> OffsetIn(pos + done) == 0)
    ensures Begun(pos, done + n) == Begun(pos, done) + if OffsetIn(pos + done) == 0 then 1 else 0
  {
    LastOfChunk(pos + done, n);
    if done > 0 {
      LastBefore(pos + done);
    }
  }

  /** The bytes appended all belong to one index page. */
  predicate OneIndex(pos: nat, len: nat)
  {
    len > 0 && IxSpan(PageOf(pos)) == IxSpan(PageOf(pos + len - 1))
  }

  /** So do the first of them. */
  lemma OneIndexBefore(pos: nat, len: nat, done: nat)
    requires OneIndex(pos, len) && done < len
    ensures IxSpan(PageOf(pos + done)) == IxSpan(PageOf(pos)) && (done > 0 ==> IxSpan(PageOf(pos + done - 1)) == IxSpan(PageOf(pos)))
  {
    QuotMono(pos, pos + done, DATA_SIZE);
    QuotMono(pos + done, pos + len - 1, DATA_SIZE);
    IxSpanMono(PageOf(pos), PageOf(pos + done));
    IxSpanMono(PageOf(pos + done), PageOf(pos + len - 1));
    if done > 0 {
      QuotMono(pos, pos + done - 1, DATA_SIZE);
      QuotMono(pos + done - 1, pos + done, DATA_SIZE);
      IxSpanMono(PageOf(pos), PageOf(pos + done - 1));
      IxSpanMono(PageOf(pos + done - 1), PageOf(pos + done));
    }
  }

  /** Stores a full index page and makes the next one.  If there is no page for that
      one, all that has been appended is stored, but after the first index page of a
      file that was empty only this descriptor knows the length. */
  method NextIndex(fs: Spiffs, f: nat, id: nat, k: nat, x: nat, work: Page, n: nat, ghost m: nat, ghost sized: bool, wasEmpty: bool,
                   ghost files: map<nat, FileView>) returns (r: Status, newX: nat, newWork: Page, end: Ending)
    requires Appending(fs, f, id, k, x, work, n, files) && id in files
    requires InFlash(fs.pg, fs.fds, fs.cat, id, k, x, work, m, n, sized) && m < n
    requires LastIndex(fs.cat, id, k) && n > 0 && OffsetIn(n) == 0 && IxSpan(PageOf(n)) != k
    requires wasEmpty && k == 0 ==> fs.pg[x].IndexPage? && fs.pg[x].size == None
    modifies fs`lu, fs`pg, fs`flash, fs`trace, fs`freeBlocks, fs`eraseCount, fs`maxEraseCount, fs`pDeleted,
             fs`freeBlock, fs`freeEntry, fs`pAllocated, fs`fds, fs`cat
    ensures fs.LookupOk() && !fs.cleaning && IxSpan(PageOf(n)) == k + 1
    ensures r == Ok ==>
              && Appending(fs, f, id, IxSpan(PageOf(n)), newX, newWork, n, files) && FdsKept(old(fs.fds), fs.fds)
              && InFlash(fs.pg, fs.fds, fs.cat, id, IxSpan(PageOf(n)), newX, newWork, n, n, false)
    ensures r != Ok ==> end.Complete? || end.StaleSizes? || end.Torn?
    ensures r != Ok && end.Complete? ==> Stored(fs, f, id, n, files, true) && FdsKept(old(fs.fds), fs.fds)
    ensures r != Ok && end.StaleSizes? ==> wasEmpty && Stored(fs, f, id, n, files, false) && fs.fds[f].size == Some(n)
    ensures r != Ok && end.Torn? ==> AppendLeft(fs, id, files, m)
    ensures Spent(r, old(fs.Space()), fs.Space(), 2)
  {
    hide DeletedSlots, LeftOf, IndexFound, AllDeleted, Spared, Supply, FreeSlots, AnyDeletedBlock, FlashState, LookupState, FdsPagesOk, FdsSizesBut, FdsSizesOk, FdsKept, Growing, CanProgram, Holds, Tight, TightBut, Appending, Sized, InFlash, Took, Spent;
    newX, newWork, end := x, work, Torn;
    FullIndex(fs, f, id, k, x, work, n, files);
    AppendingCalm(fs, f, id, k, x, work, n, files);
    r := StoreAppend(fs, f, id, k, x, work, n, wasEmpty, false, m, sized, files);
    ghost var room := fs.Space();
    if wasEmpty && k == 0 {
      SpentNothing(room, 1);
    } else {
      TookIsSpent(r, old(fs.Space()), room);
    }
    if r != Ok {
      FlashLeft(fs, f, id, k, x, work, m, n, sized, files);
      SpentLess(r, old(fs.Space()), room, 1, 2);
      return;
    }
    ghost var fds1 := fs.fds;
    StartFacts(fs.lu, fs.pg, fs.cat, id, n);
    FullIndexStored(fs.cat[id], n, k);
    r, newX, newWork := NewIndexPage(fs, f, id, IxSpan(PageOf(n)), n, files);
    TookIsSpent(r, room, fs.Space());
    SpentMore(r, old(fs.Space()), room, fs.Space(), 1, 1);
    if r == Ok {
      FdsKeptChain(old(fs.fds), fds1, fs.fds);
      return;
    }
    RememberLength(fs, f, id, n, !(wasEmpty && k == 0), files);
    FdsKeptChain(old(fs.fds), fds1, fs.fds);
    end := if wasEmpty && k == 0 then StaleSizes else Complete;
  }

  lemma AppendingCalm(fs: Spiffs, f: nat, id: nat, k: nat, x: nat, work: Page, n: nat, files: map<nat, FileView>)
    requires Appending(fs, f, id, k, x, work, n, files)
    ensures !fs.cleaning && fs.LookupOk()
  {
  }

  /** The descriptor remembers the length that has been stored. */
  method RememberLength(fs: Spiffs, f: nat, id: nat, n: nat, ghost sized: bool, ghost files: map<nat, FileView>)
    requires Stored(fs, f, id, n, files, sized) && n > 0
    modifies fs`fds
    ensures Stored(fs, f, id, n, files, sized) && FdsKept(old(fs.fds), fs.fds) && f < |fs.fds| && fs.fds[f].size == Some(n)
  {
    hide FlashState, LookupState, FdsPagesOk, FdsSizesBut, FdsSizesOk, FdsKept, Holds, Tight;
    KnowsLength(fs.fds, fs.cat, f, n);
    fs.fds := fs.fds[f := fs.fds[f].(size := Some(n))];
    OpenAfterEvent(old(fs.fds), fs.fds, f);
  }

  lemma FullIndex(fs: Spiffs, f: nat, id: nat, k: nat, x: nat, work: Page, n: nat, files: map<nat, FileView>)
    requires Appending(fs, f, id, k, x, work, n, files) && LastIndex(fs.cat, id, k)
    requires n > 0 && OffsetIn(n) == 0 && IxSpan(PageOf(n)) != k
    ensures IxSpan(PageOf(n)) == k + 1
  {
    hide Appending;
    AppendingSized(fs, f, id, k, x, work, n, files);
    var g := fs.cat[id];
    PagesOfLength(g, n);
    IxSpanNext(|g.data| - 1);
  }

  lemma FullIndexStored(f: File, n: nat, k: nat)
    requires Sized(f) && Length(f.size) == n && n > 0 && OffsetIn(n) == 0 && |f.ixs| == IxCount(|f.data|) == k + 1
    requires IxSpan(PageOf(n)) == k + 1
    ensures |f.data| <= FirstRef(k + 1)
  {
    PagesOfLength(f, n);
    IxSpanNext(|f.data| - 1);
  }

  /** One round of the append loop.  `left`: the source returns at once; otherwise it
      goes on to store what there is.  The header in flash has length `m`. */
  method AppendRound(fs: Spiffs, f: nat, id: nat, k: nat, x: nat, work: Page, n: nat, m: nat, ghost sized: bool, wasEmpty: bool,
                     started: bool, chunk: seq<byte>, ghost files: map<nat, FileView>)
    returns (r: Status, newK: nat, newX: nat, newWork: Page, newM: nat, ghost newSized: bool, left: bool, end: Ending)
    requires Appending(fs, f, id, k, x, work, n, files) && id in files
    requires InFlash(fs.pg, fs.fds, fs.cat, id, k, x, work, m, n, sized) && (started ==> m < n)
    requires started ==> LastIndex(fs.cat, id, k) && n > 0 && OffsetIn(n) == 0
    requires !started ==> k == IxSpan(PageOf(n))
    requires wasEmpty && k == 0 ==> fs.pg[x].IndexPage? && fs.pg[x].size == None
    requires 0 < |chunk| && OffsetIn(n) + |chunk| <= DATA_SIZE && k <= IxSpan(PageOf(n))
    modifies fs`lu, fs`pg, fs`flash, fs`trace, fs`freeBlocks, fs`eraseCount, fs`maxEraseCount, fs`pDeleted,
             fs`freeBlock, fs`freeEntry, fs`pAllocated, fs`fds, fs`cat
    ensures fs.LookupOk() && !fs.cleaning
    ensures !left ==>
              && Appending(fs, f, id, newK, newX, newWork, if r == Ok then n + |chunk| else n,
                           if r == Ok then files[id := Grown(files[id], chunk)] else files)
              && InFlash(fs.pg, fs.fds, fs.cat, id, newK, newX, newWork, newM, if r == Ok then n + |chunk| else n, newSized)
              && (r == Ok ==> LastIndex(fs.cat, id, newK)) && FdsKept(old(fs.fds), fs.fds) && newK == IxSpan(PageOf(n))
              && (wasEmpty && newK == 0 ==> fs.pg[newX].IndexPage? && fs.pg[newX].size == None)
              && (if newK == k then newM == m && newSized == sized else newM == n && !newSized)
    ensures left ==> started && newM == m && r != Ok && (end.Complete? || end.StaleSizes? || end.Torn?) && IxSpan(PageOf(n)) == k + 1
    ensures left && end.Complete? ==> Stored(fs, f, id, n, files, true) && FdsKept(old(fs.fds), fs.fds)
    ensures left && end.StaleSizes? ==> wasEmpty && Stored(fs, f, id, n, files, false) && fs.fds[f].size == Some(n)
    ensures left && end.Torn? ==> AppendLeft(fs, id, files, m)
    ensures Spent(r, old(fs.Space()), fs.Space(), 1 + 2 * (IxSpan(PageOf(n)) - k))
    ensures k == IxSpan(PageOf(n)) && OffsetIn(n) == 0 ==> (r == Ok <==> old(fs.Space()).CanTake())
    ensures OffsetIn(n) > 0 && k == IxSpan(PageOf(n)) ==> r == Ok && fs.Space() == old(fs.Space())
    ensures r != Ok && !left && old(fs.freeBlocks) >= 1 ==> !fs.Space().CanTake()
    ensures k == IxSpan(PageOf(n)) && OffsetIn(n) == 0 ==> Took(r, old(fs.Space()), fs.Space()) && Spared(old(fs.lu), fs.lu, {})
  {
    hide Spared, Supply, FreeSlots, AnyDeletedBlock, FlashState, LookupState, FdsPagesOk, FdsSizesBut, FdsSizesOk, FdsKept, Growing, CanProgram, Holds, Took, Appending, InFlash, Stored;
    FdsKeptSelf(fs.fds);
    r, newK, newX, newWork, newM, newSized, left, end := Ok, k, x, work, m, sized, false, Complete;
    var curSpix := IxSpan(PageOf(n));
    AppendingCalm(fs, f, id, k, x, work, n, files);
    ghost var room := fs.Space();
    SpentNothing(room, 2 * (IxSpan(PageOf(n)) - k));
    if curSpix != k {
      r, newX, newWork, end := NextIndex(fs, f, id, k, x, work, n, m, sized, wasEmpty, files);
      room := fs.Space();
      if r != Ok {
        left := true;
        SpentLess(r, old(fs.Space()), room, 2, 3);
        return;
      }
      newK, newM, newSized := curSpix, n, false;
    }
    ghost var pg1, cat1 := fs.pg, fs.cat;
    SlotInRange(fs, f, id, newK, newX, newWork, n, files);
    var chunkWork;
    r, chunkWork := AppendChunk(fs, f, id, newK, newX, newWork, n, chunk, files);
    if OffsetIn(n) == 0 {
      TookIsSpent(r, room, fs.Space());
    } else {
      SpentNothing(room, 1);
    }
    SpentMore(r, old(fs.Space()), room, fs.Space(), 2 * (IxSpan(PageOf(n)) - k), 1);
    StillInFlash(pg1, fs.fds, cat1, fs.pg, fs.cat, id, newK, newX, newWork, chunkWork, newM, n, if r == Ok then n + |chunk| else n, newSized);
    newWork := chunkWork;
  }

  lemma StillInFlash(pg: seq<Page>, fds: seq<Fd>, cat: Catalogue, pg': seq<Page>, cat': Catalogue,
                     id: nat, k: nat, x: nat, work: Page, work': Page, m: nat, n: nat, n': nat, sized: bool)
    requires InFlash(pg, fds, cat, id, k, x, work, m, n, sized) && (n < n' || (n == n' && work' == work && cat' == cat))
    requires id in cat' && cat'[id].ixs == cat[id].ixs && cat[id].data <= cat'[id].data
    requires cat[id].ixs[0] < |pg'| && x < |pg'| && pg'[x] == pg[x] && pg'[cat[id].ixs[0]] == pg[cat[id].ixs[0]]
    ensures InFlash(pg', fds, cat', id, k, x, work', m, n', sized)
  {
    if n < n' {
      InFlashMore(pg, fds, cat, pg', fds, cat', id, k, x, work, work', m, n, n', sized);
    }
  }

  /** The pages that appending `n` bytes at `pos` takes, apart from the index pages stored
      or made at the start and at the end: one for every data page touched and two for
      every further index page. */
  function Touched(pos: nat, n: nat): nat
  {
    if n == 0 then 0
    else
      var first, last := PageOf(pos), PageOf(pos + n - 1);
      QuotMono(pos, pos + n - 1, DATA_SIZE);
      IxSpanMono(first, last);
      (last - first + 1) + 2 * (IxSpan(last) - IxSpan(first))
  }

  lemma TouchedMore(pos: nat, done: nat, n: nat)
    requires n > 0 && OffsetIn(pos + done) + n <= DATA_SIZE && (done > 0 ==> OffsetIn(pos + done) == 0)
    ensures var k := if done == 0 then IxSpan(PageOf(pos)) else IxSpan(PageOf(pos + done - 1));
            && k <= IxSpan(PageOf(pos + done))
            && Touched(pos, done + n) == Touched(pos, done) + 1 + 2 * (IxSpan(PageOf(pos + done)) - k)
  {
    LastOfChunk(pos + done, n);
    if done > 0 {
      LastBefore(pos + done);
      IxSpanMono(PageOf(pos + done - 1), PageOf(pos + done));
    }
  }

  /** The byte before the start of a page is in the page before it. */
  lemma LastBefore(n: nat)
    requires n > 0 && OffsetIn(n) == 0
    ensures PageOf(n) == PageOf(n - 1) + 1
  {
    assert Start(PageOf(n)) == n;
    BytePlace(PageOf(n) - 1, DATA_SIZE - 1);
  }

  lemma TouchedMono(pos: nat, n: nat, m: nat)
    requires n <= m
    ensures Touched(pos, n) <= Touched(pos, m)
  {
    if 0 < n {
      QuotMono(pos, pos + n - 1, DATA_SIZE);
      QuotMono(pos + n - 1, pos + m - 1, DATA_SIZE);
      IxSpanMono(PageOf(pos), PageOf(pos + n - 1));
      IxSpanMono(PageOf(pos + n - 1), PageOf(pos + m - 1));
    }
  }

  /** The end of a file whose last index page is full. */
  predicate AtIndexEnd(n: nat)
  {
    n > 0 && OffsetIn(n) == 0 && NewIndexNeeded(n)
  }

  /** What a round of the loop does to the room there was at first. */
  lemma RoundSpent(r: Status, a: Room, b: Room, c: Room, pos: nat, done: nat, n: nat, len: nat)
    requires n > 0 && OffsetIn(pos + done) + n <= DATA_SIZE && (done > 0 ==> OffsetIn(pos + done) == 0) && done + n <= len
    requires Spent(Ok, a, b, Touched(pos, done))
    requires var k := if done == 0 then IxSpan(PageOf(pos)) else IxSpan(PageOf(pos + done - 1));
             k <= IxSpan(PageOf(pos + done)) && Spent(r, b, c, 1 + 2 * (IxSpan(PageOf(pos + done)) - k))
    ensures Spent(r, a, c, Touched(pos, done + n)) && Spent(r, a, c, Touched(pos, len))
    ensures (r == Ok || r == ErrFull) && (r == Ok && a.blocks >= 1 ==> c.blocks >= 1)
  {
    hide Touched;
    TouchedMore(pos, done, n);
    TouchedMono(pos, done + n, len);
    SpentMore(r, a, b, c, Touched(pos, done), Touched(pos, done + n) - Touched(pos, done));
    SpentLess(r, a, c, Touched(pos, done + n), Touched(pos, len));
  }

  /** Which index page the next chunk needs. */
  lemma NextNeeds(pos: nat, done: nat)
    ensures done > 0 && OffsetIn(pos + done) == 0 ==>
              && IxSpan(PageOf(pos + done - 1)) <= IxSpan(PageOf(pos + done))
              && (IxSpan(PageOf(pos + done - 1)) != IxSpan(PageOf(pos + done)) ==> AtIndexEnd(pos + done))
  {
    if done > 0 && OffsetIn(pos + done) == 0 {
      LastBefore(pos + done);
      IxSpanMono(PageOf(pos + done - 1), PageOf(pos + done));
    }
  }

  /** A round of the loop that has come to byte `done` of the data. */
  method AppendNext(fs: Spiffs, f: nat, id: nat, k: nat, x: nat, work: Page, m: nat, ghost sized: bool, pos: nat, data: seq<byte>,
                    done: nat, pageOffs: nat, ghost files: map<nat, FileView>, ghost room0: Room)
    returns (r: Status, newK: nat, newX: nat, newWork: Page, newM: nat, ghost newSized: bool, left: bool, end: Ending, n: nat)
    requires id in files && done < |data|
    requires Appending(fs, f, id, k, x, work, pos + done, files[id := Grown(files[id], data[..done])])
    requires InFlash(fs.pg, fs.fds, fs.cat, id, k, x, work, m, pos + done, sized) && pageOffs == OffsetIn(pos + done)
    requires if done == 0 then k == IxSpan(PageOf(pos))
             else LastIndex(fs.cat, id, k) && m < pos + done && k == IxSpan(PageOf(pos + done - 1)) && pageOffs == 0
    requires x < |fs.pg| && (pos == 0 && k == 0 ==> fs.pg[x].IndexPage? && fs.pg[x].size == None)
    requires Spent(Ok, room0, fs.Space(), Touched(pos, done))
    requires OneIndex(pos, |data|) ==> Tally(Ok, room0, fs.Space(), Begun(pos, done))
    modifies fs`lu, fs`pg, fs`flash, fs`trace, fs`freeBlocks, fs`eraseCount, fs`maxEraseCount, fs`pDeleted,
             fs`freeBlock, fs`freeEntry, fs`pAllocated, fs`fds, fs`cat
    ensures n == ChunkSize(|data| - done, pageOffs) && fs.LookupOk() && !fs.cleaning
    ensures Spent(r, room0, fs.Space(), Touched(pos, done + n)) && Spent(r, room0, fs.Space(), Touched(pos, |data|))
    ensures (r == Ok || r == ErrFull) && (r == Ok && room0.blocks >= 1 ==> fs.freeBlocks >= 1)
    ensures r == Ok && !left ==>
              && Appending(fs, f, id, newK, newX, newWork, pos + done + n, files[id := Grown(files[id], data[..done + n])])
              && InFlash(fs.pg, fs.fds, fs.cat, id, newK, newX, newWork, newM, pos + done + n, newSized)
              && LastIndex(fs.cat, id, newK)
    ensures r != Ok && !left ==>
              && Appending(fs, f, id, newK, newX, newWork, pos + done, files[id := Grown(files[id], data[..done])])
              && InFlash(fs.pg, fs.fds, fs.cat, id, newK, newX, newWork, newM, pos + done, newSized)
              && (done > 0 && newM == pos + done ==> AtIndexEnd(pos + done))
    ensures !left ==>
              && FdsKept(old(fs.fds), fs.fds) && newK == IxSpan(PageOf(pos + done)) && newX < |fs.pg|
              && (pos == 0 && newK == 0 ==> fs.pg[newX].IndexPage? && fs.pg[newX].size == None)
              && (newM == m || newM == pos + done) && (done == 0 ==> newM == m && newSized == sized)
    ensures left ==> done > 0 && newM == m && r != Ok && (end.Complete? || end.StaleSizes? || end.Torn?) && AtIndexEnd(pos + done)
    ensures r != Ok ==> pageOffs == 0
    ensures left && end.Complete? ==>
              Stored(fs, f, id, pos + done, files[id := Grown(files[id], data[..done])], true) && FdsKept(old(fs.fds), fs.fds)
    ensures left && end.StaleSizes? ==>
              && pos == 0 && Stored(fs, f, id, pos + done, files[id := Grown(files[id], data[..done])], false)
              && fs.fds[f].size == Some(pos + done)
    ensures left && end.Torn? ==> AppendLeft(fs, id, files[id := Grown(files[id], data[..done])], m)
    ensures done == 0 ==> if OffsetIn(pos) == 0 then (r == Ok <==> old(fs.Space()).CanTake()) else r == Ok && fs.Space() == old(fs.Space())
    ensures r != Ok && !left && old(fs.freeBlocks) >= 1 ==> !fs.Space().CanTake()
    ensures OneIndex(pos, |data|) ==>
              && !left && newK == k && newM == m
              && Tally(r, room0, fs.Space(), Begun(pos, if r == Ok then done + n else done))
  {
    hide FlashState, LookupState, Appending, FdsKept, LastIndex, Stored, InFlash, Spent, AppendLeft, Touched, AtIndexEnd, Tally, Took, Spared, Begun, OneIndex;
    if OneIndex(pos, |data|) {
      OneIndexBefore(pos, |data|, done);
    }
    n := ChunkSize(|data| - done, pageOffs);
    var chunk := data[done..done + n];
    ghost var room1 := fs.Space();
    ghost var mid := files[id := Grown(files[id], data[..done])];
    GrownMore(files, id, data, done, n);
    NextNeeds(pos, done);
    r, newK, newX, newWork, newM, newSized, left, end := AppendRound(fs, f, id, k, x, work, pos + done, m, sized, pos == 0, done > 0, chunk, mid);
    RoundSpent(r, room0, room1, fs.Space(), pos, done, n, |data|);
    BegunMore(pos, done, n);
    if OneIndex(pos, |data|) && pageOffs == 0 {
      TallyOne(r, room0, room1, fs.Space(), Begun(pos, done));
    }
    if !left {
      SlotInRange(fs, f, id, newK, newX, newWork, if r == Ok then pos + done + n else pos + done, if r == Ok then mid[id := Grown(mid[id], chunk)] else mid);
    }
  }

  /** The append loop.  The header in flash has length `m` when it ends. */
  method AppendAll(fs: Spiffs, f: nat, id: nat, k0: nat, x0: nat, work0: Page, pos: nat, ghost sized0: bool, data: seq<byte>,
                   ghost files: map<nat, FileView>)
    returns (r: Status, k: nat, x: nat, work: Page, m: nat, ghost sized: bool, done: nat, left: bool, end: Ending)
    requires Appending(fs, f, id, k0, x0, work0, pos, files) && id in files && |data| > 0
    requires InFlash(fs.pg, fs.fds, fs.cat, id, k0, x0, work0, pos, pos, sized0) && k0 == IxSpan(PageOf(pos))
    requires pos == 0 ==> fs.pg[x0].IndexPage? && fs.pg[x0].size == None
    modifies fs`lu, fs`pg, fs`flash, fs`trace, fs`freeBlocks, fs`eraseCount, fs`maxEraseCount, fs`pDeleted,
             fs`freeBlock, fs`freeEntry, fs`pAllocated, fs`fds, fs`cat
    ensures fs.LookupOk() && !fs.cleaning && done <= |data| && (r == Ok <==> done == |data|) && pos <= m <= pos + done
    ensures !left ==>
              && Appending(fs, f, id, k, x, work, pos + done, files[id := Grown(files[id], data[..done])])
              && InFlash(fs.pg, fs.fds, fs.cat, id, k, x, work, m, pos + done, sized)
              && FdsKept(old(fs.fds), fs.fds) && (pos + done == 0 ==> k == 0)
              && (pos == 0 && k == 0 ==> fs.pg[x].IndexPage? && fs.pg[x].size == None)
              && (r == Ok ==> LastIndex(fs.cat, id, k) && m < pos + done)
              && (done == 0 ==> k == k0 && sized == sized0) && (0 < done && m == pos + done ==> AtIndexEnd(pos + done) && k == IxSpan(PageOf(pos + done)))
    ensures left ==> r != Ok && done > 0 && (end.Complete? || end.StaleSizes? || end.Torn?) && AtIndexEnd(pos + done)
    ensures left && end.Complete? ==>
              Stored(fs, f, id, pos + done, files[id := Grown(files[id], data[..done])], true) && FdsKept(old(fs.fds), fs.fds)
    ensures left && end.StaleSizes? ==>
              && pos == 0 && Stored(fs, f, id, pos + done, files[id := Grown(files[id], data[..done])], false)
              && fs.fds[f].size == Some(pos + done)
    ensures left && end.Torn? ==> m < pos + done && AppendLeft(fs, id, files[id := Grown(files[id], data[..done])], m)
    ensures Spent(r, old(fs.Space()), fs.Space(), Touched(pos, |data|))
    ensures done == 0 <==> OffsetIn(pos) == 0 && !old(fs.Space()).CanTake()
    ensures OffsetIn(pos) > 0 && |data| <= DATA_SIZE - OffsetIn(pos) ==> r == Ok && fs.Space() == old(fs.Space())
    ensures r != Ok && !left && old(fs.freeBlocks) >= 1 ==> !fs.Space().CanTake()
    ensures OneIndex(pos, |data|) ==> !left && k == k0 && m == pos && Tally(r, old(fs.Space()), fs.Space(), Begun(pos, done))
    ensures r != Ok ==> OffsetIn(pos + done) == 0
  {
    hide SurePages, NoneFree, DeletedSlots, Spared, Supply, FreeSlots, AnyDeletedBlock, FlashState, LookupState, Appending, FdsKept, LastIndex, Stored, InFlash, Spent, AppendLeft, Touched, AtIndexEnd, Tally, OneIndex;
    r, k, x, work, m, sized, done, left, end := Ok, k0, x0, work0, pos, sized0, 0, false, Complete;
    FdsKeptSelf(fs.fds);
    ghost var room0 := fs.Space();
    SpentNothing(room0, Touched(pos, 0));
    TallyNothing(room0);
    assert data[..0] == [];
    assert Grown(files[id], data[..0]) == files[id];
    assert files[id := files[id]] == files;
    SlotInRange(fs, f, id, k, x, work, pos, files);
    AppendingCalm(fs, f, id, k, x, work, pos, files);
    var pageOffs := OffsetIn(pos);
    while done < |data|
      invariant done <= |data| && r == Ok && !left && FdsKept(old(fs.fds), fs.fds) && fs.LookupOk() && !fs.cleaning
      invariant Appending(fs, f, id, k, x, work, pos + done, files[id := Grown(files[id], data[..done])])
      invariant InFlash(fs.pg, fs.fds, fs.cat, id, k, x, work, m, pos + done, sized) && pos <= m
      invariant if done == 0 then k == k0 && m == pos && sized == sized0 && fs.Space() == room0
                else LastIndex(fs.cat, id, k) && m < pos + done && k == IxSpan(PageOf(pos + done - 1))
      invariant x < |fs.pg| && (pos == 0 && k == 0 ==> fs.pg[x].IndexPage? && fs.pg[x].size == None)
      invariant done < |data| ==> pageOffs == OffsetIn(pos + done) && (done > 0 ==> pageOffs == 0)
      invariant Spent(Ok, room0, fs.Space(), Touched(pos, done)) && (room0.blocks >= 1 ==> fs.freeBlocks >= 1)
      invariant done > 0 ==> OffsetIn(pos) > 0 || room0.CanTake()
      invariant OffsetIn(pos) > 0 && done > 0 ==> done == |data| || done >= DATA_SIZE - OffsetIn(pos)
      invariant OffsetIn(pos) > 0 && done <= DATA_SIZE - OffsetIn(pos) ==> fs.Space() == room0
      invariant OneIndex(pos, |data|) ==> k == k0 && m == pos && Tally(Ok, room0, fs.Space(), Begun(pos, done))
    {
      ghost var fds1 := fs.fds;
      var toWrite;
      r, k, x, work, m, sized, left, end, toWrite := AppendNext(fs, f, id, k, x, work, m, sized, pos, data, done, pageOffs, files, room0);
      FdsKeptMaybe(old(fs.fds), fds1, fs.fds);
      if r != Ok {
        return;
      }
      LastOfChunk(pos + done, toWrite);
      if done + toWrite < |data| {
        NextPosition(pos + done, toWrite);
      }
      pageOffs := 0;
      done := done + toWrite;
    }
  }

  lemma FdsKeptMaybe(a: seq<Fd>, b: seq<Fd>, c: seq<Fd>)
    requires FdsKept(a, b)
    ensures FdsKept(b, c) ==> FdsKept(a, c)
  {
    if FdsKept(b, c) {
      FdsKeptChain(a, b, c);
    }
  }

  lemma GrownMore(files: map<nat, FileView>, id: nat, data: seq<byte>, done: nat, n: nat)
    requires id in files && done + n <= |data|
    ensures var mid := files[id := Grown(files[id], data[..done])];
            mid[id := Grown(mid[id], data[done..done + n])] == files[id := Grown(files[id], data[..done + n])]
  {
    assert data[..done] + data[done..done + n] == data[..done + n];
    assert (files[id].bytes + data[..done]) + data[done..done + n] == files[id].bytes + data[..done + n];
  }

  lemma SlotInRange(fs: Spiffs, f: nat, id: nat, k: nat, x: nat, work: Page, n: nat, files: map<nat, FileView>)
    requires Appending(fs, f, id, k, x, work, n, files)
    ensures x < |fs.pg| && fs.LookupOk()
  {
  }

  lemma AppendingSized(fs: Spiffs, f: nat, id: nat, k: nat, x: nat, work: Page, n: nat, files: map<nat, FileView>)
    requires Appending(fs, f, id, k, x, work, n, files)
    ensures id in fs.cat && Sized(fs.cat[id]) && Length(fs.cat[id].size) == n && |fs.cat[id].ixs| == k + 1
  {
    hide FlashState, LookupState, FdsPagesOk, FdsSizesBut, TightBut, Holds;
    FileOf(fs.lu, Growing(fs.pg, x, work, fs.cat[id].ixs[0], n), fs.cat, id);
  }

  /** What an append leaves in flash that had come to length `n` of a file that was `pos`
      bytes long.  A failed allocation may leave an index page that no data page needs, or
      length 0 in the header of a file that is still empty; if after that the header
      cannot be stored, flash has the length and the bytes that were stored before. */
  ghost predicate AppendEnds(fs: Spiffs, f: nat, id: nat, pos: nat, n: nat, files: map<nat, FileView>, end: Ending)
    reads fs
  {
    match end
    case Complete => Stored(fs, f, id, n, files, true)
    case StaleSizes => pos == 0 && Stored(fs, f, id, n, files, false) && fs.fds[f].size == Some(n)
    case SpareIndex => n > 0 && Saved(fs, f, id, n, files, false) && |fs.cat[id].ixs| > IxCount(|fs.cat[id].data|)
    case ZeroSize => pos == n == 0 && forall cat :: !Holds(fs.lu, fs.pg, cat)
    case Torn => exists m: nat :: pos <= m < n && AppendLeft(fs, id, files, m)
    case _ => false
  }

  /** No header of a consistent image has length 0. */
  lemma LengthIsNotZero(lu: seq<Entry>, pg: seq<Page>, cat: Catalogue, h: nat)
    requires Holds(lu, pg, cat) && h < SLOTS && lu[h].Used? && lu[h].ix && pg[h].IndexPage? && pg[h].hdr.span == 0
    ensures pg[h].size != Some(0)
  {
    assert SlotOk(lu, pg, cat, h);
    FileOf(lu, pg, cat, lu[h].id);
    assert IndexOk(lu, pg, lu[h].id, cat[lu[h].id], 0);
  }

  /** Programs length 0 in the header of an empty file. */
  method StoreZero(fs: Spiffs, f: nat, id: nat, x: nat, work: Page, ghost files: map<nat, FileView>)
    requires Appending(fs, f, id, 0, x, work, 0, files)
    requires fs.pg[x].IndexPage? && fs.pg[x].size == None
    modifies fs`pg, fs`flash, fs`trace, fs`fds
    ensures fs.LookupOk() && forall cat :: !Holds(fs.lu, fs.pg, cat)
  {
    hide FlashState, LookupState, FdsPagesOk, FdsSizesBut, TightBut, EventOnFd;
    ghost var v := Growing(fs.pg, x, work, x, 0);
    FileOf(fs.lu, v, fs.cat, id);
    assert IndexOk(fs.lu, v, id, fs.cat[id], 0);
    var page := work.(size := Some(0));
    fs.ProgramIndex(x, page);
    fs.CbObjectEvent(IxHeaderUpdated, id, 0, x, None);
    forall cat ensures !Holds(fs.lu, fs.pg, cat) {
      if Holds(fs.lu, fs.pg, cat) {
        LengthIsNotZero(fs.lu, fs.pg, cat, x);
      }
    }
  }

  /** Which index page the last data page needs, from the length. */
  lemma LastIndexFrom(fs: Spiffs, f: nat, id: nat, k: nat, x: nat, work: Page, n: nat, files: map<nat, FileView>)
    requires Appending(fs, f, id, k, x, work, n, files) && n > 0
    ensures LastIndex(fs.cat, id, k) <==> k == IxSpan(PageOf(n - 1))
    ensures IxCount(|fs.cat[id].data|) == IxSpan(PageOf(n - 1)) + 1 <= k + 1
  {
    hide Appending;
    AppendingSized(fs, f, id, k, x, work, n, files);
  }

  /** Where an append that has come to length `n` ends when the header, which has length `m`
      in flash, has been stored or could not be (`stored`); `k` is its last index page. */
  function EndOf(n: nat, m: nat, k: nat, stored: bool): Ending
  {
    if n == 0 then ZeroSize
    else if !stored && m < n then Torn
    else if k > IxSpan(PageOf(n - 1)) then SpareIndex
    else Complete
  }

  /** The end of an append: the work buffer and the length are stored.  That needs a page
      unless the header can be programmed in place. */
  method FinishAppend(fs: Spiffs, f: nat, id: nat, k: nat, x: nat, work: Page, pos: nat, n: nat, m: nat, ghost sized: bool,
                      ghost files: map<nat, FileView>) returns (r: Status, end: Ending)
    requires Appending(fs, f, id, k, x, work, n, files) && pos <= m <= n && (n == 0 ==> k == 0)
    requires InFlash(fs.pg, fs.fds, fs.cat, id, k, x, work, m, n, sized)
    requires n > 0 && m == n && k == IxSpan(PageOf(n - 1)) ==> sized
    requires pos == 0 && k == 0 ==> fs.pg[x].IndexPage? && fs.pg[x].size == None
    requires n > 0 && pos == 0 && k == 0 ==> LastIndex(fs.cat, id, k)
    modifies fs`lu, fs`pg, fs`flash, fs`trace, fs`freeBlocks, fs`eraseCount, fs`maxEraseCount, fs`pDeleted,
             fs`freeBlock, fs`freeEntry, fs`pAllocated, fs`fds, fs`cat
    ensures fs.LookupOk()
    ensures r == if (pos == 0 && k == 0) || old(fs.Space()).CanTake() then Ok else ErrFull
    ensures end == EndOf(n, m, k, r == Ok) && AppendEnds(fs, f, id, pos, n, files, end)
    ensures end.Complete? || end.SpareIndex? ==> FdsKept(old(fs.fds), fs.fds)
    ensures if pos == 0 && k == 0 then fs.Space() == old(fs.Space()) else Took(r, old(fs.Space()), fs.Space())
  {
    hide FlashState, LookupState, FdsPagesOk, FdsSizesBut, FdsSizesOk, FdsKept, Growing, CanProgram, Holds, TightBut, Tight, Appending, InFlash, Took, LastIndex, LeftOf;
    r, end := Ok, ZeroSize;
    AppendingCalm(fs, f, id, k, x, work, n, files);
    SlotInRange(fs, f, id, k, x, work, n, files);
    FinishCursor(fs, f, id, k, x, work, n, m, sized, files);
    ghost var fds1 := fs.fds;
    if n == 0 {
      StoreZero(fs, f, id, x, work, files);
      return;
    }
    LastIndexFrom(fs, f, id, k, x, work, n, files);
    AppendingSized(fs, f, id, k, x, work, n, files);
    if k > 0 {
      r := StoreLast(fs, f, id, k, x, work, n, m, sized, files);
    } else {
      r := StoreAppend(fs, f, id, k, x, work, n, pos == 0, true, m, sized, files);
    }
    if !(pos == 0 && k == 0) {
      TookIsSpent(r, old(fs.Space()), fs.Space());
    }
    end := EndOf(n, m, k, r == Ok);
    FdsKeptChain(old(fs.fds), fds1, fs.fds);
    if r != Ok {
      EndsUnstored(fs, f, id, k, x, work, pos, n, m, sized, files);
    }
  }

  /** The header of an append could not be stored. */
  lemma EndsUnstored(fs: Spiffs, f: nat, id: nat, k: nat, x: nat, work: Page, pos: nat, n: nat, m: nat, sized: bool,
                     files: map<nat, FileView>)
    requires Appending(fs, f, id, k, x, work, n, files) && pos <= m <= n && n > 0
    requires InFlash(fs.pg, fs.fds, fs.cat, id, k, x, work, m, n, sized)
    requires m == n && k == IxSpan(PageOf(n - 1)) ==> sized
    ensures AppendEnds(fs, f, id, pos, n, files, EndOf(n, m, k, false))
  {
    hide FlashState, LookupState, FdsPagesOk, FdsSizesBut, FdsSizesOk, FdsKept, Growing, CanProgram, Holds, TightBut, Tight, Appending, InFlash, LastIndex, LeftOf;
    FlashLeft(fs, f, id, k, x, work, m, n, sized, files);
    LastIndexFrom(fs, f, id, k, x, work, n, files);
    assert AppendLeft(fs, id, files, m);
    if m == n {
      NothingToStore(fs, f, id, k, x, work, n, sized, files);
    }
  }

  /** With nothing appended since the header was stored the image is consistent. */
  lemma NothingToStore(fs: Spiffs, f: nat, id: nat, k: nat, x: nat, work: Page, n: nat, sized: bool, files: map<nat, FileView>)
    requires Appending(fs, f, id, k, x, work, n, files) && n > 0
    requires InFlash(fs.pg, fs.fds, fs.cat, id, k, x, work, n, n, sized)
    ensures Saved(fs, f, id, n, files, sized) && |fs.cat[id].ixs| == k + 1
    ensures LastIndex(fs.cat, id, k) ==> Stored(fs, f, id, n, files, sized)
    ensures fs.cat[id].size == Some(n)
  {
    hide FlashState, LookupState, FdsPagesOk, FdsSizesBut, FdsSizesOk, Holds, TightBut, Tight;
    var h := fs.cat[id].ixs[0];
    assert fs.pg[x := work] == fs.pg;
    assert fs.pg[h := fs.pg[h].(size := SizeOf(n))] == fs.pg;
    if LastIndex(fs.cat, id, k) {
      TightAgain(fs.cat, id, k);
    }
  }

  /** The loop, from the index page in the work buffer on, and the end of the append. */
  method AppendLoaded(fs: Spiffs, f: nat, id: nat, k0: nat, x0: nat, work0: Page, pos: nat, ghost sized0: bool, data: seq<byte>,
                      ghost files: map<nat, FileView>) returns (r: Status, done: nat, end: Ending)
    requires Appending(fs, f, id, k0, x0, work0, pos, files) && id in files && |data| > 0
    requires InFlash(fs.pg, fs.fds, fs.cat, id, k0, x0, work0, pos, pos, sized0) && k0 == IxSpan(PageOf(pos))
    requires sized0 <==> !NewIndexNeeded(pos)
    requires pos == 0 ==> fs.pg[x0].IndexPage? && fs.pg[x0].size == None
    modifies fs`lu, fs`pg, fs`flash, fs`trace, fs`freeBlocks, fs`eraseCount, fs`maxEraseCount, fs`pDeleted,
             fs`freeBlock, fs`freeEntry, fs`pAllocated, fs`fds, fs`cat
    ensures fs.LookupOk() && (r == Ok || r == ErrFull)
    ensures done <= |data| && (r == Ok ==> done == |data| && end.Complete?)
    ensures AppendEnds(fs, f, id, pos, pos + done, files[id := Grown(files[id], data[..done])], end)
    ensures end.Complete? || end.SpareIndex? ==> FdsKept(old(fs.fds), fs.fds)
    ensures r != Ok ==> fs.freeBlocks <= 2
    ensures LoadedForetold(pos, |data|, old(fs.Space()), fs.Space(), r, done, end)
  {
    hide LoadedForetold, Spared, OneIndex, AppendCounts, Tally, AnyDeletedBlock, Supply, FreeSlots, FlashState, LookupState, FdsPagesOk, FdsSizesOk, FdsSizesBut, FdsKept, Tight, Holds, Growing, CanProgram, Appending, LastIndex, Stored, InFlash, AppendLeft, Touched, Spent, Took, AppendFails, AtIndexEnd, AppendEnds, Drew;
    var k, x, work, m, left;
    ghost var sized;
    ghost var room0 := fs.Space();
    AppendingCalm(fs, f, id, k0, x0, work0, pos, files);
    r, k, x, work, m, sized, done, left, end := AppendAll(fs, f, id, k0, x0, work0, pos, sized0, data, files);
    ghost var room1, files2 := fs.Space(), files[id := Grown(files[id], data[..done])];
    NextNeeds(pos, done);
    if left {
      SpentNothing(room1, 1);
      SpentRooms(r, Ok, room0, room1, room1, Touched(pos, |data|));
      LoadedFails(pos, |data|, room0, room1, r, Ok, done, left, end, k, m);
      LeftEnds(fs, f, id, pos, pos + done, m, files2, end);
      LoadedSays(pos, |data|, room0, room1, r, done, end);
      return;
    }
    ghost var fds2 := fs.fds;
    if pos + done > 0 {
      LastIndexFrom(fs, f, id, k, x, work, pos + done, files2);
      IndexEndIs(pos + done);
    }
    var r2;
    r2, end := FinishAppend(fs, f, id, k, x, work, pos, pos + done, m, sized, files2);
    if pos == 0 && k == 0 {
      SpentNothing(room1, 1);
    } else {
      TookIsSpent(r2, room1, fs.Space());
    }
    SpentRooms(r, r2, room0, room1, fs.Space(), Touched(pos, |data|));
    FdsKeptMaybe(old(fs.fds), fds2, fs.fds);
    LoadedFails(pos, |data|, room0, room1, r, r2, done, left, end, k, m);
    if OneIndex(pos, |data|) && !AnyDeletedBlock(room0.lu) {
      LoadedCounts(pos, |data|, room0, room1, fs.Space(), r, r2, done, end, k);
    }
    r := if r2 != Ok then r2 else r;
    LoadedSays(pos, |data|, room0, fs.Space(), r, done, end);
  }

  /** The next index page could not be made, or the one before it not stored. */
  lemma LeftEnds(fs: Spiffs, f: nat, id: nat, pos: nat, n: nat, m: nat, files: map<nat, FileView>, end: Ending)
    requires end.Complete? || end.StaleSizes? || end.Torn?
    requires end.Complete? ==> Stored(fs, f, id, n, files, true)
    requires end.StaleSizes? ==> pos == 0 && Stored(fs, f, id, n, files, false) && fs.fds[f].size == Some(n)
    requires end.Torn? ==> pos <= m < n && AppendLeft(fs, id, files, m)
    ensures AppendEnds(fs, f, id, pos, n, files, end)
  {
    hide Stored, AppendLeft;
  }

  lemma IndexEndIs(n: nat)
    ensures n > 0 && AtIndexEnd(n) ==> IxSpan(PageOf(n)) > IxSpan(PageOf(n - 1))
  {
  }

  lemma SpentRooms(r: Status, r2: Status, a: Room, b: Room, c: Room, n: nat)
    requires Spent(r, a, b, n) && Spent(r2, b, c, 1)
    ensures (r == Ok || r == ErrFull) && (r2 == Ok || r2 == ErrFull)
    ensures Drew(a, c, n + 1) && (a.Sure() > n ==> r == Ok && r2 == Ok) && (r != Ok || r2 != Ok ==> c.blocks <= 2)
  {
  }

  /** How an append of `len` bytes at `pos` fails, from the room there is when it starts:
      with length 0 in the header exactly if the file is empty and no page can be had;
      without a byte added if the first one needs a page; and if the last page has room for
      all of them, exactly if no page can be had for the header.  Once a page has been had,
      what has been appended is stored after a failure only if the file was empty, or at
      the end of an index page. */
  ghost predicate AppendFails(pos: nat, len: nat, room: Room, r: Status, done: nat, end: Ending)
  {
    && (end.ZeroSize? <==> pos == 0 && !room.CanTake())
    && (end.ZeroSize? || end.SpareIndex? || end.Torn? || end.StaleSizes? ==> r == ErrFull)
    && (OffsetIn(pos) == 0 && !room.CanTake() ==> r == ErrFull && done == 0 && (NewIndexNeeded(pos) || pos == 0 || end.Complete?))
    && (OffsetIn(pos) > 0 && len <= DATA_SIZE - OffsetIn(pos) ==> if room.CanTake() then r == Ok else r == ErrFull && done == len && end.Torn?)
    && (pos > 0 && room.blocks >= 1 && r != Ok && done > 0 ==> end.Torn? || AtIndexEnd(pos + done))
  }

  /** The pages that an append takes whose bytes all belong to one index page: for that page
      if there is none yet, for the data pages it begins, and for the header unless the file
      was empty. */
  function PagesTaken(pos: nat, len: nat): nat
  {
    (if NewIndexNeeded(pos) then 1 else 0) + Begun(pos, len) + if pos == 0 then 0 else 1
  }

  /** How an append with `left` pages to be had ends whose bytes all belong to one index
      page: it succeeds exactly if they are enough.  Otherwise an empty file has what was
      appended, or length 0 if that is nothing; another file is as it was if the first page
      asked for was not had, has an index page too many if that was the only one, and keeps
      its old length if the header could not be stored. */
  ghost predicate AppendCounts(pos: nat, len: nat, left: nat, r: Status, end: Ending)
  {
    && (r == Ok <==> left >= PagesTaken(pos, len))
    && (r == Ok ==> end.Complete?)
    && (r != Ok ==>
          && r == ErrFull
          && end == if pos == 0 then (if left == 0 then ZeroSize else Complete)
                    else if OffsetIn(pos) == 0 && left == 0 then Complete
                    else if NewIndexNeeded(pos) && left == 1 then SpareIndex
                    else Torn)
  }

  /** How the loop and the end of an append add up; `a` is the room with the first index page
      at hand. */
  lemma LoadedCounts(pos: nat, len: nat, a: Room, b: Room, c: Room, r: Status, r2: Status, done: nat, end: Ending, k: nat)
    requires OneIndex(pos, len) && done <= len && (r == Ok <==> done == len) && r in {Ok, ErrFull}
    requires k == IxSpan(PageOf(pos)) && (r != Ok ==> OffsetIn(pos + done) == 0)
    requires Tally(r, a, b, Begun(pos, done)) && !a.cleaning && !AnyDeletedBlock(a.lu)
    requires r2 == (if (pos == 0 && k == 0) || b.CanTake() then Ok else ErrFull) && end == EndOf(pos + done, pos, k, r2 == Ok)
    requires !(pos == 0 && k == 0) ==> Took(r2, b, c)
    ensures AppendCounts(pos, len, a.Left() + if NewIndexNeeded(pos) then 1 else 0, if r2 != Ok then r2 else r, end)
  {
    hide FreeSlots, AnyDeletedBlock;
    NewIndexAtStart(pos);
    if pos == 0 {
      BytePlace(0, 0);
    }
    if r != Ok {
      BegunLess(pos, done, len);
    }
  }

  lemma BegunLess(pos: nat, done: nat, len: nat)
    requires done < len && OffsetIn(pos + done) == 0
    ensures Begun(pos, done) < Begun(pos, len)
  {
    QuotMono(pos + done, pos + len - 1, DATA_SIZE);
    if done > 0 {
      LastBefore(pos + done);
    }
  }

  /** How the loop and the end of an append fail together. */
  lemma LoadedFails(pos: nat, len: nat, a: Room, b: Room, r: Status, r2: Status, done: nat, left: bool, end: Ending, k: nat, m: nat)
    requires 0 < len && done <= len && (r == Ok <==> done == len) && r in {Ok, ErrFull}
    requires done == 0 <==> OffsetIn(pos) == 0 && !a.CanTake()
    requires OffsetIn(pos) > 0 && len <= DATA_SIZE - OffsetIn(pos) ==> r == Ok && b == a
    requires r != Ok && !left && a.blocks >= 1 ==> !b.CanTake()
    requires left ==> r2 == Ok && done > 0 && r != Ok && AtIndexEnd(pos + done) && (end.Complete? || end.StaleSizes? || end.Torn?)
    requires !left ==>
               && r2 == (if (pos == 0 && k == 0) || b.CanTake() then Ok else ErrFull) && end == EndOf(pos + done, m, k, r2 == Ok)
               && pos <= m <= pos + done && (done == 0 ==> k == IxSpan(PageOf(pos)))
               && (r == Ok ==> m < pos + done && k == IxSpan(PageOf(pos + done - 1)))
               && (0 < done && m == pos + done ==> AtIndexEnd(pos + done))
    ensures AppendFails(pos, len, a, if r2 != Ok then r2 else r, done, end)
    ensures r == Ok && r2 == Ok ==> end.Complete?
  {
    hide AtIndexEnd;
    if pos == 0 {
      BytePlace(0, 0);
    }
    if OffsetIn(pos) > 0 && len <= DATA_SIZE - OffsetIn(pos) {
      LastOfChunk(pos, len);
    }
  }

  /** The pages that appending `len` bytes at `pos` takes at most. */
  function AppendPages(pos: nat, len: nat): nat
  {
    2 + Touched(pos, len)
  }

  /** All that can be said of an append from the room there is when it starts. */
  ghost predicate AppendForetold(pos: nat, len: nat, room: Room, r: Status, done: nat, end: Ending)
  {
    && AppendFails(pos, len, room, r, done, end)
    && (OneIndex(pos, len) && !AnyDeletedBlock(room.lu) ==> AppendCounts(pos, len, room.Left(), r, end))
    && (room.Sure() >= AppendPages(pos, len) ==> r == Ok)
  }

  lemma SureAppends(pos: nat, len: nat, room: Room, r: Status, done: nat, end: Ending)
    requires AppendForetold(pos, len, room, r, done, end)
    ensures room.Sure() >= AppendPages(pos, len) ==> r == Ok
  {
    hide AppendFails, AppendCounts, SurePages, AppendPages, AnyDeletedBlock;
  }

  /** The same from the room with the first index page at hand. */
  ghost predicate LoadedForetold(pos: nat, len: nat, a: Room, b: Room, r: Status, done: nat, end: Ending)
  {
    && Drew(a, b, Touched(pos, len) + 1) && (a.Sure() > Touched(pos, len) ==> r == Ok)
    && AppendFails(pos, len, a, r, done, end)
    && (OneIndex(pos, len) && !AnyDeletedBlock(a.lu) ==> AppendCounts(pos, len, a.Left() + if NewIndexNeeded(pos) then 1 else 0, r, end))
  }

  lemma LoadedSays(pos: nat, len: nat, a: Room, b: Room, r: Status, done: nat, end: Ending)
    requires Drew(a, b, Touched(pos, len) + 1) && (a.Sure() > Touched(pos, len) ==> r == Ok) && AppendFails(pos, len, a, r, done, end)
    requires OneIndex(pos, len) && !AnyDeletedBlock(a.lu) ==> AppendCounts(pos, len, a.Left() + if NewIndexNeeded(pos) then 1 else 0, r, end)
    ensures LoadedForetold(pos, len, a, b, r, done, end)
  {
    hide Drew, Touched, AppendFails, OneIndex, AnyDeletedBlock, AppendCounts, NewIndexNeeded, Supply, SurePages;
  }

  /** The append after the collector has made room. */
  method AppendBytes(fs: Spiffs, f: nat, id: nat, pos: nat, data: seq<byte>, ghost files: map<nat, FileView>)
    returns (r: Status, done: nat, end: Ending)
    requires Mounted(fs) && OpenOn(fs, f, id) && FilesOf(fs) == files && id in files && |files[id].bytes| == pos
    requires |data| > 0
    modifies fs`lu, fs`pg, fs`flash, fs`trace, fs`freeBlocks, fs`eraseCount, fs`maxEraseCount, fs`pDeleted,
             fs`freeBlock, fs`freeEntry, fs`pAllocated, fs`fds, fs`cat, fs`cursorBlock, fs`cursorEntry
    ensures fs.LookupOk() && (r == Ok || r == ErrFull)
    ensures done <= |data| && (r == Ok ==> done == |data| && end.Complete?)
    ensures AppendEnds(fs, f, id, pos, pos + done, files[id := Grown(files[id], data[..done])], end)
    ensures end.Complete? || end.SpareIndex? ==> FdsKept(old(fs.fds), fs.fds)
    ensures r != Ok ==> fs.freeBlocks <= 2
    ensures Drew(old(fs.Space()), fs.Space(), AppendPages(pos, |data|))
    ensures AppendForetold(pos, |data|, old(fs.Space()), r, done, end)
  {
    hide AppendForetold, LoadedForetold, Drew, OneIndex, AppendCounts, AnyDeletedBlock, Supply, FreeSlots, Spared, AppendEnds, FlashState, LookupState, FdsPagesOk, FdsSizesOk, FdsSizesBut, FdsKept, Tight, Holds, Growing, CanProgram, Appending, LastIndex, Stored, InFlash, AppendLeft, Touched, Took, AppendFails;
    done, end := 0, Complete;
    FdsKeptSelf(fs.fds);
    assert data[..0] == [];
    assert Grown(files[id], []) == files[id];
    assert files[id := files[id]] == files;
    ViewLength(fs.lu, fs.pg, fs.cat, id);
    SizesBut(fs.fds, fs.cat, id);
    IsStored(fs, f, id, pos, files);
    var k, x, work;
    ghost var sized;
    ghost var room0 := fs.Space();
    r, k, x, work, sized := AppendStart(fs, f, id, pos, files);
    ghost var room1 := fs.Space();
    if r != Ok {
      StartFails(r, room0, room1, pos, |data|);
      IsStored(fs, f, id, pos, files);
      NothingAppended(fs, f, id, pos, files);
      return;
    }
    ghost var fds1 := fs.fds;
    r, done, end := AppendLoaded(fs, f, id, k, x, work, pos, sized, data, files);
    FdsKeptMaybe(old(fs.fds), fds1, fs.fds);
    LoadedRoom(room0, room1, fs.Space(), pos, |data|, r, done, end);
  }

  lemma NewIndexAtStart(pos: nat)
    ensures NewIndexNeeded(pos) ==> pos > 0 && OffsetIn(pos) == 0
  {
    if NewIndexNeeded(pos) && OffsetIn(pos) > 0 {
      BytePlace(PageOf(pos), OffsetIn(pos) - 1);
    }
  }

  /** The first index page could not be made. */
  lemma StartFails(r: Status, a: Room, b: Room, pos: nat, len: nat)
    requires !a.cleaning && (if NewIndexNeeded(pos) then Took(r, a, b) else r == Ok && b == a) && Spared(a.lu, b.lu, {}) && r != Ok
    ensures Drew(a, b, AppendPages(pos, len)) && b.blocks <= 2 && r == ErrFull && AppendForetold(pos, len, a, r, 0, Complete)
  {
    hide Touched, AppendCounts, OneIndex, Supply, FreeSlots, AnyDeletedBlock, Spared;
    NewIndexAtStart(pos);
    StartCounts(r, a, b, pos, len);
  }

  /** What the first index page takes of the pages to be had. */
  lemma StartCounts(r: Status, a: Room, b: Room, pos: nat, len: nat)
    requires !a.cleaning && if NewIndexNeeded(pos) then Took(r, a, b) else r == Ok && b == a
    requires Spared(a.lu, b.lu, {})
    ensures !AnyDeletedBlock(a.lu) ==> !AnyDeletedBlock(b.lu)
    ensures !AnyDeletedBlock(a.lu) && r == Ok ==> a.Left() == b.Left() + if NewIndexNeeded(pos) then 1 else 0
    ensures !AnyDeletedBlock(a.lu) && r != Ok && OneIndex(pos, len) ==> AppendCounts(pos, len, a.Left(), r, Complete)
  {
    hide AllDeleted, FreeSlots, SurePages;
    NewIndexAtStart(pos);
    if !AnyDeletedBlock(a.lu) {
      StillNoneDeleted(a.lu, b.lu);
    }
  }

  /** The rest of the append, with what the first index page took. */
  lemma LoadedRoom(a: Room, b: Room, c: Room, pos: nat, len: nat, r: Status, done: nat, end: Ending)
    requires !a.cleaning && (if NewIndexNeeded(pos) then Took(Ok, a, b) else b == a) && Spared(a.lu, b.lu, {})
    requires LoadedForetold(pos, len, b, c, r, done, end)
    ensures Drew(a, c, AppendPages(pos, len)) && AppendForetold(pos, len, a, r, done, end)
  {
    hide Touched, AppendCounts, OneIndex, Supply, FreeSlots, AnyDeletedBlock, Spared;
    NewIndexAtStart(pos);
    StartCounts(Ok, a, b, pos, len);
  }

  lemma IsStored(fs: Spiffs, f: nat, id: nat, n: nat, files: map<nat, FileView>)
    requires fs.LookupOk() && !fs.cleaning && OpenOn(fs, f, id) && Holds(fs.lu, fs.pg, fs.cat) && Files(fs.pg, fs.cat) == files
    requires Tight(fs.cat) && FdsPagesOk(fs.fds, fs.cat) && FdsSizesOk(fs.fds, fs.cat) && Length(fs.cat[id].size) == n
    ensures Stored(fs, f, id, n, files, true) && Stored(fs, f, id, n, files, false)
  {
    hide FlashState, LookupState, Holds;
  }

  /** The collector has changed no file. */
  lemma AfterGc(fds0: seq<Fd>, fs: Spiffs, f: nat, id: nat, files: map<nat, FileView>)
    requires fs.LookupOk() && !fs.cleaning && Steady(fs, files) && FdsKept(fds0, fs.fds)
    requires f < |fds0| && Tracked(fds0[f]) && fds0[f].id == id && id in files
    ensures Mounted(fs) && OpenOn(fs, f, id) && FilesOf(fs) == files
    ensures Stored(fs, f, id, |files[id].bytes|, files, true)
  {
    hide FlashState, LookupState, FdsPagesOk;
    OpenAfterEvent(fds0, fs.fds, f);
    SizesBut(fs.fds, fs.cat, id);
    ViewLength(fs.lu, fs.pg, fs.cat, id);
  }

  /** Adds bytes at the end of the file of descriptor `f`; an offset past the end
      counts as the end.  If pages run out the bytes written so far are stored if they can
      be, and the failure is reported.  Which of this happens is decided by the room the
      collector leaves. */
  method ObjectAppend(fs: Spiffs, f: nat, offset: nat, data: seq<byte>)
    returns (r: Status, done: nat, end: Ending, ghost gc: Gathering)
    requires Mounted(fs) && f < |fs.fds| && OpenOn(fs, f, fs.fds[f].id) && |data| > 0
    requires |FilesOf(fs)[fs.fds[f].id].bytes| <= offset
    requires fs.fds[f].size.None? ==> offset == 0
    modifies fs
    ensures fs.LookupOk() && fs.start == old(fs.start) && (r == Ok || r == ErrFull || r == ErrNotFound)
    ensures done <= |data| && (r == Ok ==> done == |data| && end.Complete?)
    ensures r == ErrNotFound ==> end.Torn? && done == 0 && Behind(fs, old(FilesOf(fs)))
    ensures var id := old(fs.fds)[f].id;
            var v := old(FilesOf(fs))[id];
            r != ErrNotFound ==>
              AppendEnds(fs, f, id, |v.bytes|, |v.bytes| + done, old(FilesOf(fs))[id := Grown(v, data[..done])], end)
    ensures end.Complete? || end.SpareIndex? ==> FdsKept(old(fs.fds), fs.fds)
    ensures r != Ok ==> Scarce(fs, |data| + DATA_SIZE)
    ensures end.ZeroSize? || end.SpareIndex? || end.StaleSizes? || end.Torn? ==> r != Ok
    ensures Gathers(old(LayoutOf(fs)), |data| + DATA_SIZE, gc, old(fs.fds)[f].id)
    ensures old(Roomy(fs, |data| + DATA_SIZE)) ==> gc.r == Ok && gc.after == old(LayoutOf(fs))
    ensures gc.r != Ok ==> r == gc.r && done == 0 && (r == ErrFull ==> end.Complete?)
    ensures var pos := |old(FilesOf(fs))[old(fs.fds)[f].id].bytes|;
            gc.r == Ok ==>
              && Drew(gc.after.space, fs.Space(), AppendPages(pos, |data|))
              && AppendForetold(pos, |data|, gc.after.space, r, done, end)
  {
    hide Collected, Gathers, Quiet, AppendPages, Files, Supply, FreeSlots, FlashState, LookupState, FdsPagesOk, FdsSizesOk, FdsSizesBut, FdsKept, Tight, Holds, Stored, Saved, Behind, IsIndexImage, AppendLeft, Drew, NeededPages, NoneFree, AppendEnds, AppendForetold;
    ghost var files := FilesOf(fs);
    var id := fs.fds[f].id;
    var pos := AppendPosition(fs, f, offset);
    done := 0;
    assert data[..0] == [];
    assert Grown(files[id], []) == files[id];
    assert files[id := files[id]] == files;
    var work;
    ghost var a := LayoutOf(fs);
    r, work := GcCheck(fs, |data| + DATA_SIZE, Erased);
    HasGathered(fs, a, |data| + DATA_SIZE, id, r, files);
    gc := Gathering(r, LayoutOf(fs), if id in fs.cat then fs.cat[id] else File("", None, [], []));
    if r == ErrNotFound {
      end := Torn;
      return;
    }
    AfterGc(old(fs.fds), fs, f, id, files);
    if r != Ok {
      end := Complete;
      NothingAppended(fs, f, id, pos, files);
      return;
    }
    ghost var fds1 := fs.fds;
    r, done, end := AppendBytes(fs, f, id, pos, data, files);
    FdsKeptMaybe(old(fs.fds), fds1, fs.fds);
  }

  lemma NothingAppended(fs: Spiffs, f: nat, id: nat, n: nat, files: map<nat, FileView>)
    requires Stored(fs, f, id, n, files, true)
    ensures AppendEnds(fs, f, id, n, n, files, Complete)
  {
    hide Stored;
  }

  lemma SizesBut(fds: seq<Fd>, cat: Catalogue, id: nat)
    requires FdsSizesOk(fds, cat)
    ensures FdsSizesBut(fds, cat, id)
  {
  }

  /** Where an append starts: the end of the file, as the descriptor knows it. */
  method AppendPosition(fs: Spiffs, f: nat, offset: nat) returns (pos: nat)
    requires Mounted(fs) && f < |fs.fds| && OpenOn(fs, f, fs.fds[f].id)
    requires |FilesOf(fs)[fs.fds[f].id].bytes| <= offset
    requires fs.fds[f].size.None? ==> offset == 0
    ensures fs.fds[f].id in FilesOf(fs) && pos == |FilesOf(fs)[fs.fds[f].id].bytes|
  {
    assert FdSizeOk(fs.fds[f], fs.cat);
    pos := offset;
    if fs.fds[f].size.Some? && offset > fs.fds[f].size.value {
      pos := fs.fds[f].size.value;
    }
  }

  /** The descriptor remembers the last index page and the length it has reached. */
  method FinishCursor(fs: Spiffs, f: nat, id: nat, k: nat, x: nat, work: Page, n: nat, ghost m: nat, ghost sized: bool,
                      ghost files: map<nat, FileView>)
    requires Appending(fs, f, id, k, x, work, n, files) && InFlash(fs.pg, fs.fds, fs.cat, id, k, x, work, m, n, sized)
    modifies fs`fds
    ensures Appending(fs, f, id, k, x, work, n, files) && FdsKept(old(fs.fds), fs.fds)
    ensures n > 0 ==> InFlash(fs.pg, fs.fds, fs.cat, id, k, x, work, m, n, sized)
  {
    hide FlashState, LookupState, FdsPagesOk, FdsSizesBut, FdsSizesOk, FdsKept, Holds, Growing, CanProgram;
    SetCursorBut(fs.fds, fs.cat, f, k, x, Some(n));
    if n > 0 && m == n && sized {
      CursorKnowsLength(fs.fds, fs.cat, f, k, x, n);
    }
    fs.fds := fs.fds[f := fs.fds[f].(ixSpan := k, ixPix := x, size := Some(n))];
    OpenAfterEvent(old(fs.fds), fs.fds, f);
  }

  lemma CursorKnowsLength(fds: seq<Fd>, cat: Catalogue, f: nat, k: nat, x: nat, n: nat)
    requires f < |fds| && FdsSizesOk(fds, cat) && fds[f].id in cat && cat[fds[f].id].size == Some(n)
    ensures FdsSizesOk(fds[f := fds[f].(ixSpan := k, ixPix := x, size := Some(n))], cat)
  {
    var fds' := fds[f := fds[f].(ixSpan := k, ixPix := x, size := Some(n))];
    forall i | 0 <= i < |fds'| ensures FdSizeOk(fds'[i], cat) {
      assert FdSizeOk(fds[i], cat);
    }
  }
}

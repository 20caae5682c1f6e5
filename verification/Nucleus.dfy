/** What the object operations and the garbage collector share: how index pages
    are written and found. */
module Nucleus {
  import opened Geometry
  import opened Image
  import opened Steps
  import opened Lookup
  import opened Volume

  /** How a change of a file ended: with all that was written stored; with a data page
      lost; with other contents in the header; with an index page too many; with an
      empty file that claims a length; with descriptors that do not know the length;
      or with an index page that could not be stored. */
  datatype Ending = Complete | LostPage | StaleHeader | SpareIndex | ZeroSize | StaleSizes | Torn

  /** The image is consistent and holds these files, and the descriptors are right. */
  ghost predicate Steady(fs: Spiffs, files: map<nat, FileView>)
    reads fs`lu, fs`pg, fs`cat, fs`fds
  {
    && Holds(fs.lu, fs.pg, fs.cat) && Files(fs.pg, fs.cat) == files
    && Tight(fs.cat) && FdsPagesOk(fs.fds, fs.cat) && FdsSizesOk(fs.fds, fs.cat)
  }

  /** An index page has moved and its event has been raised. */
  lemma IndexMoveStep(lu: seq<Entry>, v: seq<Page>, cat: Catalogue, fds: seq<Fd>, lu': seq<Entry>, pg': seq<Page>,
                      id: nat, k: nat, d: nat, ev: Event, newSize: Option<Option<nat>>)
    requires Holds(lu, v, cat) && id in cat && k < |cat[id].ixs|
    requires IndexMoved(lu, v, lu', pg', id, cat[id], k, d)
    requires Tight(cat) && FdsPagesOk(fds, cat) && FdsSizesOk(fds, cat)
    requires ev != IxDeleted && (newSize == None || newSize == Some(cat[id].size))
    ensures var cat' := cat[id := cat[id].(ixs := cat[id].ixs[k := d])];
            var fds' := EventOnFds(fds, ev, id, k, d, newSize);
            && Holds(lu', pg', cat') && Files(pg', cat') == Files(v, cat)
            && Tight(cat') && FdsPagesOk(fds', cat') && FdsSizesOk(fds', cat') && FdsKept(fds, fds')
  {
    hide IndexMoved, Holds, HoldsBut, Files, FilesBut;
    NothingLost(lu, v, cat, id);
    IndexMoveStepBut(lu, v, cat, fds, lu', pg', id, {}, k, d, ev, newSize);
    NothingLost(lu', pg', cat[id := cat[id].(ixs := cat[id].ixs[k := d])], id);
  }

  lemma IndexMoveStepBut(lu: seq<Entry>, v: seq<Page>, cat: Catalogue, fds: seq<Fd>, lu': seq<Entry>, pg': seq<Page>,
                         id: nat, lost: set<nat>, k: nat, d: nat, ev: Event, newSize: Option<Option<nat>>)
    requires HoldsBut(lu, v, cat, id, lost) && id in cat && k < |cat[id].ixs|
    requires IndexMoved(lu, v, lu', pg', id, cat[id], k, d)
    requires Tight(cat) && FdsPagesOk(fds, cat) && FdsSizesOk(fds, cat)
    requires ev != IxDeleted && (newSize == None || newSize == Some(cat[id].size))
    ensures var cat' := cat[id := cat[id].(ixs := cat[id].ixs[k := d])];
            var fds' := EventOnFds(fds, ev, id, k, d, newSize);
            && HoldsBut(lu', pg', cat', id, lost) && FilesBut(pg', cat', id, lost) == FilesBut(v, cat, id, lost)
            && Tight(cat') && FdsPagesOk(fds', cat') && FdsSizesOk(fds', cat') && FdsKept(fds, fds')
  {
    MoveIndexBut(lu, v, cat, lu', pg', id, lost, k, d);
    EventAfterMove(fds, cat, ev, id, k, d, newSize);
  }

  /** What the source checks of a page before it stores it as the header of any object. */
  predicate PassesForHeader(p: Page)
  {
    p.IndexPage? && p.hdr.ix && p.hdr.live && p.hdr.final && p.hdr.span == 0
  }

  /** Only pages in `but` have been deleted. */
  ghost predicate Spared(lu0: seq<Entry>, lu: seq<Entry>, but: set<nat>)
  {
    |lu| == |lu0| && forall t: nat :: t < |lu| && t !in but && !lu0[t].Deleted? ==> !lu[t].Deleted?
  }

  /** Writes the contents of index page `k` of `id` to a new page and tells the descriptors. */
  method WriteIndex(fs: Spiffs, id: nat, k: nat, x: nat, work: Page) returns (r: Status, d: nat)
    requires fs.LookupOk() && x < SLOTS && fs.lu[x].Used? && work.IndexPage?
    modifies fs`lu, fs`pg, fs`flash, fs`trace, fs`freeBlocks, fs`eraseCount, fs`maxEraseCount, fs`pDeleted,
             fs`freeBlock, fs`freeEntry, fs`pAllocated, fs`fds
    ensures r != Ok && fs.cleaning ==> r == ErrNotFound && NoneFree(fs.lu) && fs.lu == old(fs.lu) && fs.pg == old(fs.pg)
    ensures fs.LookupOk() && (r == Ok || r == ErrFull || r == ErrNotFound)
    ensures r != Ok ==> fs.fds == old(fs.fds) && Sizes(fs.lu, fs.pg) && KeptBut(old(fs.lu), old(fs.pg), fs.lu, fs.pg, {})
    ensures r == Ok ==>
              && d < SLOTS && d != x && !old(fs.lu)[d].Used?
              && KeptBut(old(fs.lu), old(fs.pg), fs.lu, fs.pg, {d, x})
              && fs.lu[d] == Used(id, true) && fs.pg[d] == work && fs.lu[x] == Deleted
              && fs.freeBlock == BlockOf(d) && fs.freeEntry == EntryOf(d) + 1
              && fs.fds == EventOnFds(old(fs.fds), IxUpdated, id, k, d, if k == 0 then Some(work.size) else None)
    ensures r == Ok && fs.cleaning ==> old(fs.lu)[d].Free? && fs.lu == old(fs.lu)[d := Used(id, true)][x := Deleted]
    ensures fs.cleaning ==> fs.Ages() == old(fs.Ages())
    ensures Took(r, old(fs.Space()), fs.Space())
  {
    hide FlashState, CursorOk, TakenBefore, FreeSuffix, EventOnFd, Counted, Took;
    if k == 0 {
      r, d := fs.UpdateIndexHdr(id, x, Some(work), None);
    } else {
      r, d := fs.PageMove(Some(work), id, true, x);
      if r == Ok {
        fs.CbObjectEvent(IxUpdated, id, k, d, None);
      }
    }
  }

  /** No index page moved. */
  ghost predicate SameIndexes(cat0: Catalogue, cat: Catalogue)
  {
    && cat.Keys == cat0.Keys
    && forall i :: i in cat ==> cat[i].ixs == cat0[i].ixs && cat[i].size == cat0[i].size && |cat[i].data| == |cat0[i].data|
  }

  lemma SameIndexesKeep(cat0: Catalogue, cat: Catalogue, fds: seq<Fd>)
    requires SameIndexes(cat0, cat) && Tight(cat0) && FdsPagesOk(fds, cat0) && FdsSizesOk(fds, cat0)
    ensures Tight(cat) && FdsPagesOk(fds, cat) && FdsSizesOk(fds, cat)
  {
    forall i | 0 <= i < |fds| ensures FdPagesOk(fds[i], cat) && FdSizeOk(fds[i], cat) {
      assert FdPagesOk(fds[i], cat0) && FdSizeOk(fds[i], cat0);
    }
  }

  /** The catalogue apart from where index pages are. */
  ghost predicate SameContents(cat0: Catalogue, cat: Catalogue)
  {
    && cat.Keys == cat0.Keys
    && forall i :: i in cat ==> cat[i] == cat0[i].(ixs := cat[i].ixs) && |cat[i].ixs| == |cat0[i].ixs|
  }

  /** Erased deleted pages do not matter under the work buffer either. */
  lemma OverlayKept(lu: seq<Entry>, pg: seq<Page>, lu': seq<Entry>, pg': seq<Page>, cat: Catalogue, id: nat, lost: set<nat>,
                    x: nat, work: Page)
    requires Sizes(lu, pg) && Sizes(lu', pg') && KeptBut(lu, pg, lu', pg', {})
    requires x < SLOTS && lu[x].Used? && HoldsBut(lu, pg[x := work], cat, id, lost)
    ensures HoldsBut(lu', pg'[x := work], cat, id, lost)
    ensures FilesBut(pg'[x := work], cat, id, lost) == FilesBut(pg[x := work], cat, id, lost)
    ensures lu'[x] == lu[x] && pg'[x] == pg[x] && Spared(lu, lu', {})
  {
    assert Kept(lu, pg, lu', pg', x);
    var v, v' := pg[x := work], pg'[x := work];
    forall t: nat | t < SLOTS ensures Kept(lu, v, lu', v', t) {
      assert Kept(lu, pg, lu', pg', t);
    }
    WipeStepBut(lu, v, cat, lu', v', id, lost);
  }

  lemma MovedUnderBuffer(lu: seq<Entry>, pg: seq<Page>, lu': seq<Entry>, pg': seq<Page>, x: nat, work: Page, d: nat)
    requires Sizes(lu, pg) && Sizes(lu', pg') && KeptBut(lu, pg, lu', pg', {d, x}) && x < SLOTS && d < SLOTS && lu'[d].Used?
    ensures KeptBut(lu, pg[x := work], lu', pg', {d, x}) && Spared(lu, lu', {x})
  {
    var v := pg[x := work];
    forall t: nat | t < SLOTS && t !in {d, x} ensures Kept(lu, v, lu', pg', t) {
      assert Kept(lu, pg, lu', pg', t);
    }
    forall t: nat | t < |lu'| && t !in {x} && !lu[t].Deleted? ensures !lu'[t].Deleted? {
      assert t != d ==> Kept(lu, v, lu', pg', t);
    }
  }

  /** Writes the work buffer, which stands for index page `k` of `id`, to a new
      page: the image with the buffer in place becomes the image.  If no page can be had
      the buffer still stands for that index page. */
  method StoreIndexPage(fs: Spiffs, id: nat, k: nat, x: nat, work: Page, ghost lost: set<nat>) returns (r: Status, d: nat)
    requires fs.LookupOk() && x < SLOTS && work.IndexPage?
    requires HoldsBut(fs.lu, fs.pg[x := work], fs.cat, id, lost) && Tight(fs.cat)
    requires FdsPagesOk(fs.fds, fs.cat) && FdsSizesOk(fs.fds, fs.cat)
    requires id in fs.cat && k < |fs.cat[id].ixs| && fs.cat[id].ixs[k] == x
    modifies fs`lu, fs`pg, fs`flash, fs`trace, fs`freeBlocks, fs`eraseCount, fs`maxEraseCount, fs`pDeleted,
             fs`freeBlock, fs`freeEntry, fs`pAllocated, fs`fds, fs`cat
    ensures fs.LookupOk() && (r == Ok || r == ErrFull || r == ErrNotFound)
    ensures r == Ok ==>
              && HoldsBut(fs.lu, fs.pg, fs.cat, id, lost)
              && FilesBut(fs.pg, fs.cat, id, lost) == FilesBut(old(fs.pg)[x := work], old(fs.cat), id, lost)
              && Tight(fs.cat) && FdsPagesOk(fs.fds, fs.cat) && FdsSizesOk(fs.fds, fs.cat)
              && fs.cat == old(fs.cat)[id := old(fs.cat)[id].(ixs := old(fs.cat)[id].ixs[k := d])]
              && FdsKept(old(fs.fds), fs.fds) && Spared(old(fs.lu), fs.lu, {x}) && x < |fs.lu| && fs.lu[x].Deleted?
    ensures r != Ok ==>
              && HoldsBut(fs.lu, fs.pg[x := work], fs.cat, id, lost)
              && FilesBut(fs.pg[x := work], fs.cat, id, lost) == FilesBut(old(fs.pg)[x := work], fs.cat, id, lost)
              && fs.cat == old(fs.cat) && fs.fds == old(fs.fds) && fs.pg[x] == old(fs.pg)[x] && Spared(old(fs.lu), fs.lu, {})
    ensures Took(r, old(fs.Space()), fs.Space())
  {
    hide FlashState, LookupState, EventOnFd, Tight, FdsPagesOk, FdsSizesOk, FdsKept, Took, FilesBut, KeptBut;
    ghost var v := fs.pg[x := work];
    assert IndexOk(fs.lu, v, id, fs.cat[id], k);
    hide HoldsBut, Spared;
    r, d := WriteIndex(fs, id, k, x, work);
    if r == Ok {
      MovedUnderBuffer(old(fs.lu), old(fs.pg), fs.lu, fs.pg, x, work, d);
      assert {d, x} == {x, d};
      IndexMoveStepBut(old(fs.lu), v, fs.cat, old(fs.fds), fs.lu, fs.pg, id, lost, k, d, IxUpdated, if k == 0 then Some(work.size) else None);
      fs.cat := fs.cat[id := fs.cat[id].(ixs := fs.cat[id].ixs[k := d])];
    } else {
      OverlayKept(old(fs.lu), old(fs.pg), fs.lu, fs.pg, fs.cat, id, lost, x, work);
    }
  }

  /** The slot of index page `k` of the object of descriptor `f`: the header page and
      the page of the descriptor's last index are cached, others are searched. */
  method IndexSlot(fs: Spiffs, f: nat, k: nat, ghost lost: set<nat>) returns (x: nat)
    requires fs.LookupOk() && FdsPagesOk(fs.fds, fs.cat)
    requires f < |fs.fds| && HoldsBut(fs.lu, fs.pg, fs.cat, fs.fds[f].id, lost) && Tracked(fs.fds[f]) && fs.fds[f].id in fs.cat && k < |fs.cat[fs.fds[f].id].ixs|
    modifies fs`cursorBlock, fs`cursorEntry
    ensures fs.LookupOk()
    ensures x < SLOTS && x == fs.cat[fs.fds[f].id].ixs[k]
    ensures fs.pg[x] == IndexImage(fs.fds[f].id, fs.cat[fs.fds[f].id], k)
  {
    hide FlashState, LookupState;
    var id := fs.fds[f].id;
    assert FdPagesOk(fs.fds[f], fs.cat);
    assert IndexOk(fs.lu, fs.pg, id, fs.cat[id], k);
    if k == 0 {
      return fs.fds[f].hdr;
    }
    if fs.fds[f].ixSpan == k {
      return fs.fds[f].ixPix;
    }
    var found := fs.FindIdAndSpan(id, true, k);
    FindIndexBut(fs.lu, fs.pg, fs.cat, id, lost, k, fs.cat[id].ixs[k]);
    if found.None? {
      assert false;
    }
    FindIndexBut(fs.lu, fs.pg, fs.cat, id, lost, k, found.value);
    return found.value;
  }

  /** The descriptor remembers the index page it used last. */
  lemma SetCursor(fds: seq<Fd>, cat: Catalogue, f: nat, k: nat, x: nat)
    requires FdsPagesOk(fds, cat) && FdsSizesOk(fds, cat) && f < |fds|
    requires fds[f].id in cat && (k < |cat[fds[f].id].ixs| ==> cat[fds[f].id].ixs[k] == x)
    ensures var fds' := fds[f := fds[f].(ixSpan := k, ixPix := x)]; FdsPagesOk(fds', cat) && FdsSizesOk(fds', cat)
  {
    var fds' := fds[f := fds[f].(ixSpan := k, ixPix := x)];
    forall i | 0 <= i < |fds'| ensures FdPagesOk(fds'[i], cat) && FdSizeOk(fds'[i], cat) {
      assert FdPagesOk(fds[i], cat) && FdSizeOk(fds[i], cat);
    }
  }
}

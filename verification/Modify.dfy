/** Replacing bytes of an object: a loop over its data pages that keeps the current index
    page in a work buffer.  Each page is rewritten elsewhere and its reference changed in
    the buffer, which is stored when the loop leaves the index page and at the end.  A
    page that is replaced as a whole is deleted even if no new one could be had. */
module Modify {
  import opened Geometry
  import opened Image
  import opened Steps
  import opened Lookup
  import opened Volume
  import opened Nor
  import opened Encoding
  import opened Trace
  import opened Nucleus
  import opened Gc
  import opened Objects

  lemma ReplacedIsOverwritten(before: seq<byte>, after: seq<byte>, j: nat, bytes: seq<byte>,
                              orig: seq<byte>, off: nat, chunk: seq<byte>)
    requires PageReplaced(before, after, j, bytes)
    requires |orig| == DATA_SIZE && off + |chunk| <= DATA_SIZE && bytes == Overwrite(orig, off, chunk)
    requires Start(j) + off + |chunk| <= |before|
    requires forall k: nat :: k < |before| && PageOf(k) == j ==> orig[OffsetIn(k)] == before[k]
    ensures after == Overwrite(before, Start(j) + off, chunk)
  {
    forall k | 0 <= k < |after| ensures after[k] == Overwrite(before, Start(j) + off, chunk)[k] {
      if Start(j) <= k < Start(j) + DATA_SIZE {
        BytePlace(j, k - Start(j));
      } else {
        assert PageOf(k) != j by { assert Start(PageOf(k)) + OffsetIn(k) == k; }
      }
    }
  }

  /** Writes a new page for data page `j`: the old bytes with a chunk replaced. */
  method RewritePage(fs: Spiffs, id: nat, j: nat, orig: nat, off: nat, chunk: seq<byte>) returns (r: Status, d: nat)
    requires fs.LookupOk() && orig < SLOTS && fs.lu[orig].Used?
    requires fs.pg[orig].DataPage? && |fs.pg[orig].bytes| == DATA_SIZE && off + |chunk| <= DATA_SIZE
    modifies fs`lu, fs`pg, fs`flash, fs`trace, fs`freeBlocks, fs`eraseCount, fs`maxEraseCount, fs`pDeleted,
             fs`freeBlock, fs`freeEntry, fs`pAllocated
    ensures fs.LookupOk()
    ensures r != Ok ==> KeptBut(old(fs.lu), old(fs.pg), fs.lu, fs.pg, {}) && (r == ErrFull || r == ErrNotFound)
    ensures r == Ok ==>
              && d < SLOTS && d != orig && !old(fs.lu)[d].Used? && KeptBut(old(fs.lu), old(fs.pg), fs.lu, fs.pg, {d})
              && fs.lu[d] == Used(id, false)
              && fs.pg[d] == DataPage(LiveHeader(id, false, j), Overwrite(old(fs.pg)[orig].bytes, off, chunk))
    ensures Took(r, old(fs.Space()), fs.Space())
  {
    hide FlashState, LookupState, Program, Overwrite, OnlyClears, Took;
    ghost var bytes := fs.pg[orig].bytes;
    if off == 0 && |chunk| == DATA_SIZE {
      r, d := fs.AllocateData(LiveHeader(id, false, j).(final := false), chunk, true);
      FreshIsOverwrite(bytes, chunk);
      return;
    }
    r, d := fs.AllocateData(LiveHeader(id, false, j).(final := false), [], false);
    if r != Ok {
      return;
    }
    assert Kept(old(fs.lu), old(fs.pg), fs.lu, fs.pg, orig);
    ghost var lu1, pg1 := fs.lu, fs.pg;
    ProgramNothing(ErasedBytes(), 0);
    FillRewritten(fs, d, orig, off, chunk);
    OneChanged(old(fs.lu), old(fs.pg), lu1, pg1, fs.lu, fs.pg, d);
  }

  /** Copies what stays from page `orig` to the new page `d` and writes the chunk. */
  method FillRewritten(fs: Spiffs, d: nat, orig: nat, off: nat, chunk: seq<byte>)
    requires fs.LookupOk() && orig < SLOTS && d < SLOTS && d != orig && fs.lu[d].Used?
    requires fs.pg[orig].DataPage? && |fs.pg[orig].bytes| == DATA_SIZE && off + |chunk| <= DATA_SIZE
    requires fs.pg[d].DataPage? && fs.pg[d].bytes == ErasedBytes()
    modifies fs`pg, fs`flash, fs`trace
    ensures fs.LookupOk()
    ensures fs.pg == old(fs.pg)[d := DataPage(old(fs.pg)[d].hdr.(final := true), Overwrite(old(fs.pg)[orig].bytes, off, chunk))]
  {
    hide FlashState, LookupState, Program, Overwrite, OnlyClears;
    ghost var bytes := fs.pg[orig].bytes;
    ProgramNothing(ErasedBytes(), 0);
    var b := off + |chunk|;
    assert bytes[0..0 + off] == bytes[..off] && bytes[b..b + (DATA_SIZE - b)] == bytes[b..];
    ProgramNothing(Program(ErasedBytes(), 0, bytes[..off]), b);
    ErasedBetween(bytes, off, b);
    if off > 0 {
      fs.PhysCpy(d, orig, 0, off);
    }
    assert fs.pg[d].bytes == Program(ErasedBytes(), 0, bytes[..off]);
    if b < DATA_SIZE {
      fs.PhysCpy(d, orig, b, DATA_SIZE - b);
    }
    assert fs.pg[d].bytes == Program(Program(ErasedBytes(), 0, bytes[..off]), b, bytes[b..]);
    RewrittenPage(bytes, off, chunk);
    ErasedTakesAll(fs.pg[d].bytes, off, chunk);
    fs.ProgramData(d, off, chunk, Update);
    fs.Finalize(d);
  }

  lemma OneChanged(lu: seq<Entry>, pg: seq<Page>, lu1: seq<Entry>, pg1: seq<Page>, lu2: seq<Entry>, pg2: seq<Page>, d: nat)
    requires Sizes(lu, pg) && Sizes(lu1, pg1) && Sizes(lu2, pg2) && KeptBut(lu, pg, lu1, pg1, {d}) && d < SLOTS
    requires forall t: nat :: t < SLOTS && t != d ==> lu2[t] == lu1[t] && pg2[t] == pg1[t]
    ensures KeptBut(lu, pg, lu2, pg2, {d})
  {
    forall t: nat | t < SLOTS && t !in {d} ensures Kept(lu, pg, lu2, pg2, t) {
      assert Kept(lu, pg, lu1, pg1, t);
    }
  }

  /** Copying what stays leaves the range between erased. */
  lemma ErasedBetween(orig: seq<byte>, a: nat, b: nat)
    requires |orig| == DATA_SIZE && a <= b <= DATA_SIZE
    ensures forall i :: a <= i < DATA_SIZE ==> Program(ErasedBytes(), 0, orig[..a])[i] == ERASED_BYTE
    ensures forall i :: a <= i < b ==> Program(Program(ErasedBytes(), 0, orig[..a]), b, orig[b..])[i] == ERASED_BYTE
  {
  }

  lemma ProgramNothing(bytes: seq<byte>, offset: nat)
    requires offset <= |bytes|
    ensures Program(bytes, offset, []) == bytes
  {
  }

  lemma FreshIsOverwrite(orig: seq<byte>, chunk: seq<byte>)
    requires |orig| == |chunk| == DATA_SIZE
    ensures Program(ErasedBytes(), 0, chunk) == Overwrite(orig, 0, chunk)
  {
    ProgramErased(ErasedBytes(), 0, chunk);
  }

  /** The view of a file with a range of its bytes replaced. */
  function Overlaid(v: FileView, pos: nat, data: seq<byte>): FileView
    requires pos + |data| <= |v.bytes|
  {
    v.(bytes := Overwrite(v.bytes, pos, data))
  }

  /** Replacing data page `j` by a rewritten one overlays the chunk on the file. */
  lemma ModifyStep(lu: seq<Entry>, pg: seq<Page>, cat: Catalogue, lu': seq<Entry>, pg': seq<Page>,
                   id: nat, lost: set<nat>, x: nat, work: Page, work': Page, j: nat, d: nat, off: nat, chunk: seq<byte>)
    requires Sizes(lu, pg) && Sizes(lu', pg') && x < SLOTS
    requires HoldsBut(lu, pg[x := work], cat, id, lost) && id in cat && j < |cat[id].data| && j !in lost
    requires IxSpan(j) < |cat[id].ixs| && cat[id].ixs[IxSpan(j)] == x
    requires off + |chunk| <= DATA_SIZE && Start(j) + off + |chunk| <= Length(cat[id].size)
    requires var s := cat[id].data[j];
             && s < SLOTS && d < SLOTS && d != s && !lu[d].Used?
             && KeptBut(lu, pg, lu', pg', {d, s})
             && lu'[d] == Used(id, false) && lu'[s] == Deleted
             && pg[s].DataPage? && |pg[s].bytes| == DATA_SIZE
             && pg'[d] == DataPage(LiveHeader(id, false, j), Overwrite(pg[s].bytes, off, chunk))
    requires work.IndexPage? && IxEntry(j) < |work.table|
    requires work' == work.(table := work.table[IxEntry(j) := At(d)])
    ensures var cat' := cat[id := cat[id].(data := cat[id].data[j := d])];
            var files := FilesBut(pg[x := work], cat, id, lost);
            && HoldsBut(lu', pg'[x := work'], cat', id, lost)
            && Start(j) + off + |chunk| <= |files[id].bytes|
            && FilesBut(pg'[x := work'], cat', id, lost) == files[id := Overlaid(files[id], Start(j) + off, chunk)]
  {
    var f := cat[id];
    var s := f.data[j];
    var v, v' := pg[x := work], pg'[x := work'];
    IndexOfPageBut(lu, v, id, f, lost, j);
    var bytes := Overwrite(pg[s].bytes, off, chunk);
    OverlaidMoved(lu, pg, cat, lu', pg', id, lost, x, work, work', j, d, off, chunk);
    assert IndexOk(lu, v, id, f, IxSpan(j));
    hide HoldsBut, DataMoved;
    ReplaceDataBut(lu, v, cat, lu', v', id, lost, j, d, bytes);
    ReplacedIsOverwritten(Holed(View(v, f), lost).bytes, Holed(View(v', f.(data := f.data[j := d])), lost).bytes,
                          j, bytes, pg[s].bytes, off, chunk);
  }

  lemma OverlaidMoved(lu: seq<Entry>, pg: seq<Page>, cat: Catalogue, lu': seq<Entry>, pg': seq<Page>,
                      id: nat, lost: set<nat>, x: nat, work: Page, work': Page, j: nat, d: nat, off: nat, chunk: seq<byte>)
    requires Sizes(lu, pg) && Sizes(lu', pg') && x < SLOTS
    requires HoldsBut(lu, pg[x := work], cat, id, lost) && id in cat && j < |cat[id].data| && j !in lost
    requires IxSpan(j) < |cat[id].ixs| && cat[id].ixs[IxSpan(j)] == x
    requires off + |chunk| <= DATA_SIZE && Start(j) + off + |chunk| <= Length(cat[id].size)
    requires var s := cat[id].data[j];
             && s < SLOTS && d < SLOTS && d != s && !lu[d].Used?
             && KeptBut(lu, pg, lu', pg', {d, s})
             && lu'[d] == Used(id, false) && lu'[s] == Deleted
             && pg[s].DataPage? && |pg[s].bytes| == DATA_SIZE
             && pg'[d] == DataPage(LiveHeader(id, false, j), Overwrite(pg[s].bytes, off, chunk))
    requires work.IndexPage? && IxEntry(j) < |work.table|
    requires work' == work.(table := work.table[IxEntry(j) := At(d)])
    ensures DataMoved(lu, pg[x := work], lu', pg'[x := work'], id, cat[id], j, d, Overwrite(pg[cat[id].data[j]].bytes, off, chunk))
  {
    var f := cat[id];
    var s := f.data[j];
    var v, v' := pg[x := work], pg'[x := work'];
    var bytes := Overwrite(pg[s].bytes, off, chunk);
    IndexOfPageBut(lu, v, id, f, lost, j);
    forall t: nat | t < SLOTS && t !in {s, d, x} ensures Kept(lu, v, lu', v', t) {
      assert Kept(lu, pg, lu', pg', t);
    }
    assert Kept(lu, pg, lu', pg', x);
    forall o: nat | o < DATA_SIZE && Length(f.size) <= Start(j) + o ensures bytes[o] == ERASED_BYTE {
      BytePlace(j, o);
      TimesMono(j, |f.data|, DATA_SIZE);
      assert ByteAt(v, f, Start(j) + o) == ERASED_BYTE;
    }
  }

  /** Deleting data page `j` that was not replaced blanks it out. */
  lemma LoseStep(lu: seq<Entry>, pg: seq<Page>, cat: Catalogue, lu': seq<Entry>, pg': seq<Page>,
                 id: nat, lost: set<nat>, x: nat, work: Page, work': Page, j: nat, stale: nat)
    requires Sizes(lu, pg) && Sizes(lu', pg') && x < SLOTS
    requires HoldsBut(lu, pg[x := work], cat, id, lost) && id in cat && j < |cat[id].data| && j !in lost
    requires IxSpan(j) < |cat[id].ixs| && cat[id].ixs[IxSpan(j)] == x && Start(j) + DATA_SIZE <= Length(cat[id].size)
    requires var s := cat[id].data[j]; s < SLOTS && KeptBut(lu, pg, lu', pg', {s}) && lu'[s] == Deleted
    requires work.IndexPage? && IxEntry(j) < |work.table|
    requires work' == work.(table := work.table[IxEntry(j) := At(stale)])
    ensures var cat' := cat[id := cat[id].(data := cat[id].data[j := stale])];
            var files := FilesBut(pg[x := work], cat, id, lost);
            && HoldsBut(lu', pg'[x := work'], cat', id, lost + {j})
            && FilesBut(pg'[x := work'], cat', id, lost + {j}) == files[id := Holed(files[id], {j})]
  {
    var f := cat[id];
    var s := f.data[j];
    var v, v' := pg[x := work], pg'[x := work'];
    IndexOfPageBut(lu, v, id, f, lost, j);
    forall t: nat | t < SLOTS && t !in {s, x} ensures Kept(lu, v, lu', v', t) {
      assert Kept(lu, pg, lu', pg', t);
    }
    assert Kept(lu, pg, lu', pg', x);
    hide HoldsBut;
    LoseData(lu, v, cat, lu', v', id, lost, j, stale);
  }

  /** No data page of the object has span `j`. */
  ghost predicate PageLost(lu: seq<Entry>, pg: seq<Page>, id: nat, j: nat)
  {
    forall s: nat :: NotLost(lu, pg, id, {j}, s)
  }

  /** Whatever index pages are written for an object that has lost a data page, its file
      ends before that page. */
  lemma LostForGood(lu: seq<Entry>, pg: seq<Page>, cat: Catalogue, id: nat, j: nat)
    requires Holds(lu, pg, cat) && id in cat && PageLost(lu, pg, id, j)
    ensures |View(pg, cat[id]).bytes| <= Start(j)
  {
    var f := cat[id];
    FileOf(lu, pg, cat, id);
    assert j < |f.data| ==> DataOk(lu, pg, id, f, j) && NotLost(lu, pg, id, {j}, f.data[j]);
    SizeBound(f);
    TimesMono(|f.data|, j, DATA_SIZE);
  }

  /** What has been lost is lost in this sense. */
  lemma LostIsLost(lu: seq<Entry>, pg: seq<Page>, cat: Catalogue, id: nat, lost: set<nat>, j: nat)
    requires HoldsBut(lu, pg, cat, id, lost) && j in lost
    ensures PageLost(lu, pg, id, j)
  {
    forall s: nat ensures NotLost(lu, pg, id, {j}, s) {
      assert s < SLOTS ==> NotLost(lu, pg, id, lost, s);
    }
  }

  // ---------------------------------------------------------------------------
  // One page

  /** What asking for a page costs; a page may have been deleted after that. */
  ghost predicate Asked(a: Room, b: Room)
  {
    && Drew(a, b, 1) && (b.blocks <= a.blocks || b.blocks <= 2)
    && (if a.CanTake() then b.blocks >= 1 else b.blocks < 2)
    && (!a.cleaning && a.blocks >= 2 ==> OneLess(a, b))
    && (!a.cleaning && !a.CanTake() && !AnyDeletedBlock(a.lu) ==> b.blocks == a.blocks)
  }

  lemma TookIsAsked(r: Status, a: Room, b: Room)
    requires Took(r, a, b) && !a.cleaning
    ensures Asked(a, b) && r == (if a.CanTake() then Ok else ErrFull)
    ensures !a.CanTake() && a.blocks == 1 ==> b.blocks == 1 && b.lu == a.lu
  {
  }

  /** Taking page `d` deletes none, and none is erased unless a block holds deleted pages only. */
  lemma PageClears(r: Status, a: Room, b: Room, pg: seq<Page>, pg': seq<Page>, d: nat)
    requires Took(r, a, b) && !a.cleaning && Sizes(a.lu, pg) && Sizes(b.lu, pg')
    requires if r == Ok then d < SLOTS && KeptBut(a.lu, pg, b.lu, pg', {d}) && b.lu[d].Used? else KeptBut(a.lu, pg, b.lu, pg', {})
    ensures !AnyDeletedBlock(a.lu) ==> DeletedSlots(b.lu) == DeletedSlots(a.lu)
  {
    hide Supply, FreeSlots, AnyDeletedBlock, SurePages;
    forall t: nat | t < SLOTS && t != d ensures b.lu[t].Deleted? ==> a.lu[t].Deleted? {
      assert Kept(a.lu, pg, b.lu, pg', t);
    }
    if r != Ok && d < SLOTS {
      assert Kept(a.lu, pg, b.lu, pg', d);
    }
  }

  /** Deletes a data page that has been rewritten in slot `d` since the image was `lu` and
      `pg`, and puts the reference to the new one in the work buffer. */
  method ReplacePage(fs: Spiffs, id: nat, x: nat, work: Page, ghost lost: set<nat>, j: nat, ghost off: nat, ghost chunk: seq<byte>,
                     orig: nat, d: nat, ghost lu: seq<Entry>, ghost pg: seq<Page>) returns (newWork: Page)
    requires fs.LookupOk() && x < SLOTS && x != orig && Sizes(lu, pg) && HoldsBut(lu, pg[x := work], fs.cat, id, lost)
    requires id in fs.cat && j < |fs.cat[id].data| && j !in lost && fs.cat[id].data[j] == orig && orig < SLOTS
    requires IxSpan(j) < |fs.cat[id].ixs| && fs.cat[id].ixs[IxSpan(j)] == x && lu[x].Used? && lu[orig].Used?
    requires off + |chunk| <= DATA_SIZE && Start(j) + off + |chunk| <= Length(fs.cat[id].size)
    requires d < SLOTS && d != orig && !lu[d].Used? && KeptBut(lu, pg, fs.lu, fs.pg, {d})
    requires pg[orig].DataPage? && |pg[orig].bytes| == DATA_SIZE && fs.lu[d] == Used(id, false)
    requires fs.pg[d] == DataPage(LiveHeader(id, false, j), Overwrite(pg[orig].bytes, off, chunk))
    requires work.IndexPage? && IxEntry(j) < |work.table|
    modifies fs`lu, fs`pg, fs`flash, fs`trace, fs`pDeleted, fs`pAllocated, fs`cat
    ensures fs.LookupOk() && fs.pg[x] == pg[x] && Spared(lu, fs.lu, {orig})
    ensures fs.pAllocated == old(fs.pAllocated) - 1 && fs.pDeleted == old(fs.pDeleted) + 1
    ensures newWork == work.(table := work.table[IxEntry(j) := At(d)])
    ensures fs.lu == old(fs.lu)[orig := Deleted] && old(fs.lu)[orig].Used?
    ensures fs.cat == old(fs.cat)[id := old(fs.cat)[id].(data := old(fs.cat)[id].data[j := d])]
    ensures var files := FilesBut(pg[x := work], old(fs.cat), id, lost);
            && HoldsBut(fs.lu, fs.pg[x := newWork], fs.cat, id, lost)
            && Start(j) + off + |chunk| <= |files[id].bytes|
            && FilesBut(fs.pg[x := newWork], fs.cat, id, lost) == files[id := Overlaid(files[id], Start(j) + off, chunk)]
  {
    hide FlashState, LookupState, Overwrite, KeptBut, FilesBut, Spared, HoldsBut;
    UsedKept(lu, pg, fs.lu, fs.pg, {d}, orig);
    UsedKept(lu, pg, fs.lu, fs.pg, {d}, x);
    ghost var lu1, pg1 := fs.lu, fs.pg;
    fs.PageDelete(orig);
    OneMoreChanged(lu, pg, lu1, pg1, fs.lu, fs.pg, d, orig);
    newWork := work.(table := work.table[IxEntry(j) := At(d)]);
    ModifyStep(lu, pg, fs.cat, fs.lu, fs.pg, id, lost, x, work, newWork, j, d, off, chunk);
    fs.cat := fs.cat[id := fs.cat[id].(data := fs.cat[id].data[j := d])];
  }

  /** The work buffer refers to data page `j`. */
  lemma PageAt(lu: seq<Entry>, pg: seq<Page>, cat: Catalogue, id: nat, lost: set<nat>, x: nat, work: Page, j: nat)
    requires x < |pg| && HoldsBut(lu, pg[x := work], cat, id, lost) && id in cat && j < |cat[id].data| && j !in lost
    requires IxSpan(j) < |cat[id].ixs| && cat[id].ixs[IxSpan(j)] == x
    ensures |lu| == |pg| == SLOTS && work.IndexPage? && IxEntry(j) < |work.table|
    ensures var s := cat[id].data[j];
            && work.table[IxEntry(j)] == At(s) && s < SLOTS && s != x && lu[s].Used? && lu[x].Used?
            && pg[s].DataPage? && |pg[s].bytes| == DATA_SIZE
  {
    IndexOfPageBut(lu, pg[x := work], id, cat[id], lost, j);
  }

  /** Modifies part of data page `j` through the work buffer.  If no page can be had, a
      page that was to be replaced as a whole is deleted all the same and the work buffer
      refers to page `dataPix`; otherwise nothing changes.  That is so exactly if neither
      two blocks are free nor one is free and another one can be erased. */
  method ModifyPage(fs: Spiffs, id: nat, x: nat, work: Page, ghost lost: set<nat>, j: nat, off: nat, chunk: seq<byte>, dataPix: nat)
    returns (r: Status, newWork: Page, d: nat, lose: bool)
    requires fs.LookupOk() && !fs.cleaning && x < SLOTS && HoldsBut(fs.lu, fs.pg[x := work], fs.cat, id, lost)
    requires id in fs.cat && j < |fs.cat[id].data| && j !in lost
    requires IxSpan(j) < |fs.cat[id].ixs| && fs.cat[id].ixs[IxSpan(j)] == x
    requires off + |chunk| <= DATA_SIZE && Start(j) + off + |chunk| <= Length(fs.cat[id].size)
    modifies fs`lu, fs`pg, fs`flash, fs`trace, fs`freeBlocks, fs`eraseCount, fs`maxEraseCount, fs`pDeleted,
             fs`freeBlock, fs`freeEntry, fs`pAllocated, fs`cat
    ensures fs.LookupOk() && fs.pg[x] == old(fs.pg)[x]
    ensures lose <==> !old(fs.Space()).CanTake() && off == 0 && |chunk| == DATA_SIZE
    ensures r == if old(fs.Space()).CanTake() || lose then Ok else ErrFull
    ensures Asked(old(fs.Space()), fs.Space())
    ensures !AnyDeletedBlock(old(fs.lu)) ==>
              DeletedSlots(fs.lu) == if r == Ok then DeletedSlots(old(fs.lu)) + {old(fs.cat)[id].data[j]} else DeletedSlots(old(fs.lu))
    ensures r == Ok ==>
              && work.IndexPage? && IxEntry(j) < |work.table| && work.table[IxEntry(j)] == At(old(fs.cat)[id].data[j])
              && newWork == work.(table := work.table[IxEntry(j) := At(d)]) && (!lose ==> d != old(fs.cat)[id].data[j])
              && fs.cat == old(fs.cat)[id := old(fs.cat)[id].(data := old(fs.cat)[id].data[j := d])]
              && Spared(old(fs.lu), fs.lu, {old(fs.cat)[id].data[j]})
              && HoldsBut(fs.lu, fs.pg[x := newWork], fs.cat, id, if lose then lost + {j} else lost)
    ensures var files := FilesBut(old(fs.pg)[x := work], old(fs.cat), id, lost);
            if lose then FilesBut(fs.pg[x := newWork], fs.cat, id, lost + {j}) == files[id := Holed(files[id], {j})]
            else if r == Ok then
              && Start(j) + off + |chunk| <= |files[id].bytes|
              && FilesBut(fs.pg[x := newWork], fs.cat, id, lost) == files[id := Overlaid(files[id], Start(j) + off, chunk)]
            else
              && newWork == work && fs.cat == old(fs.cat) && Spared(old(fs.lu), fs.lu, {})
              && HoldsBut(fs.lu, fs.pg[x := work], fs.cat, id, lost) && FilesBut(fs.pg[x := work], fs.cat, id, lost) == files
  {
    hide FlashState, LookupState, Overwrite, KeptBut, FilesBut, Spared, Asked, HoldsBut, Took, FreeSlots, DeletedSlots, AnyDeletedBlock, Supply;
    newWork, lose := work, false;
    PageAt(fs.lu, fs.pg, fs.cat, id, lost, x, work, j);
    var orig := work.table[IxEntry(j)].slot;
    r, d := RewritePage(fs, id, j, orig, off, chunk);
    TookIsAsked(r, old(fs.Space()), fs.Space());
    ghost var room := fs.Space();
    PageClears(r, old(fs.Space()), room, old(fs.pg), fs.pg, d);
    SlotTaken(fs.lu, orig, Deleted);
    if r == Ok {
      newWork := ReplacePage(fs, id, x, work, lost, j, off, chunk, orig, d, old(fs.lu), old(fs.pg));
    } else {
      lose := off == 0 && |chunk| == DATA_SIZE;
      newWork := FailPage(fs, id, x, work, lost, j, orig, dataPix, lose, old(fs.lu), old(fs.pg));
      if lose {
        r, d := Ok, dataPix;
      }
    }
    AskedStill(old(fs.Space()), room, fs.Space(), orig);
  }

  lemma AskedStill(a: Room, b: Room, c: Room, s: nat)
    requires Asked(a, b) && s < |b.lu| && b.lu[s].Used? && (c == b || c == b.(lu := b.lu[s := Deleted]))
    ensures Asked(a, c)
  {
    hide Supply, FreeSlots, SurePages, AnyDeletedBlock;
    SlotTaken(b.lu, s, Deleted);
  }

  /** No page could be had: the old one is deleted if it was to be replaced as a whole. */
  method FailPage(fs: Spiffs, id: nat, x: nat, work: Page, ghost lost: set<nat>, j: nat, orig: nat, dataPix: nat, lose: bool,
                  ghost lu: seq<Entry>, ghost pg: seq<Page>) returns (newWork: Page)
    requires fs.LookupOk() && x < SLOTS && x != orig && Sizes(lu, pg) && HoldsBut(lu, pg[x := work], fs.cat, id, lost)
    requires id in fs.cat && j < |fs.cat[id].data| && j !in lost && fs.cat[id].data[j] == orig && orig < SLOTS
    requires IxSpan(j) < |fs.cat[id].ixs| && fs.cat[id].ixs[IxSpan(j)] == x && lu[x].Used? && lu[orig].Used?
    requires lose ==> Start(j) + DATA_SIZE <= Length(fs.cat[id].size)
    requires KeptBut(lu, pg, fs.lu, fs.pg, {}) && work.IndexPage? && IxEntry(j) < |work.table|
    modifies fs`lu, fs`pg, fs`flash, fs`trace, fs`pDeleted, fs`pAllocated, fs`cat
    ensures fs.LookupOk() && fs.pg[x] == pg[x] && fs.lu == if lose then old(fs.lu)[orig := Deleted] else old(fs.lu)
    ensures old(fs.lu)[orig].Used?
    ensures fs.pAllocated + fs.pDeleted == old(fs.pAllocated + fs.pDeleted)
    ensures newWork == if lose then work.(table := work.table[IxEntry(j) := At(dataPix)]) else work
    ensures fs.cat == if lose then old(fs.cat)[id := old(fs.cat)[id].(data := old(fs.cat)[id].data[j := dataPix])] else old(fs.cat)
    ensures Spared(lu, fs.lu, if lose then {orig} else {})
    ensures var files, lost' := FilesBut(pg[x := work], old(fs.cat), id, lost), if lose then lost + {j} else lost;
            && HoldsBut(fs.lu, fs.pg[x := newWork], fs.cat, id, lost')
            && FilesBut(fs.pg[x := newWork], fs.cat, id, lost') == if lose then files[id := Holed(files[id], {j})] else files
  {
    hide FlashState, LookupState, KeptBut, FilesBut, Spared, HoldsBut;
    newWork := work;
    OverlayKept(lu, pg, fs.lu, fs.pg, fs.cat, id, lost, x, work);
    UsedKept(lu, pg, fs.lu, fs.pg, {}, orig);
    if lose {
      newWork := LosePage(fs, id, x, work, lost, j, orig, dataPix);
      SparedMore(lu, old(fs.lu), fs.lu, orig);
    }
  }

  lemma SparedMore(lu: seq<Entry>, lu1: seq<Entry>, lu2: seq<Entry>, s: nat)
    requires Spared(lu, lu1, {}) && s < |lu1| && lu2 == lu1[s := Deleted]
    ensures Spared(lu, lu2, {s})
  {
    forall t: nat | t < |lu2| && t !in {s} && !lu[t].Deleted? ensures !lu2[t].Deleted? {
      assert t !in {};
    }
  }

  lemma UsedKept(lu: seq<Entry>, pg: seq<Page>, lu1: seq<Entry>, pg1: seq<Page>, changed: set<nat>, s: nat)
    requires Sizes(lu, pg) && Sizes(lu1, pg1) && KeptBut(lu, pg, lu1, pg1, changed) && s < SLOTS && s !in changed && lu[s].Used?
    ensures lu1[s] == lu[s] && pg1[s] == pg[s]
  {
    assert Kept(lu, pg, lu1, pg1, s);
  }

  lemma OneMoreChanged(lu: seq<Entry>, pg: seq<Page>, lu1: seq<Entry>, pg1: seq<Page>, lu2: seq<Entry>, pg2: seq<Page>, d: nat, s: nat)
    requires Sizes(lu, pg) && Sizes(lu1, pg1) && Sizes(lu2, pg2) && KeptBut(lu, pg, lu1, pg1, {d}) && d < SLOTS && s < SLOTS
    requires forall t: nat :: t < SLOTS && t != s ==> lu2[t] == lu1[t] && pg2[t] == pg1[t]
    ensures KeptBut(lu, pg, lu2, pg2, {d, s})
    ensures lu1[d].Used? ==> Spared(lu, lu2, {s})
  {
    forall t: nat | t < SLOTS && t !in {d, s} ensures Kept(lu, pg, lu2, pg2, t) {
      assert Kept(lu, pg, lu1, pg1, t);
    }
    if lu1[d].Used? {
      forall t: nat | t < |lu2| && t !in {s} && !lu[t].Deleted? ensures !lu2[t].Deleted? {
        assert t != d ==> Kept(lu, pg, lu2, pg2, t);
      }
    }
  }

  /** Deletes a data page that has not been replaced. */
  method LosePage(fs: Spiffs, id: nat, x: nat, work: Page, ghost lost: set<nat>, j: nat, orig: nat, dataPix: nat) returns (newWork: Page)
    requires fs.LookupOk() && x < SLOTS && x != orig && HoldsBut(fs.lu, fs.pg[x := work], fs.cat, id, lost)
    requires id in fs.cat && j < |fs.cat[id].data| && j !in lost && fs.cat[id].data[j] == orig && orig < SLOTS && fs.lu[orig].Used?
    requires IxSpan(j) < |fs.cat[id].ixs| && fs.cat[id].ixs[IxSpan(j)] == x && Start(j) + DATA_SIZE <= Length(fs.cat[id].size)
    requires work.IndexPage? && IxEntry(j) < |work.table|
    modifies fs`lu, fs`pg, fs`flash, fs`trace, fs`pDeleted, fs`pAllocated, fs`cat
    ensures fs.LookupOk() && fs.lu == old(fs.lu)[orig := Deleted] && fs.pg[x] == old(fs.pg)[x]
    ensures fs.pAllocated == old(fs.pAllocated) - 1 && fs.pDeleted == old(fs.pDeleted) + 1
    ensures newWork == work.(table := work.table[IxEntry(j) := At(dataPix)])
    ensures fs.cat == old(fs.cat)[id := old(fs.cat)[id].(data := old(fs.cat)[id].data[j := dataPix])]
    ensures var files := FilesBut(old(fs.pg)[x := work], old(fs.cat), id, lost);
            && HoldsBut(fs.lu, fs.pg[x := newWork], fs.cat, id, lost + {j})
            && FilesBut(fs.pg[x := newWork], fs.cat, id, lost + {j}) == files[id := Holed(files[id], {j})]
  {
    hide FlashState, LookupState, HoldsBut, FilesBut;
    fs.PageDelete(orig);
    forall t: nat | t < SLOTS && t !in {orig} ensures Kept(old(fs.lu), old(fs.pg), fs.lu, fs.pg, t) {
    }
    newWork := work.(table := work.table[IxEntry(j) := At(dataPix)]);
    LoseStep(old(fs.lu), old(fs.pg), fs.cat, fs.lu, fs.pg, id, lost, x, work, newWork, j, dataPix);
    fs.cat := fs.cat[id := fs.cat[id].(data := fs.cat[id].data[j := dataPix])];
  }

  // ---------------------------------------------------------------------------
  // The index page in the work buffer and the one in flash

  /** The work buffer `work` stands for index page `k` of the object of descriptor
      `f`, in slot `x`; with it in place the image holds `files`, without the data pages
      of the object that have been lost. */
  ghost predicate Working(fs: Spiffs, f: nat, id: nat, k: nat, x: nat, work: Page, lost: set<nat>, files: map<nat, FileView>)
    reads fs
  {
    && fs.LookupOk() && !fs.cleaning && OpenOn(fs, f, id)
    && x < SLOTS && work.IndexPage? && k < |fs.cat[id].ixs| && fs.cat[id].ixs[k] == x
    && HoldsBut(fs.lu, fs.pg[x := work], fs.cat, id, lost) && FilesBut(fs.pg[x := work], fs.cat, id, lost) == files
    && Tight(fs.cat) && FdsPagesOk(fs.fds, fs.cat) && FdsSizesOk(fs.fds, fs.cat)
  }

  /** The page `p` is index page `k` as it was before data pages `from` to `next` were
      replaced or lost: it refers to other pages for those that were replaced. */
  ghost predicate Outdated(p: Page, work: Page, k: nat, from: nat, next: nat, lost: set<nat>)
  {
    && p.IndexPage? && work.IndexPage? && p == work.(table := p.table) && |p.table| == |work.table| == TableLen(k)
    && from <= next && (forall j: nat :: from <= j < next ==> IxSpan(j) == k)
    && (forall e: nat :: e < TableLen(k) && !(from <= FirstRef(k) + e < next) ==> p.table[e] == work.table[e])
    && (forall e: nat :: e < TableLen(k) && from <= FirstRef(k) + e < next && FirstRef(k) + e !in lost ==> p.table[e] != work.table[e])
  }

  /** The data pages that flash does not lead to: those lost, and those replaced since the
      index page was loaded. */
  function Gone(lost: set<nat>, from: nat, next: nat): set<nat>
  {
    lost + set j {:trigger IxSpan(j)} | from <= j < next
  }

  lemma OutdatedNext(p: Page, work: Page, k: nat, from: nat, next: nat, lost: set<nat>, d: nat, lose: bool)
    requires Outdated(p, work, k, from, next, lost) && k == IxSpan(next)
    requires IxEntry(next) < |work.table| && (!lose ==> work.table[IxEntry(next)] != At(d))
    ensures Outdated(p, work.(table := work.table[IxEntry(next) := At(d)]), k, from, next + 1, if lose then lost + {next} else lost)
  {
    IndexPlace(next);
  }

  lemma UpToDate(work: Page, k: nat, next: nat, lost: set<nat>)
    requires work.IndexPage? && |work.table| == TableLen(k)
    ensures Outdated(work, work, k, next, next, lost) && Gone(lost, next, next) == lost
  {
  }

  /** With nothing replaced since it was loaded, the index page in flash is the work buffer. */
  lemma NotOutdated(p: Page, work: Page, k: nat, from: nat, lost: set<nat>)
    requires Outdated(p, work, k, from, from, lost)
    ensures p == work
  {
    assert p.table == work.table;
  }

  lemma StaleOthers(lu: seq<Entry>, pg: seq<Page>, cat: Catalogue, id: nat, lost: set<nat>, k: nat, x: nat, work: Page, i: nat)
    requires x < |pg| && HoldsBut(lu, pg[x := work], cat, id, lost) && id in cat && k < |cat[id].ixs| && cat[id].ixs[k] == x
    requires i in cat && i != id
    ensures FileOk(lu, pg, i, cat[i]) && View(pg, cat[i]) == View(pg[x := work], cat[i])
  {
    assert IndexOk(lu, pg[x := work], id, cat[id], k);
    FileKept(lu, pg[x := work], lu, pg, i, cat[i]);
  }

  /** Where the index pages in flash lead, when one of them is out of date. */
  lemma StaleLeads(lu: seq<Entry>, pg: seq<Page>, cat: Catalogue, id: nat, lost: set<nat>, k: nat, x: nat, work: Page,
                   from: nat, next: nat, j: nat, s: nat)
    requires x < |pg| && HoldsBut(lu, pg[x := work], cat, id, lost) && id in cat && k < |cat[id].ixs| && cat[id].ixs[k] == x
    requires Outdated(pg[x], work, k, from, next, lost)
    ensures Found(lu, pg, id, cat[id], j, s) <==> j < |cat[id].data| && s == cat[id].data[j] && j !in Gone(lost, from, next)
    ensures Found(lu, pg, id, cat[id], j, s) ==> s != x && |pg[s].bytes| == DATA_SIZE
  {
    var v, f := pg[x := work], cat[id];
    IndexPlace(j);
    assert IndexOk(lu, v, id, f, k);
    if IxSpan(j) < |f.ixs| {
      assert IndexOk(lu, v, id, f, IxSpan(j));
    }
    if Found(lu, pg, id, f, j, s) {
      assert SlotOk(lu, v, cat, s) && NotLost(lu, v, id, lost, s);
      assert DataOk(lu, v, id, f, j);
    }
    if j < |f.data| && j !in lost {
      IndexOfPageBut(lu, v, id, f, lost, j);
    }
  }

  lemma StaleShows(lu: seq<Entry>, pg: seq<Page>, cat: Catalogue, id: nat, lost: set<nat>, k: nat, x: nat, work: Page,
                   from: nat, next: nat, i: nat)
    requires x < |pg| && HoldsBut(lu, pg[x := work], cat, id, lost) && id in cat && k < |cat[id].ixs| && cat[id].ixs[k] == x
    requires Outdated(pg[x], work, k, from, next, lost) && i < Length(cat[id].size) && PageOf(i) !in Gone(lost, from, next)
    ensures Shows(lu, pg, id, cat[id], i, ByteAt(pg[x := work], cat[id], i))
  {
    var v, f := pg[x := work], cat[id];
    SizeBound(f);
    PageBelow(i, |f.data|);
    var s := f.data[PageOf(i)];
    StaleLeads(lu, pg, cat, id, lost, k, x, work, from, next, PageOf(i), s);
    assert Found(lu, pg, id, f, PageOf(i), s);
  }

  /** What is in flash when the work buffer cannot be stored: everything but the data pages
      that are gone. */
  lemma StaleIndex(fs: Spiffs, f: nat, id: nat, k: nat, x: nat, work: Page, lost: set<nat>, from: nat, next: nat,
                   files: map<nat, FileView>, v: FileView)
    requires id in files && Working(fs, f, id, k, x, work, lost, files[id := Holed(v, lost)])
    requires x < |fs.pg| && Outdated(fs.pg[x], work, k, from, next, lost)
    ensures LeftOf(fs, id, files, v, Gone(lost, from, next))
  {
    hide FlashState, LookupState, FdsPagesOk, FdsSizesOk, Tight, Outdated, Found, Shows, FilesBut;
    StaleFiles(fs.pg[x := work], fs.cat, id, lost, files, v);
    forall i | i in fs.cat && i != id ensures FileOk(fs.lu, fs.pg, i, fs.cat[i]) && View(fs.pg, fs.cat[i]) == files[i] {
      StaleOthers(fs.lu, fs.pg, fs.cat, id, lost, k, x, work, i);
    }
    forall l: nat | l < |fs.cat[id].ixs| ensures IndexFound(fs.lu, fs.pg, id, fs.cat[id], l, v.name, |v.bytes|) {
      StaleIndexFound(fs.lu, fs.pg, fs.cat, id, lost, k, x, work, from, next, l);
    }
    hide HoldsBut;
    forall i: nat | i < |v.bytes| && PageOf(i) !in Gone(lost, from, next) ensures Shows(fs.lu, fs.pg, id, fs.cat[id], i, v.bytes[i]) {
      StaleShows(fs.lu, fs.pg, fs.cat, id, lost, k, x, work, from, next, i);
    }
    forall j, s | j in Gone(lost, from, next) ensures !Found(fs.lu, fs.pg, id, fs.cat[id], j, s) {
      StaleLeads(fs.lu, fs.pg, fs.cat, id, lost, k, x, work, from, next, j, s);
    }
  }

  lemma StaleFiles(w: seq<Page>, cat: Catalogue, id: nat, lost: set<nat>, files: map<nat, FileView>, v: FileView)
    requires id in files && FilesBut(w, cat, id, lost) == files[id := Holed(v, lost)] && id in cat
    ensures cat.Keys == files.Keys && cat[id].name == v.name && Length(cat[id].size) == |v.bytes|
    ensures forall i :: i in cat && i != id ==> View(w, cat[i]) == files[i]
    ensures forall k: nat :: k < |v.bytes| && PageOf(k) !in lost ==> ByteAt(w, cat[id], k) == v.bytes[k]
  {
    assert FilesBut(w, cat, id, lost).Keys == cat.Keys;
    var h := Holed(View(w, cat[id]), lost);
    assert FilesBut(w, cat, id, lost)[id] == h && files[id := Holed(v, lost)][id] == Holed(v, lost);
    assert |h.bytes| == Length(cat[id].size) && |Holed(v, lost).bytes| == |v.bytes|;
    forall k: nat | k < |v.bytes| && PageOf(k) !in lost ensures ByteAt(w, cat[id], k) == v.bytes[k] {
      assert h.bytes[k] == ByteAt(w, cat[id], k) && Holed(v, lost).bytes[k] == v.bytes[k];
    }
    forall i | i in cat && i != id ensures View(w, cat[i]) == files[i] {
      assert FilesBut(w, cat, id, lost)[i] == files[id := Holed(v, lost)][i];
    }
  }

  lemma StaleIndexFound(lu: seq<Entry>, pg: seq<Page>, cat: Catalogue, id: nat, lost: set<nat>, k: nat, x: nat, work: Page,
                        from: nat, next: nat, l: nat)
    requires x < |pg| && HoldsBut(lu, pg[x := work], cat, id, lost) && id in cat && k < |cat[id].ixs| && cat[id].ixs[k] == x
    requires Outdated(pg[x], work, k, from, next, lost) && l < |cat[id].ixs|
    ensures IndexFound(lu, pg, id, cat[id], l, cat[id].name, Length(cat[id].size))
  {
    assert IndexOk(lu, pg[x := work], id, cat[id], l);
    assert IndexOk(lu, pg[x := work], id, cat[id], k);
  }

  // ---------------------------------------------------------------------------
  // Bytes

  lemma OverlayChain(bytes: seq<byte>, pos: nat, data: seq<byte>, w: nat, n: nat)
    requires w + n <= |data| && pos + |data| <= |bytes|
    ensures Overwrite(Overwrite(bytes, pos, data[..w]), pos + w, data[w..w + n]) == Overwrite(bytes, pos, data[..w + n])
  {
    assert data[..w + n] == data[..w] + data[w..w + n];
  }

  lemma OverlayNothing(v: FileView, pos: nat, data: seq<byte>)
    requires pos + |data| <= |v.bytes|
    ensures Overlaid(v, pos, data[..0]) == v
  {
  }

  /** The files while a modification has come to byte `w` of the data. */
  function Midway(files: map<nat, FileView>, id: nat, offset: nat, data: seq<byte>, w: nat, lost: set<nat>): map<nat, FileView>
    requires id in files && offset + |data| <= |files[id].bytes| && w <= |data|
  {
    files[id := Holed(Overlaid(files[id], offset, data[..w]), lost)]
  }

  lemma ChunkReplaced(files: map<nat, FileView>, id: nat, offset: nat, data: seq<byte>, w: nat, n: nat, lost: set<nat>)
    requires id in files && offset + |data| <= |files[id].bytes| && w + n <= |data|
    requires OffsetIn(offset + w) + n <= DATA_SIZE && PageOf(offset + w) !in lost
    ensures var mid := Midway(files, id, offset, data, w, lost);
            && Start(PageOf(offset + w)) + OffsetIn(offset + w) == offset + w && offset + w + n <= |mid[id].bytes|
            && mid[id := Overlaid(mid[id], offset + w, data[w..w + n])] == Midway(files, id, offset, data, w + n, lost)
  {
    var mid := Midway(files, id, offset, data, w, lost);
    var a, b := Overlaid(mid[id], offset + w, data[w..w + n]), Holed(Overlaid(files[id], offset, data[..w + n]), lost);
    OverlayChain(files[id].bytes, offset, data, w, n);
    forall k | 0 <= k < |b.bytes| ensures a.bytes[k] == b.bytes[k] {
      if offset + w <= k < offset + w + n {
        BytePlace(PageOf(offset + w), OffsetIn(offset + w) + (k - (offset + w)));
      }
    }
    assert a == b;
  }

  lemma ChunkLost(files: map<nat, FileView>, id: nat, offset: nat, data: seq<byte>, w: nat, lost: set<nat>)
    requires id in files && offset + |data| <= |files[id].bytes| && w + DATA_SIZE <= |data| && OffsetIn(offset + w) == 0
    ensures var mid, j := Midway(files, id, offset, data, w, lost), PageOf(offset + w);
            mid[id := Holed(mid[id], {j})] == Midway(files, id, offset, data, w + DATA_SIZE, lost + {j})
  {
    var mid, j := Midway(files, id, offset, data, w, lost), PageOf(offset + w);
    var a, b := Holed(mid[id], {j}), Holed(Overlaid(files[id], offset, data[..w + DATA_SIZE]), lost + {j});
    forall k | 0 <= k < |b.bytes| ensures a.bytes[k] == b.bytes[k] {
      if offset + w <= k < offset + w + DATA_SIZE {
        BytePlace(j, k - (offset + w));
      }
    }
    assert a == b;
  }

  // ---------------------------------------------------------------------------
  // Pages that a modification leaves alone

  /** The slots of file `g` that a modification has given up that started with data page
      `first` and has come to data page `n` and index page `k`. */
  function Doomed(g: File, first: nat, n: nat, k: nat): set<nat>
  {
    (set j: nat | first <= j < n && j < |g.data| :: g.data[j]) + (set l: nat | IxSpan(first) <= l < k && l < |g.ixs| :: g.ixs[l])
  }

  lemma DoomedNext(g: File, first: nat, n: nat, k: nat)
    requires first <= n < |g.data|
    ensures Doomed(g, first, n + 1, k) == Doomed(g, first, n, k) + {g.data[n]}
  {
  }

  lemma DoomedSwitch(g: File, first: nat, n: nat, k: nat)
    requires IxSpan(first) <= k < |g.ixs|
    ensures Doomed(g, first, n, k + 1) == Doomed(g, first, n, k) + {g.ixs[k]}
  {
  }

  lemma DoomedAtFirst(g: File, first: nat, k: nat)
    requires k <= IxSpan(first)
    ensures Doomed(g, first, first, k) == {}
  {
  }

  lemma DoomedMore(g: File, first: nat, n: nat, k: nat, n': nat, k': nat)
    requires n <= n' && k <= k'
    ensures Doomed(g, first, n, k) <= Doomed(g, first, n', k')
  {
  }

  /** No block comes to hold deleted pages only by what a modification gives up before it
      deletes the old page of the last data page. */
  ghost predicate Sheltered(lu: seq<Entry>, g: File, offset: nat, len: nat)
    requires len > 0
  {
    var last := PageOf(offset + len - 1);
    !AnyBlockIn(DeletedSlots(lu) + Doomed(g, PageOf(offset), last, IxSpan(last)))
  }

  /** With the old page of the last data page deleted as well, some block does. */
  ghost predicate Emptied(lu: seq<Entry>, g: File, offset: nat, len: nat)
    requires len > 0
  {
    var last := PageOf(offset + len - 1);
    AnyBlockIn(DeletedSlots(lu) + Doomed(g, PageOf(offset), last + 1, IxSpan(last)))
  }

  /** What has been deleted since the lookup was `lu0` is what a modification has given up. */
  ghost predicate Emptying(lu0: seq<Entry>, g: File, lu: seq<Entry>, first: nat, n: nat, k: nat)
  {
    |lu| == SLOTS && DeletedSlots(lu) == DeletedSlots(lu0) + Doomed(g, first, n, k)
  }

  lemma DeletedBlockIn(lu: seq<Entry>)
    requires |lu| == SLOTS
    ensures AnyDeletedBlock(lu) <==> AnyBlockIn(DeletedSlots(lu))
  {
    forall b: nat | b < BLOCKS ensures AllDeleted(lu, b) <==> BlockIn(DeletedSlots(lu), b) {
      BlockDeletedIn(lu, b);
    }
  }

  lemma BlockDeletedIn(lu: seq<Entry>, b: nat)
    requires |lu| == SLOTS && b < BLOCKS
    ensures AllDeleted(lu, b) <==> BlockIn(DeletedSlots(lu), b)
  {
    TimesMono(b, BLOCKS, ENTRIES);
    if BlockIn(DeletedSlots(lu), b) {
      forall s: nat | Base(b) <= s < Base(b) + ENTRIES && s < |lu| ensures lu[s].Deleted? {
        assert s in DeletedSlots(lu);
      }
    }
  }

  lemma FewerSlots(slots: set<nat>, more: set<nat>)
    requires slots <= more && AnyBlockIn(slots)
    ensures AnyBlockIn(more)
  {
    var b: nat :| b < BLOCKS && BlockIn(slots, b);
    assert BlockIn(more, b);
  }

  lemma StillSheltered(lu0: seq<Entry>, g: File, lu: seq<Entry>, offset: nat, len: nat, n: nat, k: nat)
    requires len > 0 && Sheltered(lu0, g, offset, len) && Emptying(lu0, g, lu, PageOf(offset), n, k)
    requires n <= PageOf(offset + len - 1) && k <= IxSpan(PageOf(offset + len - 1))
    ensures !AnyDeletedBlock(lu)
  {
    hide AnyDeletedBlock, AnyBlockIn, DeletedSlots, Doomed;
    var first, last := PageOf(offset), PageOf(offset + len - 1);
    DoomedMore(g, first, n, k, last, IxSpan(last));
    DeletedBlockIn(lu);
    if AnyDeletedBlock(lu) {
      FewerSlots(DeletedSlots(lu), DeletedSlots(lu0) + Doomed(g, first, last, IxSpan(last)));
    }
  }

  /** A modification of an object can leave no block with deleted pages only: every block has
      a page that is free or another object's. */
  ghost predicate Barren(lu: seq<Entry>, id: nat)
  {
    forall b: nat :: b < BLOCKS ==> Fallow(lu, id, b)
  }

  ghost predicate Fallow(lu: seq<Entry>, id: nat, b: nat)
  {
    exists s: nat :: Base(b) <= s < Base(b) + ENTRIES && s < |lu| && (lu[s].Free? || (lu[s].Used? && lu[s].id != id))
  }

  lemma BarrenStays(lu: seq<Entry>, pg: seq<Page>, cat: Catalogue, id: nat, offset: nat, len: nat)
    requires Holds(lu, pg, cat) && id in cat && Barren(lu, id) && len > 0
    ensures Sheltered(lu, cat[id], offset, len) && !Emptied(lu, cat[id], offset, len)
  {
    hide Barren, Fallow, Doomed, DeletedSlots, Holds;
    var g, first, last := cat[id], PageOf(offset), PageOf(offset + len - 1);
    DoomedMore(g, first, last, IxSpan(last), last + 1, IxSpan(last));
    var all := Doomed(g, first, last + 1, IxSpan(last));
    forall b: nat | b < BLOCKS ensures !BlockIn(DeletedSlots(lu) + all, b) {
      FallowStays(lu, pg, cat, id, first, last + 1, IxSpan(last), b);
    }
    if AnyBlockIn(DeletedSlots(lu) + Doomed(g, first, last, IxSpan(last))) {
      FewerSlots(DeletedSlots(lu) + Doomed(g, first, last, IxSpan(last)), DeletedSlots(lu) + all);
    }
  }

  lemma FallowStays(lu: seq<Entry>, pg: seq<Page>, cat: Catalogue, id: nat, first: nat, n: nat, k: nat, b: nat)
    requires Holds(lu, pg, cat) && id in cat && Barren(lu, id) && b < BLOCKS
    ensures !BlockIn(DeletedSlots(lu) + Doomed(cat[id], first, n, k), b)
  {
    hide Holds;
    assert Fallow(lu, id, b);
    var s: nat :| Base(b) <= s < Base(b) + ENTRIES && s < |lu| && (lu[s].Free? || (lu[s].Used? && lu[s].id != id));
    var g := cat[id];
    FileOf(lu, pg, cat, id);
    assert s !in Doomed(g, first, n, k) by {
      forall j: nat | first <= j < n && j < |g.data| ensures g.data[j] != s {
        assert DataOk(lu, pg, id, g, j);
      }
      forall l: nat | IxSpan(first) <= l < k && l < |g.ixs| ensures g.ixs[l] != s {
        assert IndexOk(lu, pg, id, g, l);
      }
    }
    assert s !in DeletedSlots(lu) + Doomed(g, first, n, k);
  }

  /** Neither does one that gives up fewer pages than make up a block with those deleted
      already. */
  lemma FewPages(lu: seq<Entry>, g: File, offset: nat, len: nat)
    requires len > 0 && |DeletedSlots(lu)| + ModifyPages(offset, len) <= ENTRIES + 1
    ensures Sheltered(lu, g, offset, len)
  {
    hide DeletedSlots, Doomed, AnyBlockIn;
    var first, last := PageOf(offset), PageOf(offset + len - 1);
    QuotMono(offset, offset + len - 1, DATA_SIZE);
    IxSpanMono(first, last);
    DoomedSize(g, first, last, IxSpan(last));
    var slots := DeletedSlots(lu) + Doomed(g, first, last, IxSpan(last));
    if AnyBlockIn(slots) {
      BlockSlots(slots);
    }
  }

  lemma {:induction false} DoomedSize(g: File, first: nat, n: nat, k: nat)
    requires first <= n && IxSpan(first) <= k
    ensures |Doomed(g, first, n, k)| <= (n - first) + (k - IxSpan(first))
    decreases n, k
  {
    hide Doomed;
    if first < n {
      DoomedSize(g, first, n - 1, k);
      DoomedAfter(g, first, n - 1, k);
    } else if IxSpan(first) < k {
      DoomedSize(g, first, n, k - 1);
      DoomedAfter(g, first, n, k - 1);
    } else {
      DoomedAtFirst(g, first, k);
    }
  }

  /** One slot more at most. */
  lemma DoomedAfter(g: File, first: nat, n: nat, k: nat)
    requires first <= n && IxSpan(first) <= k
    ensures |Doomed(g, first, n + 1, k)| <= |Doomed(g, first, n, k)| + 1
    ensures |Doomed(g, first, n, k + 1)| <= |Doomed(g, first, n, k)| + 1
  {
    if n < |g.data| {
      DoomedNext(g, first, n, k);
    } else {
      assert Doomed(g, first, n + 1, k) == Doomed(g, first, n, k);
    }
    if k < |g.ixs| {
      DoomedSwitch(g, first, n, k);
    } else {
      assert Doomed(g, first, n, k + 1) == Doomed(g, first, n, k);
    }
  }

  /** A block has no fewer slots than `ENTRIES`. */
  lemma BlockSlots(slots: set<nat>)
    requires AnyBlockIn(slots)
    ensures |slots| >= ENTRIES
  {
    var b: nat :| b < BLOCKS && BlockIn(slots, b);
    RangeIn(slots, Base(b), ENTRIES);
  }

  lemma {:induction false} RangeIn(slots: set<nat>, a: nat, n: nat)
    requires forall s: nat :: a <= s < a + n ==> s in slots
    ensures |slots| >= n
  {
    if n > 0 {
      RangeIn(slots - {a}, a + 1, n - 1);
    }
  }

  /** The pages a modification has still to replace are those it found. */
  ghost predicate Ours(g: File, cat: Catalogue, id: nat, next: nat, k: nat)
  {
    && id in cat && |cat[id].data| == |g.data| && |cat[id].ixs| == |g.ixs|
    && (forall j: nat :: next <= j < |g.data| ==> cat[id].data[j] == g.data[j])
    && (forall l: nat :: k <= l < |g.ixs| ==> cat[id].ixs[l] == g.ixs[l])
  }

  // ---------------------------------------------------------------------------
  // The loop

  /** Pages that have been lost were to be replaced as a whole. */
  ghost predicate LostWhole(lost: set<nat>, next: nat, offset: nat, len: nat)
  {
    forall j :: j in lost ==> j < next && offset <= Start(j) && Start(j) + DATA_SIZE <= offset + len
  }

  /** A modification has come to byte `done` of the data, which is in data page `next`.
      Since data page `from` the index page in flash is out of date. */
  ghost predicate Modifying(fs: Spiffs, f: nat, id: nat, k: nat, x: nat, work: Page, lost: set<nat>, from: nat, next: nat,
                            files: map<nat, FileView>, offset: nat, data: seq<byte>, done: nat)
    requires id in files && offset + |data| <= |files[id].bytes| && done <= |data|
    reads fs
  {
    && Working(fs, f, id, k, x, work, lost, Midway(files, id, offset, data, done, lost))
    && x < |fs.pg| && Outdated(fs.pg[x], work, k, from, next, lost)
    && PageOf(offset) <= from && LostWhole(lost, next, offset, |data|)
  }

  /** The data page that byte `done` of the data is in. */
  lemma WorkingPage(fs: Spiffs, f: nat, id: nat, k: nat, x: nat, work: Page, lost: set<nat>, files: map<nat, FileView>, pos: nat)
    requires Working(fs, f, id, k, x, work, lost, files) && id in files && pos < |files[id].bytes|
    ensures |files[id].bytes| == Length(fs.cat[id].size)
    ensures PageOf(pos) < |fs.cat[id].data| && IxSpan(PageOf(pos)) < |fs.cat[id].ixs|
    ensures HoldsBut(fs.lu, fs.pg[x := work], fs.cat, id, lost) && !fs.cleaning && fs.LookupOk()
  {
    assert |FilesBut(fs.pg[x := work], fs.cat, id, lost)[id].bytes| == Length(fs.cat[id].size);
    DataPageExists(fs.cat[id], pos);
  }

  /** Modifies the chunk of `data` that starts at `done`, with its index page in the buffer. */
  method ModifyChunk(fs: Spiffs, f: nat, id: nat, k: nat, x: nat, work: Page, lost: set<nat>, from: nat, next: nat,
                     ghost files: map<nat, FileView>, offset: nat, data: seq<byte>, done: nat, dataPix: nat, ghost g: File)
    returns (r: Status, newWork: Page, n: nat, d: nat, lost': set<nat>)
    requires id in files && offset + |data| <= |files[id].bytes| && done < |data|
    requires Modifying(fs, f, id, k, x, work, lost, from, next, files, offset, data, done)
    requires next == PageOf(offset + done) && k == IxSpan(next)
    requires Ours(g, fs.cat, id, next, k)
    modifies fs`lu, fs`pg, fs`flash, fs`trace, fs`freeBlocks, fs`eraseCount, fs`maxEraseCount, fs`pDeleted,
             fs`freeBlock, fs`freeEntry, fs`pAllocated, fs`cat
    ensures n == ChunkSize(|data| - done, OffsetIn(offset + done))
    ensures r == if old(fs.Space()).CanTake() || n == DATA_SIZE then Ok else ErrFull
    ensures next !in lost && lost' == if !old(fs.Space()).CanTake() && n == DATA_SIZE then lost + {next} else lost
    ensures r == Ok ==> Modifying(fs, f, id, k, x, newWork, lost', from, next + 1, files, offset, data, done + n)
    ensures r != Ok ==> Modifying(fs, f, id, k, x, newWork, lost', from, next, files, offset, data, done)
    ensures Ours(g, fs.cat, id, if r == Ok then next + 1 else next, k) && next < |g.data|
    ensures !AnyDeletedBlock(old(fs.lu)) ==>
              DeletedSlots(fs.lu) == if r == Ok then DeletedSlots(old(fs.lu)) + {g.data[next]} else DeletedSlots(old(fs.lu))
    ensures Asked(old(fs.Space()), fs.Space()) && |fs.lu| == SLOTS
  {
    hide Ours, LostWhole, Overlaid, Supply, FreeSlots, DeletedSlots, AnyDeletedBlock, FlashState, LookupState, Overwrite, FdsPagesOk, FdsSizesOk, Tight, HoldsBut, FilesBut, Outdated, Asked, Midway, Spared, Holed;
    var pageOffs := OffsetIn(offset + done);
    n := ChunkSize(|data| - done, pageOffs);
    ghost var mid := Midway(files, id, offset, data, done, lost);
    MidwayLength(files, id, offset, data, done, lost);
    WorkingPage(fs, f, id, k, x, work, lost, mid, offset + done);
    WholeNext(lost, offset, |data|, done);
    ChunkReplaced(files, id, offset, data, done, n, lost);
    var lose;
    ghost var cat0 := fs.cat;
    OursHere(g, cat0, id, next, k);
    r, newWork, d, lose := ModifyPage(fs, id, x, work, lost, next, pageOffs, data[done..done + n], dataPix);
    lost' := if lose then lost + {next} else lost;
    if r == Ok {
      OutdatedNext(fs.pg[x], work, k, from, next, lost, d, lose);
      NextInOrder(cat0, fs.cat, fs.fds, id, next, d);
      OursNext(g, cat0, fs.cat, id, next, k, d);
      if lose {
        ChunkLost(files, id, offset, data, done, lost);
      }
    }
  }

  lemma WholeNext(lost: set<nat>, offset: nat, len: nat, done: nat)
    requires done < len && LostWhole(lost, PageOf(offset + done), offset, len)
    ensures var next := PageOf(offset + done);
            && next !in lost && LostWhole(lost, next + 1, offset, len)
            && (OffsetIn(offset + done) == 0 && DATA_SIZE <= len - done ==> LostWhole(lost + {next}, next + 1, offset, len))
  {
    assert Start(PageOf(offset + done)) + OffsetIn(offset + done) == offset + done;
  }

  lemma OursHere(g: File, cat: Catalogue, id: nat, next: nat, k: nat)
    requires Ours(g, cat, id, next, k) && id in cat && next < |cat[id].data|
    ensures next < |g.data| && cat[id].data[next] == g.data[next]
  {
  }

  lemma OursNext(g: File, cat: Catalogue, cat': Catalogue, id: nat, next: nat, k: nat, d: nat)
    requires Ours(g, cat, id, next, k) && id in cat && next < |cat[id].data|
    requires cat' == cat[id := cat[id].(data := cat[id].data[next := d])]
    ensures Ours(g, cat', id, next + 1, k)
  {
  }

  lemma MidwayLength(files: map<nat, FileView>, id: nat, offset: nat, data: seq<byte>, w: nat, lost: set<nat>)
    requires id in files && offset + |data| <= |files[id].bytes| && w <= |data|
    ensures id in Midway(files, id, offset, data, w, lost)
    ensures |Midway(files, id, offset, data, w, lost)[id].bytes| == |files[id].bytes|
  {
  }

  /** A changed page number changes nothing that descriptors know. */
  lemma NextInOrder(cat0: Catalogue, cat: Catalogue, fds: seq<Fd>, id: nat, j: nat, d: nat)
    requires id in cat0 && j < |cat0[id].data| && cat == cat0[id := cat0[id].(data := cat0[id].data[j := d])]
    requires Tight(cat0) && FdsPagesOk(fds, cat0) && FdsSizesOk(fds, cat0)
    ensures Tight(cat) && FdsPagesOk(fds, cat) && FdsSizesOk(fds, cat)
  {
    SameIndexesKeep(cat0, cat, fds);
  }

  /** Stores the work buffer if something has been written through it, and loads index
      page `k2` of the same object. */
  method SwitchIndex(fs: Spiffs, f: nat, ghost id: nat, k: nat, x: nat, work: Page, lost: set<nat>, store: bool, k2: nat,
                     ghost files: map<nat, FileView>) returns (r: Status, newX: nat, newWork: Page)
    requires Working(fs, f, id, k, x, work, lost, files) && k2 < |fs.cat[id].ixs|
    requires !store ==> x < |fs.pg| && fs.pg[x] == work
    modifies fs`lu, fs`pg, fs`flash, fs`trace, fs`freeBlocks, fs`eraseCount, fs`maxEraseCount, fs`pDeleted,
             fs`freeBlock, fs`freeEntry, fs`pAllocated, fs`fds, fs`cat, fs`cursorBlock, fs`cursorEntry
    ensures FdsKept(old(fs.fds), fs.fds)
    ensures r == Ok ==>
              && Working(fs, f, id, k2, newX, newWork, lost, files) && newX < |fs.pg| && fs.pg[newX] == newWork
              && |newWork.table| == TableLen(k2)
              && fs.cat[id].data == old(fs.cat)[id].data && |fs.cat[id].ixs| == |old(fs.cat)[id].ixs|
              && (forall l :: 0 <= l < |fs.cat[id].ixs| && l != k ==> fs.cat[id].ixs[l] == old(fs.cat)[id].ixs[l])
              && Spared(old(fs.lu), fs.lu, {x}) && (store ==> x < |fs.lu| && fs.lu[x].Deleted?)
    ensures r != Ok ==>
              && newX == x && newWork == work && Working(fs, f, id, k, x, work, lost, files)
              && fs.pg[x] == old(fs.pg)[x] && fs.cat == old(fs.cat) && Spared(old(fs.lu), fs.lu, {})
    ensures if store then Took(r, old(fs.Space()), fs.Space()) else r == Ok && fs.Space() == old(fs.Space()) && fs.cat == old(fs.cat)
  {
    hide FlashState, LookupState, FdsPagesOk, FdsSizesOk, Tight, FilesBut, HoldsBut, Took, DeletedSlots, AnyDeletedBlock, FreeSlots, Supply;
    FdsKeptSelf(fs.fds);
    r, newX, newWork := Ok, x, work;
    assert fs.pg[x := fs.pg[x]] == fs.pg;
    if store {
      var d;
      r, d := StoreIndexPage(fs, fs.fds[f].id, k, x, work, lost);
      if r != Ok {
        return;
      }
    }
    ghost var fds1 := fs.fds;
    newX := IndexSlot(fs, f, k2, lost);
    newWork := fs.pg[newX];
    assert fs.pg[newX := newWork] == fs.pg;
    SetCursor(fs.fds, fs.cat, f, k2, newX);
    fs.fds := fs.fds[f := fs.fds[f].(ixSpan := k2, ixPix := newX)];
    FdsKeptChain(old(fs.fds), fds1, fs.fds);
  }

  /** What storing an index page and deleting the old one does to the deleted pages. */
  lemma SwitchClears(r: Status, a: Room, b: Room, x: nat)
    requires Took(r, a, b) && !a.cleaning && (r == Ok ==> Spared(a.lu, b.lu, {x}) && x < |b.lu| && b.lu[x].Deleted?)
    ensures !AnyDeletedBlock(a.lu) ==> DeletedSlots(b.lu) == if r == Ok then DeletedSlots(a.lu) + {x} else DeletedSlots(a.lu)
  {
    hide Supply, FreeSlots, AnyDeletedBlock, SurePages;
  }

  /** Brings the index page of data page `next` into the work buffer. */
  method EnterIndex(fs: Spiffs, f: nat, id: nat, k: nat, x: nat, work: Page, lost: set<nat>, from: nat, next: nat,
                    ghost files: map<nat, FileView>, offset: nat, data: seq<byte>, done: nat, ghost g: File)
    returns (r: Status, newX: nat, newWork: Page, from': nat)
    requires id in files && offset + |data| <= |files[id].bytes| && done < |data|
    requires Modifying(fs, f, id, k, x, work, lost, from, next, files, offset, data, done)
    requires next == PageOf(offset + done) && (done == 0 ==> x < |fs.pg| && fs.pg[x] == work && from == next)
    requires Ours(g, fs.cat, id, next, k) && k <= IxSpan(next)
    modifies fs`lu, fs`pg, fs`flash, fs`trace, fs`freeBlocks, fs`eraseCount, fs`maxEraseCount, fs`pDeleted,
             fs`freeBlock, fs`freeEntry, fs`pAllocated, fs`fds, fs`cat, fs`cursorBlock, fs`cursorEntry
    ensures FdsKept(old(fs.fds), fs.fds) && !fs.cleaning && |fs.lu| == SLOTS
    ensures r == Ok ==> Modifying(fs, f, id, IxSpan(next), newX, newWork, lost, from', next, files, offset, data, done)
    ensures r != Ok ==> newX == x && newWork == work && from' == from && Modifying(fs, f, id, k, x, work, lost, from, next, files, offset, data, done)
    ensures Ours(g, fs.cat, id, next, if r == Ok then IxSpan(next) else k) && k < |g.ixs|
    ensures if done > 0 && IxSpan(next) != k then Took(r, old(fs.Space()), fs.Space())
            else r == Ok && fs.Space() == old(fs.Space()) && fs.cat == old(fs.cat)
    ensures !AnyDeletedBlock(old(fs.lu)) ==>
              DeletedSlots(fs.lu) == if r == Ok && done > 0 && IxSpan(next) != k then DeletedSlots(old(fs.lu)) + {g.ixs[k]}
                                     else DeletedSlots(old(fs.lu))
  {
    hide FlashState, LookupState, FdsPagesOk, FdsSizesOk, FdsKept, Tight, HoldsBut, FilesBut, Outdated, Midway, Spared, Took, DeletedSlots, AnyDeletedBlock, Supply, FreeSlots;
    FdsKeptSelf(fs.fds);
    r, newX, newWork, from' := Ok, x, work, from;
    var curSpix := IxSpan(next);
    if done == 0 || curSpix != k {
      ghost var mid := Midway(files, id, offset, data, done, lost);
      MidwayLength(files, id, offset, data, done, lost);
      WorkingPage(fs, f, id, k, x, work, lost, mid, offset + done);
      r, newX, newWork := SwitchIndex(fs, f, id, k, x, work, lost, done > 0, curSpix, mid);
      if done > 0 {
        SwitchClears(r, old(fs.Space()), fs.Space(), x);
      }
      if r == Ok {
        from' := next;
        QuotMono(offset, offset + done, DATA_SIZE);
        UpToDate(newWork, curSpix, next, lost);
      }
    }
  }

  /** One round of the loop: the right index page is brought into the work buffer and a
      chunk is modified.  `left`: the index page could not be stored and the source returns
      at once.  The modification started with lookup `lu0` and file `g`. */
  method ModifyRound(fs: Spiffs, f: nat, id: nat, k: nat, x: nat, work: Page, lost: set<nat>, from: nat, next: nat,
                     ghost files: map<nat, FileView>, offset: nat, data: seq<byte>, done: nat, dataPix: nat,
                     ghost lu0: seq<Entry>, ghost g: File)
    returns (r: Status, newK: nat, newX: nat, newWork: Page, n: nat, d: nat, left: bool, lost': set<nat>, from': nat)
    requires id in files && offset + |data| <= |files[id].bytes| && done < |data|
    requires Modifying(fs, f, id, k, x, work, lost, from, next, files, offset, data, done)
    requires next == PageOf(offset + done) && (done == 0 ==> x < |fs.pg| && fs.pg[x] == work && from == next && k == 0)
    requires Ours(g, fs.cat, id, next, k) && k <= IxSpan(next) && (done > 0 ==> PageOf(offset) < next && k == IxSpan(next - 1))
    requires Sheltered(lu0, g, offset, |data|) ==> Emptying(lu0, g, fs.lu, PageOf(offset), next, k)
    modifies fs`lu, fs`pg, fs`flash, fs`trace, fs`freeBlocks, fs`eraseCount, fs`maxEraseCount, fs`pDeleted,
             fs`freeBlock, fs`freeEntry, fs`pAllocated, fs`fds, fs`cat, fs`cursorBlock, fs`cursorEntry
    ensures n == ChunkSize(|data| - done, OffsetIn(offset + done))
    ensures (r == Ok || r == ErrFull) && (left ==> r != Ok && done > 0) && FdsKept(old(fs.fds), fs.fds)
    ensures newK == if left then k else IxSpan(next)
    ensures r == Ok ==> Modifying(fs, f, id, newK, newX, newWork, lost', from', next + 1, files, offset, data, done + n)
    ensures r != Ok ==> Modifying(fs, f, id, newK, newX, newWork, lost', from', next, files, offset, data, done) && lost' == lost
    ensures Ours(g, fs.cat, id, if r == Ok then next + 1 else next, newK) && lost <= lost'
    ensures Drew(old(fs.Space()), fs.Space(), 1 + (if done > 0 then IxSpan(next) - k else 0))
    ensures old(fs.Space()).Sure() > (if done > 0 then IxSpan(next) - k else 0) ==> r == Ok && lost' == lost
    ensures (lost == {} || old(fs.freeBlocks) <= 2) && (lost' != {} || r != Ok) ==> fs.freeBlocks <= 2
    ensures lost' == lost || lost' == lost + {next}
    ensures Sheltered(lu0, g, offset, |data|) ==>
              && Emptying(lu0, g, fs.lu, PageOf(offset), if r == Ok then next + 1 else next, newK)
              && RoundSpends(old(fs.Space()), fs.Space(), r, left, lost' != lost, if done > 0 && IxSpan(next) != k then 1 else 0, n == DATA_SIZE)
    ensures done == 0 ==>
              && r == (if old(fs.Space()).CanTake() || n == DATA_SIZE then Ok else ErrFull)
              && lost' == if !old(fs.Space()).CanTake() && n == DATA_SIZE then lost + {next} else lost
  {
    hide FlashState, LookupState, FdsKept, Modifying, Ours, Spared, Took, Asked, Doomed, DeletedSlots, AnyDeletedBlock, Sheltered, Emptying, Supply, FreeSlots;
    newK, d, left, lost', n := k, dataPix, false, lost, ChunkSize(|data| - done, OffsetIn(offset + done));
    ghost var first, room0 := PageOf(offset), fs.Space();
    ghost var switch := done > 0 && IxSpan(next) != k;
    ghost var calm := Sheltered(lu0, g, offset, |data|);
    InRange(offset, |data|, done);
    if calm {
      StillSheltered(lu0, g, fs.lu, offset, |data|, next, k);
    }
    r, newX, newWork, from' := EnterIndex(fs, f, id, k, x, work, lost, from, next, files, offset, data, done, g);
    ghost var room, lu1 := fs.Space(), fs.lu;
    if switch {
      TookIsAsked(r, room0, room);
      AskedRoom(room0, room);
    }
    if r != Ok {
      left := true;
      if calm {
        SameSlots(lu0, g, room0.lu, room.lu, first, next, k);
      }
      return;
    }
    newK := IxSpan(next);
    if calm {
      IndexGivenUp(lu0, g, room0.lu, room.lu, first, next, k, switch);
      StillSheltered(lu0, g, room.lu, offset, |data|, next, newK);
    }
    r, newWork, n, d, lost' := ModifyChunk(fs, f, id, newK, newX, newWork, lost, from', next, files, offset, data, done, dataPix, g);
    AskedRoom(room, fs.Space());
    if calm {
      if r == Ok {
        PageGivenUp(lu0, g, room.lu, fs.lu, first, next, newK);
      } else {
        SameSlots(lu0, g, room.lu, fs.lu, first, next, newK);
      }
    }
  }

  lemma InRange(offset: nat, len: nat, done: nat)
    requires done < len
    ensures PageOf(offset) <= PageOf(offset + done) <= PageOf(offset + len - 1)
    ensures IxSpan(PageOf(offset)) <= IxSpan(PageOf(offset + done)) <= IxSpan(PageOf(offset + len - 1))
  {
    QuotMono(offset, offset + done, DATA_SIZE);
    QuotMono(offset + done, offset + len - 1, DATA_SIZE);
    IxSpanMono(PageOf(offset), PageOf(offset + done));
    IxSpanMono(PageOf(offset + done), PageOf(offset + len - 1));
  }

  lemma SameSlots(lu0: seq<Entry>, g: File, lu: seq<Entry>, lu': seq<Entry>, first: nat, n: nat, k: nat)
    requires Emptying(lu0, g, lu, first, n, k) && |lu'| == SLOTS && DeletedSlots(lu') == DeletedSlots(lu)
    ensures Emptying(lu0, g, lu', first, n, k)
  {
    hide DeletedSlots, Doomed;
  }

  /** The index page left behind has been given up, if there was one. */
  lemma IndexGivenUp(lu0: seq<Entry>, g: File, lu: seq<Entry>, lu': seq<Entry>, first: nat, n: nat, k: nat, switch: bool)
    requires Emptying(lu0, g, lu, first, n, k) && |lu'| == SLOTS && k < |g.ixs| && first <= n
    requires if n == first then k == 0 && !switch else k == IxSpan(n - 1) && (switch <==> IxSpan(n) != k)
    requires DeletedSlots(lu') == if switch then DeletedSlots(lu) + {g.ixs[k]} else DeletedSlots(lu)
    ensures Emptying(lu0, g, lu', first, n, IxSpan(n))
  {
    hide DeletedSlots, Doomed;
    if n == first {
      DoomedAtFirst(g, first, k);
      DoomedAtFirst(g, first, IxSpan(n));
    } else {
      IxSpanNext(n - 1);
      IxSpanMono(first, n - 1);
      if switch {
        DoomedSwitch(g, first, n, k);
      }
    }
  }

  lemma PageGivenUp(lu0: seq<Entry>, g: File, lu: seq<Entry>, lu': seq<Entry>, first: nat, n: nat, k: nat)
    requires Emptying(lu0, g, lu, first, n, k) && |lu'| == SLOTS && first <= n < |g.data|
    requires DeletedSlots(lu') == DeletedSlots(lu) + {g.data[n]}
    ensures Emptying(lu0, g, lu', first, n + 1, k)
  {
    hide DeletedSlots, Doomed;
    DoomedNext(g, first, n, k);
  }

  /** What a round takes if no block holds deleted pages only: a page for the index page
      (`switch` is 1 if one has to be stored) and one for the data page, which is lost if it
      is a whole one. */
  ghost predicate RoundSpends(a: Room, b: Room, r: Status, left: bool, lose: bool, switch: nat, whole: bool)
  {
    && (left <==> a.Left() < switch)
    && (r == Ok && !lose ==> a.Left() == b.Left() + switch + 1)
    && (!left && (r != Ok || lose) ==> a.Left() == switch && (lose <==> whole))
    && (r != Ok || lose ==> b.blocks < 2) && (a.blocks >= 1 <==> b.blocks >= 1)
  }

  lemma AskedRoom(a: Room, b: Room)
    requires Asked(a, b)
    ensures Drew(a, b, 1) && (b.blocks <= a.blocks || b.blocks <= 2) && (if a.CanTake() then b.blocks >= 1 else b.blocks < 2)
    ensures !a.cleaning && a.Sure() > 0 ==> a.CanTake()
    ensures !a.cleaning && !AnyDeletedBlock(a.lu) ==>
              && (a.CanTake() <==> a.blocks >= 2) && (if a.CanTake() then a.Left() == b.Left() + 1 else a.Left() == 0)
              && (a.blocks >= 1 <==> b.blocks >= 1)
  {
    hide FreeSlots, AnyDeletedBlock;
  }

  /** The pages a modification takes at most: one for every data page it touches and one
      for every index page those belong to. */
  function ModifyPages(offset: nat, len: nat): (n: nat)
    requires len > 0
    ensures n >= 2
  {
    var first, last := PageOf(offset), PageOf(offset + len - 1);
    QuotMono(offset, offset + len - 1, DATA_SIZE);
    IxSpanMono(first, last);
    (last - first + 1) + (IxSpan(last) - IxSpan(first) + 1)
  }

  /** The pages taken when `next` is the first data page not touched yet. */
  function TakenSoFar(first: nat, next: nat): (n: nat)
    requires first <= next
  {
    if next == first then 0
    else
      IxSpanMono(first, next - 1);
      (next - first) + (IxSpan(next - 1) - IxSpan(first))
  }

  /** A further round takes no more pages than are left. */
  lemma TakenOneMore(offset: nat, len: nat, done: nat)
    requires done < len
    ensures var first, next := PageOf(offset), PageOf(offset + done);
            && first <= next && IxSpan(first) <= IxSpan(next)
            && TakenSoFar(first, next + 1) < ModifyPages(offset, len)
            && (first < next ==> IxSpan(next - 1) <= IxSpan(next)
                                 && TakenSoFar(first, next + 1) == TakenSoFar(first, next) + 1 + (IxSpan(next) - IxSpan(next - 1)))
  {
    var first, next, last := PageOf(offset), PageOf(offset + done), PageOf(offset + len - 1);
    QuotMono(offset, offset + done, DATA_SIZE);
    QuotMono(offset + done, offset + len - 1, DATA_SIZE);
    IxSpanMono(first, next);
    IxSpanMono(next, last);
    if first < next {
      IxSpanMono(first, next - 1);
      IxSpanMono(next - 1, next);
    }
  }

  lemma TakenMore(first: nat, i: nat, j: nat)
    requires first <= i < j
    ensures TakenSoFar(first, i) < TakenSoFar(first, j)
  {
    IxSpanMono(first, j - 1);
    if first < i {
      IxSpanMono(first, i - 1);
      IxSpanMono(i - 1, j - 1);
    }
  }

  /** Data page `j` is replaced as a whole, and the page for it is the one asked for after
      `left` others. */
  ghost predicate LosesAt(offset: nat, len: nat, left: nat, j: nat)
  {
    && PageOf(offset) <= j && offset <= Start(j) && Start(j) + DATA_SIZE <= offset + len
    && TakenSoFar(PageOf(offset), j + 1) == left + 1
  }

  /** With `left` pages to be had, the first one that cannot be had is for a data page that
      is replaced as a whole. */
  ghost predicate Loses(offset: nat, len: nat, left: nat)
  {
    exists j: nat :: LosesAt(offset, len, left, j)
  }

  /** ... and so are all data pages from there on, which belong to one index page. */
  ghost predicate LosesToEnd(offset: nat, len: nat, left: nat)
    requires len > 0
  {
    && OffsetIn(offset + len) == 0
    && exists j: nat :: LosesAt(offset, len, left, j) && IxSpan(j) == IxSpan(PageOf(offset + len - 1))
  }

  /** The data pages before `next` have been replaced as a whole since the first that was
      lost, and belong to the same index page. */
  ghost predicate LosingOn(offset: nat, len: nat, left: nat, next: nat)
  {
    && next > 0 && Start(next - 1) + DATA_SIZE <= offset + len
    && forall j: nat :: LosesAt(offset, len, left, j) ==> j < next && IxSpan(j) == IxSpan(next - 1)
  }

  /** What has become of the pages to be had while the loop runs, which started with `a` and
      has come to data page `next`, if no block comes to hold deleted pages only. */
  ghost predicate Rationed(a: Room, b: Room, lost: set<nat>, failed: bool, offset: nat, len: nat, next: nat)
    requires len > 0 && PageOf(offset) <= next
  {
    && (a.blocks >= 1 <==> b.blocks >= 1)
    && (lost != {} || failed ==> b.blocks < 2)
    && (lost == {} && !failed ==> a.Left() == b.Left() + TakenSoFar(PageOf(offset), next))
    && (lost != {} ==> Loses(offset, len, a.Left()))
    && (lost != {} && !failed ==> LosingOn(offset, len, a.Left(), next))
    && (lost != {} && failed ==> !LosesToEnd(offset, len, a.Left()))
    && (lost == {} && failed ==> !Loses(offset, len, a.Left()) && a.Left() + 1 < ModifyPages(offset, len))
  }

  /** Which data page is replaced as a whole. */
  lemma WholePage(offset: nat, len: nat, done: nat)
    requires done < len && (done > 0 ==> OffsetIn(offset + done) == 0)
    ensures var j := PageOf(offset + done);
            ChunkSize(len - done, OffsetIn(offset + done)) == DATA_SIZE <==> offset <= Start(j) && Start(j) + DATA_SIZE <= offset + len
  {
    assert Start(PageOf(offset + done)) + OffsetIn(offset + done) == offset + done;
  }

  /** The page for data page `next` or its index page is the first that cannot be had. */
  lemma FirstMissed(offset: nat, len: nat, left: nat, next: nat, taken: nat)
    requires PageOf(offset) <= next && taken <= left + 1 <= TakenSoFar(PageOf(offset), next + 1)
    requires taken == TakenSoFar(PageOf(offset), next) + 1
    ensures forall j: nat :: LosesAt(offset, len, left, j) ==> j == next
  {
    hide TakenSoFar;
    var first := PageOf(offset);
    forall j: nat | LosesAt(offset, len, left, j) ensures j == next {
      if j + 1 < next {
        TakenMore(first, j + 1, next);
      } else if j > next {
        TakenMore(first, next + 1, j + 1);
      }
    }
  }

  /** After a page has been lost the next whole ones are lost too, up to the end or the next
      index page. */
  lemma LosingGoesOn(offset: nat, len: nat, left: nat, done: nat, r: Status, gone: bool, switch: bool)
    requires 0 < done < len && OffsetIn(offset + done) == 0 && PageOf(offset) < PageOf(offset + done)
    requires LosingOn(offset, len, left, PageOf(offset + done))
    requires switch <==> IxSpan(PageOf(offset + done)) != IxSpan(PageOf(offset + done) - 1)
    requires gone ==> switch && r != Ok
    requires !gone ==> !switch && (r == Ok <==> ChunkSize(len - done, 0) == DATA_SIZE)
    ensures if r == Ok then LosingOn(offset, len, left, PageOf(offset + done) + 1) else !LosesToEnd(offset, len, left)
  {
    var next := PageOf(offset + done);
    WholePage(offset, len, done);
    InRange(offset, len, done);
    IxSpanNext(next - 1);
    if r != Ok && !gone {
      assert len - done < DATA_SIZE;
      BytePlace(next, len - done);
      assert Start(next) == offset + done;
    }
  }

  lemma RoundRationed(a: Room, b: Room, c: Room, lost: set<nat>, lost': set<nat>, r: Status, left: bool, offset: nat, len: nat, done: nat, k: nat)
    requires done < len && PageOf(offset) <= PageOf(offset + done)
    requires if done == 0 then lost == {} else OffsetIn(offset + done) == 0 && PageOf(offset) < PageOf(offset + done) && k == IxSpan(PageOf(offset + done) - 1)
    requires Rationed(a, b, lost, false, offset, len, PageOf(offset + done))
    requires lost' == lost || (lost' == lost + {PageOf(offset + done)} && PageOf(offset + done) !in lost)
    requires (r != Ok ==> lost' == lost) && (left ==> r != Ok)
    requires var next := PageOf(offset + done);
             RoundSpends(b, c, r, left, lost' != lost, if done > 0 && IxSpan(next) != k then 1 else 0, ChunkSize(len - done, OffsetIn(offset + done)) == DATA_SIZE)
    ensures Rationed(a, c, lost', r != Ok, offset, len, PageOf(offset + done) + 1)
  {
    hide FreeSlots, TakenSoFar, ModifyPages, Loses, LosesToEnd, LosingOn;
    var first, next := PageOf(offset), PageOf(offset + done);
    var switch := done > 0 && IxSpan(next) != k;
    if lost == {} {
      FirstRationed(a, b, c, lost', r, left, offset, len, done, switch);
    } else {
      assert b.Left() == 0;
      LosingGoesOn(offset, len, a.Left(), done, r, left, switch);
    }
  }

  /** The same while no page has been lost. */
  lemma FirstRationed(a: Room, b: Room, c: Room, lost': set<nat>, r: Status, left: bool, offset: nat, len: nat, done: nat, switch: bool)
    requires done < len && PageOf(offset) <= PageOf(offset + done) && (done > 0 ==> OffsetIn(offset + done) == 0)
    requires if done == 0 then !switch
             else PageOf(offset) < PageOf(offset + done) && (switch <==> IxSpan(PageOf(offset + done)) != IxSpan(PageOf(offset + done) - 1))
    requires a.Left() == b.Left() + TakenSoFar(PageOf(offset), PageOf(offset + done)) && (a.blocks >= 1 <==> b.blocks >= 1)
    requires lost' == {} || lost' == {PageOf(offset + done)}
    requires (r != Ok ==> lost' == {}) && (left ==> r != Ok)
    requires RoundSpends(b, c, r, left, lost' != {}, if switch then 1 else 0, ChunkSize(len - done, OffsetIn(offset + done)) == DATA_SIZE)
    ensures Rationed(a, c, lost', r != Ok, offset, len, PageOf(offset + done) + 1)
  {
    hide FreeSlots, TakenSoFar, ModifyPages, LosesToEnd, Supply;
    var first, next := PageOf(offset), PageOf(offset + done);
    WholePage(offset, len, done);
    TakenOneMore(offset, len, done);
    TakenAtFirst(first);
    if done > 0 {
      IxSpanNext(next - 1);
    }
    if r != Ok || lost' != {} {
      FirstMissed(offset, len, a.Left(), next, TakenSoFar(first, next) + 1);
    }
    if lost' != {} {
      assert LosesAt(offset, len, a.Left(), next);
    }
  }

  lemma TakenAtFirst(first: nat)
    ensures TakenSoFar(first, first) == 0 && TakenSoFar(first, first + 1) == 1
  {
  }

  /** What is known of the free blocks and of the pages lost while the loop runs, which
      started with `a`. */
  ghost predicate Allotted(a: Room, b: Room, lost: set<nat>, failed: bool, taken: nat, need: nat)
  {
    && Drew(a, b, taken) && (lost != {} || failed ==> b.blocks <= 2)
    && (a.Sure() >= need ==> lost == {} && !failed)
  }

  /** What becomes of the first page when none can be had from the start. */
  ghost predicate FirstLost(a: Room, lost: set<nat>, offset: nat, len: nat)
    requires len > 0
  {
    !a.CanTake() ==> ChunkSize(len, OffsetIn(offset)) == DATA_SIZE && PageOf(offset) in lost
  }

  lemma RoundAllotted(a: Room, b: Room, c: Room, lost: set<nat>, lost': set<nat>, failed: bool, taken: nat, n: nat, need: nat)
    requires Allotted(a, b, lost, false, taken, need) && taken + n < need
    requires Drew(b, c, n) && (lost' != {} || failed ==> c.blocks <= 2)
    requires a.Sure() >= need && lost == {} ==> lost' == {} && !failed
    ensures Allotted(a, c, lost', failed, taken + n, need)
  {
    DrewMore(a, b, c, taken, n);
  }

  lemma AllottedRoom(a: Room, b: Room, lost: set<nat>, taken: nat, need: nat, n: nat)
    requires Allotted(a, b, lost, false, taken, need) && taken + 1 + n < need
    ensures (lost != {} ==> b.blocks <= 2) && (a.Sure() >= need ==> b.Sure() > n && lost == {})
  {
  }

  lemma AllottedMore(a: Room, b: Room, lost: set<nat>, failed: bool, taken: nat, need: nat)
    requires Allotted(a, b, lost, failed, taken, need) && taken < need
    ensures Allotted(a, b, lost, failed, need - 1, need)
  {
  }

  lemma AllottedAtFirst(a: Room, need: nat)
    ensures Allotted(a, a, {}, false, 0, need)
  {
  }

  /** A round of the loop, with what it does to the room there was at first. */
  method ModifyNext(fs: Spiffs, f: nat, id: nat, k: nat, x: nat, work: Page, lost: set<nat>, from: nat, next: nat,
                    ghost files: map<nat, FileView>, offset: nat, data: seq<byte>, done: nat, dataPix: nat,
                    ghost g: File, ghost room0: Room)
    returns (r: Status, newK: nat, newX: nat, newWork: Page, n: nat, d: nat, left: bool, lost': set<nat>, from': nat)
    requires id in files && offset + |data| <= |files[id].bytes| && done < |data|
    requires Modifying(fs, f, id, k, x, work, lost, from, next, files, offset, data, done) && Ours(g, fs.cat, id, next, k)
    requires PageOf(offset) <= next == PageOf(offset + done)
    requires if done == 0 then next == PageOf(offset) && from == next && k == 0 && x < |fs.pg| && fs.pg[x] == work && lost == {}
             else PageOf(offset) < next && k == IxSpan(next - 1)
    requires done == 0 ==> fs.Space() == room0
    requires var taken, need := TakenSoFar(PageOf(offset), next), ModifyPages(offset, |data|);
             Allotted(room0, fs.Space(), lost, false, taken, need)
    requires done > 0 ==> FirstLost(room0, lost, offset, |data|) && OffsetIn(offset + done) == 0
    requires Sheltered(room0.lu, g, offset, |data|) ==>
               && Emptying(room0.lu, g, fs.lu, PageOf(offset), next, k)
               && Rationed(room0, fs.Space(), lost, false, offset, |data|, next)
    modifies fs`lu, fs`pg, fs`flash, fs`trace, fs`freeBlocks, fs`eraseCount, fs`maxEraseCount, fs`pDeleted,
             fs`freeBlock, fs`freeEntry, fs`pAllocated, fs`fds, fs`cat, fs`cursorBlock, fs`cursorEntry
    ensures n == ChunkSize(|data| - done, OffsetIn(offset + done))
    ensures (r == Ok || r == ErrFull) && (left ==> r != Ok && done > 0) && FdsKept(old(fs.fds), fs.fds)
    ensures r == Ok ==> newK == IxSpan(next) && Modifying(fs, f, id, newK, newX, newWork, lost', from', next + 1, files, offset, data, done + n)
    ensures r == Ok ==> Ours(g, fs.cat, id, next + 1, newK)
    ensures r != Ok ==> Modifying(fs, f, id, newK, newX, newWork, lost', from', next, files, offset, data, done) && lost' == lost
    ensures TakenSoFar(PageOf(offset), next + 1) < ModifyPages(offset, |data|)
    ensures var taken, need := TakenSoFar(PageOf(offset), next + 1), ModifyPages(offset, |data|);
            Allotted(room0, fs.Space(), lost', r != Ok, taken, need)
    ensures done > 0 || r == Ok ==> FirstLost(room0, lost', offset, |data|)
    ensures done == 0 && r != Ok ==> !room0.CanTake() && ChunkSize(|data|, OffsetIn(offset)) != DATA_SIZE
    ensures Sheltered(room0.lu, g, offset, |data|) ==>
              && (r == Ok ==> Emptying(room0.lu, g, fs.lu, PageOf(offset), next + 1, newK))
              && Rationed(room0, fs.Space(), lost', r != Ok, offset, |data|, next + 1)
  {
    hide FlashState, LookupState, FdsKept, Modifying, Ours, Drew, Allotted, Rationed, RoundSpends, Sheltered, Emptying, Supply, FreeSlots, TakenSoFar, ModifyPages;
    ghost var room1, first, need := fs.Space(), PageOf(offset), ModifyPages(offset, |data|);
    TakenOneMore(offset, |data|, done);
    TakenAtFirst(first);
    ghost var more := TakenSoFar(first, next + 1) - TakenSoFar(first, next);
    AllottedRoom(room0, room1, lost, TakenSoFar(first, next), need, more - 1);
    ModifyingOrder(fs, f, id, k, x, work, lost, from, next, files, offset, data, done);
    r, newK, newX, newWork, n, d, left, lost', from' :=
      ModifyRound(fs, f, id, k, x, work, lost, from, next, files, offset, data, done, dataPix, room0.lu, g);
    RoundAllotted(room0, room1, fs.Space(), lost, lost', r != Ok, TakenSoFar(first, next), more, need);
    if Sheltered(room0.lu, g, offset, |data|) {
      RoundRationed(room0, room1, fs.Space(), lost, lost', r, left, offset, |data|, done, k);
    }
  }

  /** The loop.  `left`: an index page could not be stored on the way. */
  method ModifyAll(fs: Spiffs, f: nat, id: nat, x0: nat, work0: Page, ghost files: map<nat, FileView>, offset: nat, data: seq<byte>)
    returns (r: Status, k: nat, x: nat, work: Page, done: nat, left: bool, lost: set<nat>, from: nat, next: nat)
    requires id in files && offset + |data| <= |files[id].bytes| && |data| > 0
    requires Modifying(fs, f, id, 0, x0, work0, {}, PageOf(offset), PageOf(offset), files, offset, data, 0)
    requires x0 < |fs.pg| && fs.pg[x0] == work0 && id in fs.cat && |fs.lu| == SLOTS
    modifies fs`lu, fs`pg, fs`flash, fs`trace, fs`freeBlocks, fs`eraseCount, fs`maxEraseCount, fs`pDeleted,
             fs`freeBlock, fs`freeEntry, fs`pAllocated, fs`fds, fs`cat, fs`cursorBlock, fs`cursorEntry
    ensures done <= |data| && (r == Ok || r == ErrFull) && (r == Ok <==> done == |data|) && (left ==> r != Ok && done > 0)
    ensures Modifying(fs, f, id, k, x, work, lost, from, next, files, offset, data, done) && FdsKept(old(fs.fds), fs.fds)
    ensures if done == 0 then next == PageOf(offset) && lost == {} else next == PageOf(offset + done - 1) + 1
    ensures var need := ModifyPages(offset, |data|);
            Allotted(old(fs.Space()), fs.Space(), lost, r != Ok, need - 1, need)
    ensures done == 0 ==> r == ErrFull && !old(fs.Space()).CanTake() && ChunkSize(|data|, OffsetIn(offset)) != DATA_SIZE
    ensures done > 0 ==> FirstLost(old(fs.Space()), lost, offset, |data|)
    ensures var g, last := old(fs.cat)[id], PageOf(offset + |data| - 1);
            Sheltered(old(fs.lu), g, offset, |data|) ==>
              && PageOf(offset) <= last
              && (r == Ok ==> Emptying(old(fs.lu), g, fs.lu, PageOf(offset), last + 1, IxSpan(last)))
              && Rationed(old(fs.Space()), fs.Space(), lost, r != Ok, offset, |data|, last + 1)
  {
    hide FlashState, LookupState, FdsKept, Modifying, Ours, Drew, FirstLost, Allotted, Rationed, Sheltered, Emptying, Supply, FreeSlots, TakenSoFar, ModifyPages;
    ghost var room0, first, last, need := fs.Space(), PageOf(offset), PageOf(offset + |data| - 1), ModifyPages(offset, |data|);
    ghost var g := fs.cat[id];
    AllottedAtFirst(room0, need);
    AtFirst(room0, g, fs.cat, id, offset, |data|);
    FdsKeptSelf(fs.fds);
    r, k, x, work, done, left, lost, from, next := Ok, 0, x0, work0, 0, false, {}, PageOf(offset), PageOf(offset);
    var dataSpix, dataPix: nat := PageOf(offset), *;
    while done < |data|
      invariant done <= |data| && r == Ok && !left && FdsKept(old(fs.fds), fs.fds) && next == dataSpix
      invariant Modifying(fs, f, id, k, x, work, lost, from, next, files, offset, data, done)
      invariant Ours(g, fs.cat, id, next, k)
      invariant done < |data| ==> next == PageOf(offset + done) && (done > 0 ==> OffsetIn(offset + done) == 0)
      invariant if done == 0 then next == first && from == next && k == 0 && x < |fs.pg| && fs.pg[x] == work && lost == {}
                else first < next == PageOf(offset + done - 1) + 1 && k == IxSpan(next - 1)
      invariant done == 0 ==> fs.Space() == room0
      invariant first <= next && TakenSoFar(first, next) < need
      invariant Allotted(room0, fs.Space(), lost, false, TakenSoFar(first, next), need)
      invariant done > 0 ==> FirstLost(room0, lost, offset, |data|)
      invariant Sheltered(room0.lu, g, offset, |data|) ==>
                  Emptying(room0.lu, g, fs.lu, first, next, k) && Rationed(room0, fs.Space(), lost, false, offset, |data|, next)
    {
      ghost var fds1 := fs.fds;
      var n;
      r, k, x, work, n, dataPix, left, lost, from :=
        ModifyNext(fs, f, id, k, x, work, lost, from, dataSpix, files, offset, data, done, dataPix, g, room0);
      FdsKeptChain(old(fs.fds), fds1, fs.fds);
      if r != Ok {
        AllottedMore(room0, fs.Space(), lost, true, TakenSoFar(first, next + 1), need);
        if Sheltered(room0.lu, g, offset, |data|) {
          RationedFailed(room0, fs.Space(), lost, offset, |data|, next + 1, last + 1);
        }
        return;
      }
      LastOfChunk(offset + done, n);
      if done + n < |data| {
        NextPosition(offset + done, n);
      }
      next := next + 1;
      dataSpix := dataSpix + 1;
      done := done + n;
    }
    AllottedMore(room0, fs.Space(), lost, false, TakenSoFar(first, next), need);
  }

  /** Before the first round. */
  lemma AtFirst(a: Room, g: File, cat: Catalogue, id: nat, offset: nat, len: nat)
    requires len > 0 && |a.lu| == SLOTS && id in cat && g == cat[id]
    ensures Ours(g, cat, id, PageOf(offset), 0) && Emptying(a.lu, g, a.lu, PageOf(offset), PageOf(offset), 0)
    ensures Rationed(a, a, {}, false, offset, len, PageOf(offset))
    ensures TakenSoFar(PageOf(offset), PageOf(offset)) == 0 && PageOf(offset) <= PageOf(offset + len - 1)
  {
    hide Supply, FreeSlots, Doomed;
    DoomedAtFirst(g, PageOf(offset), 0);
    TakenAtFirst(PageOf(offset));
    QuotMono(offset, offset + len - 1, DATA_SIZE);
  }

  lemma RationedFailed(a: Room, b: Room, lost: set<nat>, offset: nat, len: nat, n: nat, n': nat)
    requires len > 0 && PageOf(offset) <= n && PageOf(offset) <= n' && Rationed(a, b, lost, true, offset, len, n)
    ensures Rationed(a, b, lost, true, offset, len, n')
  {
    hide Supply, FreeSlots, Loses, LosesToEnd, ModifyPages;
  }

  /** All the pages a modification takes but the one for the last index page. */
  lemma TakenAll(offset: nat, len: nat)
    requires len > 0
    ensures PageOf(offset) <= PageOf(offset + len - 1)
    ensures TakenSoFar(PageOf(offset), PageOf(offset + len - 1) + 1) + 1 == ModifyPages(offset, len)
  {
    QuotMono(offset, offset + len - 1, DATA_SIZE);
  }

  /** The header page of the object, as it is in flash. */
  method FirstIndex(fs: Spiffs, f: nat, ghost files: map<nat, FileView>, ghost offset: nat, ghost data: seq<byte>)
    returns (x: nat, work: Page)
    requires Mounted(fs) && f < |fs.fds| && OpenOn(fs, f, fs.fds[f].id) && FilesOf(fs) == files && fs.fds[f].id in files
    requires offset + |data| <= |files[fs.fds[f].id].bytes|
    ensures x < |fs.pg| && work == fs.pg[x] && fs.fds[f].id in fs.cat && |fs.lu| == SLOTS
    ensures Modifying(fs, f, fs.fds[f].id, 0, x, work, {}, PageOf(offset), PageOf(offset), files, offset, data, 0)
  {
    hide FlashState, LookupState, FilesBut, HoldsBut;
    var id := fs.fds[f].id;
    assert FdPagesOk(fs.fds[f], fs.cat);
    FileOf(fs.lu, fs.pg, fs.cat, id);
    assert IndexOk(fs.lu, fs.pg, id, fs.cat[id], 0);
    x := fs.fds[f].hdr;
    work := fs.pg[x];
    assert fs.pg[x := work] == fs.pg;
    NothingLost(fs.lu, fs.pg, fs.cat, id);
    UpToDate(work, 0, PageOf(offset), {});
    MidwayAtFirst(files, id, offset, data);
  }

  lemma MidwayAtFirst(files: map<nat, FileView>, id: nat, offset: nat, data: seq<byte>)
    requires id in files && offset + |data| <= |files[id].bytes|
    ensures Midway(files, id, offset, data, 0, {}) == files
  {
    OverlayNothing(files[id], offset, data);
    assert Holed(files[id], {}) == files[id];
    assert files[id := files[id]] == files;
  }

  lemma MidwayWhole(files: map<nat, FileView>, id: nat, offset: nat, data: seq<byte>, w: nat)
    requires id in files && offset + |data| <= |files[id].bytes| && w <= |data|
    ensures Midway(files, id, offset, data, w, {}) == files[id := Overlaid(files[id], offset, data[..w])]
  {
    var v := Overlaid(files[id], offset, data[..w]);
    assert Holed(v, {}) == v;
  }

  /** What is there when the index pages are stored, or cannot be. */
  lemma Finished(fs: Spiffs, f: nat, id: nat, k: nat, x: nat, work: Page, lost: set<nat>, from: nat, next: nat,
                 files: map<nat, FileView>, offset: nat, data: seq<byte>, done: nat)
    requires id in files && offset + |data| <= |files[id].bytes| && done <= |data|
    requires Modifying(fs, f, id, k, x, work, lost, from, next, files, offset, data, done)
    ensures LeftOf(fs, id, files, Overlaid(files[id], offset, data[..done]), Gone(lost, from, next))
    ensures Gone(lost, from, next) == {} ==> Mounted(fs) && FilesOf(fs) == files[id := Overlaid(files[id], offset, data[..done])]
    ensures forall j :: j in lost ==> PageLost(fs.lu, fs.pg, id, j)
    ensures fs.LookupOk()
  {
    hide FlashState, LookupState, LeftOf, HoldsBut, FilesBut, PageLost, Overlaid, Outdated;
    StaleIndex(fs, f, id, k, x, work, lost, from, next, files, Overlaid(files[id], offset, data[..done]));
    forall j | j in lost ensures PageLost(fs.lu, fs.pg, id, j) {
      ghost var v := fs.pg[x := work];
      LostIsLost(fs.lu, v, fs.cat, id, lost, j);
      LostUnderBuffer(fs.lu, fs.pg, fs.cat, id, lost, k, x, work, j);
    }
    if Gone(lost, from, next) == {} {
      assert from !in Gone(lost, from, next) && lost <= Gone(lost, from, next);
      assert lost == {};
      OutdatedOrder(fs.pg[x], work, k, from, next, lost);
      NotOutdated(fs.pg[x], work, k, from, lost);
      assert fs.pg[x := work] == fs.pg;
      NothingLost(fs.lu, fs.pg, fs.cat, id);
      MidwayWhole(files, id, offset, data, done);
    }
  }

  lemma OutdatedOrder(p: Page, work: Page, k: nat, from: nat, next: nat, lost: set<nat>)
    requires Outdated(p, work, k, from, next, lost)
    ensures from <= next
  {
  }

  lemma LostUnderBuffer(lu: seq<Entry>, pg: seq<Page>, cat: Catalogue, id: nat, lost: set<nat>, k: nat, x: nat, work: Page, j: nat)
    requires x < |pg| && HoldsBut(lu, pg[x := work], cat, id, lost) && id in cat && k < |cat[id].ixs| && cat[id].ixs[k] == x
    requires PageLost(lu, pg[x := work], id, j)
    ensures PageLost(lu, pg, id, j)
  {
    assert IndexOk(lu, pg[x := work], id, cat[id], k);
    forall s: nat ensures NotLost(lu, pg, id, {j}, s) {
      assert NotLost(lu, pg[x := work], id, {j}, s);
    }
  }

  /** The index page in the work buffer is stored at the end. */
  method FinishModify(fs: Spiffs, f: nat, id: nat, k: nat, x: nat, work: Page, lost: set<nat>, from: nat, next: nat,
                      ghost files: map<nat, FileView>, offset: nat, data: seq<byte>, done: nat)
    returns (r: Status, from': nat)
    requires id in files && offset + |data| <= |files[id].bytes| && done <= |data|
    requires Modifying(fs, f, id, k, x, work, lost, from, next, files, offset, data, done)
    modifies fs`lu, fs`pg, fs`flash, fs`trace, fs`freeBlocks, fs`eraseCount, fs`maxEraseCount, fs`pDeleted,
             fs`freeBlock, fs`freeEntry, fs`pAllocated, fs`fds, fs`cat
    ensures FdsKept(old(fs.fds), fs.fds) && from' == (if r == Ok then next else from) && from' <= next
    ensures exists k', x', work' :: Modifying(fs, f, id, k', x', work', lost, from', next, files, offset, data, done)
    ensures Took(r, old(fs.Space()), fs.Space()) && !old(fs.cleaning)
  {
    hide FlashState, LookupState, HoldsBut, FilesBut, Outdated, Took, FdsPagesOk, FdsSizesOk, Tight, FdsKept;
    FdsKeptSelf(fs.fds);
    OutdatedOrder(fs.pg[x], work, k, from, next, lost);
    var d;
    r, d := StoreIndexPage(fs, id, k, x, work, lost);
    from' := if r == Ok then next else from;
    if r == Ok {
      OpenKept(old(fs.fds), fs.fds, f);
      IndexStored(fs.lu, fs.pg, fs.cat, id, lost, k);
      assert fs.pg[d := fs.pg[d]] == fs.pg;
      UpToDate(fs.pg[d], k, next, lost);
      assert Modifying(fs, f, id, k, d, fs.pg[d], lost, next, next, files, offset, data, done);
    } else {
      assert Modifying(fs, f, id, k, x, work, lost, from, next, files, offset, data, done);
    }
  }

  lemma OpenKept(fds: seq<Fd>, fds': seq<Fd>, f: nat)
    requires FdsKept(fds, fds') && f < |fds|
    ensures f < |fds'| && Tracked(fds'[f]) == Tracked(fds[f]) && fds'[f].id == fds[f].id
  {
  }

  lemma IndexStored(lu: seq<Entry>, pg: seq<Page>, cat: Catalogue, id: nat, lost: set<nat>, k: nat)
    requires HoldsBut(lu, pg, cat, id, lost) && id in cat && k < |cat[id].ixs|
    ensures cat[id].ixs[k] < |pg| == SLOTS && pg[cat[id].ixs[k]].IndexPage? && |pg[cat[id].ixs[k]].table| == TableLen(k)
  {
    assert IndexOk(lu, pg, id, cat[id], k);
  }

  /** Pages gone are pages that the modification has touched; those lost were to be replaced
      as a whole. */
  ghost predicate GoneIn(lost: set<nat>, gone: set<nat>, offset: nat, len: nat, done: nat)
  {
    && lost <= gone
    && (forall j :: j in gone ==> PageOf(offset) <= j && Start(j) < offset + done)
    && (forall j :: j in lost ==> offset <= Start(j) && Start(j) + DATA_SIZE <= offset + len)
  }

  lemma GoneInRange(lost: set<nat>, from: nat, next: nat, offset: nat, len: nat, done: nat)
    requires LostWhole(lost, next, offset, len) && PageOf(offset) <= from <= next && done <= len
    requires if done == 0 then next == PageOf(offset) && lost == {} else next == PageOf(offset + done - 1) + 1
    ensures GoneIn(lost, Gone(lost, from, next), offset, len, done)
  {
    forall j | j in Gone(lost, from, next) ensures PageOf(offset) <= j && Start(j) < offset + done {
      if j in lost {
        BytePlace(j, 0);
        QuotMono(offset, Start(j), DATA_SIZE);
      }
      TimesMono(j, next - 1, DATA_SIZE);
      assert Start(PageOf(offset + done - 1)) + OffsetIn(offset + done - 1) == offset + done - 1;
    }
  }

  lemma ModifyingOrder(fs: Spiffs, f: nat, id: nat, k: nat, x: nat, work: Page, lost: set<nat>, from: nat, next: nat,
                       files: map<nat, FileView>, offset: nat, data: seq<byte>, done: nat)
    requires id in files && offset + |data| <= |files[id].bytes| && done <= |data|
    requires Modifying(fs, f, id, k, x, work, lost, from, next, files, offset, data, done)
    ensures PageOf(offset) <= from <= next && LostWhole(lost, next, offset, |data|)
  {
  }

  /** The last page taken, for the index page. */
  lemma LastRoom(a: Room, b: Room, c: Room, lost: set<nat>, r: Status, r2: Status, need: nat)
    requires need > 0 && Allotted(a, b, lost, r != Ok, need - 1, need) && Took(r2, b, c) && !b.cleaning
    ensures Drew(a, c, need) && (r2 == Ok || r2 == ErrFull) && (r2 == Ok <==> b.CanTake())
    ensures a.Sure() >= need ==> r == Ok && r2 == Ok && lost == {}
    ensures r != Ok || r2 != Ok || lost != {} ==> c.blocks <= 2
  {
    hide AnyDeletedBlock;
  }

  lemma NoLastRoom(a: Room, b: Room, lost: set<nat>, need: nat)
    requires need > 0 && Allotted(a, b, lost, true, need - 1, need)
    ensures Drew(a, b, need) && a.Sure() < need && b.blocks <= 2
  {
  }

  /** With `left` pages to be had a modification succeeds: they are enough, or the only one
      missing or all the missing ones can be made up for at the end, since a block can be
      erased (`spare`), and the loop does not fail before. */
  ghost predicate Succeeds(offset: nat, len: nat, left: nat, spare: bool)
    requires len > 0
  {
    var need := ModifyPages(offset, len);
    left >= need || (spare && (left + 1 == need || LosesToEnd(offset, len, left)))
  }

  /** What comes of the pages there were: a data page is lost exactly if the first one not had
      was for a whole one, and success is reported exactly if there were enough, or the one
      for the last index page could be had by erasing a block. */
  lemma RationEnds(a: Room, b: Room, c: Room, lost: set<nat>, r: Status, r2: Status, offset: nat, len: nat, emptied: bool)
    requires len > 0 && !b.cleaning && PageOf(offset) <= PageOf(offset + len - 1)
    requires Rationed(a, b, lost, r != Ok, offset, len, PageOf(offset + len - 1) + 1) && Took(r2, b, c)
    requires r == Ok ==> (AnyDeletedBlock(b.lu) <==> emptied)
    ensures lost != {} <==> Loses(offset, len, a.Left())
    ensures r == Ok && r2 == Ok <==> Succeeds(offset, len, a.Left(), a.blocks >= 1 && emptied)
  {
    hide FreeSlots, TakenSoFar, ModifyPages, AnyDeletedBlock, SurePages;
    TakenAll(offset, len);
    if Loses(offset, len, a.Left()) {
      LosesBelow(offset, len, a.Left());
      if r == Ok {
        LostToEnd(offset, len, a.Left());
      }
    }
  }

  lemma LostToEnd(offset: nat, len: nat, left: nat)
    requires len > 0 && Loses(offset, len, left) && LosingOn(offset, len, left, PageOf(offset + len - 1) + 1)
    ensures LosesToEnd(offset, len, left)
  {
    hide TakenSoFar;
    var last := PageOf(offset + len - 1);
    BytePlace(last + 1, 0);
    assert Start(last) + OffsetIn(offset + len - 1) == offset + len - 1;
  }

  /** An index page could not be stored on the way. */
  lemma RationFails(a: Room, b: Room, lost: set<nat>, offset: nat, len: nat, spare: bool)
    requires len > 0 && PageOf(offset) <= PageOf(offset + len - 1)
    requires Rationed(a, b, lost, true, offset, len, PageOf(offset + len - 1) + 1)
    ensures (lost != {} <==> Loses(offset, len, a.Left())) && !Succeeds(offset, len, a.Left(), spare)
  {
    hide FreeSlots, TakenSoFar, ModifyPages, Supply;
    if Loses(offset, len, a.Left()) {
      LosesBelow(offset, len, a.Left());
    }
  }

  /** A data page that is lost is not the last page taken. */
  lemma LosesBelow(offset: nat, len: nat, left: nat)
    requires len > 0 && Loses(offset, len, left)
    ensures left + 1 < ModifyPages(offset, len)
  {
    hide TakenSoFar, ModifyPages;
    var j: nat :| LosesAt(offset, len, left, j);
    var last := PageOf(offset + len - 1);
    BytePlace(j, DATA_SIZE - 1);
    QuotMono(Start(j) + DATA_SIZE - 1, offset + len - 1, DATA_SIZE);
    TakenAll(offset, len);
    if j < last {
      TakenMore(PageOf(offset), j + 1, last + 1);
    }
  }

  /** What the room there is decides about a modification of the file in the places `g`. */
  ghost predicate ModifyForetold(offset: nat, len: nat, room: Room, g: File, r: Status, done: nat, lost: set<nat>, gone: set<nat>)
    requires len > 0
  {
    && (room.Sure() >= ModifyPages(offset, len) ==> r == Ok && gone == {})
    && (Sheltered(room.lu, g, offset, len) ==>
          && (lost != {} <==> Loses(offset, len, room.Left()))
          && r == if Succeeds(offset, len, room.Left(), room.blocks >= 1 && Emptied(room.lu, g, offset, len)) then Ok else ErrFull)
    && (!room.CanTake() ==>
          if ChunkSize(len, OffsetIn(offset)) == DATA_SIZE then PageOf(offset) in lost else r == ErrFull && done == 0 && gone == {})
  }

  /** The modification after the collector has made room.  `lost` are the data pages that
      are lost, `gone` those that the index pages in flash do not lead to any more: the
      lost ones and, if an index page could not be stored, those replaced since it was
      loaded.  Nothing is lost if enough pages are sure to be had; the first page is lost,
      or the failure reported before anything changes, exactly if none can be had. */
  method ModifyBytes(fs: Spiffs, f: nat, id: nat, offset: nat, data: seq<byte>, ghost files: map<nat, FileView>)
    returns (r: Status, done: nat, end: Ending, lost: set<nat>, gone: set<nat>)
    requires Mounted(fs) && OpenOn(fs, f, id) && FilesOf(fs) == files && id in files
    requires offset + |data| <= |files[id].bytes| && |data| > 0
    modifies fs`lu, fs`pg, fs`flash, fs`trace, fs`freeBlocks, fs`eraseCount, fs`maxEraseCount, fs`pDeleted,
             fs`freeBlock, fs`freeEntry, fs`pAllocated, fs`fds, fs`cat, fs`cursorBlock, fs`cursorEntry
    ensures fs.LookupOk() && FdsKept(old(fs.fds), fs.fds)
    ensures done <= |data| && (r == Ok || r == ErrFull) && (r == Ok ==> done == |data| && gone == lost)
    ensures end == if gone == {} then Complete else if lost != {} then LostPage else Torn
    ensures GoneIn(lost, gone, offset, |data|, done) && forall j :: j in lost ==> PageLost(fs.lu, fs.pg, id, j)
    ensures gone == {} ==> Mounted(fs) && FilesOf(fs) == files[id := Overlaid(files[id], offset, data[..done])]
    ensures LeftOf(fs, id, files, Overlaid(files[id], offset, data[..done]), gone)
    ensures Drew(old(fs.Space()), fs.Space(), ModifyPages(offset, |data|))
    ensures r != Ok || lost != {} ==> fs.freeBlocks <= 2
    ensures id in old(fs.cat) && ModifyForetold(offset, |data|, old(fs.Space()), old(fs.cat)[id], r, done, lost, gone)
  {
    hide FlashState, LookupState, FdsPagesOk, FdsSizesOk, FdsKept, Tight, Modifying, Ours, Mounted, LeftOf, Took, Drew, GoneIn, PageLost, AnyDeletedBlock, AnyBlockIn, Loses, Succeeds, Supply, FreeSlots, DeletedSlots, Rationed, Sheltered, Emptying, ModifyPages;
    ghost var lu0, room0, need := fs.lu, fs.Space(), ModifyPages(offset, |data|);
    var x, work := FirstIndex(fs, f, files, offset, data);
    ghost var g := fs.cat[id];
    ghost var calm, emptied := Sheltered(lu0, g, offset, |data|), Emptied(lu0, g, offset, |data|);
    var k, left;
    var from, next;
    r, k, x, work, done, left, lost, from, next := ModifyAll(fs, f, id, x, work, files, offset, data);
    ghost var fds1, room1 := fs.fds, fs.Space();
    if !left {
      var r2;
      var from';
      r2, from' := FinishModify(fs, f, id, k, x, work, lost, from, next, files, offset, data, done);
      FdsKeptChain(old(fs.fds), fds1, fs.fds);
      LastRoom(room0, room1, fs.Space(), lost, r, r2, need);
      if calm {
        if r == Ok {
          EmptiedAtEnd(lu0, g, room1.lu, offset, |data|);
        }
        RationEnds(room0, room1, fs.Space(), lost, r, r2, offset, |data|, emptied);
      }
      from := from';
      r := if r2 != Ok then r2 else r;
    } else {
      NoLastRoom(room0, room1, lost, need);
      if calm {
        RationFails(room0, room1, lost, offset, |data|, room0.blocks >= 1 && emptied);
      }
    }
    ghost var k', x', work' :| Modifying(fs, f, id, k', x', work', lost, from, next, files, offset, data, done);
    Finished(fs, f, id, k', x', work', lost, from, next, files, offset, data, done);
    ModifyingOrder(fs, f, id, k', x', work', lost, from, next, files, offset, data, done);
    GoneInRange(lost, from, next, offset, |data|, done);
    gone := Gone(lost, from, next);
    end := if gone == {} then Complete else if lost != {} then LostPage else Torn;
  }

  /** After the loop a block holds deleted pages only exactly if what was given up makes one. */
  lemma EmptiedAtEnd(lu0: seq<Entry>, g: File, lu: seq<Entry>, offset: nat, len: nat)
    requires len > 0
    requires var last := PageOf(offset + len - 1); Emptying(lu0, g, lu, PageOf(offset), last + 1, IxSpan(last))
    ensures AnyDeletedBlock(lu) <==> Emptied(lu0, g, offset, len)
  {
    hide AnyDeletedBlock, AnyBlockIn, DeletedSlots, Doomed;
    DeletedBlockIn(lu);
  }

  /** Replaces existing bytes of the file of descriptor `f`.  If no page can be had for a
      part of a page, what has been replaced so far is stored if it can be, and the failure
      reported.  Which of this happens is decided by the room the collector leaves.  If none can be had for a whole page, that page is lost, and the next ones
      likewise; success is reported all the same if the index pages can be stored. */
  method ObjectModify(fs: Spiffs, f: nat, offset: nat, data: seq<byte>)
    returns (r: Status, done: nat, end: Ending, ghost lost: set<nat>, ghost gone: set<nat>, ghost gc: Gathering)
    requires Mounted(fs) && f < |fs.fds| && OpenOn(fs, f, fs.fds[f].id) && |data| > 0
    requires offset + |data| <= |FilesOf(fs)[fs.fds[f].id].bytes|
    modifies fs
    ensures fs.LookupOk() && fs.start == old(fs.start)
    ensures done <= |data| && (r == Ok || r == ErrFull || r == ErrNotFound) && (r == Ok ==> done == |data| && gone == lost)
    ensures r == ErrNotFound ==> end == Torn && done == 0 && lost == {} && Behind(fs, old(FilesOf(fs)))
    ensures r != ErrNotFound ==>
              var id, v := old(fs.fds)[f].id, old(FilesOf(fs))[old(fs.fds)[f].id];
              && end == (if gone == {} then Complete else if lost != {} then LostPage else Torn)
              && FdsKept(old(fs.fds), fs.fds) && GoneIn(lost, gone, offset, |data|, done)
              && (forall j :: j in lost ==> PageLost(fs.lu, fs.pg, id, j))
              && (gone == {} ==> Mounted(fs) && FilesOf(fs) == old(FilesOf(fs))[id := Overlaid(v, offset, data[..done])])
              && LeftOf(fs, id, old(FilesOf(fs)), Overlaid(v, offset, data[..done]), gone)
    ensures r != Ok || lost != {} ==> Scarce(fs, |data| + DATA_SIZE)
    ensures old(fs.fds)[f].id in old(fs.cat) && Gathers(old(LayoutOf(fs)), |data| + DATA_SIZE, gc, old(fs.fds)[f].id)
    ensures old(Roomy(fs, |data| + DATA_SIZE)) ==> gc == Gathering(Ok, old(LayoutOf(fs)), old(fs.cat)[old(fs.fds)[f].id])
    ensures gc.r != Ok ==> r == gc.r && done == 0 && lost == {} && gone == {}
    ensures gc.r == Ok ==>
              && ModifyForetold(offset, |data|, gc.after.space, gc.file, r, done, lost, gone)
              && Drew(gc.after.space, fs.Space(), ModifyPages(offset, |data|))
  {
    hide Collected, Gathers, ModifyForetold, FlashState, LookupState, Overwrite, FdsPagesOk, FdsSizesOk, FdsKept, Tight, Holds, NeededPages, NoneFree, LeftOf, Behind, PageLost, GoneIn, IsIndexImage, Drew, AnyDeletedBlock, Sheltered, Emptied, Succeeds, Loses, Supply, FreeSlots;
    ghost var files := FilesOf(fs);
    var id := fs.fds[f].id;
    FdsKeptSelf(fs.fds);
    done, lost, gone := 0, {}, {};
    var work;
    ghost var a := LayoutOf(fs);
    r, work := GcCheck(fs, |data| + DATA_SIZE, Erased);
    HasGathered(fs, a, |data| + DATA_SIZE, id, r, files);
    gc := Gathering(r, LayoutOf(fs), if id in fs.cat then fs.cat[id] else File("", None, [], []));
    if r == ErrNotFound {
      end := Torn;
      return;
    }
    AfterCollection(old(fs.fds), fs, f, id, files);
    if r != Ok {
      end := Complete;
      NothingChanged(fs, id, files, offset, data);
      return;
    }
    ghost var fds1 := fs.fds;
    r, done, end, lost, gone := ModifyBytes(fs, f, id, offset, data, files);
    FdsKeptChain(old(fs.fds), fds1, fs.fds);
  }

  lemma NothingChanged(fs: Spiffs, id: nat, files: map<nat, FileView>, offset: nat, data: seq<byte>)
    requires Mounted(fs) && id in fs.cat && FilesOf(fs) == files && id in files && offset + |data| <= |files[id].bytes|
    ensures Overlaid(files[id], offset, data[..0]) == files[id] && files[id := files[id]] == files
    ensures LeftOf(fs, id, files, files[id], {}) && GoneIn({}, {}, offset, |data|, 0)
  {
    hide FlashState, LookupState, Tight, FdsPagesOk, FdsSizesOk;
    OverlayNothing(files[id], offset, data);
    WholeIsLeft(fs, id);
  }

  /** A file that is in order is legible. */
  lemma WholeIsLeft(fs: Spiffs, id: nat)
    requires Mounted(fs) && id in fs.cat
    ensures id in FilesOf(fs) && LeftOf(fs, id, FilesOf(fs), FilesOf(fs)[id], {})
  {
    hide FlashState, LookupState, Tight, FdsPagesOk, FdsSizesOk, HoldsBut;
    FileOf(fs.lu, fs.pg, fs.cat, id);
    var g := fs.cat[id];
    assert IndexOk(fs.lu, fs.pg, id, g, 0);
    var x := g.ixs[0];
    assert fs.pg[x := fs.pg[x]] == fs.pg;
    NothingLost(fs.lu, fs.pg, fs.cat, id);
    UpToDate(fs.pg[x], 0, 0, {});
    var v := FilesOf(fs)[id];
    forall k: nat | k < |g.ixs| ensures IndexFound(fs.lu, fs.pg, id, g, k, v.name, |v.bytes|) {
      assert IndexOk(fs.lu, fs.pg, id, g, k);
    }
    forall k: nat | k < |v.bytes| ensures Shows(fs.lu, fs.pg, id, g, k, v.bytes[k]) {
      StaleShows(fs.lu, fs.pg, fs.cat, id, {}, 0, x, fs.pg[x], 0, 0, k);
    }
  }

  // ---------------------------------------------------------------------------
  // A modification by no bytes

  /** Another page in the place of a header holds the same files only if it is the header. */
  lemma HeaderReplaced(lu: seq<Entry>, pg: seq<Page>, cat: Catalogue, lu': seq<Entry>, pg': seq<Page>, cat': Catalogue,
                       id: nat, d: nat)
    requires Holds(lu, pg, cat) && id in cat && |cat[id].ixs| > 0
    requires var h := cat[id].ixs[0];
             && h < SLOTS && d < SLOTS && d != h && !lu[d].Used? && Sizes(lu', pg') && KeptBut(lu, pg, lu', pg', {d, h})
             && lu'[d] == Used(id, true) && lu'[h] == Deleted
    requires Holds(lu', pg', cat') && Files(pg', cat') == Files(pg, cat)
    ensures pg'[d] == IndexImage(id, cat[id], 0)
  {
    var f, h := cat[id], cat[id].ixs[0];
    assert id in cat' by {
      assert Files(pg, cat).Keys == cat.Keys && Files(pg', cat').Keys == cat'.Keys;
    }
    var g := cat'[id];
    FileOf(lu, pg, cat, id);
    FileOf(lu', pg', cat', id);
    assert Files(pg', cat')[id] == View(pg', g) && Files(pg, cat)[id] == View(pg, f);
    assert |View(pg', g).bytes| == Length(g.size) && |View(pg, f).bytes| == Length(f.size);
    assert g.size == f.size && g.name == f.name && |g.data| == |f.data|;
    forall j | 0 <= j < |f.data| ensures g.data[j] == f.data[j] {
      assert DataOk(lu', pg', id, g, j);
      var s := g.data[j];
      assert SlotOk(lu, pg, cat, s);
      assert Kept(lu, pg, lu', pg', s);
    }
    assert g.data == f.data;
    assert IndexOk(lu', pg', id, g, 0);
    var s := g.ixs[0];
    assert SlotOk(lu, pg, cat, s);
    assert s != d ==> Kept(lu, pg, lu', pg', s);
    assert s == d;
  }

  /** What a modification by no bytes does.  The work buffer was last used for `stale`; what
      the collector leaves there, `work`, is stored as the header of the object.  That is
      seen by no one exactly if it is the header of the object.  It is `stale` if the
      collector has nothing to do; if it finds nothing to erase it is rejected. */
  method StoreStale(fs: Spiffs, f: nat, stale: Page) returns (r: Status, end: Ending, work: Page)
    requires Mounted(fs) && f < |fs.fds| && OpenOn(fs, f, fs.fds[f].id)
    modifies fs
    ensures fs.LookupOk() && fs.start == old(fs.start)
    ensures r == Ok || r == ErrFull || r == ErrNotFound || r == ErrCheck
    ensures end.Complete? || (end.StaleHeader? && r == Ok) || (end.Torn? && r == ErrNotFound)
    ensures end.Torn? <==> r == ErrNotFound
    ensures end.Torn? ==> Behind(fs, old(FilesOf(fs)))
    ensures end.StaleHeader? ==> forall cat :: !(Holds(fs.lu, fs.pg, cat) && Files(fs.pg, cat) == old(FilesOf(fs)))
    ensures end.Complete? ==> Mounted(fs) && FdsKept(old(fs.fds), fs.fds) && FilesOf(fs) == old(FilesOf(fs))
    ensures r == ErrCheck ==> !PassesForHeader(work)
    ensures var id := old(fs.fds)[f].id;
            r == Ok ==> id in fs.cat && PassesForHeader(work) && (end.Complete? <==> work == IndexImage(id, fs.cat[id], 0))
    ensures old(Quiet(fs, DATA_SIZE)) ==> work == stale && r == if PassesForHeader(stale) then Ok else ErrCheck
    ensures !old(Quiet(fs, DATA_SIZE)) && old(fs.pDeleted) == 0 ==> r == (if old(Roomy(fs, DATA_SIZE)) then ErrCheck else ErrFull)
    ensures !old(Quiet(fs, DATA_SIZE)) && r == Ok && BLOCKS <= 128 ==> IsIndexImage(fs.cat, work)
    ensures r == ErrFull || r == ErrNotFound ==> Scarce(fs, DATA_SIZE)
    ensures r != ErrCheck ==> PageAfter(old(LayoutOf(fs)), DATA_SIZE, r)
  {
    hide Collected, PageAfter, FlashState, LookupState, FdsPagesOk, FdsSizesOk, FdsKept, Tight, Holds, Table, NeededPages, NoneFree, IsIndexImage, Behind, SameContents, Files;
    var id := fs.fds[f].id;
    FdsKeptSelf(fs.fds);
    FileIn(fs, id);
    NeededForPage();
    ghost var a := LayoutOf(fs);
    r, work := GcCheck(fs, DATA_SIZE, stale);
    ghost var c := LayoutOf(fs);
    if r != Ok {
      PageTaken(a, DATA_SIZE, c, r, r);
      end := if r == ErrFull then Complete else Torn;
      return;
    }
    end := Complete;
    if !PassesForHeader(work) {
      r := ErrCheck;
      return;
    }
    ghost var fds1, cat1 := fs.fds, fs.cat;
    AfterCollection(old(fs.fds), fs, f, id, old(FilesOf(fs)));
    r, end := StoreAsHeader(fs, f, id, work);
    PageTaken(a, DATA_SIZE, c, Ok, r);
    if IsIndexImage(cat1, work) {
      StillIndexImage(cat1, fs.cat, work);
    }
    if end.Complete? {
      FdsKeptChain(old(fs.fds), fds1, fs.fds);
    }
  }

  lemma NeededForPage()
    ensures NeededPages(DATA_SIZE) >= 1
  {
    DivUnique(2 * DATA_SIZE - 1, DATA_SIZE, 1, DATA_SIZE - 1);
  }

  /** Stores a page that looks like a header as the header of the object. */
  method StoreAsHeader(fs: Spiffs, f: nat, id: nat, work: Page) returns (r: Status, end: Ending)
    requires Mounted(fs) && OpenOn(fs, f, id) && PassesForHeader(work)
    modifies fs`lu, fs`pg, fs`flash, fs`trace, fs`freeBlocks, fs`eraseCount, fs`maxEraseCount, fs`pDeleted,
             fs`freeBlock, fs`freeEntry, fs`pAllocated, fs`fds, fs`cat
    ensures fs.LookupOk() && r == (if old(fs.Space()).CanTake() then Ok else ErrFull)
    ensures end.Complete? || (end.StaleHeader? && r == Ok)
    ensures end.StaleHeader? ==> forall cat :: !(Holds(fs.lu, fs.pg, cat) && Files(fs.pg, cat) == old(FilesOf(fs)))
    ensures end.Complete? ==> Mounted(fs) && FdsKept(old(fs.fds), fs.fds) && FilesOf(fs) == old(FilesOf(fs))
    ensures id in fs.cat && SameContents(old(fs.cat), fs.cat)
    ensures r == Ok ==> (end.Complete? <==> work == IndexImage(id, fs.cat[id], 0))
    ensures r != Ok ==> fs.freeBlocks < 2
  {
    hide FlashState, LookupState, FdsPagesOk, FdsSizesOk, FdsKept, Tight, Holds, EventOnFd, EventOnFds, Table;
    FdsKeptSelf(fs.fds);
    end := Complete;
    ghost var lu1, pg1, fds1, files := fs.lu, fs.pg, fs.fds, FilesOf(fs);
    var h := HeaderSlot(fs, f, id);
    var same, d := work == fs.pg[h], 0;
    r, d := fs.UpdateIndexHdr(id, h, Some(work), None);
    if r != Ok {
      WipeStep(lu1, pg1, fs.cat, fs.lu, fs.pg);
      return;
    }
    if same {
      assert pg1[h := work] == pg1;
      assert IndexMoved(lu1, pg1, fs.lu, fs.pg, id, fs.cat[id], 0, d);
      IndexMoveStep(lu1, pg1, fs.cat, fds1, fs.lu, fs.pg, id, 0, d, IxUpdated, Some(work.size));
      fs.cat := fs.cat[id := fs.cat[id].(ixs := fs.cat[id].ixs[0 := d])];
    } else {
      end := StaleHeader;
      forall cat ensures !(Holds(fs.lu, fs.pg, cat) && Files(fs.pg, cat) == files) {
        if Holds(fs.lu, fs.pg, cat) && Files(fs.pg, cat) == Files(pg1, fs.cat) {
          HeaderReplaced(lu1, pg1, fs.cat, fs.lu, fs.pg, cat, id, d);
        }
      }
    }
  }

  /** The header page of an object is where its descriptors say. */
  method HeaderSlot(fs: Spiffs, f: nat, id: nat) returns (h: nat)
    requires Mounted(fs) && f < |fs.fds| && OpenOn(fs, f, id)
    ensures h < SLOTS && |fs.cat[id].ixs| > 0 && h == fs.cat[id].ixs[0] && fs.lu[h] == Used(id, true)
    ensures fs.pg[h] == IndexImage(id, fs.cat[id], 0)
  {
    hide FlashState, LookupState;
    assert FdPagesOk(fs.fds[f], fs.cat);
    FileOf(fs.lu, fs.pg, fs.cat, id);
    assert IndexOk(fs.lu, fs.pg, id, fs.cat[id], 0);
    h := fs.fds[f].hdr;
  }

  /** The header of another object in the work buffer is such a page. */
  lemma OtherHeader(lu: seq<Entry>, pg: seq<Page>, cat: Catalogue, id: nat, other: nat)
    requires Holds(lu, pg, cat) && id in cat && other in cat && other != id && |cat[other].ixs| > 0
    ensures cat[other].ixs[0] < SLOTS && PassesForHeader(pg[cat[other].ixs[0]])
    ensures pg[cat[other].ixs[0]] != IndexImage(id, cat[id], 0)
  {
    FileOf(lu, pg, cat, other);
    assert IndexOk(lu, pg, other, cat[other], 0);
  }
}

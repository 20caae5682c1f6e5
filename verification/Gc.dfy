/** The garbage collector: it moves every page that is in use out of a block, which
    can then be erased, and no file changes. */
module Gc {
  import opened Geometry
  import opened Image
  import opened Steps
  import opened Lookup
  import opened Volume
  import opened Nucleus
  import opened Candidates

  /** Moving a data page with its bytes unchanged, and the reference to it in the
      work buffer that stands for index page `x`, changes no file. */
  lemma MoveDataStep(lu: seq<Entry>, pg: seq<Page>, cat: Catalogue, lu': seq<Entry>, pg': seq<Page>,
                     id: nat, x: nat, work: Page, work': Page, j: nat, d: nat)
    requires Sizes(lu, pg) && Sizes(lu', pg') && x < SLOTS
    requires Holds(lu, pg[x := work], cat) && id in cat && j < |cat[id].data|
    requires IxSpan(j) < |cat[id].ixs| && cat[id].ixs[IxSpan(j)] == x
    requires var s := cat[id].data[j];
             && s < SLOTS && d < SLOTS && d != s && !lu[d].Used?
             && KeptBut(lu, pg, lu', pg', {d, s})
             && lu'[d] == Used(id, false) && pg'[d] == pg[s] && lu'[s] == Deleted
    requires work.IndexPage? && IxEntry(j) < |work.table|
    requires work' == work.(table := work.table[IxEntry(j) := At(d)])
    ensures Holds(lu', pg'[x := work'], cat[id := cat[id].(data := cat[id].data[j := d])])
    ensures Files(pg'[x := work'], cat[id := cat[id].(data := cat[id].data[j := d])]) == Files(pg[x := work], cat)
  {
    hide DataMoved, Holds, PageReplaced, KeptBut;
    var f, v, v' := cat[id], pg[x := work], pg'[x := work'];
    MoveIsReplacement(lu, pg, cat, lu', pg', id, x, work, work', j, d);
    var bytes := v[f.data[j]].bytes;
    ReplaceData(lu, v, cat, lu', v', id, j, d, bytes);
    SameBytes(lu, v, cat, id, j, View(v', f.(data := f.data[j := d])).bytes);
  }

  /** A moved data page is a data page replaced by one with the same bytes. */
  lemma MoveIsReplacement(lu: seq<Entry>, pg: seq<Page>, cat: Catalogue, lu': seq<Entry>, pg': seq<Page>,
                          id: nat, x: nat, work: Page, work': Page, j: nat, d: nat)
    requires Sizes(lu, pg) && Sizes(lu', pg') && x < SLOTS
    requires Holds(lu, pg[x := work], cat) && id in cat && j < |cat[id].data|
    requires IxSpan(j) < |cat[id].ixs| && cat[id].ixs[IxSpan(j)] == x
    requires var s := cat[id].data[j];
             && s < SLOTS && d < SLOTS && d != s && !lu[d].Used?
             && KeptBut(lu, pg, lu', pg', {d, s})
             && lu'[d] == Used(id, false) && pg'[d] == pg[s] && lu'[s] == Deleted
    requires work.IndexPage? && IxEntry(j) < |work.table|
    requires work' == work.(table := work.table[IxEntry(j) := At(d)])
    ensures pg[x := work][cat[id].data[j]].DataPage?
    ensures DataMoved(lu, pg[x := work], lu', pg'[x := work'], id, cat[id], j, d, pg[x := work][cat[id].data[j]].bytes)
  {
    hide Files;
    var f := cat[id];
    var s := f.data[j];
    var v, v' := pg[x := work], pg'[x := work'];
    assert FileOk(lu, v, id, f);
    IndexOfPage(lu, v, id, f, j);
    assert DataOk(lu, v, id, f, j);
    forall t: nat | t < SLOTS && t !in {s, d, x} ensures Kept(lu, v, lu', v', t) {
      assert Kept(lu, pg, lu', pg', t);
    }
    assert Kept(lu, pg, lu', pg', x);
    forall o: nat | o < DATA_SIZE && Length(f.size) <= Start(j) + o ensures v[s].bytes[o] == ERASED_BYTE {
      BytePlace(j, o);
      TimesMono(j, |f.data|, DATA_SIZE);
      assert ByteAt(v, f, Start(j) + o) == ERASED_BYTE;
    }
  }

  /** With the bytes of its data page `j` replaced by themselves a file is as before. */
  lemma SameBytes(lu: seq<Entry>, pg: seq<Page>, cat: Catalogue, id: nat, j: nat, after: seq<byte>)
    requires Holds(lu, pg, cat) && id in cat && j < |cat[id].data| && cat[id].data[j] < |pg| && pg[cat[id].data[j]].DataPage?
    requires PageReplaced(View(pg, cat[id]).bytes, after, j, pg[cat[id].data[j]].bytes)
    ensures after == View(pg, cat[id]).bytes
  {
  }

  /** The page in slot `s` is a data page of object `id` that index page `k` refers to. */
  predicate IsDataOf(lu: seq<Entry>, pg: seq<Page>, s: nat, id: nat, k: nat)
  {
    s < |lu| && s < |pg| && lu[s] == Used(id, false) && pg[s].DataPage? && IxSpan(pg[s].hdr.span) == k
  }

  /** Of the first `e` entries of block `b`, none is free and the only data pages
      among them belong to index page `k` of `id`. */
  ghost predicate OnlyDataOf(lu: seq<Entry>, pg: seq<Page>, b: nat, e: nat, id: nat, k: nat)
  {
    forall t: nat {:trigger lu[t]} :: Base(b) <= t < Base(b) + e && t < |lu| ==>
      !lu[t].Free? && (lu[t].Used? && !lu[t].ix ==> IsDataOf(lu, pg, t, id, k))
  }

  ghost predicate NoDataOf(lu: seq<Entry>, pg: seq<Page>, b: nat, e: nat, id: nat, k: nat)
  {
    forall t: nat :: Base(b) <= t < Base(b) + e ==> !IsDataOf(lu, pg, t, id, k)
  }

  ghost predicate NoData(lu: seq<Entry>, b: nat, e: nat)
  {
    forall t: nat {:trigger lu[t]} :: Base(b) <= t < Base(b) + e && t < |lu| ==> !(lu[t].Used? && !lu[t].ix)
  }

  ghost predicate NoneUsed(lu: seq<Entry>, b: nat, e: nat)
  {
    forall t: nat {:trigger lu[t]} :: Base(b) <= t < Base(b) + e && t < |lu| ==> !lu[t].Used?
  }

  /** What was taken is still taken. */
  ghost predicate StillTaken(lu0: seq<Entry>, lu: seq<Entry>)
  {
    |lu| == |lu0| && forall t: nat :: t < |lu0| && !lu0[t].Free? ==> !lu[t].Free?
  }

  // ---------------------------------------------------------------------------
  // What cleaning a block takes

  predicate InBlockOf(b: nat, s: nat)
  {
    Base(b) <= s < Base(b) + ENTRIES
  }

  /** An index page refers to a page in block `b`. */
  predicate RefersInto(p: Page, b: nat)
  {
    p.IndexPage? && exists e :: 0 <= e < |p.table| && p.table[e].At? && InBlockOf(b, p.table[e].slot)
  }

  /** The index pages outside block `b` that refer to a page in it: each of them must be
      written anew when the block is cleaned. */
  function Referring(lu: seq<Entry>, pg: seq<Page>, b: nat): (s: set<nat>)
  {
    set t: nat | t < |lu| && t < |pg| && !InBlockOf(b, t) && lu[t].Used? && lu[t].ix && RefersInto(pg[t], b)
  }

  /** The deleted pages outside block `b`. */
  function DeadOutside(lu: seq<Entry>, b: nat): (s: set<nat>)
  {
    set t: nat | t < |lu| && lu[t].Deleted? && !InBlockOf(b, t)
  }

  function KindIn(lu: seq<Entry>, b: nat, k: Kind): (n: nat)
    requires |lu| == SLOTS && b < BLOCKS
  {
    Count(BlockEntries(lu, b), k)
  }

  /** The free pages outside block `b` that would be left if every page in use in it, and
      every index page that refers to one of them, were written to one; less than nothing
      if they are too few. */
  function Margin(lu: seq<Entry>, pg: seq<Page>, b: nat): (n: int)
    requires |lu| == SLOTS && b < BLOCKS
  {
    Count(lu, IsFree) - KindIn(lu, b, IsFree) - KindIn(lu, b, IsUsed) - |Referring(lu, pg, b)|
  }

  /** What a cleaning of a block does not change: its margin, and the pages outside the block
      that are deleted or will be. */
  datatype Account = Account(margin: int, dead: set<nat>, nDead: int)

  function AccountOf(lu: seq<Entry>, pg: seq<Page>, b: nat): Account
    requires |lu| == SLOTS && b < BLOCKS
  {
    Account(Margin(lu, pg, b), DeadOutside(lu, b) + Referring(lu, pg, b),
            Count(lu, IsDeleted) - KindIn(lu, b, IsDeleted) + |Referring(lu, pg, b)|)
  }

  /** Of the pages outside block `b` just the index pages that referred to it have been deleted. */
  ghost predicate MovedOut(lu0: seq<Entry>, pg0: seq<Page>, lu: seq<Entry>, b: nat)
    requires |lu0| == |lu| == SLOTS && b < BLOCKS
  {
    && DeadOutside(lu, b) == DeadOutside(lu0, b) + Referring(lu0, pg0, b)
    && Count(lu, IsDeleted) - KindIn(lu, b, IsDeleted) == Count(lu0, IsDeleted) - KindIn(lu0, b, IsDeleted) + |Referring(lu0, pg0, b)|
  }

  /** A page that a cleaning of block `b` writes to a new place: one in the block, or an
      index page that refers to one in it. */
  predicate ToMove(lu: seq<Entry>, pg: seq<Page>, b: nat, s: nat)
  {
    s < |lu| && lu[s].Used? && (InBlockOf(b, s) || s in Referring(lu, pg, b))
  }

  lemma KindInUpdate(lu: seq<Entry>, b: nat, i: nat, e: Entry, k: Kind)
    requires |lu| == SLOTS && b < BLOCKS && i < SLOTS
    ensures KindIn(lu[i := e], b, k) ==
            KindIn(lu, b, k) + if InBlockOf(b, i) then (if KindOf(e) == k then 1 else 0) - (if KindOf(lu[i]) == k then 1 else 0) else 0
  {
    TimesMono(b, BLOCKS, ENTRIES);
    if InBlockOf(b, i) {
      CountUpdate(BlockEntries(lu, b), i - Base(b), e, k);
      assert BlockEntries(lu[i := e], b) == BlockEntries(lu, b)[i - Base(b) := e];
    } else {
      assert BlockEntries(lu[i := e], b) == BlockEntries(lu, b);
    }
  }

  /** What a move does to the number of pages of one kind outside a block. */
  lemma MoveCounts(lu: seq<Entry>, b: nat, d: nat, s: nat, e: Entry, k: Kind)
    requires |lu| == SLOTS && b < BLOCKS && d < SLOTS && s < SLOTS && d != s
    ensures var lu' := lu[d := e][s := Deleted];
            Count(lu', k) - KindIn(lu', b, k) == Count(lu, k) - KindIn(lu, b, k)
              + (if InBlockOf(b, d) then 0 else (if KindOf(e) == k then 1 else 0) - (if KindOf(lu[d]) == k then 1 else 0))
              + (if InBlockOf(b, s) then 0 else (if IsDeleted == k then 1 else 0) - (if KindOf(lu[s]) == k then 1 else 0))
    ensures var lu' := lu[d := e][s := Deleted];
            KindIn(lu', b, k) == KindIn(lu, b, k)
              + (if InBlockOf(b, d) then (if KindOf(e) == k then 1 else 0) - (if KindOf(lu[d]) == k then 1 else 0) else 0)
              + (if InBlockOf(b, s) then (if IsDeleted == k then 1 else 0) - (if KindOf(lu[s]) == k then 1 else 0) else 0)
  {
    hide KindIn, Count;
    CountUpdate(lu, d, e, k);
    CountUpdate(lu[d := e], s, Deleted, k);
    KindInUpdate(lu, b, d, e, k);
    KindInUpdate(lu[d := e], b, s, Deleted, k);
  }

  /** The index pages that refer to a block, after one page has been moved. */
  lemma MoveReferring(lu: seq<Entry>, pg: seq<Page>, lu': seq<Entry>, pg': seq<Page>, b: nat, d: nat, s: nat, e: Entry)
    requires Sizes(lu, pg) && Sizes(lu', pg') && d < SLOTS && s < SLOTS && d != s
    requires lu[d].Free? && ToMove(lu, pg, b, s) && e.Used? && lu' == lu[d := e][s := Deleted]
    requires KeptBut(lu, pg, lu', pg', {d, s}) && (e.ix ==> !RefersInto(pg'[d], b))
    ensures Referring(lu', pg', b) == Referring(lu, pg, b) - {s}
    ensures DeadOutside(lu', b) == DeadOutside(lu, b) + if InBlockOf(b, s) then {} else {s}
  {
    hide RefersInto;
    forall t: nat | t < SLOTS && t !in {d, s} ensures lu'[t] == lu[t] && (lu[t].Used? ==> pg'[t] == pg[t]) {
      assert Kept(lu, pg, lu', pg', t);
    }
  }

  /** A move leaves the account of the block as it was. */
  lemma MoveAccount(lu: seq<Entry>, pg: seq<Page>, lu': seq<Entry>, pg': seq<Page>, b: nat, d: nat, s: nat, e: Entry)
    requires Sizes(lu, pg) && Sizes(lu', pg') && b < BLOCKS && d < SLOTS && s < SLOTS && d != s
    requires lu[d].Free? && ToMove(lu, pg, b, s) && e.Used? && lu' == lu[d := e][s := Deleted]
    requires KeptBut(lu, pg, lu', pg', {d, s}) && (e.ix ==> !RefersInto(pg'[d], b))
    ensures AccountOf(lu', pg', b) == AccountOf(lu, pg, b)
  {
    hide ToMove, Referring, DeadOutside, KindIn, Count, RefersInto, KeptBut, InBlockOf;
    MoveReferring(lu, pg, lu', pg', b, d, s, e);
    WhereToMove(lu, pg, b, s);
    OneLessReferring(Referring(lu, pg, b), Referring(lu', pg', b), s);
    MoveKinds(lu, b, d, s, e);
    SameDead(DeadOutside(lu, b), DeadOutside(lu', b), Referring(lu, pg, b), Referring(lu', pg', b), s);
  }

  lemma WhereToMove(lu: seq<Entry>, pg: seq<Page>, b: nat, s: nat)
    requires ToMove(lu, pg, b, s)
    ensures lu[s].Used? && (s in Referring(lu, pg, b) <==> !InBlockOf(b, s))
  {
  }

  lemma SameDead(dead: set<nat>, dead': set<nat>, before: set<nat>, after: set<nat>, s: nat)
    requires after == before - {s} && dead' == dead + if s in before then {s} else {}
    ensures dead' + after == dead + before
  {
  }

  lemma OneLessReferring(before: set<nat>, after: set<nat>, s: nat)
    requires after == before - {s}
    ensures |before| == |after| + if s in before then 1 else 0
  {
    if s in before {
      assert before == after + {s};
    } else {
      assert before == after;
    }
  }

  lemma MoveKinds(lu: seq<Entry>, b: nat, d: nat, s: nat, e: Entry)
    requires |lu| == SLOTS && b < BLOCKS && d < SLOTS && s < SLOTS && d != s
    requires lu[d].Free? && lu[s].Used? && e.Used?
    ensures var lu' := lu[d := e][s := Deleted];
            && Count(lu', IsFree) - KindIn(lu', b, IsFree) - KindIn(lu', b, IsUsed)
               == Count(lu, IsFree) - KindIn(lu, b, IsFree) - KindIn(lu, b, IsUsed) - (if InBlockOf(b, s) then 0 else 1)
            && Count(lu', IsDeleted) - KindIn(lu', b, IsDeleted)
               == Count(lu, IsDeleted) - KindIn(lu, b, IsDeleted) + (if InBlockOf(b, s) then 0 else 1)
  {
    hide KindIn, Count, InBlockOf;
    MoveCounts(lu, b, d, s, e, IsFree);
    MoveCounts(lu, b, d, s, e, IsUsed);
    MoveCounts(lu, b, d, s, e, IsDeleted);
  }

  lemma UsedInBlock(lu: seq<Entry>, b: nat, s: nat)
    requires |lu| == SLOTS && b < BLOCKS && s < SLOTS && InBlockOf(b, s)
    ensures lu[s].Used? ==> KindIn(lu, b, IsUsed) > 0
  {
    TimesMono(b, BLOCKS, ENTRIES);
    assert BlockEntries(lu, b)[s - Base(b)] == lu[s];
    if Count(BlockEntries(lu, b), IsUsed) == 0 {
      NoneCounted(BlockEntries(lu, b), IsUsed);
    }
  }

  /** If no page is free while one must still be moved, the pages outside the block were too few. */
  lemma NoMargin(lu: seq<Entry>, pg: seq<Page>, b: nat, s: nat)
    requires Sizes(lu, pg) && b < BLOCKS && NoneFree(lu) && ToMove(lu, pg, b, s)
    ensures Margin(lu, pg, b) < 0
  {
    TimesMono(b, BLOCKS, ENTRIES);
    CountNone(lu, IsFree);
    if InBlockOf(b, s) {
      UsedInBlock(lu, b, s);
    } else {
      assert s in Referring(lu, pg, b);
    }
  }

  /** An index page of a consistent image refers to data pages of its own. */
  lemma ReferenceIsData(lu: seq<Entry>, pg: seq<Page>, cat: Catalogue, id: nat, k: nat, e: nat)
    requires Holds(lu, pg, cat) && id in cat && k < |cat[id].ixs| && cat[id].ixs[k] < |pg|
    requires var p := pg[cat[id].ixs[k]]; p.IndexPage? && e < |p.table| && p.table[e].At?
    ensures IsDataOf(lu, pg, pg[cat[id].ixs[k]].table[e].slot, id, k)
  {
    var f := cat[id];
    assert FileOk(lu, pg, id, f);
    assert IndexOk(lu, pg, id, f, k);
    var j := FirstRef(k) + e;
    assert Table(f.data, k)[e] == At(f.data[j]);
    assert DataOk(lu, pg, id, f, j);
    IndexPlaceUnique(k, e);
  }

  /** The index page of a data page in block `b` is to be moved with it. */
  lemma IndexToMove(lu: seq<Entry>, pg: seq<Page>, cat: Catalogue, b: nat, s: nat, id: nat, k: nat)
    requires Holds(lu, pg, cat) && IsDataOf(lu, pg, s, id, k) && InBlockOf(b, s)
    requires id in cat && k < |cat[id].ixs|
    ensures ToMove(lu, pg, b, cat[id].ixs[k])
  {
    var f := cat[id];
    assert SlotOk(lu, pg, cat, s);
    assert FileOk(lu, pg, id, f);
    IndexOfPage(lu, pg, id, f, pg[s].hdr.span);
    assert pg[f.ixs[k]].table[IxEntry(pg[s].hdr.span)] == At(s);
  }

  /** An index page without data pages in block `b` does not refer to it. */
  lemma RefersElsewhere(lu: seq<Entry>, pg: seq<Page>, cat: Catalogue, b: nat, id: nat, k: nat, x: nat, work: Page)
    requires x < |pg| && Holds(lu, pg[x := work], cat) && NoDataOf(lu, pg, b, ENTRIES, id, k)
    requires id in cat && k < |cat[id].ixs| && cat[id].ixs[k] == x
    ensures work.IndexPage? && !RefersInto(work, b)
  {
    var v := pg[x := work];
    assert FileOk(lu, v, id, cat[id]);
    assert IndexOk(lu, v, id, cat[id], k);
    forall e: nat | e < |work.table| && work.table[e].At? ensures !InBlockOf(b, work.table[e].slot) {
      ReferenceIsData(lu, v, cat, id, k, e);
      assert IsDataOf(lu, pg, work.table[e].slot, id, k);
    }
  }

  lemma PageRefersElsewhere(lu: seq<Entry>, pg: seq<Page>, cat: Catalogue, b: nat, id: nat, k: nat)
    requires Holds(lu, pg, cat) && NoData(lu, b, ENTRIES) && id in cat && k < |cat[id].ixs| && cat[id].ixs[k] < |pg|
    ensures !RefersInto(pg[cat[id].ixs[k]], b)
  {
    var x := cat[id].ixs[k];
    assert pg[x := pg[x]] == pg;
    NoDataMeansNone(lu, pg, b, id, k);
    RefersElsewhere(lu, pg, cat, b, id, k, x, pg[x]);
  }

  lemma NoDataMeansNone(lu: seq<Entry>, pg: seq<Page>, b: nat, id: nat, k: nat)
    requires NoData(lu, b, ENTRIES)
    ensures NoDataOf(lu, pg, b, ENTRIES, id, k)
  {
  }

  /** With nothing in use in block `b` the account is settled. */
  lemma AccountSettled(lu: seq<Entry>, pg: seq<Page>, cat: Catalogue, b: nat)
    requires Holds(lu, pg, cat) && b < BLOCKS && NoneUsed(lu, b, ENTRIES)
    ensures Referring(lu, pg, b) == {} && KindIn(lu, b, IsUsed) == 0 && Margin(lu, pg, b) >= 0
  {
    TimesMono(b, BLOCKS, ENTRIES);
    CountNone(BlockEntries(lu, b), IsUsed);
    BlockCount(lu, b, IsFree);
    forall t: nat | t < SLOTS && lu[t].Used? && lu[t].ix ensures !RefersInto(pg[t], b) {
      var id := lu[t].id;
      assert SlotOk(lu, pg, cat, t);
      assert FileOk(lu, pg, id, cat[id]);
      assert IndexOk(lu, pg, id, cat[id], pg[t].hdr.span);
      forall e: nat | e < |pg[t].table| && pg[t].table[e].At? ensures !InBlockOf(b, pg[t].table[e].slot) {
        ReferenceIsData(lu, pg, cat, id, pg[t].hdr.span, e);
      }
    }
  }

  lemma SameMargin(lu: seq<Entry>, pg: seq<Page>, lu0: seq<Entry>, pg0: seq<Page>, b: nat)
    requires |lu| == |lu0| == SLOTS && b < BLOCKS && AccountOf(lu, pg, b) == AccountOf(lu0, pg0, b)
    ensures Margin(lu, pg, b) == Margin(lu0, pg0, b)
  {
  }

  lemma AccountAtEnd(fs: Spiffs, files: map<nat, FileView>, lu0: seq<Entry>, pg0: seq<Page>, b: nat)
    requires Steady(fs, files) && Sizes(fs.lu, fs.pg) && |lu0| == SLOTS && b < BLOCKS
    requires AccountOf(fs.lu, fs.pg, b) == AccountOf(lu0, pg0, b) && NoneUsed(fs.lu, b, ENTRIES)
    ensures MovedOut(lu0, pg0, fs.lu, b) && Margin(lu0, pg0, b) >= 0
  {
    AccountSettled(fs.lu, fs.pg, fs.cat, b);
    hide Referring, DeadOutside, KindIn, Count;
  }

  lemma TakenChain(a: seq<Entry>, b: seq<Entry>, c: seq<Entry>)
    ensures StillTaken(a, a) && (StillTaken(a, b) && StillTaken(b, c) ==> StillTaken(a, c))
  {
  }

  /** If the free cursor is in block `b`, the page written last is there. */
  ghost predicate CursorAway(fs: Spiffs, b: nat)
    reads fs`lu, fs`freeBlock, fs`freeEntry
  {
    fs.freeBlock == b ==>
      fs.freeEntry > 0 && Base(b) + fs.freeEntry <= |fs.lu| && fs.lu[Base(b) + fs.freeEntry - 1].Used?
  }

  /** With the page `work` in slot `x` the image is consistent and holds these files. */
  ghost predicate HoldsWith(fs: Spiffs, x: nat, work: Page, files: map<nat, FileView>)
    reads fs`lu, fs`pg, fs`cat
  {
    x < |fs.pg| && Holds(fs.lu, fs.pg[x := work], fs.cat) && Files(fs.pg[x := work], fs.cat) == files
  }

  /** One index page is out of date in flash; with another page in its place the image is
      consistent and holds these files. */
  ghost predicate Behind(fs: Spiffs, files: map<nat, FileView>)
    reads fs`lu, fs`pg, fs`cat
  {
    exists x: nat, work: Page :: HoldsWith(fs, x, work, files)
  }

  lemma SteadyIsBehind(fs: Spiffs, files: map<nat, FileView>)
    requires Steady(fs, files)
    ensures Behind(fs, files)
  {
    TimesMono(0, BLOCKS, ENTRIES);
    assert fs.pg[0 := fs.pg[0]] == fs.pg;
    assert HoldsWith(fs, 0, fs.pg[0], files);
  }

  /** The page is what an index page of some file must contain. */
  ghost predicate IsIndexImage(cat: Catalogue, p: Page)
  {
    exists id, k: nat :: id in cat && k < |cat[id].ixs| && p == IndexImage(id, cat[id], k)
  }

  lemma StillIndexImage(cat0: Catalogue, cat: Catalogue, p: Page)
    requires IsIndexImage(cat0, p) && SameContents(cat0, cat)
    ensures IsIndexImage(cat, p)
  {
    var id, k: nat :| id in cat0 && k < |cat0[id].ixs| && p == IndexImage(id, cat0[id], k);
    assert p == IndexImage(id, cat[id], k);
  }

  /** Moves one data page whose reference is in the work buffer. */
  method MoveDataPage(fs: Spiffs, id: nat, k: nat, x: nat, work: Page, s: nat) returns (r: Status, newWork: Page, d: nat)
    requires fs.LookupOk() && fs.cleaning && x < SLOTS && s < SLOTS
    requires Holds(fs.lu, fs.pg[x := work], fs.cat)
    requires id in fs.cat && k < |fs.cat[id].ixs| && fs.cat[id].ixs[k] == x
    requires IsDataOf(fs.lu, fs.pg, s, id, k)
    modifies fs`lu, fs`pg, fs`flash, fs`trace, fs`freeBlocks, fs`eraseCount, fs`maxEraseCount, fs`pDeleted,
             fs`freeBlock, fs`freeEntry, fs`pAllocated, fs`cat
    ensures r != Ok ==> r == ErrNotFound && NoneFree(fs.lu) && newWork == work && fs.lu == old(fs.lu) && fs.pg == old(fs.pg) && fs.cat == old(fs.cat)
    ensures fs.LookupOk()
    ensures r == Ok ==>
              && Holds(fs.lu, fs.pg[x := newWork], fs.cat)
              && Files(fs.pg[x := newWork], fs.cat) == Files(old(fs.pg)[x := work], old(fs.cat))
              && SameIndexes(old(fs.cat), fs.cat)
              && d < SLOTS && old(fs.lu)[d].Free? && fs.lu == old(fs.lu)[d := Used(id, false)][s := Deleted]
              && KeptBut(old(fs.lu), old(fs.pg), fs.lu, fs.pg, {d, s})
              && fs.freeBlock == BlockOf(d) && fs.freeEntry == EntryOf(d) + 1
    ensures fs.Ages() == old(fs.Ages())
  {
    hide FlashState, Counted, FreeSuffix, CursorOk, TakenBefore;
    newWork := work;
    ghost var v := fs.pg[x := work];
    assert FileOk(fs.lu, v, id, fs.cat[id]);
    assert IndexOk(fs.lu, v, id, fs.cat[id], k);
    assert SlotOk(fs.lu, v, fs.cat, s);
    var j := fs.pg[s].hdr.span;
    IndexPlace(j);
    r, d := fs.PageMove(None, id, false, s);
    if r != Ok {
      return;
    }
    newWork := work.(table := work.table[IxEntry(j) := At(d)]);
    MoveDataStep(old(fs.lu), old(fs.pg), fs.cat, fs.lu, fs.pg, id, x, work, newWork, j, d);
    fs.cat := fs.cat[id := fs.cat[id].(data := fs.cat[id].data[j := d])];
  }

  /** What a move from slot `s` to the free slot `d` does to a scan of block `b`
      that has reached `s`: the new page lands after it. */
  lemma MoveDuringScan(lu: seq<Entry>, pg: seq<Page>, lu': seq<Entry>, pg': seq<Page>,
                       b: nat, s: nat, d: nat, moved: Entry)
    requires Sizes(lu, pg) && Sizes(lu', pg') && FreeSuffix(lu) && b < BLOCKS
    requires Base(b) <= s < Base(b) + ENTRIES && s < SLOTS && lu[s].Used?
    requires d < SLOTS && lu[d].Free? && lu' == lu[d := moved][s := Deleted] && KeptBut(lu, pg, lu', pg', {d, s})
    ensures d < Base(b) || d > s
    ensures Base(b) <= d < Base(b) + ENTRIES ==> d > s
    ensures forall t: nat :: t < SLOTS && t != d && t != s ==> lu'[t] == lu[t] && (lu[t].Used? ==> pg'[t] == pg[t])
    ensures forall t: nat, i: nat, k: nat ::
              t != d && IsDataOf(lu', pg', t, i, k) ==> t != s && IsDataOf(lu, pg, t, i, k)
  {
    if Base(b) <= d < s {
      InBlock(b, d);
      InBlock(b, s);
    }
    forall t: nat | t < SLOTS && t != d && t != s ensures lu'[t] == lu[t] && (lu[t].Used? ==> pg'[t] == pg[t]) {
      assert Kept(lu, pg, lu', pg', t);
    }
  }

  lemma UsedCountAfterMove(lu: seq<Entry>, d: nat, s: nat, e: Entry)
    requires d < |lu| && s < |lu| && d != s && lu[d].Free? && lu[s].Used? && e.Used?
    ensures Count(lu[d := e][s := Deleted], IsUsed) == Count(lu, IsUsed)
  {
    CountUpdate(lu, d, e, IsUsed);
    CountUpdate(lu[d := e], s, Deleted, IsUsed);
  }

  /** Moving the data page of lookup entry `e` of block `b` out of its place. */
  lemma DataEntryMoved(lu: seq<Entry>, pg: seq<Page>, lu': seq<Entry>, pg': seq<Page>, b: nat, e: nat, d: nat, id: nat, k: nat,
                       stored: nat, x: nat)
    requires Sizes(lu, pg) && Sizes(lu', pg') && FreeSuffix(lu) && b < BLOCKS && e < ENTRIES && Base(b) + e < SLOTS
    requires var s := Base(b) + e;
             && lu[s] == Used(id, false) && d < SLOTS && lu[d].Free? && lu' == lu[d := Used(id, false)][s := Deleted]
             && KeptBut(lu, pg, lu', pg', {d, s})
    requires NoDataOf(lu, pg, b, e, id, k) && OnlyDataOf(lu, pg, b, stored, id, k) && ToMove(lu, pg, b, x) && lu[x].ix
    requires stored <= ENTRIES
    ensures NoDataOf(lu', pg', b, e + 1, id, k) && OnlyDataOf(lu', pg', b, stored, id, k) && ToMove(lu', pg', b, x)
    ensures Count(lu', IsUsed) == Count(lu, IsUsed) && StillTaken(lu, lu')
    ensures BlockOf(d) == b ==> Base(b) + EntryOf(d) + 1 <= SLOTS && lu'[Base(b) + EntryOf(d) + 1 - 1].Used?
    ensures AccountOf(lu', pg', b) == AccountOf(lu, pg, b)
  {
    hide AccountOf, Count, FreeSuffix, RefersInto;
    var s := Base(b) + e;
    MoveDuringScan(lu, pg, lu', pg', b, s, d, Used(id, false));
    MoveSummary(lu, lu', b, d, s, Used(id, false));
    MoveAccount(lu, pg, lu', pg', b, d, s, Used(id, false));
    MoveReferring(lu, pg, lu', pg', b, d, s, Used(id, false));
  }

  lemma NoMarginHere(lu: seq<Entry>, pg: seq<Page>, b: nat, s: nat)
    requires Sizes(lu, pg) && b < BLOCKS && NoneFree(lu) && s < SLOTS && lu[s].Used? && InBlockOf(b, s)
    ensures Margin(lu, pg, b) < 0
  {
    NoMargin(lu, pg, b, s);
  }

  /** Handles lookup entry `e` of block `b` while data pages of index page `k` of
      `id` are moved. */
  method MoveDataEntry(fs: Spiffs, b: nat, id: nat, k: nat, x: nat, page: Page, e: nat, ghost stored: nat)
    returns (r: Status, work: Page)
    requires fs.LookupOk() && fs.cleaning && b < BLOCKS && x < SLOTS && stored <= ENTRIES && e < ENTRIES
    requires Holds(fs.lu, fs.pg[x := page], fs.cat)
    requires id in fs.cat && k < |fs.cat[id].ixs| && fs.cat[id].ixs[k] == x
    requires OnlyDataOf(fs.lu, fs.pg, b, stored, id, k) && CursorAway(fs, b)
    requires NoDataOf(fs.lu, fs.pg, b, e, id, k) && ToMove(fs.lu, fs.pg, b, x)
    modifies fs`lu, fs`pg, fs`flash, fs`trace, fs`freeBlocks, fs`eraseCount, fs`maxEraseCount, fs`pDeleted,
             fs`freeBlock, fs`freeEntry, fs`pAllocated, fs`cat
    ensures r != Ok ==> r == ErrNotFound && NoneFree(fs.lu) && work == page && fs.lu == old(fs.lu) && fs.pg == old(fs.pg) && fs.cat == old(fs.cat)
    ensures fs.LookupOk()
    ensures r == Ok ==>
              && Holds(fs.lu, fs.pg[x := work], fs.cat)
              && Files(fs.pg[x := work], fs.cat) == Files(old(fs.pg)[x := page], old(fs.cat))
              && SameIndexes(old(fs.cat), fs.cat)
              && NoDataOf(fs.lu, fs.pg, b, e + 1, id, k) && OnlyDataOf(fs.lu, fs.pg, b, stored, id, k)
              && CursorAway(fs, b) && fs.pAllocated == old(fs.pAllocated) && StillTaken(old(fs.lu), fs.lu)
    ensures ToMove(fs.lu, fs.pg, b, x) && (r != Ok ==> Margin(fs.lu, fs.pg, b) < 0)
    ensures AccountOf(fs.lu, fs.pg, b) == old(AccountOf(fs.lu, fs.pg, b)) && fs.Ages() == old(fs.Ages())
  {
    hide FlashState, CursorOk, TakenBefore, Buried, AccountOf, Margin, ToMove;
    work, r := page, Ok;
    TimesMono(b, BLOCKS, ENTRIES);
    var s := Base(b) + e;
    if fs.lu[s] != Used(id, false) {
      return;
    }
    assert SlotOk(fs.lu, fs.pg[x := work], fs.cat, s);
    assert FileOk(fs.lu, fs.pg[x := work], id, fs.cat[id]);
    assert IndexOk(fs.lu, fs.pg[x := work], id, fs.cat[id], k);
    var hdr := fs.pg[s].hdr;
    if IxSpan(hdr.span) != k {
      return;
    }
    assert DataOk(fs.lu, fs.pg[x := work], id, fs.cat[id], hdr.span);
    if hdr.live {
      var d;
      r, work, d := MoveDataPage(fs, id, k, x, work, s);
      if r == Ok {
        DataEntryMoved(old(fs.lu), old(fs.pg), fs.lu, fs.pg, b, e, d, id, k, stored, x);
      } else {
        NoMarginHere(fs.lu, fs.pg, b, s);
      }
    } else {
      assert false;
    }
  }

  /** One pass over block `b`: every data page of index page `k` of `id` leaves the
      block, and the work buffer refers to the new places. */
  method MoveDataPass(fs: Spiffs, b: nat, id: nat, k: nat, x: nat, page: Page, ghost stored: nat)
    returns (r: Status, work: Page)
    requires fs.LookupOk() && fs.cleaning && b < BLOCKS && x < SLOTS && stored <= ENTRIES
    requires Holds(fs.lu, fs.pg[x := page], fs.cat)
    requires id in fs.cat && k < |fs.cat[id].ixs| && fs.cat[id].ixs[k] == x
    requires OnlyDataOf(fs.lu, fs.pg, b, stored, id, k) && CursorAway(fs, b) && ToMove(fs.lu, fs.pg, b, x)
    modifies fs`lu, fs`pg, fs`flash, fs`trace, fs`freeBlocks, fs`eraseCount, fs`maxEraseCount, fs`pDeleted,
             fs`freeBlock, fs`freeEntry, fs`pAllocated, fs`cat
    ensures r != Ok ==> r == ErrNotFound && NoneFree(fs.lu)
    ensures HoldsWith(fs, x, work, Files(old(fs.pg)[x := page], old(fs.cat)))
    ensures fs.LookupOk()
    ensures r == Ok ==>
              && SameIndexes(old(fs.cat), fs.cat)
              && NoDataOf(fs.lu, fs.pg, b, ENTRIES, id, k) && OnlyDataOf(fs.lu, fs.pg, b, stored, id, k)
              && CursorAway(fs, b) && fs.pAllocated == old(fs.pAllocated) && StillTaken(old(fs.lu), fs.lu)
    ensures ToMove(fs.lu, fs.pg, b, x) && (r != Ok ==> Margin(fs.lu, fs.pg, b) < 0)
    ensures AccountOf(fs.lu, fs.pg, b) == old(AccountOf(fs.lu, fs.pg, b)) && fs.Ages() == old(fs.Ages())
  {
    hide FlashState, LookupState, Holds, Files, AccountOf, Margin, ToMove, OnlyDataOf, CursorAway, NoneFree;
    work, r := page, Ok;
    var curEntry := 0;
    while curEntry < ENTRIES
      invariant curEntry <= ENTRIES && r == Ok && fs.LookupOk()
      invariant Holds(fs.lu, fs.pg[x := work], fs.cat)
      invariant Files(fs.pg[x := work], fs.cat) == Files(old(fs.pg)[x := page], old(fs.cat))
      invariant SameIndexes(old(fs.cat), fs.cat)
      invariant NoDataOf(fs.lu, fs.pg, b, curEntry, id, k)
      invariant OnlyDataOf(fs.lu, fs.pg, b, stored, id, k)
      invariant CursorAway(fs, b) && fs.pAllocated == old(fs.pAllocated) && StillTaken(old(fs.lu), fs.lu)
      invariant ToMove(fs.lu, fs.pg, b, x) && fs.Ages() == old(fs.Ages())
      invariant AccountOf(fs.lu, fs.pg, b) == old(AccountOf(fs.lu, fs.pg, b))
    {
      r, work := MoveDataEntry(fs, b, id, k, x, work, curEntry, stored);
      if r != Ok {
        return;
      }
      curEntry := curEntry + 1;
    }
  }

  /** What any move does to the lookup as a whole. */
  lemma MoveSummary(lu: seq<Entry>, lu': seq<Entry>, b: nat, d: nat, s: nat, e: Entry)
    requires |lu| == SLOTS && d < SLOTS && s < SLOTS && d != s && lu[d].Free? && lu[s].Used? && e.Used?
    requires lu' == lu[d := e][s := Deleted]
    ensures Count(lu', IsUsed) == Count(lu, IsUsed) && StillTaken(lu, lu')
    ensures BlockOf(d) == b ==> Base(b) + EntryOf(d) + 1 <= SLOTS && lu'[Base(b) + EntryOf(d) + 1 - 1].Used?
  {
    UsedCountAfterMove(lu, d, s, e);
  }

  /** Writes the work buffer, which stands for index page `k` of `id`, to a new page. */
  method StoreIndex(fs: Spiffs, id: nat, k: nat, x: nat, work: Page, ghost b: nat, ghost stored: nat) returns (r: Status)
    requires fs.LookupOk() && fs.cleaning && x < SLOTS && b < BLOCKS && stored <= ENTRIES
    requires Holds(fs.lu, fs.pg[x := work], fs.cat) && Tight(fs.cat)
    requires FdsPagesOk(fs.fds, fs.cat) && FdsSizesOk(fs.fds, fs.cat)
    requires id in fs.cat && k < |fs.cat[id].ixs| && fs.cat[id].ixs[k] == x
    requires NoData(fs.lu, b, stored) && !RefersInto(work, b) && ToMove(fs.lu, fs.pg, b, x)
    modifies fs`lu, fs`pg, fs`flash, fs`trace, fs`freeBlocks, fs`eraseCount, fs`maxEraseCount, fs`pDeleted,
             fs`freeBlock, fs`freeEntry, fs`pAllocated, fs`fds, fs`cat
    ensures r != Ok ==> r == ErrNotFound && NoneFree(fs.lu) && fs.lu == old(fs.lu) && fs.pg == old(fs.pg) && fs.cat == old(fs.cat)
    ensures fs.LookupOk()
    ensures r == Ok ==>
              && Steady(fs, Files(old(fs.pg)[x := work], old(fs.cat)))
              && NoData(fs.lu, b, stored)
              && CursorAway(fs, b) && fs.pAllocated == old(fs.pAllocated) && FdsKept(old(fs.fds), fs.fds) && StillTaken(old(fs.lu), fs.lu)
              && SameContents(old(fs.cat), fs.cat)
    ensures r != Ok ==> Margin(fs.lu, fs.pg, b) < 0
    ensures AccountOf(fs.lu, fs.pg, b) == old(AccountOf(fs.lu, fs.pg, b)) && fs.Ages() == old(fs.Ages())
  {
    hide AccountOf, Margin, ToMove, RefersInto, KeptBut, FlashState, CursorOk, TakenBefore, FreeSuffix, EventOnFd, StillTaken, Tight, FdsPagesOk, FdsSizesOk, FdsKept, NoneFree, Took, AnyDeletedBlock, Holds, Files, NoData, SameContents;
    ghost var v := fs.pg[x := work];
    BufferInPlace(fs.lu, v, fs.cat, id, k);
    var d;
    r, d := WriteIndex(fs, id, k, x, work);
    if r != Ok {
      NoMargin(fs.lu, fs.pg, b, x);
    } else {
      MoveAccount(old(fs.lu), old(fs.pg), fs.lu, fs.pg, b, d, x, Used(id, true));
      KeptUnderBuffer(old(fs.lu), old(fs.pg), fs.lu, fs.pg, d, x, work);
      assert {d, x} == {x, d};
      IndexMoveStep(old(fs.lu), v, fs.cat, old(fs.fds), fs.lu, fs.pg, id, k, d, IxUpdated, if k == 0 then Some(work.size) else None);
      MoveSummary(old(fs.lu), fs.lu, b, d, x, Used(id, true));
      StoredKeepsData(old(fs.lu), fs.lu, fs.cat, b, stored, d, x, id, k);
      fs.cat := fs.cat[id := fs.cat[id].(ixs := fs.cat[id].ixs[k := d])];
    }
  }

  /** The work buffer in its place is an index page. */
  lemma BufferInPlace(lu: seq<Entry>, v: seq<Page>, cat: Catalogue, id: nat, k: nat)
    requires Holds(lu, v, cat) && id in cat && k < |cat[id].ixs|
    ensures Sizes(lu, v) && cat[id].ixs[k] < SLOTS && lu[cat[id].ixs[k]].Used?
    ensures v[cat[id].ixs[k]] == IndexImage(id, cat[id], k)
  {
    assert FileOk(lu, v, id, cat[id]);
    assert IndexOk(lu, v, id, cat[id], k);
  }

  /** Storing an index page brings no data page into a block. */
  lemma StoredKeepsData(lu: seq<Entry>, lu': seq<Entry>, cat: Catalogue, b: nat, e: nat, d: nat, x: nat, id: nat, k: nat)
    requires d < |lu| && x < |lu| && lu' == lu[d := Used(id, true)][x := Deleted] && NoData(lu, b, e)
    requires id in cat && k < |cat[id].ixs|
    ensures NoData(lu', b, e) && SameContents(cat, cat[id := cat[id].(ixs := cat[id].ixs[k := d])])
  {
  }

  lemma KeptUnderBuffer(lu: seq<Entry>, pg: seq<Page>, lu': seq<Entry>, pg': seq<Page>, d: nat, x: nat, work: Page)
    requires Sizes(lu, pg) && Sizes(lu', pg') && x < SLOTS && KeptBut(lu, pg, lu', pg', {d, x})
    ensures KeptBut(lu, pg[x := work], lu', pg', {d, x})
  {
    var v := pg[x := work];
    forall t: nat | t < SLOTS && t !in {d, x} ensures Kept(lu, v, lu', pg', t) {
      assert Kept(lu, pg, lu', pg', t);
    }
  }

  /** Moves index page `k` of `id` out of slot `s` of block `b`. */
  method MoveIndexPage(fs: Spiffs, b: nat, s: nat, id: nat, k: nat) returns (r: Status, d: nat)
    requires fs.LookupOk() && fs.cleaning && s < SLOTS
    requires Steady(fs, Files(fs.pg, fs.cat))
    requires id in fs.cat && k < |fs.cat[id].ixs| && fs.cat[id].ixs[k] == s && fs.lu[s].Used?
    modifies fs`lu, fs`pg, fs`flash, fs`trace, fs`freeBlocks, fs`eraseCount, fs`maxEraseCount, fs`pDeleted,
             fs`freeBlock, fs`freeEntry, fs`pAllocated, fs`fds, fs`cat
    ensures r != Ok ==> fs.fds == old(fs.fds) && r == ErrNotFound && NoneFree(fs.lu) && fs.lu == old(fs.lu) && fs.pg == old(fs.pg) && fs.cat == old(fs.cat)
    ensures fs.LookupOk()
    ensures r == Ok ==>
              && Steady(fs, Files(old(fs.pg), old(fs.cat))) && FdsKept(old(fs.fds), fs.fds)
              && d < SLOTS && d != s && old(fs.lu)[d].Free? && fs.lu == old(fs.lu)[d := Used(id, true)][s := Deleted]
              && KeptBut(old(fs.lu), old(fs.pg), fs.lu, fs.pg, {d, s})
              && fs.freeBlock == BlockOf(d) && fs.freeEntry == EntryOf(d) + 1
              && SameContents(old(fs.cat), fs.cat) && fs.pg[d] == old(fs.pg)[s]
    ensures fs.Ages() == old(fs.Ages())
  {
    hide FlashState, LookupState, EventOnFd, Took, Holds, Files, NoneFree, Tight, FdsPagesOk, FdsSizesOk, FdsKept;
    r, d := fs.PageMove(None, id, true, s);
    if r == Ok {
      fs.CbObjectEvent(IxMoved, id, k, d, None);
      IndexMoveStep(old(fs.lu), old(fs.pg), fs.cat, old(fs.fds), fs.lu, fs.pg, id, k, d, IxMoved, None);
      fs.cat := fs.cat[id := fs.cat[id].(ixs := fs.cat[id].ixs[k := d])];
    }
  }

  /** An index page has left a block: no data page has come in, and nothing up to its place is in use. */
  lemma IndexMovedOut(lu: seq<Entry>, lu': seq<Entry>, b: nat, e: nat, d: nat, id: nat)
    requires |lu| == SLOTS && b < BLOCKS && e < ENTRIES && Base(b) + e < SLOTS && d < SLOTS
    requires lu[d].Free? && lu' == lu[d := Used(id, true)][Base(b) + e := Deleted]
    requires d < Base(b) || d > Base(b) + e
    requires NoData(lu, b, ENTRIES) && NoneUsed(lu, b, e)
    ensures NoData(lu', b, ENTRIES) && NoneUsed(lu', b, e + 1)
  {
  }

  /** An entry that is not in use is passed over. */
  lemma IndexStays(lu: seq<Entry>, cat: Catalogue, b: nat, e: nat)
    requires |lu| == SLOTS && b < BLOCKS && e < ENTRIES && Base(b) + e < SLOTS
    requires NoData(lu, b, ENTRIES) && NoneUsed(lu, b, e) && (!lu[Base(b) + e].Used? || !lu[Base(b) + e].ix)
    ensures NoneUsed(lu, b, e + 1) && StillTaken(lu, lu) && SameContents(cat, cat)
  {
  }

  /** Moves the page of lookup entry `e` of block `b` if it is an index page. */
  method MoveIndexEntry(fs: Spiffs, b: nat, e: nat) returns (r: Status)
    requires fs.LookupOk() && fs.cleaning && b < BLOCKS && e < ENTRIES
    requires Steady(fs, Files(fs.pg, fs.cat)) && CursorAway(fs, b)
    requires NoData(fs.lu, b, ENTRIES) && NoneUsed(fs.lu, b, e)
    modifies fs`lu, fs`pg, fs`flash, fs`trace, fs`freeBlocks, fs`eraseCount, fs`maxEraseCount, fs`pDeleted,
             fs`freeBlock, fs`freeEntry, fs`pAllocated, fs`fds, fs`cat
    ensures r != Ok ==> r == ErrNotFound && NoneFree(fs.lu) && fs.lu == old(fs.lu) && fs.pg == old(fs.pg) && fs.cat == old(fs.cat) && fs.fds == old(fs.fds)
    ensures fs.LookupOk()
    ensures r == Ok ==>
              && Steady(fs, Files(old(fs.pg), old(fs.cat)))
              && NoData(fs.lu, b, ENTRIES) && NoneUsed(fs.lu, b, e + 1) && CursorAway(fs, b)
              && fs.pAllocated == old(fs.pAllocated) && FdsKept(old(fs.fds), fs.fds) && StillTaken(old(fs.lu), fs.lu)
              && SameContents(old(fs.cat), fs.cat)
    ensures r != Ok ==> Margin(fs.lu, fs.pg, b) < 0
    ensures AccountOf(fs.lu, fs.pg, b) == old(AccountOf(fs.lu, fs.pg, b)) && fs.Ages() == old(fs.Ages())
  {
    hide AccountOf, Margin, RefersInto, FlashState, CursorOk, TakenBefore, Tight, FdsPagesOk, FdsSizesOk, NoData, NoneUsed, FdsKept, StillTaken, SameContents, Files;
    r := Ok;
    TimesMono(b, BLOCKS, ENTRIES);
    var s := Base(b) + e;
    if !fs.lu[s].Used? || !fs.lu[s].ix {
      FdsKeptSelf(fs.fds);
      IndexStays(fs.lu, fs.cat, b, e);
      return;
    }
    var id := fs.lu[s].id;
    assert SlotOk(fs.lu, fs.pg, fs.cat, s);
    assert FileOk(fs.lu, fs.pg, id, fs.cat[id]);
    var hdr := fs.pg[s].hdr;
    assert IndexOk(fs.lu, fs.pg, id, fs.cat[id], hdr.span);
    if hdr.live {
      var d;
      PageRefersElsewhere(fs.lu, fs.pg, fs.cat, b, id, hdr.span);
      r, d := MoveIndexPage(fs, b, s, id, hdr.span);
      if r != Ok {
        NoMarginHere(fs.lu, fs.pg, b, s);
      } else {
        MoveAccount(old(fs.lu), old(fs.pg), fs.lu, fs.pg, b, d, s, Used(id, true));
        MoveDuringScan(old(fs.lu), old(fs.pg), fs.lu, fs.pg, b, s, d, Used(id, true));
        MoveSummary(old(fs.lu), fs.lu, b, d, s, Used(id, true));
        IndexMovedOut(old(fs.lu), fs.lu, b, e, d, id);
      }
    } else {
      assert false;
    }
  }

  /** One pass over block `b` that moves every index page out. */
  method MoveIndexPass(fs: Spiffs, b: nat) returns (r: Status)
    requires fs.LookupOk() && fs.cleaning && b < BLOCKS
    requires Steady(fs, Files(fs.pg, fs.cat)) && CursorAway(fs, b) && NoData(fs.lu, b, ENTRIES)
    modifies fs`lu, fs`pg, fs`flash, fs`trace, fs`freeBlocks, fs`eraseCount, fs`maxEraseCount, fs`pDeleted,
             fs`freeBlock, fs`freeEntry, fs`pAllocated, fs`fds, fs`cat
    ensures r != Ok ==> r == ErrNotFound && NoneFree(fs.lu)
    ensures fs.LookupOk()
    ensures Steady(fs, Files(old(fs.pg), old(fs.cat)))
    ensures r == Ok ==>
              && NoneUsed(fs.lu, b, ENTRIES) && CursorAway(fs, b)
              && fs.pAllocated == old(fs.pAllocated) && FdsKept(old(fs.fds), fs.fds) && StillTaken(old(fs.lu), fs.lu)
              && SameContents(old(fs.cat), fs.cat)
    ensures r != Ok ==> Margin(fs.lu, fs.pg, b) < 0
    ensures AccountOf(fs.lu, fs.pg, b) == old(AccountOf(fs.lu, fs.pg, b)) && fs.Ages() == old(fs.Ages())
  {
    hide AccountOf, Margin, FlashState, LookupState, Holds, Tight, FdsPagesOk, FdsSizesOk;
    r := Ok;
    var curEntry := 0;
    while curEntry < ENTRIES
      invariant curEntry <= ENTRIES && r == Ok && fs.LookupOk()
      invariant Steady(fs, Files(old(fs.pg), old(fs.cat)))
      invariant NoData(fs.lu, b, ENTRIES) && NoneUsed(fs.lu, b, curEntry) && CursorAway(fs, b)
      invariant SameContents(old(fs.cat), fs.cat)
      invariant fs.pAllocated == old(fs.pAllocated) && FdsKept(old(fs.fds), fs.fds) && StillTaken(old(fs.lu), fs.lu)
      invariant AccountOf(fs.lu, fs.pg, b) == old(AccountOf(fs.lu, fs.pg, b)) && fs.Ages() == old(fs.Ages())
    {
      r := MoveIndexEntry(fs, b, curEntry);
      if r != Ok {
        return;
      }
      curEntry := curEntry + 1;
    }
  }

  /** First entry of block `b` from `start` on that is a data page. */
  method FindData(fs: Spiffs, b: nat, start: nat) returns (found: bool, e: nat)
    requires Sizes(fs.lu, fs.pg) && b < BLOCKS && start <= ENTRIES && NoData(fs.lu, b, start)
    ensures found ==> start <= e < ENTRIES && Base(b) + e < SLOTS && fs.lu[Base(b) + e].Used? && !fs.lu[Base(b) + e].ix
    ensures found ==> NoData(fs.lu, b, e)
    ensures !found ==> NoData(fs.lu, b, ENTRIES)
  {
    TimesMono(b, BLOCKS, ENTRIES);
    e := start;
    while e < ENTRIES
      invariant start <= e <= ENTRIES && NoData(fs.lu, b, e)
    {
      if fs.lu[Base(b) + e].Used? && !fs.lu[Base(b) + e].ix {
        return true, e;
      }
      e := e + 1;
    }
    return false, e;
  }

  /** The index page that refers to the data page found at entry `e`, which in a
      consistent image is always there and passes validation. */
  method LoadIndex(fs: Spiffs, b: nat, e: nat) returns (id: nat, k: nat, x: nat)
    requires fs.LookupOk() && Holds(fs.lu, fs.pg, fs.cat) && b < BLOCKS && e < ENTRIES
    requires Base(b) + e < SLOTS && fs.lu[Base(b) + e].Used? && !fs.lu[Base(b) + e].ix
    requires NoData(fs.lu, b, e)
    modifies fs`cursorBlock, fs`cursorEntry
    ensures fs.LookupOk()
    ensures x < SLOTS && id in fs.cat && k < |fs.cat[id].ixs| && fs.cat[id].ixs[k] == x
    ensures OnlyDataOf(fs.lu, fs.pg, b, e + 1, id, k) && ToMove(fs.lu, fs.pg, b, x)
  {
    hide RefersInto, FlashState, CursorOk, TakenBefore, Counted;
    var s := Base(b) + e;
    id := fs.lu[s].id;
    assert SlotOk(fs.lu, fs.pg, fs.cat, s);
    var j := fs.pg[s].hdr.span;
    k := IxSpan(j);
    assert FileOk(fs.lu, fs.pg, id, fs.cat[id]);
    IndexOfPage(fs.lu, fs.pg, id, fs.cat[id], j);
    var found := fs.FindIdAndSpan(id, true, k);
    FindIsUnique(fs.lu, fs.pg, fs.cat, id, true, k, fs.cat[id].ixs[k]);
    if found.None? {
      assert false;
    }
    x := found.value;
    FindIsUnique(fs.lu, fs.pg, fs.cat, id, true, k, x);
    IndexToMove(fs.lu, fs.pg, fs.cat, b, s, id, k);
    forall t: nat | Base(b) <= t < Base(b) + e ensures !fs.lu[t].Free? {
      InBlock(b, t);
      InBlock(b, s);
    }
  }

  lemma PassLeavesNoData(lu: seq<Entry>, pg: seq<Page>, b: nat, stored: nat, id: nat, k: nat)
    requires stored <= ENTRIES
    requires NoDataOf(lu, pg, b, ENTRIES, id, k) && OnlyDataOf(lu, pg, b, stored, id, k)
    ensures NoData(lu, b, stored)
  {
    forall t: nat {:trigger lu[t]} | Base(b) <= t < Base(b) + stored && t < |lu| ensures !(lu[t].Used? && !lu[t].ix) {
      assert !IsDataOf(lu, pg, t, id, k);
    }
  }

  lemma BufferIsIndex(lu: seq<Entry>, pg: seq<Page>, cat: Catalogue, id: nat, k: nat, x: nat, work: Page)
    requires x < |pg| && Holds(lu, pg[x := work], cat) && id in cat && k < |cat[id].ixs| && cat[id].ixs[k] == x
    ensures IsIndexImage(cat, work)
  {
    assert FileOk(lu, pg[x := work], id, cat[id]);
    assert IndexOk(lu, pg[x := work], id, cat[id], k);
    assert work == IndexImage(id, cat[id], k);
  }

  /** The state of a cleaning while an index page is in the work buffer. */
  ghost predicate Loaded(fs: Spiffs, b: nat, stored: nat, id: nat, k: nat, x: nat, work: Page, files: map<nat, FileView>)
    reads fs`lu, fs`pg, fs`cat, fs`fds
  {
    && x < SLOTS && x < |fs.pg| && Holds(fs.lu, fs.pg[x := work], fs.cat)
    && Files(fs.pg[x := work], fs.cat) == files
    && Tight(fs.cat) && FdsPagesOk(fs.fds, fs.cat) && FdsSizesOk(fs.fds, fs.cat)
    && id in fs.cat && k < |fs.cat[id].ixs| && fs.cat[id].ixs[k] == x
    && OnlyDataOf(fs.lu, fs.pg, b, stored, id, k) && ToMove(fs.lu, fs.pg, b, x)
  }

  /** A pass that moves data pages, and the write of the index page it changed. */
  method MoveDataAndStore(fs: Spiffs, b: nat, id: nat, k: nat, x: nat, page: Page, ghost stored: nat, ghost files: map<nat, FileView>)
    returns (r: Status, work: Page)
    requires fs.LookupOk() && fs.cleaning && b < BLOCKS && stored <= ENTRIES
    requires Loaded(fs, b, stored, id, k, x, page, files) && CursorAway(fs, b)
    modifies fs`lu, fs`pg, fs`flash, fs`trace, fs`freeBlocks, fs`eraseCount, fs`maxEraseCount, fs`pDeleted,
             fs`freeBlock, fs`freeEntry, fs`pAllocated, fs`fds, fs`cat
    ensures r != Ok ==> r == ErrNotFound && NoneFree(fs.lu) && Behind(fs, files)
    ensures fs.LookupOk()
    ensures r == Ok ==>
              && Steady(fs, files)
              && NoData(fs.lu, b, stored) && CursorAway(fs, b)
              && fs.pAllocated == old(fs.pAllocated) && FdsKept(old(fs.fds), fs.fds) && StillTaken(old(fs.lu), fs.lu)
              && IsIndexImage(fs.cat, work)
    ensures r != Ok ==> Margin(fs.lu, fs.pg, b) < 0
    ensures AccountOf(fs.lu, fs.pg, b) == old(AccountOf(fs.lu, fs.pg, b)) && fs.Ages() == old(fs.Ages())
  {
    hide AccountOf, Margin, ToMove, RefersInto, FlashState, TakenBefore, FreeSuffix, Counted, CursorOk, Holds;
    r, work := MoveDataPass(fs, b, id, k, x, page, stored);
    if r != Ok {
      assert HoldsWith(fs, x, work, files);
      return;
    }
    PassLeavesNoData(fs.lu, fs.pg, b, stored, id, k);
    RefersElsewhere(fs.lu, fs.pg, fs.cat, b, id, k, x, work);
    BufferIsIndex(fs.lu, fs.pg, fs.cat, id, k, x, work);
    ghost var cat1 := fs.cat;
    SameIndexesKeep(old(fs.cat), fs.cat, fs.fds);
    r := StoreIndex(fs, id, k, x, work, b, stored);
    if r != Ok {
      assert HoldsWith(fs, x, work, files);
    } else {
      StillIndexImage(cat1, fs.cat, work);
    }
  }

  /** Finds the next data page of block `b` and loads the index page that refers to it. */
  method FindAndLoad(fs: Spiffs, b: nat, start: nat, buffer: Page, ghost files: map<nat, FileView>)
    returns (found: bool, stored: nat, id: nat, k: nat, x: nat, work: Page)
    requires fs.LookupOk() && Steady(fs, files) && b < BLOCKS && start <= ENTRIES && NoData(fs.lu, b, start)
    modifies fs`cursorBlock, fs`cursorEntry
    ensures fs.LookupOk()
    ensures found ==> start < stored <= ENTRIES && Loaded(fs, b, stored, id, k, x, work, files)
    ensures !found ==> work == buffer && stored <= ENTRIES && NoData(fs.lu, b, ENTRIES)
  {
    hide FlashState, LookupState, Holds, FdsPagesOk, FdsSizesOk, Tight;
    stored, id, k, x, work := 0, 0, 0, 0, buffer;
    var e;
    found, e := FindData(fs, b, start);
    if found {
      id, k, x := LoadIndex(fs, b, e);
      stored := e + 1;
      work := fs.pg[x];
      assert fs.pg[x := work] == fs.pg;
    }
  }

  /** The free cursor may be put at the start of any block. */
  lemma CursorMoved(lu: seq<Entry>, pg: seq<Page>, nUsed: int, nDeleted: int, nFreeBlocks: int, block: nat, entry: nat, block': nat)
    requires LookupState(lu, pg, nUsed, nDeleted, nFreeBlocks, block, entry) && block' < BLOCKS
    ensures LookupState(lu, pg, nUsed, nDeleted, nFreeBlocks, block', 0)
  {
  }

  /** When nothing used is left in a block the free cursor is elsewhere. */
  lemma CursorOut(fs: Spiffs, b: nat)
    requires fs.LookupOk() && CursorAway(fs, b) && b < BLOCKS && NoneUsed(fs.lu, b, ENTRIES)
    ensures Evacuated(fs.lu, b) && fs.freeBlock != b
  {
  }

  /** The pass that moves index pages: what is left in the buffer is still an index page. */
  method MoveIndexes(fs: Spiffs, b: nat, buffer: Page, work: Page, ghost files: map<nat, FileView>) returns (r: Status)
    requires fs.LookupOk() && fs.cleaning && b < BLOCKS && CursorAway(fs, b) && NoData(fs.lu, b, ENTRIES)
    requires Steady(fs, files) && (work == buffer || IsIndexImage(fs.cat, work))
    modifies fs`lu, fs`pg, fs`flash, fs`trace, fs`freeBlocks, fs`eraseCount, fs`maxEraseCount, fs`pDeleted,
             fs`freeBlock, fs`freeEntry, fs`pAllocated, fs`fds, fs`cat
    ensures r != Ok ==> r == ErrNotFound && NoneFree(fs.lu) && Behind(fs, files)
    ensures fs.LookupOk()
    ensures r == Ok ==>
              && Steady(fs, files) && NoneUsed(fs.lu, b, ENTRIES) && CursorAway(fs, b)
              && fs.pAllocated == old(fs.pAllocated) && FdsKept(old(fs.fds), fs.fds) && StillTaken(old(fs.lu), fs.lu)
              && (work == buffer || IsIndexImage(fs.cat, work))
    ensures r != Ok ==> Margin(fs.lu, fs.pg, b) < 0
    ensures AccountOf(fs.lu, fs.pg, b) == old(AccountOf(fs.lu, fs.pg, b)) && fs.Ages() == old(fs.Ages())
  {
    hide AccountOf, Margin, FlashState, LookupState, Holds, IsIndexImage, SameContents, FdsPagesOk, FdsSizesOk, Tight, FdsKept, StillTaken, NoneUsed, NoData, CursorAway, Files, NoneFree, HoldsWith;
    ghost var cat1 := fs.cat;
    r := MoveIndexPass(fs, b);
    if r != Ok {
      SteadyIsBehind(fs, files);
    } else if work != buffer {
      StillIndexImage(cat1, fs.cat, work);
    }
  }

  datatype CleanState = FindObjData | MoveObjData | MoveObjIx | Finished

  /** Free pages of the block to be cleaned are not to be used if there are others. */
  method CursorElsewhere(fs: Spiffs, b: nat)
    requires fs.LookupOk() && b < BLOCKS
    modifies fs`freeBlock, fs`freeEntry
    ensures fs.LookupOk() && CursorAway(fs, b)
    ensures old(fs.freeBlock) == b ==> fs.freeBlock == (b + 1) % BLOCKS && fs.freeEntry == 0
    ensures old(fs.freeBlock) != b ==> fs.freeBlock == old(fs.freeBlock) && fs.freeEntry == old(fs.freeEntry)
  {
    hide FlashState, LookupState;
    if fs.freeBlock == b {
      CursorMoved(fs.lu, fs.pg, fs.pAllocated, fs.pDeleted, fs.freeBlocks, fs.freeBlock, fs.freeEntry, (b + 1) % BLOCKS);
      fs.freeBlock := (b + 1) % BLOCKS;
      fs.freeEntry := 0;
    }
  }

  /** Empties block `b`.  It succeeds exactly if the free pages outside the block suffice for
      the pages in use in it and the index pages that refer to them.  Then the block holds
      nothing that is in use, outside it just those index pages have been deleted, no file
      has changed, the number of pages in use is the same and the descriptors know where the
      index pages are. */
  method Clean(fs: Spiffs, b: nat, buffer: Page) returns (r: Status, work: Page)
    requires fs.LookupOk() && fs.cleaning && b < BLOCKS
    requires Steady(fs, Files(fs.pg, fs.cat))
    modifies fs`lu, fs`pg, fs`flash, fs`trace, fs`freeBlocks, fs`eraseCount, fs`maxEraseCount, fs`pDeleted,
             fs`freeBlock, fs`freeEntry, fs`pAllocated, fs`fds, fs`cat, fs`cursorBlock, fs`cursorEntry
    ensures r != Ok ==> r == ErrNotFound && NoneFree(fs.lu) && Behind(fs, Files(old(fs.pg), old(fs.cat)))
    ensures fs.LookupOk()
    ensures r == Ok ==>
              && Steady(fs, Files(old(fs.pg), old(fs.cat)))
              && Evacuated(fs.lu, b) && fs.freeBlock != b
              && fs.pAllocated == old(fs.pAllocated) && FdsKept(old(fs.fds), fs.fds) && StillTaken(old(fs.lu), fs.lu)
              && (work == buffer || IsIndexImage(fs.cat, work))
    ensures r == Ok <==> old(Margin(fs.lu, fs.pg, b)) >= 0
    ensures r == Ok ==> MovedOut(old(fs.lu), old(fs.pg), fs.lu, b)
    ensures fs.Ages() == old(fs.Ages())
  {
    hide MovedOut, ToMove, Margin, AccountOf, DeletedSlots, AnyDeletedBlock, Supply, FreeSlots, FlashState, LookupState, Holds, IsIndexImage, SameContents, FdsPagesOk, FdsSizesOk, Tight, FdsKept, StillTaken, OnlyDataOf, NoneUsed, Evacuated, Files, NoneFree, HoldsWith;
    r, work := Ok, buffer;
    ghost var files := Files(fs.pg, fs.cat);
    FdsKeptSelf(fs.fds);
    TakenChain(fs.lu, fs.lu, fs.lu);
    CursorElsewhere(fs, b);
    assert NoData(fs.lu, b, 0) && Steady(fs, files);
    hide CursorAway, NoData, Steady, Loaded;
    ghost var account := AccountOf(fs.lu, fs.pg, b);
    var state := FindObjData;
    var curEntry: nat, stored: nat, id: nat, k: nat, x: nat := 0, 0, 0, 0, 0;
    while state != Finished
      invariant curEntry <= ENTRIES && stored <= ENTRIES && r == Ok
      invariant fs.LookupOk() && CursorAway(fs, b) && fs.pAllocated == old(fs.pAllocated) && FdsKept(old(fs.fds), fs.fds) && StillTaken(old(fs.lu), fs.lu)
      invariant AccountOf(fs.lu, fs.pg, b) == account && fs.Ages() == old(fs.Ages())
      invariant state != MoveObjData ==> Steady(fs, files)
      invariant state == FindObjData ==> NoData(fs.lu, b, curEntry)
      invariant state == MoveObjData ==> Loaded(fs, b, stored, id, k, x, work, files)
      invariant state != MoveObjData ==> work == buffer || IsIndexImage(fs.cat, work)
      invariant state == MoveObjIx ==> NoData(fs.lu, b, ENTRIES)
      invariant state == Finished ==> NoneUsed(fs.lu, b, ENTRIES)
      decreases if state == Finished then 0 else if state == MoveObjIx then 1 else 2,
                ENTRIES - (if state == MoveObjData then stored else curEntry),
                if state == MoveObjData then 1 else 0
    {
      ghost var fds1, lu1 := fs.fds, fs.lu;
      match state
      case FindObjData =>
        var found;
        found, stored, id, k, x, work := FindAndLoad(fs, b, curEntry, work, files);
        curEntry := 0;
        state := if found then MoveObjData else MoveObjIx;
      case MoveObjData =>
        r, work := MoveDataAndStore(fs, b, id, k, x, work, stored, files);
        if r != Ok {
          SameMargin(fs.lu, fs.pg, old(fs.lu), old(fs.pg), b);
          return;
        }
        FdsKeptChain(old(fs.fds), fds1, fs.fds);
        TakenChain(old(fs.lu), lu1, fs.lu);
        state := FindObjData;
        curEntry := stored;
      case MoveObjIx =>
        r := MoveIndexes(fs, b, buffer, work, files);
        if r != Ok {
          SameMargin(fs.lu, fs.pg, old(fs.lu), old(fs.pg), b);
          return;
        }
        FdsKeptChain(old(fs.fds), fds1, fs.fds);
        TakenChain(old(fs.lu), lu1, fs.lu);
        state := Finished;
    }
    CursorOut(fs, b);
    AccountAtEnd(fs, files, old(fs.lu), old(fs.pg), b);
  }

  // ---------------------------------------------------------------------------
  // Which block to clean

  const MAX_RUNS: nat := 5
  const WEIGHT_DELETED: int := 5
  const WEIGHT_USED: int := -1
  const WEIGHT_ERASE_AGE: int := 50
  const OBJ_ID_FREE: int := 0xffff

  function BlockEntries(lu: seq<Entry>, b: nat): (es: seq<Entry>)
    requires |lu| == SLOTS && b < BLOCKS
    ensures |es| == ENTRIES
  {
    TimesMono(b, BLOCKS, ENTRIES);
    lu[Base(b)..Base(b) + ENTRIES]
  }

  function EraseAge(eraseCount: nat, maxEraseCount: nat): int
  {
    if maxEraseCount > eraseCount then maxEraseCount - eraseCount
    else OBJ_ID_FREE - (eraseCount - maxEraseCount)
  }

  function Score(deleted: int, used: int, age: int, crammed: bool): int
  {
    deleted * WEIGHT_DELETED + used * WEIGHT_USED + age * (if crammed then 0 else WEIGHT_ERASE_AGE)
  }

  function BlockCand(lu: seq<Entry>, eraseCount: seq<nat>, maxEraseCount: nat, crammed: bool, b: nat): (c: Cand)
    ensures c.Cand? && c.block == b
    requires |lu| == SLOTS && |eraseCount| == BLOCKS && b < BLOCKS
  {
    var es := BlockEntries(lu, b);
    Cand(b, Score(Count(es, IsDeleted), Count(es, IsUsed), EraseAge(eraseCount[b], maxEraseCount), crammed))
  }

  /** The blocks below `n` that hold a deleted page, with their scores. */
  function CandsBelow(lu: seq<Entry>, eraseCount: seq<nat>, maxEraseCount: nat, crammed: bool, n: nat): (l: seq<Cand>)
    requires |lu| == SLOTS && |eraseCount| == BLOCKS && n <= BLOCKS
    ensures AllCands(l) && forall i :: 0 <= i < |l| ==> l[i].block < n
    ensures forall i, j :: 0 <= i < j < |l| ==> l[i].block < l[j].block
  {
    if n == 0 then []
    else CandsBelow(lu, eraseCount, maxEraseCount, crammed, n - 1) +
         if Count(BlockEntries(lu, n - 1), IsDeleted) > 0
         then [BlockCand(lu, eraseCount, maxEraseCount, crammed, n - 1)] else []
  }

  /** Counts the pages of a block, stopping at the first free entry; that misses
      nothing because only free entries follow. */
  method CountBlock(fs: Spiffs, b: nat) returns (deleted: nat, used: nat)
    requires Sizes(fs.lu, fs.pg) && FreeSuffix(fs.lu) && b < BLOCKS
    ensures deleted == Count(BlockEntries(fs.lu, b), IsDeleted)
    ensures used == Count(BlockEntries(fs.lu, b), IsUsed)
  {
    deleted, used := 0, 0;
    var es := BlockEntries(fs.lu, b);
    TimesMono(b, BLOCKS, ENTRIES);
    var e := 0;
    while e < ENTRIES && !es[e].Free?
      invariant e <= ENTRIES
      invariant deleted == Count(es[..e], IsDeleted) && used == Count(es[..e], IsUsed)
    {
      assert es[..e + 1][..e] == es[..e];
      if es[e].Deleted? {
        deleted := deleted + 1;
      } else {
        used := used + 1;
      }
      e := e + 1;
    }
    FreeToTheEnd(fs.lu, b, e);
    RestIsFree(es, e);
  }

  /** Behind a free entry of a block all entries are free. */
  lemma FreeToTheEnd(lu: seq<Entry>, b: nat, e: nat)
    requires |lu| == SLOTS && FreeSuffix(lu) && b < BLOCKS && e <= ENTRIES
    requires e < ENTRIES ==> BlockEntries(lu, b)[e].Free?
    ensures forall i :: e <= i < ENTRIES ==> BlockEntries(lu, b)[i].Free?
  {
    var es := BlockEntries(lu, b);
    TimesMono(b, BLOCKS, ENTRIES);
    forall i | e <= i < ENTRIES ensures es[i].Free? {
      InBlock(b, Base(b) + e);
      InBlock(b, Base(b) + i);
      assert lu[Base(b) + e].Free?;
      assert lu[Base(b) + i] == es[i];
    }
  }

  lemma RestIsFree(es: seq<Entry>, e: nat)
    requires e <= |es| && forall i :: e <= i < |es| ==> es[i].Free?
    ensures Count(es, IsDeleted) == Count(es[..e], IsDeleted) && Count(es, IsUsed) == Count(es[..e], IsUsed)
  {
    assert es == es[..e] + es[e..];
    CountConcat(es[..e], es[e..], IsDeleted);
    CountConcat(es[..e], es[e..], IsUsed);
    CountNone(es[e..], IsDeleted);
    CountNone(es[e..], IsUsed);
  }

  /** Adds block `b` to the table if it holds a deleted page. */
  method AddCandidate(fs: Spiffs, crammed: bool, b: nat, rows: seq<Cand>, ghost all: seq<Cand>)
    returns (table: seq<Cand>, added: bool)
    requires Sizes(fs.lu, fs.pg) && FreeSuffix(fs.lu) && |fs.eraseCount| == BLOCKS && b < BLOCKS
    requires AllCands(all) && Holding(rows, Take(Sorted(all), |rows|))
    ensures added <==> Count(BlockEntries(fs.lu, b), IsDeleted) > 0
    ensures |table| == |rows|
    ensures var c := BlockCand(fs.lu, fs.eraseCount, fs.maxEraseCount, crammed, b);
            Holding(table, Take(Sorted(if added then all + [c] else all), |rows|))
  {
    table := rows;
    var deleted, used := CountBlock(fs, b);
    added := deleted > 0;
    if added {
      var score := Score(deleted, used, EraseAge(fs.eraseCount[b], fs.maxEraseCount), crammed);
      table := InsertCandidate(rows, b, score, Take(Sorted(all), |rows|));
      InsertIntoCut(Sorted(all), Cand(b, score), |rows|);
      assert (all + [Cand(b, score)])[..|all|] == all;
    }
  }

  /** The table of candidates: the best rows of the sorted list of all of them. */
  method FindCandidate(fs: Spiffs, crammed: bool) returns (table: seq<Cand>, count: nat)
    requires Sizes(fs.lu, fs.pg) && FreeSuffix(fs.lu) && |fs.eraseCount| == BLOCKS
    ensures var all := CandsBelow(fs.lu, fs.eraseCount, fs.maxEraseCount, crammed, BLOCKS);
            && count == |all| && |table| == CANDIDATES
            && Holding(table, Take(Sorted(all), CANDIDATES))
    ensures Ranked(fs.lu, fs.eraseCount, fs.maxEraseCount, crammed, table)
  {
    hide Ranked, FlashState, Insert, Sorted, Holding, Count, BlockCand, FreeSuffix;
    table := seq(CANDIDATES, i => NoCand);
    EmptyTableHolds(table);
    count := 0;
    var curBlock := 0;
    ghost var all := [];
    while curBlock < BLOCKS
      invariant curBlock <= BLOCKS
      invariant all == CandsBelow(fs.lu, fs.eraseCount, fs.maxEraseCount, crammed, curBlock)
      invariant count == |all| && |table| == CANDIDATES && Holding(table, Take(Sorted(all), CANDIDATES))
    {
      var added;
      table, added := AddCandidate(fs, crammed, curBlock, table, all);
      if added {
        all := all + [BlockCand(fs.lu, fs.eraseCount, fs.maxEraseCount, crammed, curBlock)];
        count := count + 1;
      }
      curBlock := curBlock + 1;
    }
    TableRanked(fs.lu, fs.eraseCount, fs.maxEraseCount, crammed, table);
  }

  lemma EmptyTableHolds(table: seq<Cand>)
    requires forall i :: 0 <= i < |table| ==> table[i].NoCand?
    ensures Holding(table, Take(Sorted([]), |table|))
  {
  }

  lemma {:induction false} CandIn(lu: seq<Entry>, eraseCount: seq<nat>, maxEraseCount: nat, crammed: bool, n: nat, b: nat)
    requires |lu| == SLOTS && |eraseCount| == BLOCKS && b < n <= BLOCKS
    ensures Count(BlockEntries(lu, b), IsDeleted) > 0 <==>
            BlockCand(lu, eraseCount, maxEraseCount, crammed, b) in CandsBelow(lu, eraseCount, maxEraseCount, crammed, n)
  {
    if b < n - 1 {
      CandIn(lu, eraseCount, maxEraseCount, crammed, n - 1, b);
    }
  }

  lemma {:induction false} CandIs(lu: seq<Entry>, eraseCount: seq<nat>, maxEraseCount: nat, crammed: bool, n: nat, c: Cand)
    requires |lu| == SLOTS && |eraseCount| == BLOCKS && n <= BLOCKS
    requires c in CandsBelow(lu, eraseCount, maxEraseCount, crammed, n)
    ensures c.Cand? && c.block < n && c == BlockCand(lu, eraseCount, maxEraseCount, crammed, c.block)
    ensures Count(BlockEntries(lu, c.block), IsDeleted) > 0
  {
    if c in CandsBelow(lu, eraseCount, maxEraseCount, crammed, n - 1) {
      CandIs(lu, eraseCount, maxEraseCount, crammed, n - 1, c);
    }
  }

  /** The first row is a block with a deleted page and no block with one scores more. */
  lemma {:induction false} BestCandidate(lu: seq<Entry>, eraseCount: seq<nat>, maxEraseCount: nat, crammed: bool, table: seq<Cand>)
    requires |lu| == SLOTS && |eraseCount| == BLOCKS
    requires var all := CandsBelow(lu, eraseCount, maxEraseCount, crammed, BLOCKS);
             |all| > 0 && |table| == CANDIDATES && Holding(table, Take(Sorted(all), CANDIDATES))
    ensures table[0].Cand? && table[0].block < BLOCKS
    ensures table[0] == BlockCand(lu, eraseCount, maxEraseCount, crammed, table[0].block)
    ensures Count(BlockEntries(lu, table[0].block), IsDeleted) > 0
    ensures forall b: nat :: b < BLOCKS && Count(BlockEntries(lu, b), IsDeleted) > 0 ==>
              BlockCand(lu, eraseCount, maxEraseCount, crammed, b).score <= table[0].score
  {
    hide Insert, Sorted, CandsBelow, Count, BlockCand;
    var all := CandsBelow(lu, eraseCount, maxEraseCount, crammed, BLOCKS);
    var sorted := Sorted(all);
    SortedIsOrdered(all);
    assert Take(sorted, CANDIDATES)[0] == sorted[0];
    assert sorted[0] in multiset(sorted);
    CandIs(lu, eraseCount, maxEraseCount, crammed, BLOCKS, sorted[0]);
    forall b: nat | b < BLOCKS && Count(BlockEntries(lu, b), IsDeleted) > 0
      ensures BlockCand(lu, eraseCount, maxEraseCount, crammed, b).score <= table[0].score
    {
      var c := BlockCand(lu, eraseCount, maxEraseCount, crammed, b);
      CandIn(lu, eraseCount, maxEraseCount, crammed, BLOCKS, b);
      assert c in multiset(sorted);
      var i :| 0 <= i < |sorted| && sorted[i] == c;
    }
  }

  // ---------------------------------------------------------------------------
  // What the collector prefers

  function DeletedIn(lu: seq<Entry>, b: nat): (n: nat)
    requires |lu| == SLOTS && b < BLOCKS
  {
    KindIn(lu, b, IsDeleted)
  }

  function UsedIn(lu: seq<Entry>, b: nat): (n: nat)
    requires |lu| == SLOTS && b < BLOCKS
  {
    KindIn(lu, b, IsUsed)
  }

  /** Block `a` is cleaned rather than block `b`: five points for a deleted page, one less for
      a page in use, and fifty for an erasure of age unless the volume is crammed; of two
      blocks with the same points the first one. */
  predicate Preferred(lu: seq<Entry>, eraseCount: seq<nat>, maxEraseCount: nat, crammed: bool, a: nat, b: nat)
    requires |lu| == SLOTS && |eraseCount| == BLOCKS && a < BLOCKS && b < BLOCKS
  {
    var x := 5 * DeletedIn(lu, a) - UsedIn(lu, a) + if crammed then 0 else 50 * EraseAge(eraseCount[a], maxEraseCount);
    var y := 5 * DeletedIn(lu, b) - UsedIn(lu, b) + if crammed then 0 else 50 * EraseAge(eraseCount[b], maxEraseCount);
    x > y || (x == y && a < b)
  }

  /** Between blocks of one age the one with more deleted and no more used pages is preferred,
      and a deleted page outweighs four used ones; an erasure of age outweighs nine deleted
      pages, and on a crammed volume age does not matter. */
  lemma Preferences(lu: seq<Entry>, eraseCount: seq<nat>, maxEraseCount: nat, crammed: bool, a: nat, b: nat)
    requires |lu| == SLOTS && |eraseCount| == BLOCKS && a < BLOCKS && b < BLOCKS
    ensures var da, ua, db, ub := DeletedIn(lu, a), UsedIn(lu, a), DeletedIn(lu, b), UsedIn(lu, b);
            var older, younger := EraseAge(eraseCount[a], maxEraseCount), EraseAge(eraseCount[b], maxEraseCount);
            var prefers := Preferred(lu, eraseCount, maxEraseCount, crammed, a, b);
            && (crammed || older == younger ==>
                  && (da >= db && ua <= ub && (da > db || ua < ub) ==> prefers)
                  && (da > db && ua <= ub + 4 ==> prefers))
            && (!crammed && older > younger && db <= da + 9 && ua <= ub + 4 ==> prefers)
  {
    hide EraseAge, Count;
  }

  /** The age of a block: the erasures since it was erased, counted modulo 2^16 - 1. */
  lemma AgeIs(count: nat, max: nat)
    requires count < 0x1_0000 && max < 0x1_0000 && (count == 0xffff ==> max > 0)
    ensures EraseAge(count, max) == (max - count + 0xfffe) % 0xffff + 1
  {
  }

  predicate InRow(table: seq<Cand>, i: nat, b: nat)
  {
    i < |table| && table[i].Cand? && table[i].block == b
  }

  /** If block `b` is in the table, block `a` is before it. */
  ghost predicate Outranks(table: seq<Cand>, a: nat, b: nat)
  {
    forall j: nat :: InRow(table, j, b) ==> exists i: nat :: i < j && InRow(table, i, a)
  }

  /** The table is in order of preference. */
  ghost predicate Ranked(lu: seq<Entry>, eraseCount: seq<nat>, maxEraseCount: nat, crammed: bool, table: seq<Cand>)
    requires |lu| == SLOTS && |eraseCount| == BLOCKS
  {
    && (forall i: nat, b: nat :: InRow(table, i, b) ==> b < BLOCKS && DeletedIn(lu, b) > 0)
    && (forall a: nat, b: nat ::
          (a < BLOCKS && b < BLOCKS && DeletedIn(lu, a) > 0 && DeletedIn(lu, b) > 0
           && Preferred(lu, eraseCount, maxEraseCount, crammed, a, b)) ==> Outranks(table, a, b))
  }

  /** The best rows of the sorted candidates are in order of preference. */
  lemma TableRanked(lu: seq<Entry>, eraseCount: seq<nat>, maxEraseCount: nat, crammed: bool, table: seq<Cand>)
    requires |lu| == SLOTS && |eraseCount| == BLOCKS
    requires Holding(table, Take(Sorted(CandsBelow(lu, eraseCount, maxEraseCount, crammed, BLOCKS)), |table|))
    ensures Ranked(lu, eraseCount, maxEraseCount, crammed, table)
  {
    hide Insert, Sorted, CandsBelow, Count, EraseAge, Preferred;
    var sorted := Sorted(CandsBelow(lu, eraseCount, maxEraseCount, crammed, BLOCKS));
    forall i: nat, b: nat | InRow(table, i, b) ensures b < BLOCKS && DeletedIn(lu, b) > 0 {
      RowOf(lu, eraseCount, maxEraseCount, crammed, table, i);
    }
    forall a: nat, b: nat, j: nat
      | a < BLOCKS && b < BLOCKS && DeletedIn(lu, a) > 0 && DeletedIn(lu, b) > 0
        && Preferred(lu, eraseCount, maxEraseCount, crammed, a, b) && InRow(table, j, b)
      ensures exists i: nat :: i < j && InRow(table, i, a)
    {
      var i := RowBefore(lu, eraseCount, maxEraseCount, crammed, table, j, a);
      assert i < j && InRow(table, i, a);
    }
  }

  lemma RowOf(lu: seq<Entry>, eraseCount: seq<nat>, maxEraseCount: nat, crammed: bool, table: seq<Cand>, i: nat)
    requires |lu| == SLOTS && |eraseCount| == BLOCKS && i < |table| && table[i].Cand?
    requires Holding(table, Take(Sorted(CandsBelow(lu, eraseCount, maxEraseCount, crammed, BLOCKS)), |table|))
    ensures var sorted := Sorted(CandsBelow(lu, eraseCount, maxEraseCount, crammed, BLOCKS));
            && i < |sorted| && table[i] == sorted[i]
    ensures table[i].block < BLOCKS && DeletedIn(lu, table[i].block) > 0
    ensures table[i] == BlockCand(lu, eraseCount, maxEraseCount, crammed, table[i].block)
  {
    hide Insert, Sorted, CandsBelow, Count, BlockCand;
    var all := CandsBelow(lu, eraseCount, maxEraseCount, crammed, BLOCKS);
    SortedIsOrdered(all);
    assert Sorted(all)[i] in multiset(Sorted(all));
    CandIs(lu, eraseCount, maxEraseCount, crammed, BLOCKS, Sorted(all)[i]);
  }

  /** A block that is preferred to that of a row is in a row before it. */
  lemma RowBefore(lu: seq<Entry>, eraseCount: seq<nat>, maxEraseCount: nat, crammed: bool, table: seq<Cand>, j: nat, a: nat) returns (i: nat)
    requires |lu| == SLOTS && |eraseCount| == BLOCKS && j < |table| && table[j].Cand? && table[j].block < BLOCKS
    requires Holding(table, Take(Sorted(CandsBelow(lu, eraseCount, maxEraseCount, crammed, BLOCKS)), |table|))
    requires a < BLOCKS && DeletedIn(lu, a) > 0 && Preferred(lu, eraseCount, maxEraseCount, crammed, a, table[j].block)
    ensures i < j && InRow(table, i, a)
  {
    hide Insert, Sorted, CandsBelow, Count, EraseAge;
    var all := CandsBelow(lu, eraseCount, maxEraseCount, crammed, BLOCKS);
    var sorted := Sorted(all);
    SortedIsOrdered(all);
    RowOf(lu, eraseCount, maxEraseCount, crammed, table, j);
    CandIn(lu, eraseCount, maxEraseCount, crammed, BLOCKS, a);
    var c := BlockCand(lu, eraseCount, maxEraseCount, crammed, a);
    assert c in multiset(sorted);
    i :| i < |sorted| && sorted[i] == c;
  }

  // ---------------------------------------------------------------------------
  // What a collection does

  /** A volume as the collector sees it: the lookup with the free cursor and the counters, the
      pages, and the erase counts. */
  datatype Layout = Layout(space: Room, pg: seq<Page>, ages: (seq<nat>, nat))
  {
    /** The counters are a recount of the lookup. */
    ghost predicate Ok()
    {
      && |space.lu| == |pg| == SLOTS && |ages.0| == BLOCKS
      && space.taken == Count(space.lu, IsUsed) + Count(space.lu, IsDeleted)
      && space.blocks == FreeBlocks(space.lu, BLOCKS)
    }

    /** The free pages, but for those of two blocks. */
    function Free(): int
    {
      ENTRIES * (BLOCKS - 2) - space.taken
    }

    function Deleted(): nat
    {
      Count(space.lu, IsDeleted)
    }
  }

  ghost function LayoutOf(fs: Spiffs): Layout
    reads fs`lu, fs`pg, fs`freeBlocks, fs`freeBlock, fs`freeEntry, fs`pAllocated, fs`pDeleted, fs`cleaning,
          fs`eraseCount, fs`maxEraseCount
  {
    Layout(fs.Space(), fs.pg, fs.Ages())
  }

  /** The block to be cleaned next: of those that hold a deleted page the one preferred to all others. */
  ghost predicate Best(a: Layout, b: nat)
    requires a.Ok()
  {
    && b < BLOCKS && DeletedIn(a.space.lu, b) > 0
    && forall c: nat :: c < BLOCKS && c != b && DeletedIn(a.space.lu, c) > 0 ==>
                          Preferred(a.space.lu, a.ages.0, a.ages.1, a.Free() <= 0, b, c)
  }

  /** Block `b` has been cleaned and erased, for which the free pages outside it sufficed.
      Its deleted pages are free, and of the others just the index pages that referred to the
      block have been deleted; the block has the next erase count. */
  ghost predicate Cleaned(a: Layout, b: nat, c: Layout)
    requires a.Ok() && c.Ok() && b < BLOCKS
  {
    && Margin(a.space.lu, a.pg, b) >= 0
    && (forall t: nat :: t < SLOTS && InBlockOf(b, t) ==> c.space.lu[t].Free?)
    && DeletedSlots(c.space.lu) == DeadOutside(a.space.lu, b) + Referring(a.space.lu, a.pg, b)
    && c.Free() == a.Free() + DeletedIn(a.space.lu, b) - |Referring(a.space.lu, a.pg, b)|
    && Count(c.space.lu, IsUsed) == Count(a.space.lu, IsUsed)
    && c.ages == (a.ages.0[b := a.ages.1], if a.ages.1 + 1 == 0x8000 then 0 else a.ages.1 + 1)
  }

  /** After a run that led from `a` to `c` there is another one if fewer than three blocks are
      free or the free pages do not hold `len` bytes, unless the volume was crammed and has as
      many free pages as before. */
  predicate GoesOn(a: Layout, c: Layout, len: nat)
  {
    && !(a.Free() <= 0 && c.Free() == a.Free())
    && (c.space.blocks <= 2 || len > c.Free() * DATA_SIZE)
  }

  /** A collection for `len` bytes of at most `runs` runs leads from `a` to `c` and reports `r`.
      Each run cleans and erases the best block; it fails exactly if the free pages outside
      that block are too few. */
  ghost predicate Collection(a: Layout, len: nat, runs: nat, c: Layout, r: Status)
    decreases runs
  {
    && a.Ok() && c.Ok() && runs > 0
    && if a.Deleted() == 0 then c == a && r == if NeededPages(len) < a.Free() then Ok else ErrFull
       else exists b: nat :: b < BLOCKS && Best(a, b) && if Margin(a.space.lu, a.pg, b) < 0 then r == ErrNotFound && NoneFree(c.space.lu)
                                           else RunsOn(a, b, len, runs, c, r)
  }

  ghost predicate RunsOn(a: Layout, b: nat, len: nat, runs: nat, c: Layout, r: Status)
    requires a.Ok() && c.Ok() && b < BLOCKS && runs > 0
    decreases runs, 0
  {
    exists m: Layout ::
      && m.Ok() && Cleaned(a, b, m)
      && if runs > 1 && GoesOn(a, m, len) then Collection(m, len, runs - 1, c, r)
         else c == m && r == if len > m.Free() * DATA_SIZE then ErrFull else Ok
  }

  /** What a request for room for `len` bytes does: nothing if more than three blocks are free
      and the free pages hold more; it is refused if the deleted pages do not make up for the
      pages that are missing; otherwise blocks are cleaned in at most five runs. */
  ghost predicate Collected(a: Layout, len: nat, c: Layout, r: Status)
  {
    && a.Ok() && c.Ok()
    && if a.space.blocks > 3 && len < a.Free() * DATA_SIZE then c == a && r == Ok
       else if NeededPages(len) > a.Free() + a.Deleted() then c == a && r == ErrFull
       else Collection(a, len, 5, c, r)
  }

  lemma LayoutOk(fs: Spiffs)
    requires fs.LookupOk()
    ensures LayoutOf(fs).Ok() && LayoutOf(fs).Free() == FreePages(fs) && LayoutOf(fs).Deleted() == fs.pDeleted
  {
  }

  /** The first row of the table is the best block. */
  lemma FirstIsBest(a: Layout, table: seq<Cand>)
    requires a.Ok() && Ranked(a.space.lu, a.ages.0, a.ages.1, a.Free() <= 0, table) && |table| > 0 && table[0].Cand?
    ensures Best(a, table[0].block)
  {
    hide EraseAge, DeletedIn, UsedIn;
    var b := table[0].block;
    assert InRow(table, 0, b);
    forall c: nat | c < BLOCKS && c != b && DeletedIn(a.space.lu, c) > 0
      ensures Preferred(a.space.lu, a.ages.0, a.ages.1, a.Free() <= 0, b, c)
    {
      NoneBefore(table, c, b);
    }
  }

  lemma NoneBefore(table: seq<Cand>, a: nat, b: nat)
    requires InRow(table, 0, b)
    ensures !Outranks(table, a, b)
  {
  }

  /** What comes of a collection that goes on from `now` comes of the one from `a`. */
  ghost predicate LeadsTo(a: Layout, runs: nat, now: Layout, left: nat, len: nat)
  {
    forall c: Layout, r: Status :: Collection(now, len, left, c, r) ==> Collection(a, len, runs, c, r)
  }

  lemma LeadsOn(a: Layout, runs: nat, now: Layout, left: nat, len: nat, b: nat, next: Layout)
    requires LeadsTo(a, runs, now, left, len) && now.Ok() && next.Ok() && left > 0 && now.Deleted() > 0
    requires Best(now, b) && b < BLOCKS && Cleaned(now, b, next)
    ensures left > 1 && GoesOn(now, next, len) ==> LeadsTo(a, runs, next, left - 1, len)
    ensures !(left > 1 && GoesOn(now, next, len)) ==>
              Collection(a, len, runs, next, if len > next.Free() * DATA_SIZE then ErrFull else Ok)
  {
    assert Margin(now.space.lu, now.pg, b) >= 0;
    hide Best, Cleaned, GoesOn;
    if left > 1 && GoesOn(now, next, len) {
      forall c: Layout, r: Status | Collection(next, len, left - 1, c, r) ensures Collection(a, len, runs, c, r) {
        assert RunsOn(now, b, len, left, c, r);
        assert Collection(now, len, left, c, r);
      }
    } else {
      var r := if len > next.Free() * DATA_SIZE then ErrFull else Ok;
      assert RunsOn(now, b, len, left, next, r);
      assert Collection(now, len, left, next, r);
    }
  }

  /** The first run of a collection that does not fail. */
  lemma FirstRun(a: Layout, len: nat, runs: nat, c: Layout, r: Status) returns (b: nat, m: Layout)
    requires Collection(a, len, runs, c, r) && r != ErrNotFound && a.Deleted() > 0
    ensures b < BLOCKS && Best(a, b) && m.Ok() && Cleaned(a, b, m)
    ensures if runs > 1 && GoesOn(a, m, len) then Collection(m, len, runs - 1, c, r)
            else c == m && r == if len > m.Free() * DATA_SIZE then ErrFull else Ok
  {
    hide Best, Cleaned, Margin, NeededPages, Count, Preferred, GoesOn;
    b :| b < BLOCKS && Best(a, b) && if Margin(a.space.lu, a.pg, b) < 0 then r == ErrNotFound && NoneFree(c.space.lu)
                                     else RunsOn(a, b, len, runs, c, r);
    m :| m.Ok() && Cleaned(a, b, m)
         && if runs > 1 && GoesOn(a, m, len) then Collection(m, len, runs - 1, c, r)
            else c == m && r == if len > m.Free() * DATA_SIZE then ErrFull else Ok;
  }

  /** A collection keeps the pages in use, so what it gains in free pages are deleted ones.  It
      succeeds only with enough of them, and reports a full volume only with too few. */
  lemma {:induction false} CollectionKeeps(a: Layout, len: nat, runs: nat, c: Layout, r: Status)
    requires Collection(a, len, runs, c, r) && r != ErrNotFound
    ensures if r == Ok then len <= c.Free() * DATA_SIZE else r == ErrFull && NeededPages(len) >= c.Free()
    ensures Count(c.space.lu, IsUsed) == Count(a.space.lu, IsUsed) && c.Free() + c.Deleted() == a.Free() + a.Deleted()
    decreases runs
  {
    hide Best, Margin, NeededPages, Count, Preferred;
    if a.Deleted() == 0 {
      if NeededPages(len) < a.Free() {
        RoundUp(len, a.Free());
      }
    } else {
      var b, m := FirstRun(a, len, runs, c, r);
      if runs > 1 && GoesOn(a, m, len) {
        CollectionKeeps(m, len, runs - 1, c, r);
      } else if len > m.Free() * DATA_SIZE {
        MoreNeeded(len, m.Free());
      }
    }
  }

  /** Cleaning and erasing the best block `k` times leads from `a` to `c`. */
  ghost predicate Runs(a: Layout, k: nat, c: Layout)
    decreases k
  {
    && a.Ok() && c.Ok()
    && if k == 0 then c == a
       else exists b: nat, m: Layout :: b < BLOCKS && Best(a, b) && m.Ok() && Cleaned(a, b, m) && Runs(m, k - 1, c)
  }

  /** A run left a crammed volume with as many free pages as before. */
  ghost predicate Stuck(a: Layout, c: Layout)
  {
    a.Ok() && c.Ok() && a.Free() <= 0 && c.Free() == a.Free() && exists b: nat :: b < BLOCKS && Best(a, b) && Cleaned(a, b, c)
  }

  /** A collection has cleaned and erased `k` blocks, and has ended for a reason: after all its
      runs, with no deleted page left, with a volume that stays crammed, or with three blocks
      free and room enough. */
  ghost predicate EndsAfter(a: Layout, len: nat, runs: nat, c: Layout, k: nat)
  {
    && k <= runs && Runs(a, k, c) && (k == 0 ==> a.Deleted() == 0)
    && (k < runs ==>
          || c.Deleted() == 0
          || (k > 0 && exists p: Layout :: Runs(a, k - 1, p) && Stuck(p, c))
          || (c.space.blocks > 2 && len <= c.Free() * DATA_SIZE))
  }

  /** Every collection that does not fail has erased a block, if any page was deleted, and goes
      on until one of these reasons ends it.  A full volume is reported only for the first three. */
  lemma {:induction false} CollectionEnds(a: Layout, len: nat, runs: nat, c: Layout, r: Status)
    requires Collection(a, len, runs, c, r) && r != ErrNotFound
    ensures exists k: nat :: EndsAfter(a, len, runs, c, k)
    decreases runs
  {
    hide Best, Cleaned, Margin, NeededPages, Count, Preferred, Runs, GoesOn;
    if a.Deleted() == 0 {
      NoRunNeeded(a, len, runs);
    } else {
      var b, m := FirstRun(a, len, runs, c, r);
      if runs > 1 && GoesOn(a, m, len) {
        CollectionEnds(m, len, runs - 1, c, r);
        var k: nat :| EndsAfter(m, len, runs - 1, c, k);
        OneMoreRun(a, b, m, len, runs, c, k);
      } else {
        LastRun(a, b, m, len, runs);
      }
    }
  }

  lemma NoRunNeeded(a: Layout, len: nat, runs: nat)
    requires a.Ok() && a.Deleted() == 0 && runs > 0
    ensures EndsAfter(a, len, runs, a, 0)
  {
    assert Runs(a, 0, a);
  }

  lemma LastRun(a: Layout, b: nat, m: Layout, len: nat, runs: nat)
    requires a.Ok() && m.Ok() && b < BLOCKS && Best(a, b) && Cleaned(a, b, m) && runs > 0 && !(runs > 1 && GoesOn(a, m, len))
    ensures EndsAfter(a, len, runs, m, 1)
  {
    hide Best, Cleaned, Count;
    assert Runs(m, 0, m) && Runs(a, 0, a) && Runs(a, 1, m);
    assert a.Free() <= 0 && m.Free() == a.Free() ==> Stuck(a, m);
  }

  lemma OneMoreRun(a: Layout, b: nat, m: Layout, len: nat, runs: nat, c: Layout, k: nat)
    requires a.Ok() && m.Ok() && b < BLOCKS && Best(a, b) && Cleaned(a, b, m) && runs > 1 && EndsAfter(m, len, runs - 1, c, k)
    ensures EndsAfter(a, len, runs, c, k + 1)
  {
    hide Best, Cleaned, Count, Stuck;
    assert Runs(a, k + 1, c);
    if k > 0 && exists p: Layout :: Runs(m, k - 1, p) && Stuck(p, c) {
      var p: Layout :| Runs(m, k - 1, p) && Stuck(p, c);
      assert Runs(a, k, p);
    }
  }

  // How many pages a cleaning needs

  /** The places of the entries of one kind. */
  function OfKind(es: seq<Entry>, k: Kind): set<nat>
  {
    set i: nat | i < |es| && KindOf(es[i]) == k
  }

  lemma OfKindLast(es: seq<Entry>, k: Kind)
    requires es != []
    ensures var n := |es| - 1;
            n !in OfKind(es[..n], k) && OfKind(es, k) == OfKind(es[..n], k) + if KindOf(es[n]) == k then {n} else {}
  {
    hide KindOf;
  }

  /** The entries of one kind are as many as the recount says. */
  lemma {:induction false} CountIsSize(es: seq<Entry>, k: Kind)
    ensures Count(es, k) == |OfKind(es, k)|
  {
    hide OfKind, KindOf;
    if es == [] {
      NoneOfKind(k);
    } else {
      CountIsSize(es[..|es| - 1], k);
      OfKindLast(es, k);
    }
  }

  lemma NoneOfKind(k: Kind)
    ensures OfKind([], k) == {}
  {
  }

  /** Different keys with different values are no more than the values. */
  lemma {:induction false} Injected(f: map<nat, nat>, values: set<nat>)
    requires forall x :: x in f ==> f[x] in values
    requires forall x, y :: x in f && y in f && f[x] == f[y] ==> x == y
    ensures |f.Keys| <= |values|
    decreases |f.Keys|
  {
    if f.Keys != {} {
      var x :| x in f.Keys;
      var g := f - {x};
      assert g.Keys == f.Keys - {x};
      Injected(g, values - {f[x]});
    }
  }

  /** The entry of a page in block `b` that an index page refers to. */
  ghost function EntryReferred(p: Page, b: nat): (i: nat)
    requires RefersInto(p, b)
    ensures exists e: nat :: e < |p.table| && p.table[e] == At(Base(b) + i) && i < ENTRIES
  {
    var e :| 0 <= e < |p.table| && p.table[e].At? && InBlockOf(b, p.table[e].slot);
    assert p.table[e] == At(Base(b) + (p.table[e].slot - Base(b)));
    p.table[e].slot - Base(b)
  }

  /** The page an index page refers to is in use and belongs to the same file and index page. */
  lemma ReferredIsUsed(lu: seq<Entry>, pg: seq<Page>, cat: Catalogue, b: nat, x: nat)
    requires Holds(lu, pg, cat) && b < BLOCKS && x in Referring(lu, pg, b)
    ensures RefersInto(pg[x], b)
    ensures var t := Base(b) + EntryReferred(pg[x], b);
            && t < SLOTS && lu[t].Used? && BlockEntries(lu, b)[t - Base(b)] == lu[t]
            && IsDataOf(lu, pg, t, lu[x].id, pg[x].hdr.span) && lu[x].id in cat && pg[x].hdr.span < |cat[lu[x].id].ixs|
            && cat[lu[x].id].ixs[pg[x].hdr.span] == x
  {
    TimesMono(b, BLOCKS, ENTRIES);
    var id := lu[x].id;
    assert SlotOk(lu, pg, cat, x);
    assert FileOk(lu, pg, id, cat[id]);
    assert IndexOk(lu, pg, id, cat[id], pg[x].hdr.span);
    var e: nat :| e < |pg[x].table| && pg[x].table[e] == At(Base(b) + EntryReferred(pg[x], b));
    ReferenceIsData(lu, pg, cat, id, pg[x].hdr.span, e);
  }

  lemma ReferredOnce(lu: seq<Entry>, pg: seq<Page>, cat: Catalogue, b: nat, x: nat, y: nat)
    requires Holds(lu, pg, cat) && b < BLOCKS && x in Referring(lu, pg, b) && y in Referring(lu, pg, b)
    requires EntryReferred(pg[x], b) == EntryReferred(pg[y], b)
    ensures x == y
  {
    hide Holds, EntryReferred, BlockEntries, RefersInto;
    ReferredIsUsed(lu, pg, cat, b, x);
    ReferredIsUsed(lu, pg, cat, b, y);
  }

  /** No more index pages refer to a block than pages in it are in use. */
  lemma FewReferring(lu: seq<Entry>, pg: seq<Page>, cat: Catalogue, b: nat)
    requires Holds(lu, pg, cat) && b < BLOCKS
    ensures |Referring(lu, pg, b)| <= UsedIn(lu, b)
  {
    var ref, es := Referring(lu, pg, b), BlockEntries(lu, b);
    var values := OfKind(es, IsUsed);
    CountIsSize(es, IsUsed);
    var f := map x | x in ref :: EntryReferred(pg[x], b);
    hide Holds, RefersInto, EntryReferred, IsDataOf, BlockEntries, Count;
    forall x | x in f ensures f[x] in values {
      ReferredIsUsed(lu, pg, cat, b, x);
    }
    forall x, y | x in f && y in f && f[x] == f[y] ensures x == y {
      ReferredOnce(lu, pg, cat, b, x, y);
    }
    assert f.Keys == ref;
    Injected(f, values);
  }

  lemma {:induction false} KindsAddUp(es: seq<Entry>)
    ensures Count(es, IsFree) + Count(es, IsDeleted) + Count(es, IsUsed) == |es|
  {
    if es != [] {
      KindsAddUp(es[..|es| - 1]);
    }
  }

  lemma AllSlots()
    ensures SLOTS == ENTRIES * (BLOCKS - 2) + 2 * ENTRIES
  {
    TimesIsProduct(BLOCKS, ENTRIES);
  }

  /** The free pages beside two blocks, and twice the deleted pages of a block, suffice to clean it. */
  lemma MarginEnough(a: Layout, cat: Catalogue, b: nat)
    requires a.Ok() && Holds(a.space.lu, a.pg, cat) && b < BLOCKS
    ensures Margin(a.space.lu, a.pg, b) >= a.Free() + 2 * DeletedIn(a.space.lu, b)
  {
    FewReferring(a.space.lu, a.pg, cat, b);
    hide Referring, Count, Holds;
    KindsAddUp(a.space.lu);
    KindsAddUp(BlockEntries(a.space.lu, b));
    AllSlots();
  }

  lemma OnePreferred(lu: seq<Entry>, eraseCount: seq<nat>, maxEraseCount: nat, crammed: bool, b: nat, c: nat)
    requires |lu| == SLOTS && |eraseCount| == BLOCKS && b < BLOCKS && c < BLOCKS
    ensures !(Preferred(lu, eraseCount, maxEraseCount, crammed, b, c) && Preferred(lu, eraseCount, maxEraseCount, crammed, c, b))
  {
  }

  /** Of two blocks with deleted pages only one can be the best. */
  lemma BestIsOne(a: Layout, b: nat, c: nat)
    requires a.Ok() && Best(a, b) && Best(a, c)
    ensures b == c
  {
    hide EraseAge, DeletedIn, UsedIn;
    OnePreferred(a.space.lu, a.ages.0, a.ages.1, a.Free() <= 0, b, c);
  }

  /** A volume that is not short of free pages by more than twice the deleted pages of its best
      block gets that block back, and if then three blocks are free and the free pages hold
      `len` bytes, the collection ends with success. */
  lemma RoomMade(a: Layout, cat: Catalogue, len: nat, runs: nat, c: Layout, r: Status, b: nat)
    returns (m: Layout)
    requires Collection(a, len, runs, c, r) && Holds(a.space.lu, a.pg, cat) && a.Deleted() > 0 && b < BLOCKS && Best(a, b)
    requires a.Free() + 2 * DeletedIn(a.space.lu, b) >= 0
    ensures m.Ok() && Cleaned(a, b, m)
    ensures m.Free() == a.Free() + DeletedIn(a.space.lu, b) - |Referring(a.space.lu, a.pg, b)|
    ensures m.space.blocks > 2 && len <= m.Free() * DATA_SIZE ==> c == m && r == Ok
  {
    MarginEnough(a, cat, b);
    hide Best, Cleaned, Margin, Holds, Count, Referring, DeadOutside, DeletedIn, NeededPages;
    BestRuns(a, len, runs, c, r, b);
    m :| m.Ok() && Cleaned(a, b, m)
         && if runs > 1 && GoesOn(a, m, len) then Collection(m, len, runs - 1, c, r)
            else c == m && r == if len > m.Free() * DATA_SIZE then ErrFull else Ok;
    GainOf(a, b, m);
  }

  lemma GainOf(a: Layout, b: nat, m: Layout)
    requires a.Ok() && m.Ok() && b < BLOCKS && Cleaned(a, b, m)
    ensures m.Free() == a.Free() + DeletedIn(a.space.lu, b) - |Referring(a.space.lu, a.pg, b)|
  {
  }

  lemma BestRuns(a: Layout, len: nat, runs: nat, c: Layout, r: Status, b: nat)
    requires Collection(a, len, runs, c, r) && a.Deleted() > 0 && b < BLOCKS && Best(a, b)
    requires Margin(a.space.lu, a.pg, b) >= 0
    ensures RunsOn(a, b, len, runs, c, r)
  {
    hide Best, Margin, RunsOn, Count;
    var b2: nat :| b2 < BLOCKS && Best(a, b2) && if Margin(a.space.lu, a.pg, b2) < 0 then r == ErrNotFound && NoneFree(c.space.lu)
                                                 else RunsOn(a, b2, len, runs, c, r);
    BestIsOne(a, b, b2);
  }

  lemma LeadsFrom(a: Layout, runs: nat, len: nat)
    ensures LeadsTo(a, runs, a, runs, len)
  {
  }

  lemma LeadsToEnd(a: Layout, runs: nat, now: Layout, left: nat, len: nat, c: Layout, r: Status)
    requires LeadsTo(a, runs, now, left, len) && now.Ok() && c.Ok() && left > 0
    requires (now.Deleted() == 0 && c == now && r == if NeededPages(len) < now.Free() then Ok else ErrFull)
             || Collection(now, len, left, c, r)
    ensures Collection(a, len, runs, c, r)
  {
    hide Best, Margin, RunsOn, NeededPages, Count;
    assert Collection(now, len, left, c, r);
  }

  /** A run that fails. */
  lemma NoRun(now: Layout, b: nat, len: nat, left: nat, c: Layout)
    requires now.Ok() && c.Ok() && left > 0 && now.Deleted() > 0 && Best(now, b) && b < BLOCKS
    requires Margin(now.space.lu, now.pg, b) < 0 && NoneFree(c.space.lu)
    ensures Collection(now, len, left, c, ErrNotFound)
  {
    hide Best, Margin, Count;
  }

  lemma NoneDeletedIn(lu: seq<Entry>, b: nat, s: nat)
    requires |lu| == SLOTS && b < BLOCKS && s < SLOTS && InBlockOf(b, s) && Count(BlockEntries(lu, b), IsDeleted) == 0
    ensures !lu[s].Deleted?
  {
    TimesMono(b, BLOCKS, ENTRIES);
    NoneCounted(BlockEntries(lu, b), IsDeleted);
    assert BlockEntries(lu, b)[s - Base(b)] == lu[s];
  }

  /** Without a candidate no page is deleted. */
  lemma NoCandidate(fs: Spiffs, crammed: bool)
    requires fs.LookupOk() && |fs.eraseCount| == BLOCKS && CandsBelow(fs.lu, fs.eraseCount, fs.maxEraseCount, crammed, BLOCKS) == []
    ensures fs.pDeleted == 0
  {
    hide FlashState, FreeSuffix, Buried, CursorOk, CandsBelow, FreeBlocks;
    forall s: nat | s < SLOTS ensures !fs.lu[s].Deleted? {
      BlockBounds(s);
      CandIn(fs.lu, fs.eraseCount, fs.maxEraseCount, crammed, BLOCKS, BlockOf(s));
      NoneDeletedIn(fs.lu, BlockOf(s), s);
    }
    CountNone(fs.lu, IsDeleted);
  }

  // ---------------------------------------------------------------------------
  // Cleaning and erasing

  /** Takes the pages of a block that is about to be erased out of the statistics. */
  method ErasePageStats(fs: Spiffs, b: nat)
    requires Sizes(fs.lu, fs.pg) && b < BLOCKS
    modifies fs`pAllocated, fs`pDeleted
    ensures fs.pAllocated == old(fs.pAllocated) - Count(BlockEntries(fs.lu, b), IsUsed)
    ensures fs.pDeleted == old(fs.pDeleted) - Count(BlockEntries(fs.lu, b), IsDeleted)
  {
    var es := BlockEntries(fs.lu, b);
    TimesMono(b, BLOCKS, ENTRIES);
    var dele, allo, curEntry := 0, 0, 0;
    while curEntry < ENTRIES
      invariant curEntry <= ENTRIES
      invariant dele == Count(es[..curEntry], IsDeleted) && allo == Count(es[..curEntry], IsUsed)
    {
      assert es[..curEntry + 1][..curEntry] == es[..curEntry];
      if es[curEntry].Free? {
      } else if es[curEntry].Deleted? {
        dele := dele + 1;
      } else {
        allo := allo + 1;
      }
      curEntry := curEntry + 1;
    }
    assert es[..ENTRIES] == es;
    fs.pAllocated := fs.pAllocated - allo;
    fs.pDeleted := fs.pDeleted - dele;
  }

  /** Erasing an evacuated block that was not empty, with the statistics adjusted. */
  lemma EraseKeepsState(lu: seq<Entry>, pg: seq<Page>, nUsed: int, nDeleted: int, nFreeBlocks: int,
                        block: nat, entry: nat, b: nat)
    requires LookupState(lu, pg, nUsed, nDeleted, nFreeBlocks, block, entry)
    requires b < BLOCKS && Evacuated(lu, b) && block != b && Base(b) < SLOTS && !lu[Base(b)].Free?
    ensures Count(BlockEntries(lu, b), IsUsed) == 0
    ensures LookupState(BlockErased(lu, b), PagesErased(pg, b), nUsed,
                        nDeleted - Count(BlockEntries(lu, b), IsDeleted), nFreeBlocks + 1, block, entry)
  {
    hide FlashState, BlockErased, PagesErased, FreeSuffix, Buried, KeptBut, CursorOk;
    EraseKeeps(lu, pg, b);
    EraseKeepsCursor(lu, b, block, entry);
    CountNone(BlockEntries(lu, b), IsUsed);
  }

  lemma EraseKeepsFiles(lu: seq<Entry>, pg: seq<Page>, cat: Catalogue, b: nat)
    requires Holds(lu, pg, cat) && b < BLOCKS && Evacuated(lu, b)
    ensures Holds(BlockErased(lu, b), PagesErased(pg, b), cat)
    ensures Files(PagesErased(pg, b), cat) == Files(pg, cat)
  {
    var lu', pg' := BlockErased(lu, b), PagesErased(pg, b);
    forall t: nat | t < SLOTS ensures Kept(lu, pg, lu', pg', t) {
      assert SlotOk(lu, pg, cat, t);
    }
    WipeStep(lu, pg, cat, lu', pg');
  }

  lemma DeletedMeansTaken(lu: seq<Entry>, lu': seq<Entry>, b: nat)
    requires |lu| == |lu'| == SLOTS && b < BLOCKS && FreeSuffix(lu) && StillTaken(lu, lu')
    requires Count(BlockEntries(lu, b), IsDeleted) > 0
    ensures Base(b) < SLOTS && !lu'[Base(b)].Free?
  {
    var es := BlockEntries(lu, b);
    TimesMono(b, BLOCKS, ENTRIES);
    if lu[Base(b)].Free? {
      forall i | 0 <= i < ENTRIES ensures es[i].Free? {
        InBlock(b, Base(b));
        InBlock(b, Base(b) + i);
        assert lu[Base(b) + i] == es[i];
      }
      CountAll(es, IsFree);
    }
  }

  /** The block that has been emptied is erased. */
  lemma CleanedUp(a: Layout, lu: seq<Entry>, b: nat, c: Layout)
    requires a.Ok() && c.Ok() && |lu| == SLOTS && b < BLOCKS && MovedOut(a.space.lu, a.pg, lu, b)
    requires Margin(a.space.lu, a.pg, b) >= 0 && c.space.lu == BlockErased(lu, b)
    requires Count(c.space.lu, IsUsed) == Count(a.space.lu, IsUsed)
    requires c.ages == (a.ages.0[b := a.ages.1], if a.ages.1 + 1 == 0x8000 then 0 else a.ages.1 + 1)
    ensures Cleaned(a, b, c)
  {
    hide Margin, Referring, Count, BlockErased, DeletedSlots, DeadOutside;
    TimesMono(b, BLOCKS, ENTRIES);
    ErasedCount(lu, b);
    ErasedIsFree(lu, b);
  }

  lemma ErasedIsFree(lu: seq<Entry>, b: nat)
    requires |lu| == SLOTS && b < BLOCKS
    ensures DeletedSlots(BlockErased(lu, b)) == DeadOutside(lu, b)
    ensures forall t: nat :: t < SLOTS && InBlockOf(b, t) ==> BlockErased(lu, b)[t].Free?
  {
  }

  /** Cleans and erases a block that holds a deleted page, if the free pages outside it
      suffice: no file changes, and the volume is as a run of a collection leaves it. */
  method CleanBlock(fs: Spiffs, b: nat, buffer: Page) returns (r: Status, work: Page)
    requires fs.LookupOk() && !fs.cleaning && b < BLOCKS
    requires Count(BlockEntries(fs.lu, b), IsDeleted) > 0
    requires Steady(fs, Files(fs.pg, fs.cat))
    modifies fs
    ensures r != Ok ==> r == ErrNotFound && NoneFree(fs.lu) && Behind(fs, Files(old(fs.pg), old(fs.cat)))
    ensures fs.LookupOk() && !fs.cleaning && fs.start == old(fs.start)
    ensures r == Ok ==>
              && Steady(fs, Files(old(fs.pg), old(fs.cat)))
              && fs.pAllocated == old(fs.pAllocated) && FdsKept(old(fs.fds), fs.fds)
              && (forall t: nat :: Base(b) <= t < Base(b) + ENTRIES && t < SLOTS ==> fs.lu[t].Free?)
              && (work == buffer || IsIndexImage(fs.cat, work))
    ensures old(LayoutOf(fs)).Ok() && LayoutOf(fs).Ok()
    ensures r == Ok <==> old(Margin(fs.lu, fs.pg, b)) >= 0
    ensures r == Ok ==> Cleaned(old(LayoutOf(fs)), b, LayoutOf(fs))
  {
    hide Margin, MovedOut, Cleaned, FlashState, Count, Holds, FdsPagesOk, FdsSizesOk, Tight, StillTaken, IsIndexImage, FdsKept, Counted, CursorOk, Buried, Evacuated;
    ghost var a := LayoutOf(fs);
    LayoutOk(fs);
    fs.cleaning := true;
    r, work := Clean(fs, b, buffer);
    fs.cleaning := false;
    if r != Ok {
      LayoutOk(fs);
      return;
    }
    ghost var lu1 := fs.lu;
    DeletedMeansTaken(old(fs.lu), fs.lu, b);
    EraseCleaned(fs, b);
    LayoutOk(fs);
    UsedCounted(fs);
    CleanedUp(a, lu1, b, LayoutOf(fs));
  }

  lemma UsedCounted(fs: Spiffs)
    requires fs.LookupOk()
    ensures fs.pAllocated == Count(fs.lu, IsUsed)
  {
  }

  /** Erases a block that has been emptied. */
  method EraseCleaned(fs: Spiffs, b: nat)
    requires fs.LookupOk() && b < BLOCKS && Evacuated(fs.lu, b) && fs.freeBlock != b
    requires Base(b) < SLOTS && !fs.lu[Base(b)].Free? && Steady(fs, Files(fs.pg, fs.cat))
    modifies fs`lu, fs`pg, fs`flash, fs`trace, fs`freeBlocks, fs`eraseCount, fs`maxEraseCount, fs`pAllocated, fs`pDeleted
    ensures fs.LookupOk() && Steady(fs, Files(old(fs.pg), old(fs.cat))) && fs.pAllocated == old(fs.pAllocated)
    ensures fs.lu == BlockErased(old(fs.lu), b)
    ensures fs.Ages() == (old(fs.eraseCount)[b := old(fs.maxEraseCount)],
                          if old(fs.maxEraseCount) + 1 == 0x8000 then 0 else old(fs.maxEraseCount) + 1)
    ensures forall t: nat :: Base(b) <= t < Base(b) + ENTRIES && t < SLOTS ==> fs.lu[t].Free?
  {
    hide FlashState, Count, Holds, FdsPagesOk, FdsSizesOk, Tight, Evacuated;
    EraseKeepsState(fs.lu, fs.pg, fs.pAllocated, fs.pDeleted, fs.freeBlocks, fs.freeBlock, fs.freeEntry, b);
    EraseKeepsFiles(fs.lu, fs.pg, fs.cat, b);
    ErasePageStats(fs, b);
    fs.EraseBlock(b);
  }

  function FreePages(fs: Spiffs): int
    reads fs`pAllocated, fs`pDeleted
  {
    ENTRIES * (BLOCKS - 2) - fs.pAllocated - fs.pDeleted
  }

  /** Pages that `len` bytes need. */
  function NeededPages(len: nat): nat
  {
    (len + DATA_SIZE - 1) / DATA_SIZE
  }

  /** Room is scarce for `len` bytes: at most two blocks are free, or the free pages are
      no more than those needed. */
  ghost predicate Scarce(fs: Spiffs, len: nat)
    reads fs`freeBlocks, fs`pAllocated, fs`pDeleted
  {
    fs.freeBlocks <= 2 || NeededPages(len) >= FreePages(fs)
  }

  lemma Scarcer(fs: Spiffs, a: nat, b: nat)
    requires a <= b && Scarce(fs, a)
    ensures Scarce(fs, b)
  {
    hide NeededPages;
    NeededLess(a, b);
  }

  lemma NeededLess(a: nat, b: nat)
    requires a <= b
    ensures NeededPages(a) <= NeededPages(b)
  {
    var p, q := (a + DATA_SIZE - 1) / DATA_SIZE, (b + DATA_SIZE - 1) / DATA_SIZE;
    if q < p {
      assert p * DATA_SIZE <= a + DATA_SIZE - 1 && b + DATA_SIZE - 1 < q * DATA_SIZE + DATA_SIZE;
      MulStep(q, p, DATA_SIZE);
    }
  }

  /** The collector has nothing to do for `len` bytes. */
  ghost predicate Quiet(fs: Spiffs, len: nat)
    reads fs`freeBlocks, fs`pAllocated, fs`pDeleted
  {
    fs.freeBlocks > 3 && len < FreePages(fs) * DATA_SIZE
  }

  /** The collector refuses `len` bytes at once. */
  ghost predicate Hopeless(fs: Spiffs, len: nat)
    reads fs`freeBlocks, fs`pAllocated, fs`pDeleted
  {
    !Quiet(fs, len) && NeededPages(len) > FreePages(fs) + fs.pDeleted
  }

  /** There is room for `len` bytes as it is: the collector has nothing to do, or nothing
      that it could erase. */
  ghost predicate Roomy(fs: Spiffs, len: nat)
    reads fs`freeBlocks, fs`pAllocated, fs`pDeleted
  {
    Quiet(fs, len) || (fs.pDeleted == 0 && NeededPages(len) < FreePages(fs))
  }

  /** The collection an operation on a file starts with: what it reported, how it left the
      volume, and where the pages of the file were then. */
  datatype Gathering = Gathering(r: Status, after: Layout, file: File)

  /** Such a collection for `len` bytes leads from `a` to `gc.after`, where file `id` is in the
      places `gc.file`. */
  ghost predicate Gathers(a: Layout, len: nat, gc: Gathering, id: nat)
  {
    && Collected(a, len, gc.after, gc.r)
    && (gc.r == Ok ==> exists cat: Catalogue :: Holds(gc.after.space.lu, gc.after.pg, cat) && id in cat && cat[id] == gc.file)
  }

  lemma HasGathered(fs: Spiffs, a: Layout, len: nat, id: nat, r: Status, files: map<nat, FileView>)
    requires Collected(a, len, LayoutOf(fs), r)
    requires r == Ok ==> Steady(fs, files) && id in files
    ensures r == Ok ==> id in fs.cat
    ensures Gathers(a, len, Gathering(r, LayoutOf(fs), if id in fs.cat then fs.cat[id] else File("", None, [], [])), id)
  {
    hide Collected, Holds;
    assert Files(fs.pg, fs.cat).Keys == fs.cat.Keys;
  }

  /** What comes of a collection for `len` bytes and of one page that is taken after it: it
      fails as the collection does, and otherwise only if no page can be had then. */
  ghost predicate PageAfter(a: Layout, len: nat, r: Status)
  {
    exists c: Layout, g: Status ::
      Collected(a, len, c, g) && r == if g != Ok then g else if c.space.CanTake() then Ok else ErrFull
  }

  lemma PageTaken(a: Layout, len: nat, c: Layout, g: Status, r: Status)
    requires Collected(a, len, c, g) && r == if g != Ok then g else if c.space.CanTake() then Ok else ErrFull
    ensures PageAfter(a, len, r)
  {
    hide Collected, NoneFree, AnyDeletedBlock;
  }

  /** Makes room for `len` bytes if it must, by cleaning the best blocks one after another.
      If it succeeds no file has changed and the pages left hold at least `len` bytes.  It reports a full volume only if the
      free pages left are not more than those needed.  `work` is what it leaves in the
      work buffer, which held `buffer`: that same page if it has nothing to do or refuses
      at once, nothing but erased bytes if no page is deleted, and otherwise what the
      search for blocks or the cleaning of the last one left there. */
  method GcCheck(fs: Spiffs, len: nat, buffer: Page) returns (r: Status, work: Page)
    requires fs.LookupOk() && !fs.cleaning
    requires Steady(fs, Files(fs.pg, fs.cat))
    modifies fs
    ensures fs.LookupOk() && !fs.cleaning && fs.start == old(fs.start)
    ensures r == Ok ==>
              && Steady(fs, Files(old(fs.pg), old(fs.cat)))
              && fs.pAllocated == old(fs.pAllocated) && FdsKept(old(fs.fds), fs.fds)
              && len <= FreePages(fs) * DATA_SIZE
    ensures old(Quiet(fs, len)) ==> r == Ok && unchanged(fs) && work == buffer
    ensures old(Hopeless(fs, len)) ==> r == ErrFull && unchanged(fs) && work == buffer
    ensures !old(Quiet(fs, len)) && !old(Hopeless(fs, len)) && old(fs.pDeleted) == 0 ==>
              && unchanged(fs) && work == Erased
              && r == if NeededPages(len) < FreePages(fs) then Ok else ErrFull
    ensures !old(Quiet(fs, len)) && r == Ok && BLOCKS <= 128 && PassesForHeader(work) ==> IsIndexImage(fs.cat, work)
    ensures r != Ok ==> (r == ErrNotFound && NoneFree(fs.lu)) || (r == ErrFull && NeededPages(len) >= FreePages(fs))
    ensures r == ErrFull ==> Steady(fs, Files(old(fs.pg), old(fs.cat))) && FdsKept(old(fs.fds), fs.fds)
    ensures r == ErrNotFound ==> Behind(fs, Files(old(fs.pg), old(fs.cat)))
    ensures r != Ok ==> Scarce(fs, len)
    ensures Collected(old(LayoutOf(fs)), len, LayoutOf(fs), r)
  {
    hide Collection, FlashState, Count, FreeBlocks, Holds, FdsPagesOk, FdsSizesOk, Tight, Counted, FreeSuffix, CursorOk, FdsKept, NeededPages, IsIndexImage;
    FdsKeptSelf(fs.fds);
    work := buffer;
    LayoutOk(fs);
    var freePages := FreePages(fs);
    if fs.freeBlocks > 3 && len < freePages * DATA_SIZE {
      return Ok, buffer;
    }
    if NeededPages(len) > freePages + fs.pDeleted {
      DeletedIsCount(fs);
      return ErrFull, buffer;
    }
    r, work := Collect(fs, len, buffer);
    LayoutOk(fs);
    if r == ErrNotFound {
      NothingFree(fs);
    }
  }

  lemma NothingFree(fs: Spiffs)
    requires fs.LookupOk() && NoneFree(fs.lu)
    ensures fs.freeBlocks == 0
  {
    NoneFreeBlocks(fs.lu, fs.pAllocated, fs.pDeleted, fs.freeBlocks);
  }

  lemma DeletedIsCount(fs: Spiffs)
    requires fs.LookupOk()
    ensures fs.pDeleted >= 0
  {
  }

  /** A block that holds a deleted page adds to the number of deleted pages. */
  lemma DeletedSomewhere(fs: Spiffs, b: nat)
    requires fs.LookupOk() && b < BLOCKS && Count(BlockEntries(fs.lu, b), IsDeleted) > 0
    ensures fs.pDeleted > 0
  {
    hide FlashState, FreeSuffix, Buried, CursorOk, Count, BlockEntries;
    BlockCount(fs.lu, b, IsDeleted);
  }

  lemma BlockCount(lu: seq<Entry>, b: nat, k: Kind)
    requires |lu| == SLOTS && b < BLOCKS
    ensures Count(BlockEntries(lu, b), k) <= Count(lu, k)
  {
    hide Count;
    TimesMono(b, BLOCKS, ENTRIES);
    var lo, hi := Base(b), Base(b) + ENTRIES;
    assert lu == lu[..lo] + lu[lo..hi] + lu[hi..];
    CountConcat(lu[..lo] + lu[lo..hi], lu[hi..], k);
    CountConcat(lu[..lo], lu[lo..hi], k);
  }

  /** A row of the table that is taken is a block. */
  lemma RowIsBlock(lu: seq<Entry>, eraseCount: seq<nat>, maxEraseCount: nat, crammed: bool, table: seq<Cand>, i: nat)
    requires |lu| == SLOTS && |eraseCount| == BLOCKS && i < |table| && table[i].Cand?
    requires Holding(table, Take(Sorted(CandsBelow(lu, eraseCount, maxEraseCount, crammed, BLOCKS)), |table|))
    ensures table[i].block < BLOCKS
  {
    hide Insert, Sorted, CandsBelow, Count, BlockCand;
    var all := CandsBelow(lu, eraseCount, maxEraseCount, crammed, BLOCKS);
    var sorted := Sorted(all);
    SortedIsOrdered(all);
    assert table[i] == sorted[i];
    assert sorted[i] in multiset(sorted);
    CandIs(lu, eraseCount, maxEraseCount, crammed, BLOCKS, sorted[i]);
  }

  /** The bytes of a table of candidates at the place of a page header: the second block
      is at the place of the span, the third one at that of the flags. */
  predicate TablePasses(table: seq<Cand>)
  {
    && |table| >= 3 && table[1].Cand? && table[1].block == 0 && table[2].Cand?
    && table[2].block % 8 == 0 && table[2].block % 0x100 >= 0x80
  }

  /** The third row of a table that passes names a block with a number above 127. */
  lemma PassingTable(fs: Spiffs, crammed: bool, table: seq<Cand>)
    requires Sizes(fs.lu, fs.pg) && |fs.eraseCount| == BLOCKS
    requires Holding(table, Take(Sorted(CandsBelow(fs.lu, fs.eraseCount, fs.maxEraseCount, crammed, BLOCKS)), |table|))
    ensures TablePasses(table) ==> BLOCKS > 128
  {
    hide Holding, Take, Sorted, CandsBelow;
    if TablePasses(table) {
      RowIsBlock(fs.lu, fs.eraseCount, fs.maxEraseCount, crammed, table, 2);
    }
  }

  /** What a table of candidates in the work buffer is when it is taken for a page: any
      page, as long as it passes for a header exactly if the bytes of the table do. */
  method TableBytes(fs: Spiffs, ghost crammed: bool, table: seq<Cand>) returns (work: Page)
    requires Sizes(fs.lu, fs.pg) && |fs.eraseCount| == BLOCKS
    requires Holding(table, Take(Sorted(CandsBelow(fs.lu, fs.eraseCount, fs.maxEraseCount, crammed, BLOCKS)), |table|))
    ensures PassesForHeader(work) <==> TablePasses(table)
    ensures PassesForHeader(work) ==> BLOCKS > 128
  {
    hide TablePasses;
    PassingTable(fs, crammed, table);
    hide Holding, Take, Sorted, CandsBelow;
    var any: Page := *;
    work := if PassesForHeader(any) == TablePasses(table) then any
            else if TablePasses(table) then IndexPage(LiveHeader(0, true, 0), None, "", [])
            else Erased;
  }

  /** A run of a collection: cleans and erases the best block, unless no block holds a
      deleted page. */
  method CleanBest(fs: Spiffs, crammed: bool) returns (r: Status, found: bool, work: Page, ghost b: nat)
    requires fs.LookupOk() && !fs.cleaning && crammed == (FreePages(fs) <= 0)
    requires Steady(fs, Files(fs.pg, fs.cat))
    modifies fs
    ensures fs.LookupOk() && !fs.cleaning && fs.start == old(fs.start)
    ensures old(LayoutOf(fs)).Ok() && LayoutOf(fs).Ok() && (found <==> old(fs.pDeleted) > 0)
    ensures !found ==> r == Ok && unchanged(fs) && work == Erased
    ensures found ==> b < BLOCKS && Best(old(LayoutOf(fs)), b)
    ensures r == Ok <==> !found || old(Margin(fs.lu, fs.pg, b)) >= 0
    ensures r != Ok ==> r == ErrNotFound && NoneFree(fs.lu) && Behind(fs, Files(old(fs.pg), old(fs.cat)))
    ensures found && r == Ok ==>
              && Steady(fs, Files(old(fs.pg), old(fs.cat))) && Cleaned(old(LayoutOf(fs)), b, LayoutOf(fs))
              && fs.pAllocated == old(fs.pAllocated) && FdsKept(old(fs.fds), fs.fds)
              && (BLOCKS <= 128 && PassesForHeader(work) ==> IsIndexImage(fs.cat, work))
  {
    hide Cleaned, Margin, Ranked, FlashState, IsIndexImage, Count, FreeBlocks, Holds, FdsPagesOk, FdsSizesOk, Tight, Counted, FreeSuffix, CursorOk, FdsKept, Preferred, Behind, NoneFree;
    ghost var a := LayoutOf(fs);
    LayoutOk(fs);
    r, work, found, b := Ok, Erased, false, 0;
    var table, count := FindCandidate(fs, crammed);
    if count == 0 {
      NoCandidate(fs, crammed);
      return;
    }
    found := true;
    BestCandidate(fs.lu, fs.eraseCount, fs.maxEraseCount, crammed, table);
    DeletedSomewhere(fs, table[0].block);
    FirstIsBest(a, table);
    b := table[0].block;
    work := TableBytes(fs, crammed, table);
    assert fs.Space() == a.space && fs.pg == a.pg && fs.Ages() == a.ages;
    r, work := CleanBlock(fs, table[0].block, work);
  }

  /** Cleans the best block until there is room, at most `MAX_RUNS` times. */
  method Collect(fs: Spiffs, len: nat, buffer: Page) returns (r: Status, work: Page)
    requires fs.LookupOk() && !fs.cleaning
    requires Steady(fs, Files(fs.pg, fs.cat))
    modifies fs
    ensures fs.LookupOk() && !fs.cleaning && fs.start == old(fs.start)
    ensures r == Ok ==>
              && Steady(fs, Files(old(fs.pg), old(fs.cat)))
              && fs.pAllocated == old(fs.pAllocated) && FdsKept(old(fs.fds), fs.fds)
              && len <= FreePages(fs) * DATA_SIZE
    ensures r != Ok ==> (r == ErrNotFound && NoneFree(fs.lu)) || (r == ErrFull && NeededPages(len) >= FreePages(fs))
    ensures r == ErrNotFound ==> Behind(fs, Files(old(fs.pg), old(fs.cat)))
    ensures old(fs.pDeleted) == 0 ==>
              unchanged(fs) && work == Erased && r == if NeededPages(len) < FreePages(fs) then Ok else ErrFull
    ensures r == Ok && BLOCKS <= 128 && PassesForHeader(work) ==> IsIndexImage(fs.cat, work)
    ensures r == ErrFull ==> Steady(fs, Files(old(fs.pg), old(fs.cat))) && FdsKept(old(fs.fds), fs.fds)
    ensures Collection(old(LayoutOf(fs)), len, 5, LayoutOf(fs), r)
  {
    hide Collection, Cleaned, Best, Margin, LeadsTo, FlashState, LookupState, IsIndexImage, Count, Holds, FdsPagesOk, FdsSizesOk, Tight, FdsKept, NeededPages, Behind, NoneFree;
    FdsKeptSelf(fs.fds);
    r, work := Ok, buffer;
    var freePages := FreePages(fs);
    var tries, again := 0, true;
    ghost var a, now := LayoutOf(fs), LayoutOf(fs);
    LeadsFrom(a, 5, len);
    while again
      invariant tries <= MAX_RUNS && (again ==> tries < MAX_RUNS)
      invariant fs.LookupOk() && !fs.cleaning && fs.start == old(fs.start)
      invariant Steady(fs, Files(old(fs.pg), old(fs.cat))) && fs.pAllocated == old(fs.pAllocated) && FdsKept(old(fs.fds), fs.fds)
      invariant freePages == FreePages(fs) && now == LayoutOf(fs)
      invariant again && tries == 0 ==> unchanged(fs)
      invariant old(fs.pDeleted) == 0 ==> again && tries == 0
      invariant (tries > 0 || !again) && BLOCKS <= 128 && PassesForHeader(work) ==> IsIndexImage(fs.cat, work)
      invariant again ==> LeadsTo(a, 5, now, 5 - tries, len)
      invariant !again ==> Collection(a, len, 5, now, if len > freePages * DATA_SIZE then ErrFull else Ok)
      decreases MAX_RUNS - tries, again
    {
      var prevFreePages := freePages;
      ghost var last, left, fds1 := now, 5 - tries, fs.fds;
      LayoutOk(fs);
      var found;
      ghost var best;
      r, found, work, best := CleanBest(fs, freePages <= 0);
      now := LayoutOf(fs);
      LayoutOk(fs);
      if !found {
        r := if NeededPages(len) < freePages then Ok else ErrFull;
        LeadsToEnd(a, 5, now, left, len, now, r);
        if r == Ok {
          RoundUp(len, freePages);
        }
        return;
      }
      if r != Ok {
        NoRun(last, best, len, left, now);
        LeadsToEnd(a, 5, last, left, len, now, r);
        return;
      }
      LeadsOn(a, 5, last, left, len, best, now);
      FdsKeptChain(old(fs.fds), fds1, fs.fds);
      freePages := FreePages(fs);
      if prevFreePages <= 0 && prevFreePages == freePages {
        again := false;
      } else {
        tries := tries + 1;
        again := tries < MAX_RUNS && (fs.freeBlocks <= 2 || len > freePages * DATA_SIZE);
      }
      assert again == (left > 1 && GoesOn(last, now, len));
    }
    if len > freePages * DATA_SIZE {
      MoreNeeded(len, freePages);
      return ErrFull, work;
    }
    return Ok, work;
  }

  lemma MoreNeeded(len: nat, pages: int)
    requires len > pages * DATA_SIZE
    ensures NeededPages(len) >= pages
  {
    if NeededPages(len) < pages {
      RoundUp(len, pages);
    }
  }

  lemma RoundUp(len: nat, pages: int)
    requires NeededPages(len) < pages
    ensures len <= pages * DATA_SIZE
  {
    var q := (len + DATA_SIZE - 1) / DATA_SIZE;
    assert len + DATA_SIZE - 1 < q * DATA_SIZE + DATA_SIZE;
    MulStep(q, pages, DATA_SIZE);
  }
}

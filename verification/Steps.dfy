/** The elementary changes to a consistent image, each with what it does to the
    files.  An operation of the file system is a run of these; while it keeps an
    index page in its work buffer, the image it works on is the flash with that
    page replaced by the buffer. */
module Steps {
  import opened Geometry
  import opened Image
  import opened Volume
  import opened Encoding

  lemma EmptyIndex(data: seq<nat>, k: nat)
    requires |data| <= FirstRef(k)
    ensures Table(data, k) == EmptyTable(k)
  {
  }

  /** Changing one page number of a file changes one place in its index. */
  lemma TableUpdate(data: seq<nat>, j: nat, d: nat, k: nat)
    requires j < |data|
    ensures IxEntry(j) < TableLen(IxSpan(j))
    ensures Table(data[j := d], k) ==
            if k == IxSpan(j) then Table(data, k)[IxEntry(j) := At(d)] else Table(data, k)
  {
    IndexPlace(j);
    forall e | 0 <= e < TableLen(k)
      ensures Table(data[j := d], k)[e] ==
              if k == IxSpan(j) && e == IxEntry(j) then At(d) else Table(data, k)[e]
    {
      IndexPlaceUnique(k, e);
    }
  }

  lemma TableAdd(data: seq<nat>, d: nat, k: nat)
    ensures IxEntry(|data|) < TableLen(IxSpan(|data|))
    ensures Table(data + [d], k) ==
            if k == IxSpan(|data|) then Table(data, k)[IxEntry(|data|) := At(d)] else Table(data, k)
    ensures k == IxSpan(|data|) ==> Table(data, k)[IxEntry(|data|)] == NoPage
  {
    var j := |data|;
    IndexPlace(j);
    forall e | 0 <= e < TableLen(k)
      ensures Table(data + [d], k)[e] ==
              if k == IxSpan(j) && e == IxEntry(j) then At(d) else Table(data, k)[e]
    {
      IndexPlaceUnique(k, e);
    }
  }

  lemma TableDrop(data: seq<nat>, k: nat)
    requires |data| > 0
    ensures IxEntry(|data| - 1) < TableLen(IxSpan(|data| - 1))
    ensures Table(data[..|data| - 1], k) ==
            if k == IxSpan(|data| - 1) then Table(data, k)[IxEntry(|data| - 1) := NoPage] else Table(data, k)
    ensures k == IxSpan(|data| - 1) ==> Table(data, k)[IxEntry(|data| - 1)] == At(data[|data| - 1])
  {
    var j := |data| - 1;
    IndexPlace(j);
    forall e | 0 <= e < TableLen(k)
      ensures Table(data[..j], k)[e] ==
              if k == IxSpan(j) && e == IxEntry(j) then NoPage else Table(data, k)[e]
    {
      IndexPlaceUnique(k, e);
    }
  }

  /** The index page that refers to data page `j` exists and does. */
  lemma IndexOfPage(lu: seq<Entry>, pg: seq<Page>, id: nat, f: File, j: nat)
    requires FileOk(lu, pg, id, f) && j < |f.data|
    ensures IxSpan(j) < |f.ixs| && IndexOk(lu, pg, id, f, IxSpan(j))
    ensures IxEntry(j) < TableLen(IxSpan(j)) && Table(f.data, IxSpan(j))[IxEntry(j)] == At(f.data[j])
    ensures DataOk(lu, pg, id, f, j) && f.data[j] != f.ixs[IxSpan(j)]
  {
    IndexOfPageBut(lu, pg, id, f, {}, j);
  }

  lemma IndexOfPageBut(lu: seq<Entry>, pg: seq<Page>, id: nat, f: File, lost: set<nat>, j: nat)
    requires FileBut(lu, pg, id, f, lost) && j < |f.data| && j !in lost
    ensures IxSpan(j) < |f.ixs| && IndexOk(lu, pg, id, f, IxSpan(j))
    ensures IxEntry(j) < TableLen(IxSpan(j)) && Table(f.data, IxSpan(j))[IxEntry(j)] == At(f.data[j])
    ensures DataOk(lu, pg, id, f, j) && f.data[j] != f.ixs[IxSpan(j)]
  {
    IndexPlace(j);
    IxSpanMono(j, |f.data| - 1);
    assert IndexOk(lu, pg, id, f, IxSpan(j));
    assert DataOk(lu, pg, id, f, j);
  }

  lemma FileSlotsDistinct(lu: seq<Entry>, pg: seq<Page>, id: nat, f: File)
    requires FileOk(lu, pg, id, f)
    ensures forall k, l :: 0 <= k < |f.ixs| && 0 <= l < |f.ixs| && k != l ==> f.ixs[k] != f.ixs[l]
    ensures forall j, l :: 0 <= j < |f.data| && 0 <= l < |f.data| && j != l ==> f.data[j] != f.data[l]
    ensures forall k, j :: 0 <= k < |f.ixs| && 0 <= j < |f.data| ==> f.ixs[k] != f.data[j]
  {
    FileSlotsDistinctBut(lu, pg, id, f, {});
  }

  lemma FileSlotsDistinctBut(lu: seq<Entry>, pg: seq<Page>, id: nat, f: File, lost: set<nat>)
    requires FileBut(lu, pg, id, f, lost)
    ensures forall k, l :: 0 <= k < |f.ixs| && 0 <= l < |f.ixs| && k != l ==> f.ixs[k] != f.ixs[l]
    ensures forall j, l :: 0 <= j < |f.data| && 0 <= l < |f.data| && j != l && j !in lost && l !in lost ==> f.data[j] != f.data[l]
    ensures forall k, j :: 0 <= k < |f.ixs| && 0 <= j < |f.data| && j !in lost ==> f.ixs[k] != f.data[j]
  {
    forall k, l | 0 <= k < |f.ixs| && 0 <= l < |f.ixs| && k != l ensures f.ixs[k] != f.ixs[l] {
      assert IndexOk(lu, pg, id, f, k) && IndexOk(lu, pg, id, f, l);
    }
    forall j, l | 0 <= j < |f.data| && 0 <= l < |f.data| && j != l && j !in lost && l !in lost ensures f.data[j] != f.data[l] {
      assert DataOk(lu, pg, id, f, j) && DataOk(lu, pg, id, f, l);
    }
    forall k, j | 0 <= k < |f.ixs| && 0 <= j < |f.data| && j !in lost ensures f.ixs[k] != f.data[j] {
      assert IndexOk(lu, pg, id, f, k) && DataOk(lu, pg, id, f, j);
    }
  }

  /** The bytes of a file lie in its data pages, and the last page has at least one. */
  lemma SizeBound(f: File)
    requires Sized(f)
    ensures Length(f.size) <= Start(|f.data|)
    ensures |f.data| > 0 ==> Start(|f.data| - 1) < Length(f.size)
  {
    var n := Length(f.size);
    if n > 0 {
      assert OffsetIn(n - 1) < DATA_SIZE;
    }
  }

  /** A byte position below the end of page `n - 1` lies in a page below `n`. */
  lemma PageBelow(k: nat, n: nat)
    requires k < Start(n)
    ensures PageOf(k) < n
  {
    assert Start(PageOf(k)) + OffsetIn(k) == k;
    if PageOf(k) >= n {
      TimesMono(n, PageOf(k), DATA_SIZE);
    }
  }

  // ---------------------------------------------------------------------------
  // A data page is replaced

  /** What the bytes of a file become when data page `j` gets new bytes. */
  ghost predicate PageReplaced(before: seq<byte>, after: seq<byte>, j: nat, bytes: seq<byte>)
  {
    && |before| == |after| && |bytes| == DATA_SIZE
    && forall k: nat :: k < |after| ==> after[k] == if PageOf(k) == j then bytes[OffsetIn(k)] else before[k]
  }

  /** Data page `j` of a file goes to slot `d` with the given bytes, its old slot is
      deleted and its index page refers to the new one. */
  ghost predicate DataMoved(lu: seq<Entry>, pg: seq<Page>, lu': seq<Entry>, pg': seq<Page>,
                            id: nat, f: File, j: nat, d: nat, bytes: seq<byte>)
    requires j < |f.data| && IxSpan(j) < |f.ixs|
  {
    var s, x, e := f.data[j], f.ixs[IxSpan(j)], IxEntry(j);
    && Sizes(lu, pg) && Sizes(lu', pg')
    && s < SLOTS && x < SLOTS && d < SLOTS && d != s && d != x
    && KeptBut(lu, pg, lu', pg', {s, d, x})
    && !lu[d].Used? && lu'[d] == Used(id, false)
    && |bytes| == DATA_SIZE && pg'[d] == DataPage(LiveHeader(id, false, j), bytes)
    && lu'[s] == Deleted
    && lu'[x] == lu[x] && pg[x].IndexPage? && e < |pg[x].table|
    && pg'[x] == pg[x].(table := pg[x].table[e := At(d)])
    && (forall o: nat :: o < DATA_SIZE && Length(f.size) <= Start(j) + o ==> bytes[o] == ERASED_BYTE)
  }

  lemma DataMovedFile(lu: seq<Entry>, pg: seq<Page>, lu': seq<Entry>, pg': seq<Page>,
                      id: nat, f: File, lost: set<nat>, j: nat, d: nat, bytes: seq<byte>)
    requires FileBut(lu, pg, id, f, lost) && j < |f.data| && j !in lost && IxSpan(j) < |f.ixs|
    requires DataMoved(lu, pg, lu', pg', id, f, j, d, bytes)
    ensures var f' := f.(data := f.data[j := d]);
            && FileBut(lu', pg', id, f', lost)
            && PageReplaced(Holed(View(pg, f), lost).bytes, Holed(View(pg', f'), lost).bytes, j, bytes)
  {
    var f' := f.(data := f.data[j := d]);
    var s, x := f.data[j], f.ixs[IxSpan(j)];
    IndexOfPageBut(lu, pg, id, f, lost, j);
    FileSlotsDistinctBut(lu, pg, id, f, lost);
    forall k | 0 <= k < |f.ixs| ensures IndexOk(lu', pg', id, f', k) {
      assert IndexOk(lu, pg, id, f, k);
      TableUpdate(f.data, j, d, k);
      assert k != IxSpan(j) ==> Kept(lu, pg, lu', pg', f.ixs[k]);
    }
    forall i | 0 <= i < |f.data| && i !in lost
      ensures DataOk(lu', pg', id, f', i) && (i != j ==> pg'[f.data[i]] == pg[f.data[i]])
    {
      assert DataOk(lu, pg, id, f, i);
      assert i != j ==> Kept(lu, pg, lu', pg', f.data[i]);
    }
    forall k: nat | k < Start(|f.data|) && PageOf(k) !in lost
      ensures ByteAt(pg', f', k) == if PageOf(k) == j then bytes[OffsetIn(k)] else ByteAt(pg, f, k)
    {
      PageBelow(k, |f.data|);
    }
    SizeBound(f);
    forall k: nat | Length(f.size) <= k < Start(|f.data|) ensures ByteAt(pg', f', k) == ERASED_BYTE {
      BehindLost(f, lost, k);
      assert Start(PageOf(k)) + OffsetIn(k) == k;
      assert ByteAt(pg, f, k) == ERASED_BYTE;
    }
  }

  lemma DataMovedOwned(lu: seq<Entry>, pg: seq<Page>, cat: Catalogue, lu': seq<Entry>, pg': seq<Page>,
                       id: nat, lost: set<nat>, j: nat, d: nat, bytes: seq<byte>)
    requires HoldsBut(lu, pg, cat, id, lost) && id in cat && j < |cat[id].data| && j !in lost && IxSpan(j) < |cat[id].ixs|
    requires DataMoved(lu, pg, lu', pg', id, cat[id], j, d, bytes)
    ensures var f := cat[id]; var f' := f.(data := f.data[j := d]);
            && OnlyFile(lu, pg, lu', pg', id, {f.data[j], d, f.ixs[IxSpan(j)]})
            && forall t: nat :: t < SLOTS && lu'[t].Used? && lu'[t].id == id ==>
                 Owned(pg'[t], f', lu'[t].ix, t) && NotLost(lu', pg', id, lost, t)
  {
    var f := cat[id];
    var f' := f.(data := f.data[j := d]);
    IndexOfPageBut(lu, pg, id, f, lost, j);
    var changed := {f.data[j], d, f.ixs[IxSpan(j)]};
    forall t: nat | t < SLOTS && lu'[t].Used? && lu'[t].id == id
      ensures Owned(pg'[t], f', lu'[t].ix, t) && NotLost(lu', pg', id, lost, t)
    {
      assert SlotOk(lu, pg, cat, t) && NotLost(lu, pg, id, lost, t);
      assert t !in changed ==> Kept(lu, pg, lu', pg', t);
    }
  }

  lemma ReplaceData(lu: seq<Entry>, pg: seq<Page>, cat: Catalogue, lu': seq<Entry>, pg': seq<Page>,
                    id: nat, j: nat, d: nat, bytes: seq<byte>)
    requires Holds(lu, pg, cat) && id in cat && j < |cat[id].data| && IxSpan(j) < |cat[id].ixs|
    requires DataMoved(lu, pg, lu', pg', id, cat[id], j, d, bytes)
    ensures var f' := cat[id].(data := cat[id].data[j := d]);
            && Holds(lu', pg', cat[id := f'])
            && Files(pg', cat[id := f']) == Files(pg, cat)[id := View(pg', f')]
            && PageReplaced(View(pg, cat[id]).bytes, View(pg', f').bytes, j, bytes)
  {
    hide Holds, HoldsBut, DataMoved, Files, FilesBut, PageReplaced;
    var f' := cat[id].(data := cat[id].data[j := d]);
    NothingLost(lu, pg, cat, id);
    ReplaceDataBut(lu, pg, cat, lu', pg', id, {}, j, d, bytes);
    NothingLost(lu', pg', cat[id := f'], id);
    assert Holed(View(pg, cat[id]), {}) == View(pg, cat[id]) && Holed(View(pg', f'), {}) == View(pg', f');
  }

  /** A data page of a file that has lost others is replaced. */
  lemma ReplaceDataBut(lu: seq<Entry>, pg: seq<Page>, cat: Catalogue, lu': seq<Entry>, pg': seq<Page>,
                       id: nat, lost: set<nat>, j: nat, d: nat, bytes: seq<byte>)
    requires HoldsBut(lu, pg, cat, id, lost) && id in cat && j < |cat[id].data| && j !in lost && IxSpan(j) < |cat[id].ixs|
    requires DataMoved(lu, pg, lu', pg', id, cat[id], j, d, bytes)
    ensures var f' := cat[id].(data := cat[id].data[j := d]);
            && HoldsBut(lu', pg', cat[id := f'], id, lost)
            && FilesBut(pg', cat[id := f'], id, lost) == FilesBut(pg, cat, id, lost)[id := Holed(View(pg', f'), lost)]
            && PageReplaced(Holed(View(pg, cat[id]), lost).bytes, Holed(View(pg', f'), lost).bytes, j, bytes)
  {
    hide DataMoved, OnlyFile, FileBut, FilesBut, PageReplaced, Holed;
    var f := cat[id];
    DataMovedFile(lu, pg, lu', pg', id, f, lost, j, d, bytes);
    DataMovedOwned(lu, pg, cat, lu', pg', id, lost, j, d, bytes);
    OneFileStepBut(lu, pg, cat, lu', pg', id, lost, f.(data := f.data[j := d]), lost, {f.data[j], d, f.ixs[IxSpan(j)]});
  }

  // ---------------------------------------------------------------------------
  // A data page is lost

  /** Data page `j` is deleted and its index page refers to some page or other. */
  ghost predicate DataLost(lu: seq<Entry>, pg: seq<Page>, lu': seq<Entry>, pg': seq<Page>, id: nat, f: File, j: nat, stale: nat)
    requires j < |f.data| && IxSpan(j) < |f.ixs|
  {
    var s, x, e := f.data[j], f.ixs[IxSpan(j)], IxEntry(j);
    && Sizes(lu, pg) && Sizes(lu', pg')
    && s < SLOTS && x < SLOTS && s != x
    && KeptBut(lu, pg, lu', pg', {s, x}) && lu'[s] == Deleted
    && lu'[x] == lu[x] && pg[x].IndexPage? && e < |pg[x].table|
    && pg'[x] == pg[x].(table := pg[x].table[e := At(stale)])
  }

  lemma DataLostFile(lu: seq<Entry>, pg: seq<Page>, lu': seq<Entry>, pg': seq<Page>,
                     id: nat, f: File, lost: set<nat>, j: nat, stale: nat)
    requires FileBut(lu, pg, id, f, lost) && j < |f.data| && j !in lost && IxSpan(j) < |f.ixs|
    requires DataLost(lu, pg, lu', pg', id, f, j, stale) && Start(j) + DATA_SIZE <= Length(f.size)
    ensures var f' := f.(data := f.data[j := stale]);
            FileBut(lu', pg', id, f', lost + {j}) && Holed(View(pg', f'), lost + {j}) == Holed(Holed(View(pg, f), lost), {j})
  {
    var f' := f.(data := f.data[j := stale]);
    IndexOfPageBut(lu, pg, id, f, lost, j);
    FileSlotsDistinctBut(lu, pg, id, f, lost);
    forall k | 0 <= k < |f.ixs| ensures IndexOk(lu', pg', id, f', k) {
      assert IndexOk(lu, pg, id, f, k);
      TableUpdate(f.data, j, stale, k);
      assert k != IxSpan(j) ==> Kept(lu, pg, lu', pg', f.ixs[k]);
    }
    forall i | 0 <= i < |f.data| && i !in lost + {j} ensures DataOk(lu', pg', id, f', i) && pg'[f.data[i]] == pg[f.data[i]] {
      assert DataOk(lu, pg, id, f, i);
      assert Kept(lu, pg, lu', pg', f.data[i]);
    }
    forall k: nat | PageOf(k) !in lost + {j} ensures ByteAt(pg', f', k) == ByteAt(pg, f, k) {
    }
    forall k: nat | Length(f.size) <= k < Start(|f.data|) ensures ByteAt(pg', f', k) == ERASED_BYTE {
      BehindLost(f, lost + {j}, k);
      assert ByteAt(pg, f, k) == ERASED_BYTE;
    }
  }

  lemma LoseData(lu: seq<Entry>, pg: seq<Page>, cat: Catalogue, lu': seq<Entry>, pg': seq<Page>,
                 id: nat, lost: set<nat>, j: nat, stale: nat)
    requires HoldsBut(lu, pg, cat, id, lost) && id in cat && j < |cat[id].data| && j !in lost && IxSpan(j) < |cat[id].ixs|
    requires DataLost(lu, pg, lu', pg', id, cat[id], j, stale) && Start(j) + DATA_SIZE <= Length(cat[id].size)
    ensures var f' := cat[id].(data := cat[id].data[j := stale]);
            && HoldsBut(lu', pg', cat[id := f'], id, lost + {j})
            && FilesBut(pg', cat[id := f'], id, lost + {j}) ==
               FilesBut(pg, cat, id, lost)[id := Holed(Holed(View(pg, cat[id]), lost), {j})]
  {
    var f := cat[id];
    var f' := f.(data := f.data[j := stale]);
    var changed := {f.data[j], f.ixs[IxSpan(j)]};
    IndexOfPageBut(lu, pg, id, f, lost, j);
    DataLostFile(lu, pg, lu', pg', id, f, lost, j, stale);
    hide FileBut, FilesBut, Holed;
    forall t: nat | t < SLOTS && lu'[t].Used? && lu'[t].id == id
      ensures Owned(pg'[t], f', lu'[t].ix, t) && NotLost(lu', pg', id, lost + {j}, t)
    {
      assert SlotOk(lu, pg, cat, t) && NotLost(lu, pg, id, lost, t);
      assert t !in changed ==> Kept(lu, pg, lu', pg', t);
    }
    OneFileStepBut(lu, pg, cat, lu', pg', id, lost, f', lost + {j}, changed);
  }

  // ---------------------------------------------------------------------------
  // An index page moves

  ghost predicate IndexMoved(lu: seq<Entry>, pg: seq<Page>, lu': seq<Entry>, pg': seq<Page>,
                             id: nat, f: File, k: nat, d: nat)
    requires k < |f.ixs|
  {
    var x := f.ixs[k];
    && Sizes(lu, pg) && Sizes(lu', pg')
    && x < SLOTS && d < SLOTS && d != x
    && KeptBut(lu, pg, lu', pg', {x, d})
    && !lu[d].Used? && lu'[d] == Used(id, true) && pg'[d] == pg[x]
    && lu'[x] == Deleted
  }

  /** An index page goes to slot `d`; no file changes. */
  lemma MoveIndex(lu: seq<Entry>, pg: seq<Page>, cat: Catalogue, lu': seq<Entry>, pg': seq<Page>,
                  id: nat, k: nat, d: nat)
    requires Holds(lu, pg, cat) && id in cat && k < |cat[id].ixs|
    requires IndexMoved(lu, pg, lu', pg', id, cat[id], k, d)
    ensures Holds(lu', pg', cat[id := cat[id].(ixs := cat[id].ixs[k := d])])
    ensures Files(pg', cat[id := cat[id].(ixs := cat[id].ixs[k := d])]) == Files(pg, cat)
  {
    hide Holds, HoldsBut, IndexMoved, Files, FilesBut;
    NothingLost(lu, pg, cat, id);
    MoveIndexBut(lu, pg, cat, lu', pg', id, {}, k, d);
    NothingLost(lu', pg', cat[id := cat[id].(ixs := cat[id].ixs[k := d])], id);
  }

  lemma MoveIndexBut(lu: seq<Entry>, pg: seq<Page>, cat: Catalogue, lu': seq<Entry>, pg': seq<Page>,
                     id: nat, lost: set<nat>, k: nat, d: nat)
    requires HoldsBut(lu, pg, cat, id, lost) && id in cat && k < |cat[id].ixs|
    requires IndexMoved(lu, pg, lu', pg', id, cat[id], k, d)
    ensures HoldsBut(lu', pg', cat[id := cat[id].(ixs := cat[id].ixs[k := d])], id, lost)
    ensures FilesBut(pg', cat[id := cat[id].(ixs := cat[id].ixs[k := d])], id, lost) == FilesBut(pg, cat, id, lost)
  {
    var f := cat[id];
    var f' := f.(ixs := f.ixs[k := d]);
    var changed := {f.ixs[k], d};
    assert IndexOk(lu, pg, id, f, k);
    IndexMovedFile(lu, pg, lu', pg', id, f, lost, k, d);
    hide FileBut, FilesBut, Holed;
    forall t: nat | t < SLOTS && lu'[t].Used? && lu'[t].id == id
      ensures Owned(pg'[t], f', lu'[t].ix, t) && NotLost(lu', pg', id, lost, t)
    {
      assert SlotOk(lu, pg, cat, t) && NotLost(lu, pg, id, lost, t);
      assert t !in changed ==> Kept(lu, pg, lu', pg', t);
    }
    OneFileStepBut(lu, pg, cat, lu', pg', id, lost, f', lost, changed);
    FilesButSame(pg, cat, id, lost, Holed(View(pg', f'), lost));
  }

  lemma FilesButSame(pg: seq<Page>, cat: Catalogue, id: nat, lost: set<nat>, v: FileView)
    requires id in cat && v == Holed(View(pg, cat[id]), lost)
    ensures FilesBut(pg, cat, id, lost)[id := v] == FilesBut(pg, cat, id, lost)
  {
  }

  lemma IndexMovedFile(lu: seq<Entry>, pg: seq<Page>, lu': seq<Entry>, pg': seq<Page>,
                       id: nat, f: File, lost: set<nat>, k: nat, d: nat)
    requires FileBut(lu, pg, id, f, lost) && k < |f.ixs|
    requires IndexMoved(lu, pg, lu', pg', id, f, k, d)
    ensures var f' := f.(ixs := f.ixs[k := d]);
            FileBut(lu', pg', id, f', lost) && Holed(View(pg', f'), lost) == Holed(View(pg, f), lost)
  {
    var f' := f.(ixs := f.ixs[k := d]);
    assert IndexOk(lu, pg, id, f, k);
    FileSlotsDistinctBut(lu, pg, id, f, lost);
    forall l | 0 <= l < |f.ixs| ensures IndexOk(lu', pg', id, f', l) {
      assert IndexOk(lu, pg, id, f, l);
      assert l != k ==> Kept(lu, pg, lu', pg', f.ixs[l]);
    }
    forall i | 0 <= i < |f.data| && i !in lost ensures DataOk(lu', pg', id, f', i) && pg'[f.data[i]] == pg[f.data[i]] {
      assert DataOk(lu, pg, id, f, i);
      assert Kept(lu, pg, lu', pg', f.data[i]);
    }
    forall i: nat | PageOf(i) !in lost ensures ByteAt(pg', f', i) == ByteAt(pg, f, i) {
    }
    forall i: nat | Length(f.size) <= i < Start(|f.data|) ensures ByteAt(pg', f', i) == ERASED_BYTE {
      BehindLost(f, lost, i);
      assert ByteAt(pg, f, i) == ERASED_BYTE;
    }
  }

  // ---------------------------------------------------------------------------
  // A file grows or shrinks by a page

  /** The index after the reference at `e` of page `x` became `r` and the size in
      the header page `h` became `size`. */
  ghost predicate IndexChanged(pg: seq<Page>, pg': seq<Page>, x: nat, e: nat, r: Ref, h: nat, size: Option<nat>)
    requires x < |pg| == |pg'| && h < |pg|
  {
    && pg[x].IndexPage? && pg[h].IndexPage? && e < |pg[x].table|
    && if x == h then pg'[h] == pg[h].(table := pg[h].table[e := r], size := size)
       else pg'[x] == pg[x].(table := pg[x].table[e := r]) && pg'[h] == pg[h].(size := size)
  }

  ghost predicate DataAdded(lu: seq<Entry>, pg: seq<Page>, lu': seq<Entry>, pg': seq<Page>,
                            id: nat, f: File, d: nat, bytes: seq<byte>, n: nat)
    requires IxSpan(|f.data|) < |f.ixs|
  {
    var j := |f.data|;
    var x, h := f.ixs[IxSpan(j)], f.ixs[0];
    && Sizes(lu, pg) && Sizes(lu', pg')
    && x < SLOTS && h < SLOTS && d < SLOTS && d != x && d != h
    && KeptBut(lu, pg, lu', pg', {d, x, h})
    && !lu[d].Used? && lu'[d] == Used(id, false)
    && |bytes| == DATA_SIZE && pg'[d] == DataPage(LiveHeader(id, false, j), bytes)
    && lu'[x] == lu[x] && lu'[h] == lu[h]
    && IndexChanged(pg, pg', x, IxEntry(j), At(d), h, Some(n))
    && Length(f.size) == Start(j) < n <= Start(j) + DATA_SIZE
    && (forall o: nat :: o < DATA_SIZE && n <= Start(j) + o ==> bytes[o] == ERASED_BYTE)
  }

  lemma DataAddedFile(lu: seq<Entry>, pg: seq<Page>, lu': seq<Entry>, pg': seq<Page>,
                      id: nat, f: File, d: nat, bytes: seq<byte>, n: nat)
    requires FileOk(lu, pg, id, f) && IxSpan(|f.data|) < |f.ixs|
    requires DataAdded(lu, pg, lu', pg', id, f, d, bytes, n)
    ensures var f' := f.(data := f.data + [d], size := Some(n));
            FileOk(lu', pg', id, f') && View(pg', f').bytes == View(pg, f).bytes + bytes[..n - Start(|f.data|)]
  {
    var j := |f.data|;
    var f' := f.(data := f.data + [d], size := Some(n));
    FileSlotsDistinct(lu, pg, id, f);
    forall k | 0 <= k < |f.ixs| ensures IndexOk(lu', pg', id, f', k) {
      assert IndexOk(lu, pg, id, f, k);
      assert IndexOk(lu, pg, id, f, 0);
      TableAdd(f.data, d, k);
      assert k != IxSpan(j) && k != 0 ==> Kept(lu, pg, lu', pg', f.ixs[k]);
    }
    forall i | 0 <= i < |f'.data|
      ensures DataOk(lu', pg', id, f', i) && (i < j ==> pg'[f.data[i]] == pg[f.data[i]])
    {
      if i < j {
        assert DataOk(lu, pg, id, f, i);
        assert Kept(lu, pg, lu', pg', f.data[i]);
      }
    }
    BytePlace(j, n - 1 - Start(j));
    forall k: nat | k < Start(j + 1)
      ensures ByteAt(pg', f', k) == if k < Start(j) then ByteAt(pg, f, k) else bytes[k - Start(j)]
    {
      if k < Start(j) {
        PageBelow(k, j);
      } else {
        BytePlace(j, k - Start(j));
      }
    }
    assert SlackErased(pg', f');
  }

  lemma AddData(lu: seq<Entry>, pg: seq<Page>, cat: Catalogue, lu': seq<Entry>, pg': seq<Page>,
                id: nat, d: nat, bytes: seq<byte>, n: nat)
    requires Holds(lu, pg, cat) && id in cat && IxSpan(|cat[id].data|) < |cat[id].ixs|
    requires DataAdded(lu, pg, lu', pg', id, cat[id], d, bytes, n)
    ensures var f := cat[id]; var f' := f.(data := f.data + [d], size := Some(n));
            && Holds(lu', pg', cat[id := f'])
            && Files(pg', cat[id := f']) == Files(pg, cat)[id := View(pg', f')]
            && View(pg', f').bytes == View(pg, f).bytes + bytes[..n - Start(|f.data|)]
  {
    var f := cat[id];
    var f' := f.(data := f.data + [d], size := Some(n));
    var changed := {d, f.ixs[IxSpan(|f.data|)], f.ixs[0]};
    assert IndexOk(lu, pg, id, f, IxSpan(|f.data|)) && IndexOk(lu, pg, id, f, 0);
    DataAddedFile(lu, pg, lu', pg', id, f, d, bytes, n);
    forall t: nat | t < SLOTS && lu'[t].Used? && lu'[t].id == id ensures Owned(pg'[t], f', lu'[t].ix, t) {
      assert SlotOk(lu, pg, cat, t);
      assert t !in changed ==> Kept(lu, pg, lu', pg', t);
    }
    OneFileStep(lu, pg, cat, lu', pg', id, f', changed);
  }

  /** The last data page gets new bytes after the end of the file. */
  ghost predicate DataExtended(lu: seq<Entry>, pg: seq<Page>, lu': seq<Entry>, pg': seq<Page>,
                               id: nat, f: File, bytes: seq<byte>, n: nat)
    requires |f.data| > 0 && |f.ixs| > 0
  {
    var j := |f.data| - 1;
    var s, h := f.data[j], f.ixs[0];
    && Sizes(lu, pg) && Sizes(lu', pg')
    && s < SLOTS && h < SLOTS && s != h
    && KeptBut(lu, pg, lu', pg', {s, h})
    && lu'[s] == lu[s] && lu'[h] == lu[h]
    && pg[s].DataPage? && |bytes| == DATA_SIZE == |pg[s].bytes| && pg'[s] == pg[s].(bytes := bytes)
    && pg[h].IndexPage? && pg'[h] == pg[h].(size := Some(n))
    && Length(f.size) < n <= Start(j) + DATA_SIZE
    && (forall o: nat :: o < DATA_SIZE && Start(j) + o < Length(f.size) ==> bytes[o] == pg[s].bytes[o])
    && (forall o: nat :: o < DATA_SIZE && n <= Start(j) + o ==> bytes[o] == ERASED_BYTE)
  }

  lemma DataExtendedFile(lu: seq<Entry>, pg: seq<Page>, lu': seq<Entry>, pg': seq<Page>,
                         id: nat, f: File, bytes: seq<byte>, n: nat)
    requires FileOk(lu, pg, id, f) && |f.data| > 0
    requires DataExtended(lu, pg, lu', pg', id, f, bytes, n)
    ensures var j, f' := |f.data| - 1, f.(size := Some(n));
            && FileOk(lu', pg', id, f')
            && Start(j) <= Length(f.size)
            && View(pg', f').bytes == View(pg, f).bytes + bytes[Length(f.size) - Start(j)..n - Start(j)]
  {
    var j := |f.data| - 1;
    var f' := f.(size := Some(n));
    SizeBound(f);
    FileSlotsDistinct(lu, pg, id, f);
    forall k | 0 <= k < |f.ixs| ensures IndexOk(lu', pg', id, f', k) {
      assert IndexOk(lu, pg, id, f, k);
      assert k != 0 ==> Kept(lu, pg, lu', pg', f.ixs[k]);
    }
    forall i | 0 <= i < |f.data|
      ensures DataOk(lu', pg', id, f', i) && (i < j ==> pg'[f.data[i]] == pg[f.data[i]])
    {
      assert DataOk(lu, pg, id, f, i);
      assert i < j ==> Kept(lu, pg, lu', pg', f.data[i]);
    }
    BytePlace(j, n - 1 - Start(j));
    forall k: nat | k < Start(j + 1)
      ensures ByteAt(pg', f', k) == if k < Length(f.size) then ByteAt(pg, f, k) else bytes[k - Start(j)]
    {
      if k < Start(j) {
        PageBelow(k, j);
      } else {
        BytePlace(j, k - Start(j));
      }
    }
    assert SlackErased(pg', f');
  }

  lemma ExtendData(lu: seq<Entry>, pg: seq<Page>, cat: Catalogue, lu': seq<Entry>, pg': seq<Page>,
                   id: nat, bytes: seq<byte>, n: nat)
    requires Holds(lu, pg, cat) && id in cat && |cat[id].data| > 0 && |cat[id].ixs| > 0
    requires DataExtended(lu, pg, lu', pg', id, cat[id], bytes, n)
    ensures var f := cat[id]; var j, f' := |f.data| - 1, f.(size := Some(n));
            && Holds(lu', pg', cat[id := f'])
            && Files(pg', cat[id := f']) == Files(pg, cat)[id := View(pg', f')]
            && Start(j) <= Length(f.size)
            && View(pg', f').bytes == View(pg, f).bytes + bytes[Length(f.size) - Start(j)..n - Start(j)]
  {
    var f := cat[id];
    var f' := f.(size := Some(n));
    var changed := {f.data[|f.data| - 1], f.ixs[0]};
    assert FileOk(lu, pg, id, f);
    assert DataOk(lu, pg, id, f, |f.data| - 1) && IndexOk(lu, pg, id, f, 0);
    DataExtendedFile(lu, pg, lu', pg', id, f, bytes, n);
    forall t: nat | t < SLOTS && lu'[t].Used? && lu'[t].id == id ensures Owned(pg'[t], f', lu'[t].ix, t) {
      assert SlotOk(lu, pg, cat, t);
      assert t !in changed ==> Kept(lu, pg, lu', pg', t);
    }
    OneFileStep(lu, pg, cat, lu', pg', id, f', changed);
  }

  /** A new, empty index page is added at slot `d`. */
  lemma AddIndex(lu: seq<Entry>, pg: seq<Page>, cat: Catalogue, lu': seq<Entry>, pg': seq<Page>, id: nat, d: nat)
    requires Holds(lu, pg, cat) && id in cat && d < SLOTS
    requires Sizes(lu', pg') && KeptBut(lu, pg, lu', pg', {d})
    requires |cat[id].data| <= FirstRef(|cat[id].ixs|)
    requires !lu[d].Used? && lu'[d] == Used(id, true)
    requires pg'[d] == IndexPage(LiveHeader(id, true, |cat[id].ixs|), None, "", EmptyTable(|cat[id].ixs|))
    ensures var f' := cat[id].(ixs := cat[id].ixs + [d]);
            && Holds(lu', pg', cat[id := f'])
            && Files(pg', cat[id := f']) == Files(pg, cat)
  {
    var f := cat[id];
    var f' := f.(ixs := f.ixs + [d]);
    assert FileOk(lu, pg, id, f);
    FileSlotsDistinct(lu, pg, id, f);
    forall l | 0 <= l < |f'.ixs| ensures IndexOk(lu', pg', id, f', l) {
      if l < |f.ixs| {
        assert IndexOk(lu, pg, id, f, l);
        assert Kept(lu, pg, lu', pg', f.ixs[l]);
      } else {
        EmptyIndex(f.data, l);
      }
    }
    forall i | 0 <= i < |f.data| ensures DataOk(lu', pg', id, f', i) && pg'[f.data[i]] == pg[f.data[i]] {
      assert DataOk(lu, pg, id, f, i);
      assert Kept(lu, pg, lu', pg', f.data[i]);
    }
    assert forall i: nat :: ByteAt(pg', f', i) == ByteAt(pg, f, i);
    assert View(pg', f') == View(pg, f);
    forall t: nat | t < SLOTS && lu'[t].Used? && lu'[t].id == id ensures Owned(pg'[t], f', lu'[t].ix, t) {
      assert SlotOk(lu, pg, cat, t);
      assert t != d ==> Kept(lu, pg, lu', pg', t);
    }
    OneFileStep(lu, pg, cat, lu', pg', id, f', {d});
  }

  /** The last data page is deleted; the file ends where that page began. */
  ghost predicate DataDropped(lu: seq<Entry>, pg: seq<Page>, lu': seq<Entry>, pg': seq<Page>, id: nat, f: File)
    requires |f.data| > 0 && IxSpan(|f.data| - 1) < |f.ixs|
  {
    var j := |f.data| - 1;
    var s, x, h := f.data[j], f.ixs[IxSpan(j)], f.ixs[0];
    && Sizes(lu, pg) && Sizes(lu', pg')
    && s < SLOTS && x < SLOTS && h < SLOTS && s != x && s != h
    && KeptBut(lu, pg, lu', pg', {s, x, h})
    && lu'[s] == Deleted && lu'[x] == lu[x] && lu'[h] == lu[h]
    && IndexChanged(pg, pg', x, IxEntry(j), NoPage, h, SizeOf(Start(j)))
  }

  /** The size field for a length: the erased value stands for empty. */
  function SizeOf(n: nat): Option<nat>
  {
    if n == 0 then None else Some(n)
  }

  lemma DataDroppedFile(lu: seq<Entry>, pg: seq<Page>, lu': seq<Entry>, pg': seq<Page>, id: nat, f: File)
    requires FileOk(lu, pg, id, f) && |f.data| > 0 && IxSpan(|f.data| - 1) < |f.ixs|
    requires DataDropped(lu, pg, lu', pg', id, f)
    ensures var j := |f.data| - 1; var f' := f.(data := f.data[..j], size := SizeOf(Start(j)));
            && FileOk(lu', pg', id, f')
            && Start(j) < |View(pg, f).bytes|
            && View(pg', f').bytes == View(pg, f).bytes[..Start(j)]
  {
    var j := |f.data| - 1;
    var f' := f.(data := f.data[..j], size := SizeOf(Start(j)));
    SizeBound(f);
    FileSlotsDistinct(lu, pg, id, f);
    forall k | 0 <= k < |f.ixs| ensures IndexOk(lu', pg', id, f', k) {
      assert IndexOk(lu, pg, id, f, k) && IndexOk(lu, pg, id, f, 0);
      TableDrop(f.data, k);
      assert k != IxSpan(j) && k != 0 ==> Kept(lu, pg, lu', pg', f.ixs[k]);
    }
    forall i | 0 <= i < j ensures DataOk(lu', pg', id, f', i) && pg'[f.data[i]] == pg[f.data[i]] {
      assert DataOk(lu, pg, id, f, i);
      assert Kept(lu, pg, lu', pg', f.data[i]);
    }
    if j > 0 {
      BytePlace(j - 1, DATA_SIZE - 1);
      IxSpanMono(j - 1, j);
    }
    forall k: nat | k < Start(j) ensures ByteAt(pg', f', k) == ByteAt(pg, f, k) {
      PageBelow(k, j);
    }
    assert SlackErased(pg', f');
  }

  lemma DropData(lu: seq<Entry>, pg: seq<Page>, cat: Catalogue, lu': seq<Entry>, pg': seq<Page>, id: nat)
    requires Holds(lu, pg, cat) && id in cat && |cat[id].data| > 0 && IxSpan(|cat[id].data| - 1) < |cat[id].ixs|
    requires DataDropped(lu, pg, lu', pg', id, cat[id])
    ensures var f := cat[id]; var j := |f.data| - 1; var f' := f.(data := f.data[..j], size := SizeOf(Start(j)));
            && Holds(lu', pg', cat[id := f'])
            && Files(pg', cat[id := f']) == Files(pg, cat)[id := View(pg', f')]
            && Start(j) < |View(pg, f).bytes|
            && View(pg', f').bytes == View(pg, f).bytes[..Start(j)]
  {
    var f := cat[id];
    var j := |f.data| - 1;
    var f' := f.(data := f.data[..j], size := SizeOf(Start(j)));
    var changed := {f.data[j], f.ixs[IxSpan(j)], f.ixs[0]};
    assert FileOk(lu, pg, id, f);
    assert IndexOk(lu, pg, id, f, IxSpan(j)) && IndexOk(lu, pg, id, f, 0) && DataOk(lu, pg, id, f, j);
    DataDroppedFile(lu, pg, lu', pg', id, f);
    forall t: nat | t < SLOTS && lu'[t].Used? && lu'[t].id == id ensures Owned(pg'[t], f', lu'[t].ix, t) {
      assert SlotOk(lu, pg, cat, t);
      assert t !in changed ==> Kept(lu, pg, lu', pg', t);
    }
    OneFileStep(lu, pg, cat, lu', pg', id, f', changed);
  }

  /** The last index page, which no data page needs, is deleted. */
  lemma DropIndex(lu: seq<Entry>, pg: seq<Page>, cat: Catalogue, lu': seq<Entry>, pg': seq<Page>, id: nat)
    requires Holds(lu, pg, cat) && id in cat && |cat[id].ixs| > IxCount(|cat[id].data|)
    requires var x := cat[id].ixs[|cat[id].ixs| - 1];
             x < SLOTS && Sizes(lu', pg') && KeptBut(lu, pg, lu', pg', {x}) && lu'[x] == Deleted
    ensures var f' := cat[id].(ixs := cat[id].ixs[..|cat[id].ixs| - 1]);
            && Holds(lu', pg', cat[id := f'])
            && Files(pg', cat[id := f']) == Files(pg, cat)
  {
    var f := cat[id];
    var k := |f.ixs| - 1;
    var f' := f.(ixs := f.ixs[..k]);
    assert FileOk(lu, pg, id, f);
    assert IndexOk(lu, pg, id, f, k);
    FileSlotsDistinct(lu, pg, id, f);
    forall l | 0 <= l < k ensures IndexOk(lu', pg', id, f', l) {
      assert IndexOk(lu, pg, id, f, l);
      assert Kept(lu, pg, lu', pg', f.ixs[l]);
    }
    forall i | 0 <= i < |f.data| ensures DataOk(lu', pg', id, f', i) && pg'[f.data[i]] == pg[f.data[i]] {
      assert DataOk(lu, pg, id, f, i);
      assert Kept(lu, pg, lu', pg', f.data[i]);
    }
    assert forall i: nat :: ByteAt(pg', f', i) == ByteAt(pg, f, i);
    assert View(pg', f') == View(pg, f);
    forall t: nat | t < SLOTS && lu'[t].Used? && lu'[t].id == id ensures Owned(pg'[t], f', lu'[t].ix, t) {
      assert SlotOk(lu, pg, cat, t);
      assert t != f.ixs[k] ==> Kept(lu, pg, lu', pg', t);
    }
    OneFileStep(lu, pg, cat, lu', pg', id, f', {f.ixs[k]});
  }

  // ---------------------------------------------------------------------------
  // Files come and go

  lemma AddFile(lu: seq<Entry>, pg: seq<Page>, cat: Catalogue, lu': seq<Entry>, pg': seq<Page>,
                id: nat, name: string, d: nat)
    requires Holds(lu, pg, cat) && id !in cat && d < SLOTS
    requires Sizes(lu', pg') && KeptBut(lu, pg, lu', pg', {d})
    requires !lu[d].Used? && lu'[d] == Used(id, true)
    requires pg'[d] == IndexPage(LiveHeader(id, true, 0), None, name, EmptyTable(0))
    ensures var f := File(name, None, [d], []);
            && Holds(lu', pg', cat[id := f])
            && Files(pg', cat[id := f]) == Files(pg, cat)[id := FileView(name, [])]
  {
    var f := File(name, None, [d], []);
    EmptyIndex(f.data, 0);
    assert IndexOk(lu', pg', id, f, 0);
    forall t: nat | t < SLOTS && lu'[t].Used? && lu'[t].id == id ensures Owned(pg'[t], f, lu'[t].ix, t) {
      assert SlotOk(lu, pg, cat, t);
      assert t != d ==> Kept(lu, pg, lu', pg', t);
    }
    assert View(pg', f) == FileView(name, []);
    OneFileStep(lu, pg, cat, lu', pg', id, f, {d});
  }

  /** The header of a file without data and other index pages is deleted. */
  lemma RemoveFile(lu: seq<Entry>, pg: seq<Page>, cat: Catalogue, lu': seq<Entry>, pg': seq<Page>, id: nat)
    requires Holds(lu, pg, cat) && id in cat && cat[id].data == [] && |cat[id].ixs| == 1
    requires var h := cat[id].ixs[0];
             h < SLOTS && Sizes(lu', pg') && KeptBut(lu, pg, lu', pg', {h}) && lu'[h] == Deleted
    ensures Holds(lu', pg', cat - {id})
    ensures Files(pg', cat - {id}) == Files(pg, cat) - {id}
  {
    var cat', h := cat - {id}, cat[id].ixs[0];
    assert IndexOk(lu, pg, id, cat[id], 0);
    forall s | 0 <= s < SLOTS ensures SlotOk(lu', pg', cat', s) {
      assert SlotOk(lu, pg, cat, s);
      assert s != h ==> Kept(lu, pg, lu', pg', s);
    }
    forall i | i in cat' ensures FileOk(lu', pg', i, cat'[i]) && View(pg', cat'[i]) == View(pg, cat[i]) {
      forall t: nat | t < SLOTS && lu[t].Used? && lu[t].id == i ensures lu'[t] == lu[t] && pg'[t] == pg[t] {
        assert Kept(lu, pg, lu', pg', t);
      }
      FileKept(lu, pg, lu', pg', i, cat[i]);
    }
  }

  /** An index page of a file that has lost data pages is found all the same. */
  lemma FindIndexBut(lu: seq<Entry>, pg: seq<Page>, cat: Catalogue, id: nat, lost: set<nat>, k: nat, s: nat)
    requires HoldsBut(lu, pg, cat, id, lost) && id in cat && k < |cat[id].ixs|
    ensures Matches(lu, pg, id, true, k, s) <==> s == cat[id].ixs[k]
  {
    if s < SLOTS {
      assert SlotOk(lu, pg, cat, s);
    }
    assert IndexOk(lu, pg, id, cat[id], k);
  }

  /** In a consistent image a search by id and span has one possible result. */
  lemma FindIsUnique(lu: seq<Entry>, pg: seq<Page>, cat: Catalogue, id: nat, ix: bool, k: nat, s: nat)
    requires Holds(lu, pg, cat)
    ensures Matches(lu, pg, id, ix, k, s) <==>
            && id in cat
            && if ix then k < |cat[id].ixs| && s == cat[id].ixs[k] else k < |cat[id].data| && s == cat[id].data[k]
  {
    if s < SLOTS {
      assert SlotOk(lu, pg, cat, s);
    }
    if id in cat {
      assert FileOk(lu, pg, id, cat[id]);
      if k < |cat[id].ixs| {
        assert IndexOk(lu, pg, id, cat[id], k);
      }
      if k < |cat[id].data| {
        assert DataOk(lu, pg, id, cat[id], k);
      }
    }
  }
}

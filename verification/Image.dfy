/** Flash images at page level, the files they hold, and the elementary changes
    every operation is made of.

    `lu` is the object lookup (one entry a slot), `pg` the pages, and a catalogue
    says which slots hold the index pages and the data pages of each file.
    `Holds(lu, pg, cat)` is the consistency of an image. */
module Image {
  import opened Geometry
  import Bytes

  type byte = Bytes.byte

  const ERASED_BYTE: byte := 0xff

  datatype Option<+T> = None | Some(value: T)

  /** An entry of the object lookup. */
  datatype Entry = Free | Deleted | Used(id: nat, ix: bool)

  /** A page reference in an object index; `NoPage` is the erased value. */
  datatype Ref = NoPage | At(slot: nat)

  /** A page header.  `final`: writing is finished; `live`: not deleted;
      `ixlive`: the object is not being removed. */
  datatype Header = Header(id: nat, ix: bool, span: nat, final: bool, live: bool, ixlive: bool)

  /** A page.  Only the index page of span 0, the object index header, has a size
      and a name; no size is the erased value, which the source uses for empty files. */
  datatype Page =
    | Erased
    | DataPage(hdr: Header, bytes: seq<byte>)
    | IndexPage(hdr: Header, size: Option<nat>, name: string, table: seq<Ref>)

  /** The slots of a file: its index pages and its data pages, in span order. */
  datatype File = File(name: string, size: Option<nat>, ixs: seq<nat>, data: seq<nat>)

  type Catalogue = map<nat, File>

  /** What a file is to its users. */
  datatype FileView = FileView(name: string, bytes: seq<byte>)

  // ---------------------------------------------------------------------------
  // Consistency

  function Length(size: Option<nat>): nat
  {
    match size case None => 0 case Some(n) => n
  }

  /** Data pages a file of a given length needs. */
  function PagesFor(n: nat): nat
  {
    if n == 0 then 0 else PageOf(n - 1) + 1
  }

  function LiveHeader(id: nat, ix: bool, span: nat): Header
  {
    Header(id, ix, span, true, true, true)
  }

  function Table(data: seq<nat>, k: nat): seq<Ref>
  {
    seq(TableLen(k), e requires 0 <= e => if FirstRef(k) + e < |data| then At(data[FirstRef(k) + e]) else NoPage)
  }

  function EmptyTable(k: nat): seq<Ref>
  {
    seq(TableLen(k), e => NoPage)
  }

  /** What index page `k` of a file must contain. */
  function IndexImage(id: nat, f: File, k: nat): Page
  {
    IndexPage(LiveHeader(id, true, k), if k == 0 then f.size else None,
              if k == 0 then f.name else "", Table(f.data, k))
  }

  ghost predicate IndexOk(lu: seq<Entry>, pg: seq<Page>, id: nat, f: File, k: nat)
    requires k < |f.ixs|
  {
    var s := f.ixs[k];
    s < |lu| && s < |pg| && lu[s] == Used(id, true) && pg[s] == IndexImage(id, f, k)
  }

  ghost predicate DataOk(lu: seq<Entry>, pg: seq<Page>, id: nat, f: File, j: nat)
    requires j < |f.data|
  {
    var s := f.data[j];
    && s < |lu| && s < |pg| && lu[s] == Used(id, false)
    && pg[s].DataPage? && pg[s].hdr == LiveHeader(id, false, j) && |pg[s].bytes| == DATA_SIZE
  }

  /** Byte `k` of a file's data pages. */
  function ByteAt(pg: seq<Page>, f: File, k: nat): byte
  {
    var j := PageOf(k);
    if j < |f.data| && f.data[j] < |pg| && pg[f.data[j]].DataPage? && OffsetIn(k) < |pg[f.data[j]].bytes|
    then pg[f.data[j]].bytes[OffsetIn(k)]
    else ERASED_BYTE
  }

  /** The bytes after the end of a file are still erased. */
  ghost predicate SlackErased(pg: seq<Page>, f: File)
  {
    forall k: nat :: Length(f.size) <= k < Start(|f.data|) ==> ByteAt(pg, f, k) == ERASED_BYTE
  }

  ghost predicate Sized(f: File)
  {
    && (f.size.Some? ==> f.size.value > 0)
    && |f.data| == PagesFor(Length(f.size))
    && |f.ixs| >= IxCount(|f.data|)
  }

  ghost predicate FileOk(lu: seq<Entry>, pg: seq<Page>, id: nat, f: File)
  {
    && Sized(f)
    && (forall k :: 0 <= k < |f.ixs| ==> IndexOk(lu, pg, id, f, k))
    && (forall j :: 0 <= j < |f.data| ==> DataOk(lu, pg, id, f, j))
    && SlackErased(pg, f)
  }

  /** A used page is the page of the file that its header names. */
  ghost predicate Owned(p: Page, f: File, ix: bool, s: nat)
  {
    if ix then p.IndexPage? && p.hdr.span < |f.ixs| && f.ixs[p.hdr.span] == s
    else p.DataPage? && p.hdr.span < |f.data| && f.data[p.hdr.span] == s
  }

  ghost predicate SlotOk(lu: seq<Entry>, pg: seq<Page>, cat: Catalogue, s: nat)
    requires s < |lu| == |pg|
  {
    match lu[s]
    case Free => pg[s] == Erased
    case Deleted => true
    case Used(id, ix) => id in cat && Owned(pg[s], cat[id], ix, s)
  }

  ghost predicate Sizes(lu: seq<Entry>, pg: seq<Page>)
  {
    |lu| == |pg| == SLOTS
  }

  ghost predicate Holds(lu: seq<Entry>, pg: seq<Page>, cat: Catalogue)
  {
    && Sizes(lu, pg)
    && (forall s :: 0 <= s < SLOTS ==> SlotOk(lu, pg, cat, s))
    && (forall id :: id in cat ==> FileOk(lu, pg, id, cat[id]))
  }

  /** No file has an index page it does not need. */
  ghost predicate Tight(cat: Catalogue)
  {
    forall id :: id in cat ==> |cat[id].ixs| == IxCount(|cat[id].data|)
  }

  function View(pg: seq<Page>, f: File): FileView
  {
    FileView(f.name, seq(Length(f.size), k requires 0 <= k => ByteAt(pg, f, k)))
  }

  /** The files of an image, as their users see them. */
  function Files(pg: seq<Page>, cat: Catalogue): map<nat, FileView>
  {
    map id | id in cat :: View(pg, cat[id])
  }

  // ---------------------------------------------------------------------------
  // Files that have lost data pages

  /** A file whose data pages `lost` are gone.  They were within its length, and their
      places in its index refer to some page or other. */
  ghost predicate FileBut(lu: seq<Entry>, pg: seq<Page>, id: nat, f: File, lost: set<nat>)
  {
    && Sized(f)
    && (forall k :: 0 <= k < |f.ixs| ==> IndexOk(lu, pg, id, f, k))
    && (forall j :: 0 <= j < |f.data| && j !in lost ==> DataOk(lu, pg, id, f, j))
    && (forall j :: j in lost ==> j < |f.data| && Start(j) + DATA_SIZE <= Length(f.size))
    && SlackErased(pg, f)
  }

  /** Slot `s` is not in use for a data page that object `id` has lost. */
  ghost predicate NotLost(lu: seq<Entry>, pg: seq<Page>, id: nat, lost: set<nat>, s: nat)
  {
    s < |lu| && s < |pg| && lu[s] == Used(id, false) && pg[s].DataPage? ==> pg[s].hdr.span !in lost
  }

  /** The image is consistent, but file `id` has lost data pages. */
  ghost predicate HoldsBut(lu: seq<Entry>, pg: seq<Page>, cat: Catalogue, id: nat, lost: set<nat>)
  {
    && Sizes(lu, pg)
    && (forall s: nat :: s < SLOTS ==> SlotOk(lu, pg, cat, s) && NotLost(lu, pg, id, lost, s))
    && (id in cat ==> FileBut(lu, pg, id, cat[id], lost))
    && (forall i :: i in cat && i != id ==> FileOk(lu, pg, i, cat[i]))
  }

  /** A file with its lost pages blanked out. */
  function Holed(v: FileView, lost: set<nat>): FileView
  {
    v.(bytes := seq(|v.bytes|, k requires 0 <= k < |v.bytes| => if PageOf(k) in lost then ERASED_BYTE else v.bytes[k]))
  }

  /** The files of an image, with the lost pages of file `id` blanked out. */
  function FilesBut(pg: seq<Page>, cat: Catalogue, id: nat, lost: set<nat>): map<nat, FileView>
  {
    map i | i in cat :: if i == id then Holed(View(pg, cat[i]), lost) else View(pg, cat[i])
  }

  lemma NothingLost(lu: seq<Entry>, pg: seq<Page>, cat: Catalogue, id: nat)
    ensures HoldsBut(lu, pg, cat, id, {}) <==> Holds(lu, pg, cat)
    ensures FilesBut(pg, cat, id, {}) == Files(pg, cat)
  {
    assert id in cat ==> Holed(View(pg, cat[id]), {}) == View(pg, cat[id]);
    if HoldsBut(lu, pg, cat, id, {}) {
      forall i | i in cat ensures FileOk(lu, pg, i, cat[i]) {
        assert i == id ==> FileBut(lu, pg, id, cat[id], {});
      }
    }
  }

  // ---------------------------------------------------------------------------
  // One file changes

  /** `t` is as it was, or it was deleted and its block has been erased. */
  ghost predicate Kept(lu: seq<Entry>, pg: seq<Page>, lu': seq<Entry>, pg': seq<Page>, t: nat)
    requires t < |lu| && t < |pg| && t < |lu'| && t < |pg'|
  {
    || (lu'[t] == lu[t] && pg'[t] == pg[t])
    || (lu[t] == Deleted && lu'[t] == Free && pg'[t] == Erased)
  }

  ghost predicate KeptBut(lu: seq<Entry>, pg: seq<Page>, lu': seq<Entry>, pg': seq<Page>, changed: set<nat>)
    requires Sizes(lu, pg) && Sizes(lu', pg')
  {
    forall t: nat :: t < SLOTS && t !in changed ==> Kept(lu, pg, lu', pg', t)
  }

  /** Slots outside `changed` and slots of other files are kept, slots in `changed`
      are not, before or after, slots of other files. */
  ghost predicate OnlyFile(lu: seq<Entry>, pg: seq<Page>, lu': seq<Entry>, pg': seq<Page>, id: nat, changed: set<nat>)
  {
    && Sizes(lu, pg) && Sizes(lu', pg')
    && KeptBut(lu, pg, lu', pg', changed)
    && (forall t :: t in changed ==> t < SLOTS)
    && (forall t :: t in changed && lu[t].Used? ==> lu[t].id == id)
    && (forall t :: t in changed && lu'[t].Used? ==> lu'[t].id == id)
    && (forall t :: t in changed && lu'[t].Free? ==> pg'[t] == Erased)
  }

  lemma FileKept(lu: seq<Entry>, pg: seq<Page>, lu': seq<Entry>, pg': seq<Page>, id: nat, f: File)
    requires Sizes(lu, pg) && Sizes(lu', pg')
    requires FileOk(lu, pg, id, f)
    requires forall t: nat :: t < SLOTS && lu[t].Used? && lu[t].id == id ==> lu'[t] == lu[t] && pg'[t] == pg[t]
    ensures FileOk(lu', pg', id, f)
    ensures View(pg', f) == View(pg, f)
  {
    FileButKept(lu, pg, lu', pg', id, f, {});
    assert Holed(View(pg, f), {}) == View(pg, f) && Holed(View(pg', f), {}) == View(pg', f);
  }

  /** A file keeps the pages it still has if the slots of its object are kept. */
  lemma FileButKept(lu: seq<Entry>, pg: seq<Page>, lu': seq<Entry>, pg': seq<Page>, id: nat, f: File, lost: set<nat>)
    requires Sizes(lu, pg) && Sizes(lu', pg')
    requires FileBut(lu, pg, id, f, lost)
    requires forall t: nat :: t < SLOTS && lu[t].Used? && lu[t].id == id ==> lu'[t] == lu[t] && pg'[t] == pg[t]
    ensures FileBut(lu', pg', id, f, lost)
    ensures Holed(View(pg', f), lost) == Holed(View(pg, f), lost)
  {
    forall k | 0 <= k < |f.ixs| ensures IndexOk(lu', pg', id, f, k) {
      assert IndexOk(lu, pg, id, f, k);
    }
    forall j | 0 <= j < |f.data| && j !in lost ensures DataOk(lu', pg', id, f, j) && pg'[f.data[j]] == pg[f.data[j]] {
      assert DataOk(lu, pg, id, f, j);
    }
    forall k: nat | PageOf(k) !in lost ensures ByteAt(pg', f, k) == ByteAt(pg, f, k) {
    }
    forall k: nat | Length(f.size) <= k < Start(|f.data|) ensures ByteAt(pg', f, k) == ERASED_BYTE {
      BehindLost(f, lost, k);
      assert ByteAt(pg, f, k) == ERASED_BYTE;
    }
  }

  /** Lost pages are within the length of the file. */
  lemma BehindLost(f: File, lost: set<nat>, k: nat)
    requires Length(f.size) <= k && forall j :: j in lost ==> Start(j) + DATA_SIZE <= Length(f.size)
    ensures PageOf(k) !in lost
  {
    assert Start(PageOf(k)) + OffsetIn(k) == k;
  }

  /** If only one file's slots change and that file is in order again, the image is. */
  lemma OneFileStep(lu: seq<Entry>, pg: seq<Page>, cat: Catalogue, lu': seq<Entry>, pg': seq<Page>,
                    id: nat, f: File, changed: set<nat>)
    requires Holds(lu, pg, cat)
    requires OnlyFile(lu, pg, lu', pg', id, changed)
    requires FileOk(lu', pg', id, f)
    requires forall t: nat :: t < SLOTS && lu'[t].Used? && lu'[t].id == id ==> Owned(pg'[t], f, lu'[t].ix, t)
    ensures Holds(lu', pg', cat[id := f])
    ensures Files(pg', cat[id := f]) == Files(pg, cat)[id := View(pg', f)]
  {
    hide Holds, HoldsBut, Files, FilesBut, OnlyFile;
    assert FileBut(lu', pg', id, f, {});
    assert Holed(View(pg', f), {}) == View(pg', f);
    NothingLost(lu, pg, cat, id);
    OneFileStepBut(lu, pg, cat, lu', pg', id, {}, f, {}, changed);
    NothingLost(lu', pg', cat[id := f], id);
  }

  /** The same for a file that has lost pages. */
  lemma OneFileStepBut(lu: seq<Entry>, pg: seq<Page>, cat: Catalogue, lu': seq<Entry>, pg': seq<Page>,
                       id: nat, lost: set<nat>, f: File, lost': set<nat>, changed: set<nat>)
    requires HoldsBut(lu, pg, cat, id, lost)
    requires OnlyFile(lu, pg, lu', pg', id, changed)
    requires FileBut(lu', pg', id, f, lost')
    requires forall t: nat :: t < SLOTS && lu'[t].Used? && lu'[t].id == id ==>
               Owned(pg'[t], f, lu'[t].ix, t) && NotLost(lu', pg', id, lost', t)
    ensures HoldsBut(lu', pg', cat[id := f], id, lost')
    ensures FilesBut(pg', cat[id := f], id, lost') == FilesBut(pg, cat, id, lost)[id := Holed(View(pg', f), lost')]
  {
    var cat' := cat[id := f];
    forall s: nat | s < SLOTS ensures SlotOk(lu', pg', cat', s) && NotLost(lu', pg', id, lost', s) {
      assert SlotOk(lu, pg, cat, s);
      assert s !in changed ==> Kept(lu, pg, lu', pg', s);
    }
    forall i | i in cat' && i != id ensures FileOk(lu', pg', i, cat'[i]) && View(pg', cat'[i]) == View(pg, cat[i]) {
      forall t: nat | t < SLOTS && lu[t].Used? && lu[t].id == i ensures lu'[t] == lu[t] && pg'[t] == pg[t] {
        assert t !in changed;
        assert Kept(lu, pg, lu', pg', t);
      }
      FileKept(lu, pg, lu', pg', i, cat[i]);
    }
  }

  /** Erasing deleted pages changes no file. */
  lemma WipeStep(lu: seq<Entry>, pg: seq<Page>, cat: Catalogue, lu': seq<Entry>, pg': seq<Page>)
    requires Holds(lu, pg, cat)
    requires Sizes(lu', pg') && KeptBut(lu, pg, lu', pg', {})
    ensures Holds(lu', pg', cat)
    ensures Files(pg', cat) == Files(pg, cat)
  {
    hide Holds, HoldsBut, Files, FilesBut, KeptBut;
    NothingLost(lu, pg, cat, 0);
    WipeStepBut(lu, pg, cat, lu', pg', 0, {});
    NothingLost(lu', pg', cat, 0);
  }

  lemma WipeStepBut(lu: seq<Entry>, pg: seq<Page>, cat: Catalogue, lu': seq<Entry>, pg': seq<Page>, id: nat, lost: set<nat>)
    requires HoldsBut(lu, pg, cat, id, lost)
    requires Sizes(lu', pg') && KeptBut(lu, pg, lu', pg', {})
    ensures HoldsBut(lu', pg', cat, id, lost)
    ensures FilesBut(pg', cat, id, lost) == FilesBut(pg, cat, id, lost)
  {
    forall s: nat | s < SLOTS ensures SlotOk(lu', pg', cat, s) && NotLost(lu', pg', id, lost, s) {
      assert SlotOk(lu, pg, cat, s);
      assert Kept(lu, pg, lu', pg', s);
    }
    forall t: nat | t < SLOTS && lu[t].Used? ensures lu'[t] == lu[t] && pg'[t] == pg[t] {
      assert Kept(lu, pg, lu', pg', t);
    }
    forall i | i in cat && i != id ensures FileOk(lu', pg', i, cat[i]) && View(pg', cat[i]) == View(pg, cat[i]) {
      FileKept(lu, pg, lu', pg', i, cat[i]);
    }
    if id in cat {
      FileButKept(lu, pg, lu', pg', id, cat[id], lost);
    }
  }
}

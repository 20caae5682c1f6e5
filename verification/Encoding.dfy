/** Pages and lookup entries as the bytes flash holds. */
module Encoding {
  import B = Bytes
  import opened Geometry
  import opened Image
  import opened Lookup
  import opened Bits
  import opened Nor
  import opened Trace

  const TYPE_FILE: byte := 1

  /** A stretch of `n` bytes that begins with `b` and is erased behind it. */
  function Fit(b: seq<byte>, n: nat): (r: seq<byte>)
    ensures |r| == n
  {
    seq(n, i requires 0 <= i => if i < |b| then b[i] else ERASED_BYTE)
  }

  function IdImage(id: nat, ix: bool): (b: seq<byte>)
    ensures |b| == 2
  {
    B.Little(if ix then id % 0x8000 + 0x8000 else id, 2)
  }

  function EntryImage(e: Entry): (b: seq<byte>)
    ensures |b| == 2
  {
    match e
    case Free => [ERASED_BYTE, ERASED_BYTE]
    case Deleted => [0, 0]
    case Used(id, ix) => IdImage(id, ix)
  }

  function HeaderImage(h: Header): (b: seq<byte>)
    ensures |b| == PAGE_HEADER && b[4] == FlagsOf(h)
  {
    IdImage(h.id, h.ix) + B.Little(h.span, 2) + [FlagsOf(h)]
  }

  function RefImage(r: Ref): (b: seq<byte>)
    ensures |b| == 2
  {
    match r
    case NoPage => [ERASED_BYTE, ERASED_BYTE]
    case At(slot) => B.Little(PixOfSlot(slot), 2)
  }

  function TableImage(t: seq<Ref>): (b: seq<byte>)
    ensures |b| == 2 * |t|
  {
    if t == [] then [] else RefImage(t[0]) + TableImage(t[1..])
  }

  function SizeImage(size: Option<nat>): (b: seq<byte>)
    ensures |b| == 4
  {
    match size
    case None => [ERASED_BYTE, ERASED_BYTE, ERASED_BYTE, ERASED_BYTE]
    case Some(n) => B.Little(n, 4)
  }

  /** A name, filled up with zeros. */
  function NameImage(name: string): (b: seq<byte>)
    ensures |b| == NAME_LEN
  {
    seq(NAME_LEN, i requires 0 <= i => if i < |name| then B.ByteOf(name[i] as int) else 0)
  }

  /** The bytes between the page header and the references.  Padding is erased. */
  function Fields(span: nat, size: Option<nat>, name: string): seq<byte>
  {
    if span == 0 then Fit([], 3) + SizeImage(size) + [TYPE_FILE] + NameImage(name) + Fit([], 1) else Fit([], 3)
  }

  /** The bytes of a page. */
  function PageImage(p: Page): (b: seq<byte>)
    ensures |b| == PAGE_SIZE
  {
    match p
    case Erased => Fit([], PAGE_SIZE)
    case DataPage(h, bytes) => Fit(HeaderImage(h) + bytes, PAGE_SIZE)
    case IndexPage(h, size, name, table) =>
      Fit(HeaderImage(h) + (Fields(h.span, size, name) + TableImage(table)), PAGE_SIZE)
  }

  /** The bytes of lookup page `p` of block `b`: an entry for every page of the block,
      and in the last two bytes of the last lookup page the erase count. */
  function LookupByte(lu: seq<Entry>, counts: seq<nat>, b: nat, p: nat, i: nat): byte
  {
    var e := Times(p, PER_PAGE) + i / 2;
    if e < ENTRIES && Base(b) + e < |lu| then EntryImage(lu[Base(b) + e])[i % 2]
    else if p == LOOKUP_PAGES - 1 && PAGE_SIZE - 2 <= i < PAGE_SIZE && b < |counts| then CountImage(counts[b])[i - (PAGE_SIZE - 2)]
    else ERASED_BYTE
  }

  function CountImage(n: nat): (b: seq<byte>)
    ensures |b| == 2
  {
    B.Little(n, 2)
  }

  function LookupImage(lu: seq<Entry>, counts: seq<nat>, b: nat, p: nat): (r: seq<byte>)
    ensures |r| == PAGE_SIZE
  {
    seq(PAGE_SIZE, i requires 0 <= i => LookupByte(lu, counts, b, p, i))
  }

  // ---------------------------------------------------------------------------
  // The image of a volume

  const PIXES: nat := Times(BLOCKS, BLOCK_PAGES)

  predicate PageIs(flash: seq<byte>, pix: nat, image: seq<byte>)
  {
    PageStart(pix) + PAGE_SIZE <= |flash| && PageBytes(flash, pix) == image
  }

  /** Page index of the lookup page that holds the entry of slot `s`, and its place there. */
  function LuPix(s: nat): nat { BlockStart(BlockOf(s)) + Quot(EntryOf(s), PER_PAGE) }

  function LuOffset(s: nat): (o: nat)
  {
    QuotSplit(EntryOf(s), PER_PAGE);
    2 * (EntryOf(s) - Times(Quot(EntryOf(s), PER_PAGE), PER_PAGE))
  }

  ghost predicate LookupOnFlash(flash: seq<byte>, lu: seq<Entry>, counts: seq<nat>)
  {
    forall b: nat, p: nat :: b < BLOCKS && p < LOOKUP_PAGES ==>
      PageIs(flash, BlockStart(b) + p, LookupImage(lu, counts, b, p))
  }

  /** Flash holds the volume, except that slot `s` holds `image`. */
  ghost predicate SlotIs(flash: seq<byte>, lu: seq<Entry>, pg: seq<Page>, counts: seq<nat>, s: nat, image: seq<byte>)
  {
    && |lu| == |pg| == SLOTS && |counts| == BLOCKS && |flash| == PageStart(PIXES)
    && (forall t: nat :: t < SLOTS && t != s ==> PageIs(flash, PixOfSlot(t), PageImage(pg[t])))
    && PageIs(flash, PixOfSlot(s), image)
    && LookupOnFlash(flash, lu, counts)
  }

  /** Flash holds the volume. */
  ghost predicate OnFlash(flash: seq<byte>, lu: seq<Entry>, pg: seq<Page>, counts: seq<nat>)
  {
    && |lu| == |pg| == SLOTS && |counts| == BLOCKS && |flash| == PageStart(PIXES)
    && (forall t: nat :: t < SLOTS ==> PageIs(flash, PixOfSlot(t), PageImage(pg[t])))
    && LookupOnFlash(flash, lu, counts)
  }

  lemma OneSlot(flash: seq<byte>, lu: seq<Entry>, pg: seq<Page>, counts: seq<nat>, s: nat, p: Page)
    requires |pg| == SLOTS && s < SLOTS
    ensures OnFlash(flash, lu, pg, counts) <==> SlotIs(flash, lu, pg, counts, s, PageImage(pg[s]))
    ensures SlotIs(flash, lu, pg, counts, s, PageImage(p)) ==> OnFlash(flash, lu, pg[s := p], counts)
  {
    hide PageImage, PageIs, LookupOnFlash;
  }

  /** Pages of slots and lookup pages are different pages of flash. */
  lemma SlotPage(s: nat)
    requires s < SLOTS
    ensures PixOfSlot(s) < PIXES && PixOfSlot(s) == BlockStart(BlockOf(s)) + LOOKUP_PAGES + EntryOf(s)
    ensures EntryOf(s) < ENTRIES && BlockOf(s) < BLOCKS
  {
    BlockBounds(s);
    TimesMono(BlockOf(s), BLOCKS, BLOCK_PAGES);
  }

  lemma BlockPage(b: nat, p: nat)
    requires b < BLOCKS && p < BLOCK_PAGES
    ensures BlockStart(b) + p < PIXES && Quot(BlockStart(b) + p, BLOCK_PAGES) == b
  {
    TimesMono(b, BLOCKS, BLOCK_PAGES);
    QuotUnique(BlockStart(b) + p, BLOCK_PAGES, b);
  }

  lemma SlotsApart(s: nat, t: nat)
    requires s < SLOTS && t < SLOTS && PixOfSlot(s) == PixOfSlot(t)
    ensures s == t
  {
    SlotPage(s);
    SlotPage(t);
    BlockPage(BlockOf(s), LOOKUP_PAGES + EntryOf(s));
    BlockPage(BlockOf(t), LOOKUP_PAGES + EntryOf(t));
  }

  lemma LookupApart(s: nat, b: nat, p: nat)
    requires s < SLOTS && b < BLOCKS && p < LOOKUP_PAGES
    ensures PixOfSlot(s) != BlockStart(b) + p
  {
    SlotPage(s);
    BlockPage(BlockOf(s), LOOKUP_PAGES + EntryOf(s));
    BlockPage(b, p);
  }

  lemma InFlash(pix: nat)
    requires pix < PIXES
    ensures PageStart(pix) + PAGE_SIZE <= PageStart(PIXES)
  {
    TimesMono(pix, PIXES, PAGE_SIZE);
  }

  /** Programming a stretch of one page. */
  lemma ProgramPage(flash: seq<byte>, pix: nat, o: nat, src: seq<byte>, q: nat)
    requires PageStart(pix) + PAGE_SIZE <= |flash| && o + |src| <= PAGE_SIZE && PageStart(q) + PAGE_SIZE <= |flash|
    ensures PageBytes(Program(flash, PageStart(pix) + o, src), q) ==
            if q == pix then Program(PageBytes(flash, pix), o, src) else PageBytes(flash, q)
    ensures OnlyClears(flash, PageStart(pix) + o, src) <==> OnlyClears(PageBytes(flash, pix), o, src)
  {
    hide Program, OnlyClears;
    ProgramSlice(flash, PageStart(pix), PAGE_SIZE, o, src);
    ClearsSlice(flash, PageStart(pix), PAGE_SIZE, o, src);
    if q != pix {
      OtherPage(flash, pix, o, src, q);
    }
  }

  lemma OtherPage(flash: seq<byte>, pix: nat, o: nat, src: seq<byte>, q: nat)
    requires PageStart(pix) + PAGE_SIZE <= |flash| && o + |src| <= PAGE_SIZE && PageStart(q) + PAGE_SIZE <= |flash|
    requires q != pix
    ensures PageBytes(Program(flash, PageStart(pix) + o, src), q) == PageBytes(flash, q)
  {
    PagesApart(pix, q);
    var after := Program(flash, PageStart(pix) + o, src);
    forall i | PageStart(q) <= i < PageStart(q) + PAGE_SIZE ensures after[i] == flash[i] {
    }
  }

  /** A write to the page of a slot. */
  lemma WriteSlot(flash: seq<byte>, lu: seq<Entry>, pg: seq<Page>, counts: seq<nat>, s: nat, image: seq<byte>, o: nat, src: seq<byte>)
    requires SlotIs(flash, lu, pg, counts, s, image) && s < SLOTS && o + |src| <= PAGE_SIZE && |image| == PAGE_SIZE
    ensures PageStart(PixOfSlot(s)) + PAGE_SIZE <= |flash|
    ensures var flash' := Program(flash, PageStart(PixOfSlot(s)) + o, src);
            SlotIs(flash', lu, pg, counts, s, Program(image, o, src))
    ensures OnlyClears(flash, PageStart(PixOfSlot(s)) + o, src) <==> OnlyClears(image, o, src)
  {
    hide Program, OnlyClears, PageBytes, LookupImage, PageImage;
    var flash' := Program(flash, PageStart(PixOfSlot(s)) + o, src);
    ProgramPage(flash, PixOfSlot(s), o, src, PixOfSlot(s));
    forall t: nat | t < SLOTS && t != s ensures PageIs(flash', PixOfSlot(t), PageImage(pg[t])) {
      assert PageIs(flash, PixOfSlot(t), PageImage(pg[t]));
      if PixOfSlot(t) == PixOfSlot(s) {
        SlotsApart(s, t);
      }
      ProgramPage(flash, PixOfSlot(s), o, src, PixOfSlot(t));
    }
    forall b: nat, p: nat | b < BLOCKS && p < LOOKUP_PAGES ensures PageIs(flash', BlockStart(b) + p, LookupImage(lu, counts, b, p)) {
      assert PageIs(flash, BlockStart(b) + p, LookupImage(lu, counts, b, p));
      LookupApart(s, b, p);
      ProgramPage(flash, PixOfSlot(s), o, src, BlockStart(b) + p);
    }
  }

  // ---------------------------------------------------------------------------
  // Lookup entries

  /** Taking a free entry and deleting an entry only clear bits of the lookup. */
  ghost predicate EntryClears(before: Entry, after: Entry)
  {
    OnlyClears(EntryImage(before), 0, EntryImage(after))
  }

  lemma EntryWritesClear(e: Entry)
    ensures EntryClears(Free, e) && EntryClears(e, Deleted)
  {
    var a, z := EntryImage(e), EntryImage(Deleted);
    forall i | 0 <= i < 2 ensures EntryImage(Free)[0 + i] & a[i] == a[i] && a[0 + i] & z[i] == z[i] {
      ClearErased(a[i]);
      ClearAll(a[i]);
    }
  }

  lemma ClearAll(b: byte)
    ensures b & 0 == 0
  {
  }

  lemma EntryPlace(s: nat)
    requires s < SLOTS
    ensures Quot(EntryOf(s), PER_PAGE) < LOOKUP_PAGES
    ensures LuOffset(s) + 2 <= PAGE_SIZE && LuPix(s) < PIXES
  {
    var q := Quot(EntryOf(s), PER_PAGE);
    SlotPage(s);
    QuotSplit(EntryOf(s), PER_PAGE);
    EntriesFit();
    if q >= LOOKUP_PAGES {
      TimesMono(LOOKUP_PAGES, q, PER_PAGE);
    }
    BlockPage(BlockOf(s), q);
  }

  /** The entries of a block and its erase count fit in its lookup pages. */
  lemma EntriesFit()
    ensures ENTRIES < Times(LOOKUP_PAGES, PER_PAGE)
    ensures PAGE_SIZE == 2 * PER_PAGE
  {
    TimesIsProduct(LOOKUP_PAGES, PER_PAGE);
  }

  /** The bytes of the lookup at the place of an entry are those of the entry, and
      changing the entry changes no other ones. */
  lemma EntryByte(lu: seq<Entry>, counts: seq<nat>, s: nat, e: Entry, b: nat, p: nat, i: nat)
    requires |lu| == SLOTS && s < SLOTS && b < BLOCKS && p < LOOKUP_PAGES && i < PAGE_SIZE
    ensures var here := b == BlockOf(s) && p == Quot(EntryOf(s), PER_PAGE) && LuOffset(s) <= i < LuOffset(s) + 2;
            && (here ==> LookupByte(lu, counts, b, p, i) == EntryImage(lu[s])[i - LuOffset(s)])
            && (here ==> LookupByte(lu[s := e], counts, b, p, i) == EntryImage(e)[i - LuOffset(s)])
            && (!here ==> LookupByte(lu[s := e], counts, b, p, i) == LookupByte(lu, counts, b, p, i))
  {
    hide EntryImage, CountImage;
    var k := Times(p, PER_PAGE) + i / 2;
    SlotPage(s);
    BlockBounds(s);
    QuotSplit(EntryOf(s), PER_PAGE);
    if k < ENTRIES {
      if Base(b) + k == s {
        InBlock(b, s);
        QuotUnique(k, PER_PAGE, p);
      }
    }
  }

  /** A write to the lookup. */
  lemma WriteEntry(flash: seq<byte>, lu: seq<Entry>, pg: seq<Page>, counts: seq<nat>, x: nat, image: seq<byte>, s: nat, e: Entry)
    requires SlotIs(flash, lu, pg, counts, x, image) && x < SLOTS && s < SLOTS && EntryClears(lu[s], e)
    ensures LuOffset(s) + 2 <= PAGE_SIZE && PageStart(LuPix(s)) + PAGE_SIZE <= |flash|
    ensures var flash' := Program(flash, PageStart(LuPix(s)) + LuOffset(s), EntryImage(e));
            SlotIs(flash', lu[s := e], pg, counts, x, image)
    ensures OnlyClears(flash, PageStart(LuPix(s)) + LuOffset(s), EntryImage(e))
  {
    hide Program, OnlyClears, PageBytes, LookupImage, PageImage, EntryImage, LookupOnFlash, LuOffset, LuPix;
    EntryPlace(s);
    InFlash(LuPix(s));
    LookupWritten(flash, lu, counts, s, e);
    var flash' := Program(flash, PageStart(LuPix(s)) + LuOffset(s), EntryImage(e));
    forall t: nat | t < SLOTS ensures PageIs(flash, PixOfSlot(t), PageBytes(flash', PixOfSlot(t))) {
      SlotPage(t);
      InFlash(PixOfSlot(t));
      LookupApartFrom(t, s);
      ProgramPage(flash, LuPix(s), LuOffset(s), EntryImage(e), PixOfSlot(t));
    }
    forall t: nat | t < SLOTS && t != x ensures PageIs(flash', PixOfSlot(t), PageImage(pg[t])) {
      assert PageIs(flash, PixOfSlot(t), PageImage(pg[t]));
    }
  }

  lemma LookupApartFrom(t: nat, s: nat)
    requires t < SLOTS && s < SLOTS
    ensures PixOfSlot(t) != LuPix(s)
  {
    EntryPlace(s);
    SlotPage(s);
    LookupApart(t, BlockOf(s), Quot(EntryOf(s), PER_PAGE));
  }

  lemma LookupWritten(flash: seq<byte>, lu: seq<Entry>, counts: seq<nat>, s: nat, e: Entry)
    requires |lu| == SLOTS && LookupOnFlash(flash, lu, counts) && s < SLOTS && EntryClears(lu[s], e)
    requires LuOffset(s) + 2 <= PAGE_SIZE && PageStart(LuPix(s)) + PAGE_SIZE <= |flash|
    ensures LookupOnFlash(Program(flash, PageStart(LuPix(s)) + LuOffset(s), EntryImage(e)), lu[s := e], counts)
    ensures OnlyClears(flash, PageStart(LuPix(s)) + LuOffset(s), EntryImage(e))
  {
    hide Program, OnlyClears, PageBytes, LookupImage, EntryImage, EntryClears, LuOffset;
    EntryPlace(s);
    SlotPage(s);
    var src, c, q, lu' := EntryImage(e), BlockOf(s), Quot(EntryOf(s), PER_PAGE), lu[s := e];
    var flash' := Program(flash, PageStart(LuPix(s)) + LuOffset(s), src);
    assert PageIs(flash, BlockStart(c) + q, LookupImage(lu, counts, c, q));
    EntryWritten(lu, counts, s, e);
    ProgramPage(flash, LuPix(s), LuOffset(s), src, LuPix(s));
    forall b: nat, p: nat | b < BLOCKS && p < LOOKUP_PAGES ensures PageIs(flash', BlockStart(b) + p, LookupImage(lu', counts, b, p)) {
      assert PageIs(flash, BlockStart(b) + p, LookupImage(lu, counts, b, p));
      ProgramPage(flash, LuPix(s), LuOffset(s), src, BlockStart(b) + p);
      if b != c || p != q {
        EntryElsewhere(lu, counts, s, e, b, p);
        if BlockStart(b) + p == BlockStart(c) + q {
          SamePage(b, p, c, q);
        }
      }
    }
  }

  lemma SamePage(b: nat, p: nat, c: nat, q: nat)
    requires b < BLOCKS && c < BLOCKS && p < BLOCK_PAGES && q < BLOCK_PAGES && BlockStart(b) + p == BlockStart(c) + q
    ensures b == c && p == q
  {
    BlockPage(b, p);
    BlockPage(c, q);
  }

  lemma EntryElsewhere(lu: seq<Entry>, counts: seq<nat>, s: nat, e: Entry, b: nat, p: nat)
    requires |lu| == SLOTS && s < SLOTS && b < BLOCKS && p < LOOKUP_PAGES
    requires b != BlockOf(s) || p != Quot(EntryOf(s), PER_PAGE)
    ensures LookupImage(lu[s := e], counts, b, p) == LookupImage(lu, counts, b, p)
  {
    var a, a' := LookupImage(lu, counts, b, p), LookupImage(lu[s := e], counts, b, p);
    forall i | 0 <= i < PAGE_SIZE ensures a'[i] == a[i] {
      EntryByte(lu, counts, s, e, b, p, i);
    }
  }

  lemma EntryWritten(lu: seq<Entry>, counts: seq<nat>, s: nat, e: Entry)
    requires |lu| == SLOTS && s < SLOTS && EntryClears(lu[s], e) && LuOffset(s) + 2 <= PAGE_SIZE
    ensures var b, p := BlockOf(s), Quot(EntryOf(s), PER_PAGE);
            && LookupImage(lu[s := e], counts, b, p) == Program(LookupImage(lu, counts, b, p), LuOffset(s), EntryImage(e))
            && OnlyClears(LookupImage(lu, counts, b, p), LuOffset(s), EntryImage(e))
  {
    hide EntryImage, LuOffset;
    EntryPlace(s);
    SlotPage(s);
    var b, p := BlockOf(s), Quot(EntryOf(s), PER_PAGE);
    var a, a', src := LookupImage(lu, counts, b, p), LookupImage(lu[s := e], counts, b, p), EntryImage(e);
    forall i | 0 <= i < PAGE_SIZE
      ensures a'[i] == Program(a, LuOffset(s), src)[i]
      ensures LuOffset(s) <= i < LuOffset(s) + 2 ==> a[i] & src[i - LuOffset(s)] == src[i - LuOffset(s)]
    {
      EntryByte(lu, counts, s, e, b, p, i);
      if LuOffset(s) <= i < LuOffset(s) + 2 {
        var k := i - LuOffset(s);
        assert EntryImage(lu[s])[0 + k] & src[k] == src[k];
      }
    }
    forall i | 0 <= i < |src| ensures a[LuOffset(s) + i] & src[i] == src[i] {
      var k := LuOffset(s) + i;
      assert a[k] & src[k - LuOffset(s)] == src[k - LuOffset(s)];
    }
  }

  // ---------------------------------------------------------------------------
  // Erasing a block

  /** A byte of the lookup of a block that has been erased. */
  lemma ErasedByteAt(lu: seq<Entry>, counts: seq<nat>, b: nat, n: nat, p: nat, i: nat)
    requires |lu| == SLOTS && |counts| == BLOCKS && b < BLOCKS && p < LOOKUP_PAGES && i < PAGE_SIZE
    ensures LookupByte(BlockErased(lu, b), counts[b := n], b, p, i) ==
            if p == LOOKUP_PAGES - 1 && PAGE_SIZE - 2 <= i then CountImage(n)[i - (PAGE_SIZE - 2)] else ERASED_BYTE
  {
    hide CountImage;
    EntriesFit();
    TimesMono(b, BLOCKS, ENTRIES);
    var e := Times(p, PER_PAGE) + i / 2;
    if e < ENTRIES {
      assert BlockErased(lu, b)[Base(b) + e] == Free;
    }
    if p == LOOKUP_PAGES - 1 && PAGE_SIZE - 2 <= i {
      TimesMono(LOOKUP_PAGES - 1, LOOKUP_PAGES, PER_PAGE);
      assert Times(LOOKUP_PAGES, PER_PAGE) == Times(LOOKUP_PAGES - 1, PER_PAGE) + PER_PAGE;
    }
  }

  lemma ErasedLookup(lu: seq<Entry>, counts: seq<nat>, b: nat, n: nat, p: nat)
    requires |lu| == SLOTS && |counts| == BLOCKS && b < BLOCKS && p < LOOKUP_PAGES
    ensures LookupImage(BlockErased(lu, b), counts[b := n], b, p) ==
            if p == LOOKUP_PAGES - 1 then Program(Fit([], PAGE_SIZE), PAGE_SIZE - 2, CountImage(n)) else Fit([], PAGE_SIZE)
  {
    hide CountImage, LookupByte, BlockErased;
    var a := LookupImage(BlockErased(lu, b), counts[b := n], b, p);
    var c := if p == LOOKUP_PAGES - 1 then Program(Fit([], PAGE_SIZE), PAGE_SIZE - 2, CountImage(n)) else Fit([], PAGE_SIZE);
    forall i | 0 <= i < PAGE_SIZE ensures a[i] == c[i] {
      ErasedByteAt(lu, counts, b, n, p, i);
      if p == LOOKUP_PAGES - 1 && PAGE_SIZE - 2 <= i {
        ClearErased(CountImage(n)[i - (PAGE_SIZE - 2)]);
      }
    }
  }

  lemma OtherLookup(lu: seq<Entry>, counts: seq<nat>, b: nat, n: nat, c: nat, p: nat)
    requires |lu| == SLOTS && |counts| == BLOCKS && b < BLOCKS && c < BLOCKS && c != b && p < LOOKUP_PAGES
    ensures LookupImage(BlockErased(lu, b), counts[b := n], c, p) == LookupImage(lu, counts, c, p)
  {
    hide CountImage, EntryImage;
    var a, a' := LookupImage(lu, counts, c, p), LookupImage(BlockErased(lu, b), counts[b := n], c, p);
    forall i | 0 <= i < PAGE_SIZE ensures a'[i] == a[i] {
      var e := Times(p, PER_PAGE) + i / 2;
      if e < ENTRIES {
        InBlock(c, Base(c) + e);
        if Base(b) <= Base(c) + e < Base(b) + ENTRIES {
          InBlock(b, Base(c) + e);
        }
      }
    }
  }

  lemma BlockIsInFlash(flash: seq<byte>, b: nat)
    requires |flash| == PageStart(PIXES) && b < BLOCKS
    ensures BlockInFlash(flash, b)
  {
    TimesMono(b + 1, BLOCKS, BLOCK_PAGES);
    TimesMono(BlockStart(b) + BLOCK_PAGES, PIXES, PAGE_SIZE);
    BlockPage(b, LOOKUP_PAGES - 1);
    InFlash(CountPix(b));
  }

  /** What is left of a page when block `b` is erased. */
  lemma ErasedPage(flash: seq<byte>, b: nat, count: seq<byte>, c: nat, p: nat)
    requires |flash| == PageStart(PIXES) && b < BLOCKS && c < BLOCKS && p < BLOCK_PAGES && |count| <= PAGE_SIZE
    ensures BlockInFlash(flash, b) && PageStart(BlockStart(c) + p) + PAGE_SIZE <= |flash|
    ensures PageBytes(Apply(flash, Er(b, count)), BlockStart(c) + p) ==
            if c != b then PageBytes(flash, BlockStart(c) + p)
            else if p == LOOKUP_PAGES - 1 then Program(Fit([], PAGE_SIZE), PAGE_SIZE - |count|, count)
            else Fit([], PAGE_SIZE)
  {
    hide Program, PageBytes, EraseRange, Fit;
    BlockIsInFlash(flash, b);
    BlockPage(c, p);
    InFlash(BlockStart(c) + p);
    WipedPage(flash, b, c, p);
    var wiped := EraseRange(flash, PageStart(BlockStart(b)), PageStart(BlockStart(b) + BLOCK_PAGES));
    ProgramPage(wiped, CountPix(b), PAGE_SIZE - |count|, count, BlockStart(c) + p);
    if BlockStart(c) + p == BlockStart(b) + (LOOKUP_PAGES - 1) {
      SamePage(c, p, b, LOOKUP_PAGES - 1);
    }
  }

  lemma WipedPage(flash: seq<byte>, b: nat, c: nat, p: nat)
    requires |flash| == PageStart(PIXES) && b < BLOCKS && c < BLOCKS && p < BLOCK_PAGES
    requires PageStart(BlockStart(c) + p) + PAGE_SIZE <= |flash|
    ensures PageBytes(EraseRange(flash, PageStart(BlockStart(b)), PageStart(BlockStart(b) + BLOCK_PAGES)), BlockStart(c) + p) ==
            if c == b then Fit([], PAGE_SIZE) else PageBytes(flash, BlockStart(c) + p)
  {
    var q := BlockStart(c) + p;
    if c == b {
      TimesMono(BlockStart(b), q, PAGE_SIZE);
      TimesMono(q, BlockStart(b) + BLOCK_PAGES, PAGE_SIZE);
    } else if c < b {
      TimesMono(c + 1, b, BLOCK_PAGES);
      TimesMono(q, BlockStart(b), PAGE_SIZE);
    } else {
      TimesMono(b + 1, c, BLOCK_PAGES);
      TimesMono(BlockStart(b) + BLOCK_PAGES, q, PAGE_SIZE);
    }
  }

  /** Erasing a block and noting its erase count. */
  lemma EraseImage(flash: seq<byte>, lu: seq<Entry>, pg: seq<Page>, counts: seq<nat>, b: nat, n: nat)
    requires OnFlash(flash, lu, pg, counts) && b < BLOCKS
    ensures Sound(flash, Er(b, CountImage(n)))
    ensures OnFlash(Apply(flash, Er(b, CountImage(n))), BlockErased(lu, b), PagesErased(pg, b), counts[b := n])
  {
    hide Program, PageBytes, LookupImage, PageImage, Apply, Fit, LookupOnFlash, CountImage, PixOfSlot;
    var flash' := Apply(flash, Er(b, CountImage(n)));
    EntriesFit();
    ErasedPage(flash, b, CountImage(n), b, 0);
    var pg' := PagesErased(pg, b);
    forall t: nat | t < SLOTS ensures PageIs(flash', PixOfSlot(t), PageImage(pg'[t])) {
      assert PageIs(flash, PixOfSlot(t), PageImage(pg[t]));
      SlotPage(t);
      BlockBounds(t);
      ErasedPage(flash, b, CountImage(n), BlockOf(t), LOOKUP_PAGES + EntryOf(t));
      ErasedIsBlank();
      if BlockOf(t) != b && Base(b) <= t < Base(b) + ENTRIES {
        InBlock(b, t);
      }
    }
    LookupErased(flash, lu, counts, b, n);
  }

  lemma ErasedIsBlank()
    ensures PageImage(Erased) == Fit([], PAGE_SIZE)
  {
  }

  lemma LookupErased(flash: seq<byte>, lu: seq<Entry>, counts: seq<nat>, b: nat, n: nat)
    requires |lu| == SLOTS && |counts| == BLOCKS && |flash| == PageStart(PIXES) && LookupOnFlash(flash, lu, counts) && b < BLOCKS
    ensures LookupOnFlash(Apply(flash, Er(b, CountImage(n))), BlockErased(lu, b), counts[b := n])
  {
    hide Program, PageBytes, LookupImage, Apply, Fit, CountImage, BlockErased;
    var flash', lu', counts' := Apply(flash, Er(b, CountImage(n))), BlockErased(lu, b), counts[b := n];
    EntriesFit();
    forall c: nat, p: nat | c < BLOCKS && p < LOOKUP_PAGES ensures PageIs(flash', BlockStart(c) + p, LookupImage(lu', counts', c, p)) {
      assert PageIs(flash, BlockStart(c) + p, LookupImage(lu, counts, c, p));
      ErasedPage(flash, b, CountImage(n), c, p);
      if c == b {
        ErasedLookup(lu, counts, b, n, p);
      } else {
        OtherLookup(lu, counts, b, n, c, p);
      }
    }
  }

  /** The page a header and some payload make on an erased page. */
  function FreshPage(hdr: Header, data: seq<byte>): Page
    requires |data| <= DATA_SIZE
  {
    if hdr.ix then IndexPage(hdr, None, "", EmptyTable(hdr.span))
    else DataPage(hdr, Program(ErasedBytes(), 0, data))
  }

  const NO_ID: nat := 0xffff

  /** A page after its header has been marked deleted. */
  function Dead(p: Page): Page
  {
    match p
    case Erased => DataPage(Header(NO_ID, false, NO_ID, false, false, true), ErasedBytes())
    case DataPage(h, bytes) => DataPage(h.(live := false), bytes)
    case IndexPage(h, size, name, table) => IndexPage(h.(live := false), size, name, table)
  }

  /** A size field or a reference can be programmed once, from its erased value. */
  predicate CanSetSize(before: Option<nat>, after: Option<nat>)
  {
    before == after || before == None
  }

  predicate CanSetRef(before: Ref, after: Ref)
  {
    before == after || before == NoPage
  }

  /** Programming page `after` over the index page `before` only clears bits. */
  ghost predicate CanProgram(before: Page, after: Page)
  {
    && before.IndexPage? && after.IndexPage?
    && before.hdr == after.hdr && before.name == after.name
    && CanSetSize(before.size, after.size)
    && |before.table| == |after.table|
    && forall e :: 0 <= e < |before.table| ==> CanSetRef(before.table[e], after.table[e])
  }

  // ---------------------------------------------------------------------------
  // What the writes of the page layer make of a page

  /** A stretch programmed behind another one on an erased page. */
  lemma ProgramBehind(a: seq<byte>, src: seq<byte>, n: nat)
    requires |a| + |src| <= n
    ensures Program(Fit(a, n), |a|, src) == Fit(a + src, n)
    ensures OnlyClears(Fit(a, n), |a|, src)
  {
    ErasedTakesAll(Fit(a, n), |a|, src);
    var x, y := Program(Fit(a, n), |a|, src), Fit(a + src, n);
    forall i | 0 <= i < n ensures x[i] == y[i] {
      if |a| <= i < |a| + |src| {
        ClearErased(src[i - |a|]);
      }
    }
  }

  lemma FitWhole(b: seq<byte>, n: nat)
    requires |b| == n
    ensures Fit(b, n) == b
  {
  }

  /** A new data page: its header and its payload. */
  lemma DataWritten(h: Header, data: seq<byte>)
    requires |data| <= DATA_SIZE
    ensures var p1 := Program(PageImage(Erased), 0, HeaderImage(h));
            && OnlyClears(PageImage(Erased), 0, HeaderImage(h)) && OnlyClears(p1, PAGE_HEADER, data)
            && Program(p1, PAGE_HEADER, data) == PageImage(DataPage(h, Program(ErasedBytes(), 0, data)))
  {
    hide Program, OnlyClears, HeaderImage;
    ProgramBehind([], HeaderImage(h), PAGE_SIZE);
    assert [] + HeaderImage(h) == HeaderImage(h);
    ProgramBehind(HeaderImage(h), data, PAGE_SIZE);
    ProgramBehind([], data, DATA_SIZE);
    assert [] + data == data;
    assert ErasedBytes() == Fit([], DATA_SIZE);
    var x, y := Fit(HeaderImage(h) + data, PAGE_SIZE), Fit(HeaderImage(h) + Fit(data, DATA_SIZE), PAGE_SIZE);
    forall i | 0 <= i < PAGE_SIZE ensures x[i] == y[i] {
    }
  }

  /** A new index page: its header only. */
  lemma IndexWritten(h: Header, n: nat)
    requires h.span > 0
    ensures OnlyClears(PageImage(Erased), 0, HeaderImage(h))
    ensures Program(PageImage(Erased), 0, HeaderImage(h)) == PageImage(IndexPage(h, None, "", seq(n, e => NoPage)))
  {
    hide Program, OnlyClears, HeaderImage;
    ProgramBehind([], HeaderImage(h), PAGE_SIZE);
    assert [] + HeaderImage(h) == HeaderImage(h);
    var t := seq(n, e => NoPage);
    BlankTable(t);
    var x, y := Fit(HeaderImage(h), PAGE_SIZE), Fit(HeaderImage(h) + (Fit([], 3) + TableImage(t)), PAGE_SIZE);
    forall i | 0 <= i < PAGE_SIZE ensures x[i] == y[i] {
    }
  }

  lemma {:induction false} BlankTable(t: seq<Ref>)
    requires forall e :: 0 <= e < |t| ==> t[e] == NoPage
    ensures TableImage(t) == Fit([], 2 * |t|)
  {
    if t != [] {
      BlankTable(t[1..]);
    }
  }

  /** A new header page: the structure at its beginning. */
  lemma HeaderPageWritten(h: Header, name: string, n: nat)
    requires h.span == 0
    ensures var p := IndexPage(h, None, name, seq(n, e => NoPage));
            && OBJ_IX_HDR_SIZE <= PAGE_SIZE
            && OnlyClears(PageImage(Erased), 0, PageImage(p)[..OBJ_IX_HDR_SIZE])
            && Program(PageImage(Erased), 0, PageImage(p)[..OBJ_IX_HDR_SIZE]) == PageImage(p)
  {
    hide Program, OnlyClears, HeaderImage, NameImage;
    var t: seq<Ref> := seq(n, e => NoPage);
    var front := HeaderImage(h) + Fields(h.span, None, name);
    var p := PageImage(IndexPage(h, None, name, t));
    BlankTable(t);
    assert |front| == OBJ_IX_HDR_SIZE;
    assert HeaderImage(h) + (Fields(h.span, None, name) + TableImage(t)) == front + TableImage(t);
    ProgramBehind([], front, PAGE_SIZE);
    assert [] + front == front;
    var y := Fit(front, PAGE_SIZE);
    forall i | 0 <= i < PAGE_SIZE ensures p[i] == y[i] {
    }
    assert p[..OBJ_IX_HDR_SIZE] == front;
  }

  /** A page with other flags in its header. */
  function WithHeader(p: Page, h: Header): Page
  {
    match p
    case Erased => Erased
    case DataPage(_, bytes) => DataPage(h, bytes)
    case IndexPage(_, size, name, table) => IndexPage(h, size, name, table)
  }

  /** What follows the header. */
  function Body(p: Page): seq<byte>
  {
    match p
    case Erased => []
    case DataPage(_, bytes) => bytes
    case IndexPage(h, size, name, table) => Fields(h.span, size, name) + TableImage(table)
  }

  lemma ProgramByte(a: seq<byte>, f: byte, c: seq<byte>, n: nat, flags: byte, both: byte)
    requires |a| < n && both == f & flags
    ensures Program(Fit(a + [f] + c, n), |a|, [flags]) == Fit(a + [both] + c, n)
    ensures both == flags ==> OnlyClears(Fit(a + [f] + c, n), |a|, [flags])
  {
    var l, l' := a + [f] + c, a + [both] + c;
    var p := Fit(l, n);
    assert l[|a|] == f && l'[|a|] == both && p[|a|] == f;
    var x, y := Program(p, |a|, [flags]), Fit(l', n);
    forall i | 0 <= i < n && i != |a| ensures x[i] == y[i] {
      assert i < |l| ==> l[i] == l'[i];
    }
    assert x[|a|] == both;
    assert x == y;
  }

  /** Writing the flags byte of a page. */
  lemma FlagsWritten(p: Page, h: Header, flags: byte)
    requires !p.Erased? && h.id == p.hdr.id && h.ix == p.hdr.ix && h.span == p.hdr.span
    requires FlagsOf(p.hdr) & flags == FlagsOf(h)
    ensures Program(PageImage(p), 4, [flags]) == PageImage(WithHeader(p, h))
    ensures FlagsOf(h) == flags ==> OnlyClears(PageImage(p), 4, [flags])
  {
    hide FlagsOf, Fields, TableImage, Program, Fit, OnlyClears, IdImage;
    var front := IdImage(h.id, h.ix) + B.Little(h.span, 2);
    ProgramByte(front, FlagsOf(p.hdr), Body(p), PAGE_SIZE, flags, FlagsOf(h));
    assert PageImage(p) == Fit(front + [FlagsOf(p.hdr)] + Body(p), PAGE_SIZE);
    assert PageImage(WithHeader(p, h)) == Fit(front + [FlagsOf(h)] + Body(p), PAGE_SIZE);
  }

  /** A page before its header is marked as final. */
  function Unfinished(p: Page): Page
  {
    if p.Erased? then p else WithHeader(p, p.hdr.(final := false))
  }

  /** Any page can be written to an erased one. */
  lemma BlankTakes(image: seq<byte>)
    requires |image| == PAGE_SIZE
    ensures OnlyClears(PageImage(Erased), 0, image) && Program(PageImage(Erased), 0, image) == image
  {
    hide Program, OnlyClears;
    ProgramBehind([], image, PAGE_SIZE);
    assert [] + image == image;
    FitWhole(image, PAGE_SIZE);
  }

  lemma ReadSound(flash: seq<byte>, lu: seq<Entry>, pg: seq<Page>, counts: seq<nat>, s: nat, image: seq<byte>, t: nat, o: nat, n: nat)
    requires SlotIs(flash, lu, pg, counts, s, image) && t < SLOTS && o + n <= PAGE_SIZE
    ensures Sound(flash, Rd(OnData, PixOfSlot(t), o, n))
  {
    SlotPage(t);
    InFlash(PixOfSlot(t));
  }

  lemma FreshFlags(h: Header, data: seq<byte>)
    requires |data| <= DATA_SIZE
    requires FlagsOf(h) & FlagsOf(h.(final := true)) == FlagsOf(h.(final := true))
    ensures Program(PageImage(FreshPage(h, data)), 4, [FlagsOf(h.(final := true))]) == PageImage(FreshPage(h.(final := true), data))
    ensures OnlyClears(PageImage(FreshPage(h, data)), 4, [FlagsOf(h.(final := true))])
  {
    hide FlagsOf, PageImage, Program, OnlyClears;
    FlagsWritten(FreshPage(h, data), h.(final := true), FlagsOf(h.(final := true)));
  }

  /** The flags byte a deletion writes. */
  lemma DeletionWritten(p: Page)
    ensures Program(PageImage(p), 4, [DELETE_FLAGS]) == PageImage(Dead(p))
  {
    if p.Erased? {
      var h := Header(NO_ID, false, NO_ID, false, false, true);
      ErasedFlags(h);
      BlankDead(h);
    } else {
      DeleteNeedsDrop(p.hdr);
      FlagsWritten(p, p.hdr.(live := false), DELETE_FLAGS);
    }
  }

  lemma BlankDead(h: Header)
    requires h.id == NO_ID && !h.ix && h.span == NO_ID && FlagsOf(h) == DELETE_FLAGS
    ensures Program(PageImage(Erased), 4, [DELETE_FLAGS]) == PageImage(DataPage(h, ErasedBytes()))
  {
    hide FlagsOf;
    NoIdImage();
    ClearErased(DELETE_FLAGS);
    var x, y := Program(PageImage(Erased), 4, [DELETE_FLAGS]), PageImage(DataPage(h, ErasedBytes()));
    forall i | 0 <= i < PAGE_SIZE ensures x[i] == y[i] {
    }
  }

  lemma NoIdImage()
    ensures B.Little(NO_ID, 2) == [ERASED_BYTE, ERASED_BYTE]
  {
    assert B.Little(0xffff, 2) == [B.ByteOf(0xffff)] + ([B.ByteOf(0xff)] + B.Little(0, 0));
    assert B.ByteOf(0xffff) == 0xff && B.ByteOf(0xff) == 0xff;
  }

  lemma ProgramTail(a: seq<byte>, c: seq<byte>, o: nat, data: seq<byte>)
    requires o + |data| <= |c|
    ensures Program(a + c, |a| + o, data) == a + Program(c, o, data)
    ensures OnlyClears(a + c, |a| + o, data) <==> OnlyClears(c, o, data)
  {
    var x, y := Program(a + c, |a| + o, data), a + Program(c, o, data);
    forall i | 0 <= i < |a| + |c| ensures x[i] == y[i] {
    }
    assert (a + c)[|a|..|a| + |c|] == c;
    ClearsSlice(a + c, |a|, |c|, o, data);
  }

  /** Bytes programmed in the payload of a data page. */
  lemma PayloadWritten(h: Header, bytes: seq<byte>, o: nat, data: seq<byte>)
    requires |bytes| == DATA_SIZE && o + |data| <= DATA_SIZE
    ensures Program(PageImage(DataPage(h, bytes)), PAGE_HEADER + o, data) == PageImage(DataPage(h, Program(bytes, o, data)))
    ensures OnlyClears(PageImage(DataPage(h, bytes)), PAGE_HEADER + o, data) <==> OnlyClears(bytes, o, data)
  {
    hide HeaderImage, Program, OnlyClears, Fit;
    FitWhole(HeaderImage(h) + bytes, PAGE_SIZE);
    FitWhole(HeaderImage(h) + Program(bytes, o, data), PAGE_SIZE);
    ProgramTail(HeaderImage(h), bytes, o, data);
  }

  // ---------------------------------------------------------------------------
  // Programming an index page in place

  ghost predicate Clears(a: seq<byte>, b: seq<byte>)
  {
    |a| == |b| && OnlyClears(a, 0, b)
  }

  lemma ClearsAll(a: seq<byte>, b: seq<byte>)
    requires Clears(a, b)
    ensures Program(a, 0, b) == b
  {
    forall i | 0 <= i < |a| ensures Program(a, 0, b)[i] == b[i] {
      assert a[0 + i] & b[i] == b[i];
    }
  }

  lemma ClearsSelf(a: seq<byte>)
    ensures Clears(a, a)
  {
    forall i | 0 <= i < |a| ensures a[0 + i] & a[i] == a[i] {
      AndSelf(a[i]);
    }
  }

  lemma AndSelf(b: byte)
    ensures b & b == b
  {
  }

  lemma ClearsFit(a: seq<byte>, b: seq<byte>, n: nat)
    requires Clears(a, b)
    ensures Clears(Fit(a, n), Fit(b, n))
  {
    forall i | 0 <= i < n ensures Fit(a, n)[0 + i] & Fit(b, n)[i] == Fit(b, n)[i] {
      if i < |a| {
        assert a[0 + i] & b[i] == b[i];
      } else {
        ClearErased(ERASED_BYTE);
      }
    }
  }

  lemma ClearsConcat(a: seq<byte>, b: seq<byte>, c: seq<byte>, d: seq<byte>)
    requires Clears(a, b) && Clears(c, d)
    ensures Clears(a + c, b + d)
  {
    forall i | 0 <= i < |a| + |c| ensures (a + c)[0 + i] & (b + d)[i] == (b + d)[i] {
      if i < |a| {
        assert a[0 + i] & b[i] == b[i];
      } else {
        assert c[0 + (i - |a|)] & d[i - |a|] == d[i - |a|];
      }
    }
  }

  lemma ClearsErased(b: seq<byte>)
    ensures Clears(Fit([], |b|), b)
  {
    ErasedTakesAll(Fit([], |b|), 0, b);
  }

  lemma RefClears(a: Ref, b: Ref)
    requires CanSetRef(a, b)
    ensures Clears(RefImage(a), RefImage(b))
  {
    if a == b {
      ClearsSelf(RefImage(a));
    } else {
      ClearsErased(RefImage(b));
      assert Fit([], 2) == [ERASED_BYTE, ERASED_BYTE];
    }
  }

  lemma {:induction false} TableClears(a: seq<Ref>, b: seq<Ref>)
    requires |a| == |b| && forall e :: 0 <= e < |a| ==> CanSetRef(a[e], b[e])
    ensures Clears(TableImage(a), TableImage(b))
  {
    hide RefImage, Clears;
    if a == [] {
      ClearsSelf([]);
    } else {
      RefClears(a[0], b[0]);
      forall e | 0 <= e < |a[1..]| ensures CanSetRef(a[1..][e], b[1..][e]) {
        assert a[1..][e] == a[e + 1] && b[1..][e] == b[e + 1];
      }
      TableClears(a[1..], b[1..]);
      ClearsConcat(RefImage(a[0]), RefImage(b[0]), TableImage(a[1..]), TableImage(b[1..]));
    }
  }

  lemma SizeClears(a: Option<nat>, b: Option<nat>)
    requires CanSetSize(a, b)
    ensures Clears(SizeImage(a), SizeImage(b))
  {
    if a == b {
      ClearsSelf(SizeImage(a));
    } else {
      ClearsErased(SizeImage(b));
      assert Fit([], 4) == [ERASED_BYTE, ERASED_BYTE, ERASED_BYTE, ERASED_BYTE];
    }
  }

  lemma FieldsClear(span: nat, a: Option<nat>, b: Option<nat>, name: string)
    requires CanSetSize(a, b)
    ensures Clears(Fields(span, a, name), Fields(span, b, name))
  {
    hide SizeImage, NameImage, Clears, CanSetSize;
    if span == 0 {
      var front, back := Fit([], 3), [TYPE_FILE] + NameImage(name) + Fit([], 1);
      SizeClears(a, b);
      ClearsSelf(front);
      ClearsSelf(back);
      ClearsConcat(front, front, SizeImage(a), SizeImage(b));
      ClearsConcat(front + SizeImage(a), front + SizeImage(b), back, back);
      assert Fields(span, a, name) == front + SizeImage(a) + back;
      assert Fields(span, b, name) == front + SizeImage(b) + back;
    } else {
      ClearsSelf(Fit([], 3));
    }
  }

  /** A length of 0 in a header stays there, whatever is programmed over it. */
  lemma {:induction false} ZeroLengthStays(n: nat)
    ensures Program(SizeImage(Some(0)), 0, SizeImage(Some(n))) == SizeImage(Some(0))
  {
    LittleZero(4);
    var z, b := SizeImage(Some(0)), SizeImage(Some(n));
    forall i | 0 <= i < 4 ensures Program(z, 0, b)[i] == z[i] {
      NothingToClear(b[i]);
    }
  }

  lemma {:induction false} LittleZero(k: nat)
    ensures forall i :: 0 <= i < k ==> B.Little(0, k)[i] == 0
  {
    if k > 0 {
      LittleZero(k - 1);
      assert B.ByteOf(0) == 0;
    }
  }

  lemma NothingToClear(b: byte)
    ensures 0 & b == 0
  {
  }

  /** What may be programmed over an index page only clears bits of it, and leaves
      the new page. */
  lemma IndexWritesClear(before: Page, after: Page)
    requires CanProgram(before, after)
    ensures OnlyClears(PageImage(before), 0, PageImage(after))
    ensures Program(PageImage(before), 0, PageImage(after)) == PageImage(after)
  {
    hide Clears, HeaderImage, Fields, TableImage;
    var h := HeaderImage(before.hdr);
    var f, f' := Fields(before.hdr.span, before.size, before.name), Fields(after.hdr.span, after.size, after.name);
    FieldsClear(before.hdr.span, before.size, after.size, before.name);
    TableClears(before.table, after.table);
    ClearsConcat(f, f', TableImage(before.table), TableImage(after.table));
    ClearsSelf(h);
    ClearsConcat(h, h, f + TableImage(before.table), f' + TableImage(after.table));
    ClearsFit(h + (f + TableImage(before.table)), h + (f' + TableImage(after.table)), PAGE_SIZE);
    Unfold(PageImage(before), PageImage(after));
    ClearsAll(PageImage(before), PageImage(after));
  }

  lemma Unfold(a: seq<byte>, b: seq<byte>)
    requires Clears(a, b)
    ensures |a| == |b| && OnlyClears(a, 0, b)
  {
  }

  // ---------------------------------------------------------------------------
  // Reading a page

  function TableOffset(span: nat): nat
  {
    if span == 0 then OBJ_IX_HDR_SIZE else OBJ_IX_SIZE
  }

  lemma {:induction false} TableAt(t: seq<Ref>, e: nat)
    requires e < |t|
    ensures TableImage(t)[2 * e..2 * e + 2] == RefImage(t[e])
  {
    hide RefImage;
    if e > 0 {
      TableAt(t[1..], e - 1);
      assert t[1..][e - 1] == t[e];
      assert TableImage(t)[2 * e..2 * e + 2] == TableImage(t[1..])[2 * (e - 1)..2 * (e - 1) + 2];
    }
  }

  lemma TableFits(span: nat)
    ensures TableOffset(span) + 2 * TableLen(span) <= PAGE_SIZE
  {
  }

  /** A reference in the bytes of an index page. */
  lemma RefRead(p: Page, e: nat)
    requires p.IndexPage? && |p.table| == TableLen(p.hdr.span) && e < |p.table|
    ensures TableOffset(p.hdr.span) + 2 * e + 2 <= PAGE_SIZE
    ensures var o := TableOffset(p.hdr.span) + 2 * e; PageImage(p)[o..o + 2] == RefImage(p.table[e])
  {
    hide HeaderImage, RefImage, TableImage, SizeImage, NameImage;
    TableFits(p.hdr.span);
    TableAt(p.table, e);
    var front := HeaderImage(p.hdr) + Fields(p.hdr.span, p.size, p.name);
    var o := TableOffset(p.hdr.span);
    assert |front| == o;
    assert HeaderImage(p.hdr) + (Fields(p.hdr.span, p.size, p.name) + TableImage(p.table)) == front + TableImage(p.table);
    var x, y := PageImage(p)[o + 2 * e..o + 2 * e + 2], TableImage(p.table)[2 * e..2 * e + 2];
    forall i | 0 <= i < 2 ensures x[i] == y[i] {
      assert (front + TableImage(p.table))[o + 2 * e + i] == TableImage(p.table)[2 * e + i];
    }
    assert x == y;
  }

  /** Bytes of a data page. */
  lemma PayloadRead(h: Header, bytes: seq<byte>, o: nat, n: nat)
    requires |bytes| == DATA_SIZE && o + n <= DATA_SIZE
    ensures PageImage(DataPage(h, bytes))[PAGE_HEADER + o..PAGE_HEADER + o + n] == bytes[o..o + n]
  {
    hide HeaderImage;
    FitWhole(HeaderImage(h) + bytes, PAGE_SIZE);
  }

  /** A page index has two bytes, and is not the erased value. */
  lemma PixFits(s: nat)
    requires s < SLOTS
    ensures PixOfSlot(s) < 0xffff && B.Value(RefImage(At(s))) == PixOfSlot(s)
  {
    SlotPage(s);
    TimesIsProduct(BLOCKS, BLOCK_PAGES);
    assert B.Pow256(2) == 256 * B.Pow256(1) && B.Pow256(1) == 256 * B.Pow256(0);
    B.LittleValue(PixOfSlot(s), 2);
  }

  /** What is read from the page of a slot is what the slot holds. */
  lemma SlotRead(flash: seq<byte>, lu: seq<Entry>, pg: seq<Page>, counts: seq<nat>, s: nat, o: nat, n: nat)
    requires OnFlash(flash, lu, pg, counts) && s < SLOTS && o + n <= PAGE_SIZE && n > 0
    ensures InOnePage(flash, PageStart(PixOfSlot(s)) + o, n) && PageStart(PixOfSlot(s)) + o + n <= |flash|
    ensures flash[PageStart(PixOfSlot(s)) + o..PageStart(PixOfSlot(s)) + o + n] == PageImage(pg[s])[o..o + n]
  {
    hide PageImage, LookupOnFlash;
    var p := PixOfSlot(s);
    assert PageIs(flash, p, PageImage(pg[s]));
    QuotUnique(PageStart(p) + o, PAGE_SIZE, p);
    B.SliceSlice(flash, PageStart(p), PAGE_SIZE, o, n);
  }
}

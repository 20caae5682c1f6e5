/** What the bytes in flash mean.  The lookup and the pages are read back from them at the
    places where the file system reads them, so flash determines the volume it holds and
    the files in it. */
module Reader {
  import B = Bytes
  import opened Geometry
  import opened Image
  import opened Lookup
  import opened Nor
  import opened Bits
  import opened Encoding
  import opened Steps
  import opened Volume
  import opened Objects
  import opened FreeId
  import opened Api

  // ---------------------------------------------------------------------------
  // Reading

  /** A number of 16 bits, least significant byte first. */
  function Num16(bytes: seq<byte>, i: nat): (n: nat)
    requires i + 2 <= |bytes|
    ensures n < 0x1_0000
  {
    Small(bytes[i]);
    Small(bytes[i + 1]);
    B.Num(bytes[i]) + 0x100 * B.Num(bytes[i + 1])
  }

  function Num32(bytes: seq<byte>, i: nat): nat
    requires i + 4 <= |bytes|
  {
    Num16(bytes, i) + 0x1_0000 * Num16(bytes, i + 2)
  }

  lemma Small(b: byte)
    ensures B.Num(b) < 256
  {
  }

  /** A lookup entry: an object id of 16 bits whose highest one says that the page is an
      index page; all ones for a free page and all zeros for a deleted one. */
  function EntryOfId(n: nat): Entry
  {
    if n == 0xffff then Free else if n == 0 then Deleted
    else if n >= 0x8000 then Used(n - 0x8000, true) else Used(n, false)
  }

  /** Entry `e` of block `b` is behind the entries before it, from the start of the block on. */
  function EntryAddress(b: nat, e: nat): nat
  {
    Times(Times(b, BLOCK_PAGES), PAGE_SIZE) + 2 * e
  }

  /** The lookup entry in flash of the page in a slot. */
  function EntryAt(flash: seq<byte>, s: nat): Entry
  {
    var a := EntryAddress(BlockOf(s), EntryOf(s));
    if a + 2 <= |flash| then EntryOfId(Num16(flash, a)) else Free
  }

  /** The lookup in flash. */
  function LookupIn(flash: seq<byte>): (lu: seq<Entry>)
    ensures |lu| == SLOTS
  {
    seq(SLOTS, s requires 0 <= s => EntryAt(flash, s))
  }

  /** The erase count of a block: the last two bytes of its last lookup page. */
  function CountAddress(b: nat): nat
  {
    Times(Times(b, BLOCK_PAGES) + LOOKUP_PAGES, PAGE_SIZE) - 2
  }

  function CountAt(flash: seq<byte>, b: nat): (n: nat)
    ensures n < 0x1_0000
  {
    if CountAddress(b) + 2 <= |flash| then Num16(flash, CountAddress(b)) else 0
  }

  /** A page header: id, span and flags, which are on when their bit is clear. */
  function HeaderIn(page: seq<byte>): Header
    requires |page| >= 5
  {
    var n, flags := Num16(page, 0), page[4];
    Header(n % 0x8000, n >= 0x8000, Num16(page, 2), flags & 0x02 == 0, flags & 0x80 != 0, flags & 0x40 != 0)
  }

  function RefIn(page: seq<byte>, i: nat): Ref
    requires i + 2 <= |page|
  {
    var n := Num16(page, i);
    var q := Quot(n, BLOCK_PAGES);
    if n == 0xffff || n - Times(q, BLOCK_PAGES) < LOOKUP_PAGES then NoPage else At(SlotOfPix(n))
  }

  function SizeIn(page: seq<byte>): Option<nat>
    requires |page| >= 12
  {
    if Num32(page, 8) == 0xffff_ffff then None else Some(Num32(page, 8))
  }

  /** A string up to its terminator. */
  function NameIn(field: seq<byte>): string
  {
    if field == [] || field[0] == 0 then [] else [B.Num(field[0]) as char] + NameIn(field[1..])
  }

  /** A page that has been written: in a header page the size is at 8, the name at 13 and the
      references from 46 on; in any other index page they begin at 8. */
  function PageIn(page: seq<byte>): Page
    requires |page| == PAGE_SIZE
  {
    var h := HeaderIn(page);
    if !h.ix then DataPage(h, page[5..])
    else if h.span == 0 then
      HeaderFits();
      IndexPage(h, SizeIn(page), NameIn(page[13..45]), seq(HDR_REFS, e requires 0 <= e < HDR_REFS => RefIn(page, 46 + 2 * e)))
    else
      HeaderFits();
      IndexPage(h, None, "", seq(IX_REFS, e requires 0 <= e < IX_REFS => RefIn(page, 8 + 2 * e)))
  }

  lemma HeaderFits()
    ensures 46 + 2 * HDR_REFS <= PAGE_SIZE && 8 + 2 * IX_REFS <= PAGE_SIZE && PAGE_SIZE >= 48
  {
  }

  /** The page of a slot in flash. */
  function PageAt(flash: seq<byte>, s: nat): Page
  {
    var a := Times(PixOfSlot(s), PAGE_SIZE);
    if a + PAGE_SIZE <= |flash| then PageIn(flash[a..a + PAGE_SIZE]) else Erased
  }

  // ---------------------------------------------------------------------------
  // What can be stored

  /** An id that can be told from a free and a deleted entry, with the index bit and without. */
  predicate IdOk(id: nat)
  {
    0 < id < 0x7fff
  }

  /** A name as a string of C. */
  predicate NameOk(name: string)
  {
    |name| < NAME_LEN && forall c :: c in name ==> 0 < c as int < 256
  }

  predicate EntryOk(e: Entry)
  {
    e.Used? ==> IdOk(e.id)
  }

  predicate PageOk(p: Page)
  {
    && !p.Erased? && IdOk(p.hdr.id) && p.hdr.span < 0x1_0000
    && match p
       case Erased => false
       case DataPage(h, bytes) => !h.ix && |bytes| == DATA_SIZE
       case IndexPage(h, size, name, table) =>
         && h.ix && |table| == TableLen(h.span)
         && (forall e :: 0 <= e < |table| && table[e].At? ==> table[e].slot < SLOTS)
         && if h.span == 0 then NameOk(name) && (size.Some? ==> size.value < 0xffff_ffff) else size == None && name == ""
  }

  // ---------------------------------------------------------------------------
  // Entries

  lemma Little16(n: nat)
    requires n < 0x1_0000
    ensures Num16(B.Little(n, 2), 0) == n
  {
    hide B.ByteOf, B.Num, B.Little;
    LittleTwo(n);
    B.ByteValue(n);
    B.ByteValue(n / 256);
  }

  lemma Same16(a: seq<byte>, i: nat, b: seq<byte>)
    requires i + 2 <= |a| && |b| >= 2 && a[i] == b[0] && a[i + 1] == b[1]
    ensures Num16(a, i) == Num16(b, 0)
  {
  }

  lemma Ones()
    ensures Num16([ERASED_BYTE, ERASED_BYTE], 0) == 0xffff && Num16([0, 0], 0) == 0
  {
    assert B.Num(0xff) == 0xff && B.Num(0) == 0;
  }

  /** The image of an entry is read as that entry. */
  lemma EntryImageRead(e: Entry)
    requires EntryOk(e)
    ensures EntryOfId(Num16(EntryImage(e), 0)) == e
  {
    hide Num16, B.Little;
    Ones();
    if e.Used? {
      Little16(if e.ix then e.id % 0x8000 + 0x8000 else e.id);
    }
  }

  /** Where the entry is. */
  lemma EntryIsThere(s: nat)
    requires s < SLOTS
    ensures EntryAddress(BlockOf(s), EntryOf(s)) == PageStart(LuPix(s)) + LuOffset(s)
  {
    var b, e := BlockOf(s), EntryOf(s);
    var q := Quot(e, PER_PAGE);
    EntriesFit();
    QuotSplit(e, PER_PAGE);
    TimesPlus(BlockStart(b), q, PAGE_SIZE);
    TimesTwice(q, PER_PAGE);
  }

  lemma {:induction false} TimesPlus(m: nat, n: nat, d: nat)
    ensures Times(m + n, d) == Times(m, d) + Times(n, d)
  {
    if n > 0 {
      TimesPlus(m, n - 1, d);
    }
  }

  lemma {:induction false} TimesTwice(n: nat, d: nat)
    ensures Times(n, 2 * d) == 2 * Times(n, d)
  {
    if n > 0 {
      TimesTwice(n - 1, d);
    }
  }

  /** A lookup entry is read from flash as it is. */
  lemma EntryRead(flash: seq<byte>, lu: seq<Entry>, pg: seq<Page>, counts: seq<nat>, s: nat)
    requires OnFlash(flash, lu, pg, counts) && s < SLOTS && EntryOk(lu[s])
    ensures EntryAt(flash, s) == lu[s]
  {
    hide EntryImage, PageImage, LookupByte, LuOffset, LuPix, Num16, EntryOfId;
    var b, p, o := BlockOf(s), Quot(EntryOf(s), PER_PAGE), LuOffset(s);
    SlotPage(s);
    EntryPlace(s);
    EntryIsThere(s);
    InFlash(LuPix(s));
    LuIs(s);
    assert PageIs(flash, BlockStart(b) + p, LookupImage(lu, counts, b, p));
    LookupBytes(lu, counts, s);
    var a := PageStart(LuPix(s)) + o;
    assert flash[a] == PageBytes(flash, LuPix(s))[o] && flash[a + 1] == PageBytes(flash, LuPix(s))[o + 1];
    Same16(flash, a, EntryImage(lu[s]));
    EntryImageRead(lu[s]);
  }

  lemma LuIs(s: nat)
    ensures LuPix(s) == BlockStart(BlockOf(s)) + Quot(EntryOf(s), PER_PAGE)
  {
  }

  lemma LookupBytes(lu: seq<Entry>, counts: seq<nat>, s: nat)
    requires |lu| == SLOTS && s < SLOTS
    ensures Quot(EntryOf(s), PER_PAGE) < LOOKUP_PAGES && BlockOf(s) < BLOCKS && LuOffset(s) + 2 <= PAGE_SIZE
    ensures var a, o := LookupImage(lu, counts, BlockOf(s), Quot(EntryOf(s), PER_PAGE)), LuOffset(s);
            a[o] == EntryImage(lu[s])[0] && a[o + 1] == EntryImage(lu[s])[1]
  {
    hide EntryImage, LookupByte, LuOffset;
    SlotPage(s);
    EntryPlace(s);
    var b, p, o := BlockOf(s), Quot(EntryOf(s), PER_PAGE), LuOffset(s);
    EntryByte(lu, counts, s, Free, b, p, o);
    EntryByte(lu, counts, s, Free, b, p, o + 1);
  }

  /** The erase count of a block is read from flash, as far as 16 bits go. */
  lemma CountRead(flash: seq<byte>, lu: seq<Entry>, pg: seq<Page>, counts: seq<nat>, b: nat)
    requires OnFlash(flash, lu, pg, counts) && b < BLOCKS
    ensures CountAt(flash, b) == counts[b] % 0x1_0000
  {
    hide PageImage, LookupByte, Num16, CountImage;
    var p, o := LOOKUP_PAGES - 1, PAGE_SIZE - 2;
    EntriesFit();
    BlockPage(b, p);
    InFlash(BlockStart(b) + p);
    assert PageIs(flash, BlockStart(b) + p, LookupImage(lu, counts, b, p));
    CountBytes(lu, counts, b);
    var a := CountAddress(b);
    assert BlockStart(b) + LOOKUP_PAGES == BlockStart(b) + p + 1;
    assert a == PageStart(BlockStart(b) + p) + o;
    assert flash[a] == PageBytes(flash, BlockStart(b) + p)[o] && flash[a + 1] == PageBytes(flash, BlockStart(b) + p)[o + 1];
    Same16(flash, a, CountImage(counts[b]));
    CountIs(counts[b]);
  }

  lemma CountBytes(lu: seq<Entry>, counts: seq<nat>, b: nat)
    requires |lu| == SLOTS && |counts| == BLOCKS && b < BLOCKS
    ensures PAGE_SIZE >= 2
    ensures var a, o := LookupImage(lu, counts, b, LOOKUP_PAGES - 1), PAGE_SIZE - 2;
            a[o] == CountImage(counts[b])[0] && a[o + 1] == CountImage(counts[b])[1]
  {
    hide EntryImage, CountImage;
    EntriesFit();
    assert Times(LOOKUP_PAGES, PER_PAGE) == Times(LOOKUP_PAGES - 1, PER_PAGE) + PER_PAGE;
  }

  lemma CountIs(n: nat)
    ensures Num16(CountImage(n), 0) == n % 0x1_0000
  {
    hide B.ByteOf, B.Num, B.Little;
    LittleTwo(n);
    B.ByteValue(n);
    B.ByteValue(n / 256);
    TwoBytes(n);
  }

  lemma TwoBytes(n: nat)
    ensures n % 0x1_0000 == n % 256 + 256 * (n / 256 % 256)
  {
    var q := n / 0x1_0000;
    assert n == q * 0x1_0000 + n % 0x1_0000;
  }

  // ---------------------------------------------------------------------------
  // Pages

  /** The flags byte says what the header does. */
  lemma FlagsRead(h: Header)
    ensures var f := FlagsOf(h);
            (f & 0x02 == 0 <==> h.final) && (f & 0x80 != 0 <==> h.live) && (f & 0x40 != 0 <==> h.ixlive) && (f & 0x04 == 0 <==> h.ix)
  {
  }

  lemma HeaderRead(h: Header, page: seq<byte>)
    requires IdOk(h.id) && h.span < 0x1_0000 && |page| >= 5 && page[..5] == HeaderImage(h)
    ensures HeaderIn(page) == h
  {
    hide Num16, FlagsOf, B.Little;
    var n := if h.ix then h.id % 0x8000 + 0x8000 else h.id;
    assert page[..5][4] == page[4] && page[..5][0] == page[0] && page[..5][1] == page[1] && page[..5][2] == page[2] && page[..5][3] == page[3];
    assert HeaderImage(h) == B.Little(n, 2) + B.Little(h.span, 2) + [FlagsOf(h)];
    Little16(n);
    Little16(h.span);
    Same16(page, 0, B.Little(n, 2));
    Same16(page, 2, B.Little(h.span, 2));
    FlagsRead(h);
  }

  lemma RefImageRead(r: Ref, page: seq<byte>, i: nat)
    requires (r.At? ==> r.slot < SLOTS) && i + 2 <= |page| && page[i..i + 2] == RefImage(r)
    ensures RefIn(page, i) == r
  {
    hide Num16, B.Little, PixOfSlot, SlotOfPix;
    assert page[i] == page[i..i + 2][0] && page[i + 1] == page[i..i + 2][1];
    Same16(page, i, RefImage(r));
    Ones();
    if r.At? {
      PixFits(r.slot);
      Little16(PixOfSlot(r.slot));
      SlotPixRoundTrip(r.slot);
    }
  }

  lemma SizeRead(size: Option<nat>, page: seq<byte>)
    requires (size.Some? ==> size.value < 0xffff_ffff) && |page| >= 12 && page[8..12] == SizeImage(size)
    ensures SizeIn(page) == size
  {
    hide Num16;
    var b := SizeImage(size);
    assert page[8] == page[8..12][0] && page[9] == page[8..12][1] && page[10] == page[8..12][2] && page[11] == page[8..12][3];
    Same16(page, 8, b);
    Same16(page, 10, b[2..]);
    if size.Some? {
      var n := size.value;
      assert b == B.Little(n % 0x1_0000, 2) + B.Little(n / 0x1_0000, 2) by { LittleFour(n); }
      Little16(n % 0x1_0000);
      Little16(n / 0x1_0000);
      Same16(b, 0, B.Little(n % 0x1_0000, 2));
      assert b[2..] == B.Little(n / 0x1_0000, 2);
      assert n == n % 0x1_0000 + 0x1_0000 * (n / 0x1_0000);
    } else {
      Ones();
      assert b[2..] == [ERASED_BYTE, ERASED_BYTE];
      Same16(b, 0, [ERASED_BYTE, ERASED_BYTE]);
    }
  }

  lemma LittleFour(n: nat)
    ensures B.Little(n, 4) == B.Little(n % 0x1_0000, 2) + B.Little(n / 0x1_0000, 2)
  {
    hide B.ByteOf;
    LittleTwo(n % 0x1_0000);
    LittleTwo(n / 0x1_0000);
    assert B.Little(n, 4) == [B.ByteOf(n)] + ([B.ByteOf(n / 256)] + B.Little(n / 256 / 256, 2));
    assert n / 256 / 256 == n / 0x1_0000;
    ByteMod(n);
  }

  lemma LittleTwo(n: nat)
    ensures B.Little(n, 2) == [B.ByteOf(n), B.ByteOf(n / 256)]
  {
    assert B.Little(n, 2) == [B.ByteOf(n)] + ([B.ByteOf(n / 256)] + B.Little(n / 256 / 256, 0));
  }

  lemma ByteMod(n: nat)
    ensures B.ByteOf(n % 0x1_0000) == B.ByteOf(n) && B.ByteOf(n % 0x1_0000 / 256) == B.ByteOf(n / 256)
  {
    hide B.ByteOf;
    LowBytes(n);
    SameByte(n % 0x1_0000, n);
    SameByte(n % 0x1_0000 / 256, n / 256);
  }

  lemma SameByte(a: nat, b: nat)
    requires a % 256 == b % 256
    ensures B.ByteOf(a) == B.ByteOf(b)
  {
  }

  lemma LowBytes(n: nat)
    ensures n % 0x1_0000 % 256 == n % 256
    ensures n % 0x1_0000 / 256 % 256 == n / 256 % 256
  {
    var q := n / 0x1_0000;
    assert n == q * 0x1_0000 + n % 0x1_0000;
    assert n / 256 == q * 256 + n % 0x1_0000 / 256;
  }

  lemma {:induction false} NameFieldRead(name: string, field: seq<byte>)
    requires (forall c :: c in name ==> 0 < c as int < 256) && |name| < |field|
    requires forall i :: 0 <= i < |field| ==> field[i] == if i < |name| then B.ByteOf(name[i] as int) else 0
    ensures NameIn(field) == name
  {
    hide B.ByteOf, B.Num;
    if name != [] {
      assert name[0] in name;
      CharRead(name[0]);
      assert field[0] == B.ByteOf(name[0] as int);
      assert forall d :: d in name[1..] ==> d in name;
      forall i | 0 <= i < |field[1..]| ensures field[1..][i] == if i < |name[1..]| then B.ByteOf(name[1..][i] as int) else 0 {
        assert field[1..][i] == field[i + 1];
      }
      NameFieldRead(name[1..], field[1..]);
    }
  }

  lemma CharRead(c: char)
    requires 0 < c as int < 256
    ensures B.ByteOf(c as int) != 0 && B.Num(B.ByteOf(c as int)) as char == c
  {
    B.ByteValue(c as int);
    var b := B.ByteOf(c as int);
    hide B.ByteOf;
    assert b == 0 ==> B.Num(b) == 0;
  }

  /** The bytes of the parts of a page. */
  lemma PageParts(p: Page)
    requires PageOk(p)
    ensures PageImage(p)[..5] == HeaderImage(p.hdr)
    ensures p.DataPage? ==> PageImage(p)[5..] == p.bytes
    ensures p.IndexPage? && p.hdr.span == 0 ==>
              PAGE_SIZE >= 48 && PageImage(p)[8..12] == SizeImage(p.size) && PageImage(p)[13..45] == NameImage(p.name)
  {
    hide HeaderImage, SizeImage, NameImage, TableImage;
    HeaderFits();
    if p.DataPage? {
      FitWhole(HeaderImage(p.hdr) + p.bytes, PAGE_SIZE);
    } else if p.hdr.span == 0 {
      IndexParts(p);
    }
  }

  lemma IndexParts(p: Page)
    requires PageOk(p) && p.IndexPage? && p.hdr.span == 0
    ensures PAGE_SIZE >= 48 && PageImage(p)[8..12] == SizeImage(p.size) && PageImage(p)[13..45] == NameImage(p.name)
  {
    hide HeaderImage, SizeImage, NameImage, TableImage;
    HeaderFits();
    var h, g := HeaderImage(p.hdr), Fit([], 3);
    var all := h + (Fields(0, p.size, p.name) + TableImage(p.table));
    assert all == h + g + SizeImage(p.size) + [TYPE_FILE] + NameImage(p.name) + (Fit([], 1) + TableImage(p.table));
    var front := h + g;
    assert |front| == 8;
    assert all[8..12] == SizeImage(p.size);
    assert all[13..45] == NameImage(p.name);
    assert PageImage(p) == Fit(all, PAGE_SIZE) && |all| >= 45;
    forall i | 0 <= i < 45 ensures PageImage(p)[i] == all[i] {
    }
  }

  /** The image of a page is read as that page. */
  lemma PageImageRead(p: Page)
    requires PageOk(p)
    ensures PageIn(PageImage(p)) == p
  {
    hide HeaderImage, SizeImage, NameImage, TableImage, PageImage, HeaderIn, SizeIn, RefIn, NameIn, RefImage;
    var b := PageImage(p);
    HeaderFits();
    PageParts(p);
    HeaderRead(p.hdr, b);
    if p.IndexPage? {
      forall e: nat | e < |p.table| ensures RefIn(b, TableOffset(p.hdr.span) + 2 * e) == p.table[e] {
        RefRead(p, e);
        RefImageRead(p.table[e], b, TableOffset(p.hdr.span) + 2 * e);
      }
      if p.hdr.span == 0 {
        SizeRead(p.size, b);
        NameIsRead(p.name);
      }
      assert PageIn(b).table == p.table;
    }
  }

  lemma NameIsRead(name: string)
    requires NameOk(name)
    ensures NameIn(NameImage(name)) == name
  {
    NameFieldRead(name, NameImage(name));
  }

  /** A page in use is read from flash as it is. */
  lemma PageRead(flash: seq<byte>, lu: seq<Entry>, pg: seq<Page>, counts: seq<nat>, s: nat)
    requires OnFlash(flash, lu, pg, counts) && s < SLOTS && PageOk(pg[s])
    ensures PageAt(flash, s) == pg[s]
  {
    hide PageImage, PageIn, LookupOnFlash, PageOk;
    assert PageIs(flash, PixOfSlot(s), PageImage(pg[s]));
    PageImageRead(pg[s]);
  }

  // ---------------------------------------------------------------------------
  // Volumes

  /** Files whose ids and names can be told in flash. */
  ghost predicate Storable(files: map<nat, FileView>)
  {
    forall id :: id in files ==> IdOk(id) && NameOk(files[id].name)
  }

  /** A volume of less than 2^32 - 1 bytes of data: its size is a number of 32 bits. */
  predicate SmallVolume()
  {
    Start(SLOTS) < 0xffff_ffff
  }

  /** Flash holds a consistent volume whose files can be told in flash. */
  ghost predicate Stored(flash: seq<byte>, lu: seq<Entry>, pg: seq<Page>, counts: seq<nat>, cat: Catalogue)
  {
    OnFlash(flash, lu, pg, counts) && Holds(lu, pg, cat) && Storable(Files(pg, cat)) && SmallVolume()
  }

  /** What a consistent volume has in use can be read back. */
  lemma UsedOk(lu: seq<Entry>, pg: seq<Page>, cat: Catalogue, s: nat)
    requires Holds(lu, pg, cat) && Storable(Files(pg, cat)) && SmallVolume() && s < SLOTS && lu[s].Used?
    ensures EntryOk(lu[s]) && PageOk(pg[s]) && pg[s].hdr.id == lu[s].id && pg[s].hdr.ix == lu[s].ix
    ensures pg[s].hdr.live && pg[s].hdr.final && pg[s].hdr.ixlive
  {
    hide IdOk, NameOk, Files;
    var id := lu[s].id;
    assert SlotOk(lu, pg, cat, s);
    var f, k := cat[id], pg[s].hdr.span;
    FileOf(lu, pg, cat, id);
    FilePages(lu, pg, cat, id);
    NameStored(pg, cat, id);
    if lu[s].ix {
      assert IndexOk(lu, pg, id, f, k);
      SpanFits(lu, pg, cat, id, k);
      SizeFits(lu, pg, cat, id);
      forall e: nat | e < TableLen(k) && Table(f.data, k)[e].At? ensures Table(f.data, k)[e].slot < SLOTS {
        assert DataOk(lu, pg, id, f, FirstRef(k) + e);
      }
    } else {
      assert DataOk(lu, pg, id, f, k);
    }
  }

  lemma NameStored(pg: seq<Page>, cat: Catalogue, id: nat)
    requires Storable(Files(pg, cat)) && id in cat
    ensures IdOk(id) && NameOk(cat[id].name)
  {
    hide IdOk, NameOk;
    assert id in Files(pg, cat) && Files(pg, cat)[id].name == cat[id].name;
  }

  lemma SpanFits(lu: seq<Entry>, pg: seq<Page>, cat: Catalogue, id: nat, k: nat)
    requires Holds(lu, pg, cat) && id in cat && k < |cat[id].ixs|
    ensures k < 0x1_0000
  {
    var f := cat[id];
    FileOf(lu, pg, cat, id);
    FileSlotsDistinct(lu, pg, id, f);
    forall i | 0 <= i < |f.ixs| ensures f.ixs[i] < SLOTS {
      assert IndexOk(lu, pg, id, f, i);
    }
    AtMost(f.ixs, SLOTS);
    TimesIsProduct(BLOCKS, ENTRIES);
    MulLess(BLOCKS, ENTRIES, ENTRIES + LOOKUP_PAGES);
  }

  lemma SizeFits(lu: seq<Entry>, pg: seq<Page>, cat: Catalogue, id: nat)
    requires Holds(lu, pg, cat) && id in cat && SmallVolume()
    ensures Length(cat[id].size) < 0xffff_ffff
  {
    var f := cat[id];
    FileOf(lu, pg, cat, id);
    FileSlotsDistinct(lu, pg, id, f);
    forall j | 0 <= j < |f.data| ensures f.data[j] < SLOTS {
      assert DataOk(lu, pg, id, f, j);
    }
    AtMost(f.data, SLOTS);
    SizeBound(f);
    TimesMono(|f.data|, SLOTS, DATA_SIZE);
  }

  /** The lookup, and every page in use, are what is read from flash. */
  lemma VolumeRead(flash: seq<byte>, lu: seq<Entry>, pg: seq<Page>, counts: seq<nat>, cat: Catalogue)
    requires Stored(flash, lu, pg, counts, cat)
    ensures LookupIn(flash) == lu
    ensures forall s: nat :: s < SLOTS && lu[s].Used? ==> PageAt(flash, s) == pg[s]
    ensures forall b: nat :: b < BLOCKS ==> CountAt(flash, b) == counts[b] % 0x1_0000
  {
    hide OnFlash, Holds, Storable, SmallVolume, EntryAt, PageAt, CountAt, PageOk, EntryOk, Files;
    SizesOf(flash, lu, pg, counts, cat);
    forall s: nat | s < SLOTS ensures EntryAt(flash, s) == lu[s] && (lu[s].Used? ==> PageAt(flash, s) == pg[s]) {
      if lu[s].Used? {
        UsedOk(lu, pg, cat, s);
        PageRead(flash, lu, pg, counts, s);
      } else {
        NotUsedOk(lu[s]);
      }
      EntryRead(flash, lu, pg, counts, s);
    }
    forall b: nat | b < BLOCKS ensures CountAt(flash, b) == counts[b] % 0x1_0000 {
      CountRead(flash, lu, pg, counts, b);
    }
    assert LookupIn(flash) == lu;
  }

  lemma SizesOf(flash: seq<byte>, lu: seq<Entry>, pg: seq<Page>, counts: seq<nat>, cat: Catalogue)
    requires Stored(flash, lu, pg, counts, cat)
    ensures |lu| == |pg| == SLOTS && |counts| == BLOCKS
  {
  }

  lemma NotUsedOk(e: Entry)
    requires !e.Used?
    ensures EntryOk(e)
  {
  }

  /** Flash determines the volume: the lookup, the pages in use, and the files. */
  lemma FlashDetermines(flash: seq<byte>, lu: seq<Entry>, pg: seq<Page>, counts: seq<nat>, cat: Catalogue,
                        lu': seq<Entry>, pg': seq<Page>, counts': seq<nat>, cat': Catalogue)
    requires Stored(flash, lu, pg, counts, cat) && Stored(flash, lu', pg', counts', cat') && Tight(cat) && Tight(cat')
    ensures lu' == lu && cat' == cat && Files(pg', cat') == Files(pg, cat)
    ensures forall s: nat :: s < SLOTS && lu[s].Used? ==> pg'[s] == pg[s]
  {
    hide OnFlash, Storable, SmallVolume, EntryAt, PageAt, CountAt, LookupIn, Files;
    VolumeRead(flash, lu, pg, counts, cat);
    VolumeRead(flash, lu', pg', counts', cat');
    forall id | id in cat ensures id in cat' && cat'[id] == cat[id] && View(pg', cat[id]) == View(pg, cat[id]) {
      SameFile(lu, pg, cat, pg', cat', id);
    }
    forall id | id in cat' ensures id in cat {
      SameFile(lu, pg', cat', pg, cat, id);
    }
    assert cat' == cat;
    SameViews(pg, pg', cat);
  }

  lemma SameViews(pg: seq<Page>, pg': seq<Page>, cat: Catalogue)
    requires forall id :: id in cat ==> View(pg', cat[id]) == View(pg, cat[id])
    ensures Files(pg', cat) == Files(pg, cat)
  {
  }

  /** A file of one of two volumes with the same pages in use is one of the other. */
  lemma SameFile(lu: seq<Entry>, pg: seq<Page>, cat: Catalogue, pg': seq<Page>, cat': Catalogue, id: nat)
    requires Holds(lu, pg, cat) && Holds(lu, pg', cat') && Tight(cat) && Tight(cat') && id in cat
    requires forall s: nat :: s < SLOTS && lu[s].Used? ==> pg'[s] == pg[s]
    ensures id in cat' && cat'[id] == cat[id] && View(pg', cat[id]) == View(pg, cat[id])
  {
    var f := cat[id];
    FileOf(lu, pg, cat, id);
    assert IndexOk(lu, pg, id, f, 0);
    assert SlotOk(lu, pg', cat', f.ixs[0]);
    var g := cat'[id];
    FileOf(lu, pg', cat', id);
    assert IndexOk(lu, pg', id, g, 0);
    assert g.name == f.name && g.size == f.size && |g.data| == |f.data| && |g.ixs| == |f.ixs|;
    forall j | 0 <= j < |f.data| ensures g.data[j] == f.data[j] {
      assert DataOk(lu, pg, id, f, j);
      assert SlotOk(lu, pg', cat', f.data[j]);
    }
    forall k | 0 <= k < |f.ixs| ensures g.ixs[k] == f.ixs[k] {
      assert IndexOk(lu, pg, id, f, k);
      assert SlotOk(lu, pg', cat', f.ixs[k]);
    }
    assert g == f;
    forall k: nat | k < Length(f.size) ensures ByteAt(pg', f, k) == ByteAt(pg, f, k) {
      if PageOf(k) < |f.data| {
        assert DataOk(lu, pg, id, f, PageOf(k));
      }
    }
  }

  // ---------------------------------------------------------------------------
  // Searches

  /** The page of a slot matches an id and a span, as far as its bytes in flash say: the
      lookup entry has the id, and so has the header, with this span and the flags of a page
      that is written and not deleted; an index header is not one being removed. */
  predicate MatchesIn(flash: seq<byte>, id: nat, ix: bool, span: nat, s: nat)
  {
    var a := Times(PixOfSlot(s), PAGE_SIZE);
    && EntryAt(flash, s) == Used(id, ix) && a + 5 <= |flash|
    && Num16(flash, a) == (if ix then id + 0x8000 else id) && Num16(flash, a + 2) == span
    && flash[a + 4] & 0x82 == 0x80 && !(ix && span == 0 && flash[a + 4] & 0x40 == 0)
  }

  /** A search by id and span accepts a page exactly if its bytes match. */
  lemma MatchesRead(flash: seq<byte>, lu: seq<Entry>, pg: seq<Page>, counts: seq<nat>, cat: Catalogue, id: nat, ix: bool, span: nat, s: nat)
    requires Stored(flash, lu, pg, counts, cat) && s < SLOTS
    ensures Matches(lu, pg, id, ix, span, s) <==> MatchesIn(flash, id, ix, span, s)
  {
    hide OnFlash, Holds, Storable, SmallVolume, EntryAt, PageIn, IdOk, NameOk, EntryOk, Num16, Files, PixOfSlot;
    SizesOf(flash, lu, pg, counts, cat);
    VolumeRead(flash, lu, pg, counts, cat);
    assert LookupIn(flash)[s] == lu[s];
    if lu[s].Used? {
      UsedOk(lu, pg, cat, s);
      PageHeaderRead(flash, lu, pg, counts, s);
    }
  }

  lemma PageHeaderRead(flash: seq<byte>, lu: seq<Entry>, pg: seq<Page>, counts: seq<nat>, s: nat)
    requires OnFlash(flash, lu, pg, counts) && s < SLOTS && PageOk(pg[s])
    ensures var a, h := Times(PixOfSlot(s), PAGE_SIZE), pg[s].hdr;
            && a + 5 <= |flash| && Num16(flash, a) == (if h.ix then h.id + 0x8000 else h.id) && Num16(flash, a + 2) == h.span
            && (flash[a + 4] & 0x82 == 0x80 <==> h.final && h.live) && (flash[a + 4] & 0x40 == 0 <==> !h.ixlive)
  {
    hide PageImage, LookupOnFlash, IdOk, NameOk, Num16, FlagsOf, HeaderImage;
    var a := Times(PixOfSlot(s), PAGE_SIZE);
    assert PageIs(flash, PixOfSlot(s), PageImage(pg[s]));
    PageParts(pg[s]);
    var page := flash[a..a + PAGE_SIZE];
    HeaderBytesRead(pg[s].hdr, page);
    Same16(flash, a, page);
    Same16(flash, a + 2, page[2..]);
    Same16(page, 2, page[2..]);
  }

  lemma HeaderBytesRead(h: Header, page: seq<byte>)
    requires IdOk(h.id) && h.span < 0x1_0000 && |page| >= 5 && page[..5] == HeaderImage(h)
    ensures Num16(page, 0) == (if h.ix then h.id + 0x8000 else h.id) && Num16(page, 2) == h.span
    ensures (page[4] & 0x82 == 0x80 <==> h.final && h.live) && (page[4] & 0x40 == 0 <==> !h.ixlive)
  {
    hide Num16, FlagsOf, B.Little;
    var n := if h.ix then h.id % 0x8000 + 0x8000 else h.id;
    assert page[..5][4] == page[4] && page[..5][0] == page[0] && page[..5][1] == page[1] && page[..5][2] == page[2] && page[..5][3] == page[3];
    assert HeaderImage(h) == B.Little(n, 2) + B.Little(h.span, 2) + [FlagsOf(h)];
    Little16(n);
    Little16(h.span);
    Same16(page, 0, B.Little(n, 2));
    Same16(page, 2, B.Little(h.span, 2));
    BothFlags(h);
  }

  lemma BothFlags(h: Header)
    ensures FlagsOf(h) & 0x82 == 0x80 <==> h.final && h.live
    ensures FlagsOf(h) & 0x40 == 0 <==> !h.ixlive
  {
  }

  /** The page of a slot is the header of a file with this name, as far as flash says. */
  predicate NamedIn(flash: seq<byte>, name: string, s: nat)
  {
    var a := Times(PixOfSlot(s), PAGE_SIZE);
    && EntryAt(flash, s).Used? && EntryAt(flash, s).ix && a + 45 <= |flash|
    && Num16(flash, a + 2) == 0 && flash[a + 4] & 0xc2 == 0xc0 && NameIn(flash[a + 13..a + 45]) == name
  }

  /** A search by name accepts a page exactly if its bytes are those of such a header. */
  lemma NamedRead(flash: seq<byte>, lu: seq<Entry>, pg: seq<Page>, counts: seq<nat>, cat: Catalogue, name: string, s: nat)
    requires Stored(flash, lu, pg, counts, cat) && s < SLOTS
    ensures NamedHeader(lu, pg, name, s) <==> NamedIn(flash, name, s)
  {
    hide OnFlash, Holds, Storable, SmallVolume, EntryAt, PageIn, IdOk, NameOk, EntryOk, Num16, Files, PixOfSlot, NameIn, PageImage, NameImage, SizeImage;
    SizesOf(flash, lu, pg, counts, cat);
    VolumeRead(flash, lu, pg, counts, cat);
    assert LookupIn(flash)[s] == lu[s];
    if lu[s].Used? && lu[s].ix {
      UsedOk(lu, pg, cat, s);
      PageHeaderRead(flash, lu, pg, counts, s);
      HeaderFits();
      PageThere(flash, lu, pg, counts, s);
      var a := Times(PixOfSlot(s), PAGE_SIZE);
      ThreeFlags(flash[a + 4]);
      if pg[s].hdr.span == 0 {
        PageParts(pg[s]);
        NameIsRead(pg[s].name);
        B.SliceSlice(flash, a, PAGE_SIZE, 13, 32);
      }
    }
  }

  lemma ThreeFlags(f: byte)
    ensures f & 0xc2 == 0xc0 <==> f & 0x82 == 0x80 && f & 0x40 != 0
  {
  }

  lemma PageThere(flash: seq<byte>, lu: seq<Entry>, pg: seq<Page>, counts: seq<nat>, s: nat)
    requires OnFlash(flash, lu, pg, counts) && s < SLOTS
    ensures var a := Times(PixOfSlot(s), PAGE_SIZE); a + PAGE_SIZE <= |flash| && flash[a..a + PAGE_SIZE] == PageImage(pg[s])
  {
    hide PageImage, LookupOnFlash;
    assert PageIs(flash, PixOfSlot(s), PageImage(pg[s]));
  }
}

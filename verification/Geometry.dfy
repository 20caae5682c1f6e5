/** Geometry of a SPIFFS volume: how pages, lookup entries and object index
    entries are numbered.

    The numbers are symbolic.  `G` is any geometry that meets `Ok`, so every
    theorem of the project holds for every such geometry.

    Pages that hold lookup tables never hold file data, so the model numbers the
    remaining pages consecutively, block after block, and calls these numbers
    slots.  Slot `s` is the page that lookup entry `EntryOf(s)` of block
    `BlockOf(s)` describes; `PixOfSlot` gives its page index in the source. */
module Geometry {

  /** Sizes the source fixes at compile time: a page header, an object name, and the
      structures an object index header page and any other index page begin with. */
  const PAGE_HEADER: nat := 5
  const NAME_LEN: nat := 32
  const OBJ_IX_HDR_SIZE: nat := PAGE_HEADER + 3 + 4 + 1 + NAME_LEN + 1
  const OBJ_IX_SIZE: nat := PAGE_HEADER + 3

  datatype Geo = Geo(
    blocks: nat,        // number of blocks
    entries: nat,       // lookup entries (and data pages) in a block
    lookupPages: nat,   // lookup pages in a block
    perPage: nat,       // lookup entries that fit in a lookup page
    dataSize: nat,      // payload bytes of a data page
    hdrRefs: nat,       // page references in an object index header page
    ixRefs: nat,        // page references in any other object index page
    candidates: nat)    // rows of the collector's table of candidate blocks
  {
    predicate Ok() {
      && blocks >= 3
      && entries >= 1
      && lookupPages >= 1
      && perPage >= 1
      && entries < lookupPages * perPage
      && blocks * (entries + lookupPages) <= 0xffff
      && dataSize >= 1
      && dataSize + PAGE_HEADER == 2 * perPage
      && OBJ_IX_HDR_SIZE + 2 * hdrRefs <= 2 * perPage
      && OBJ_IX_SIZE + 2 * ixRefs <= 2 * perPage
      && hdrRefs >= 1
      && ixRefs >= 1
      && candidates >= 3
    }
  }

  type Geometry = g: Geo | g.Ok() witness Geo(8, 15, 1, 128, 251, 105, 124, 8)

  const G: Geometry

  const BLOCKS: nat := G.blocks
  const ENTRIES: nat := G.entries
  const LOOKUP_PAGES: nat := G.lookupPages
  const PER_PAGE: nat := G.perPage
  const DATA_SIZE: nat := G.dataSize
  const HDR_REFS: nat := G.hdrRefs
  const IX_REFS: nat := G.ixRefs
  const CANDIDATES: nat := G.candidates
  const PAGE_SIZE: nat := DATA_SIZE + PAGE_HEADER
  const BLOCK_PAGES: nat := ENTRIES + LOOKUP_PAGES

  /** The geometry the configuration macros compute from a page size and a block
      size in bytes; an object id and a page index have 2 bytes. */
  function FromConfig(pageSize: nat, blockSize: nat, blocks: nat): Geo
    requires pageSize >= OBJ_IX_HDR_SIZE && pageSize * 2 <= blockSize
  {
    var pages := blockSize / pageSize;
    var lookup := if pages * 2 / pageSize > 1 then pages * 2 / pageSize else 1;
    var rows := (pageSize - 8) / 6;
    Geo(blocks, if lookup <= pages then pages - lookup else 0, lookup, pageSize / 2,
        pageSize - PAGE_HEADER, (pageSize - OBJ_IX_HDR_SIZE) / 2, (pageSize - OBJ_IX_SIZE) / 2,
        if blocks < rows then blocks else rows)
  }

  /** A page size that is even, divides the block and whose lookup table fills
      whole pages (or less than one page) always gives a geometry that is Ok, if
      every page has an index other than the erased one.  The erase count of a
      block then lies behind its last lookup entry. */
  lemma ConfigIsOk(pageSize: nat, pages: nat, blocks: nat)
    requires pageSize >= OBJ_IX_HDR_SIZE + 2 && pageSize % 2 == 0
    requires pages >= 2 && blocks >= 3 && blocks * pages <= 0xffff
    requires pages * 2 <= pageSize || (pages * 2) % pageSize == 0
    ensures pageSize * 2 <= pages * pageSize
    ensures FromConfig(pageSize, pages * pageSize, blocks).Ok()
  {
    DivMulExact(pages, pageSize);
    MulTwo(pages, pageSize);
    var lookup := pages * 2 / pageSize;
    LookupFits(pages, pageSize);
    var g := FromConfig(pageSize, pages * pageSize, blocks);
    assert pages * pageSize / pageSize == pages;
    assert g.lookupPages == if lookup > 1 then lookup else 1;
    assert g.entries + g.lookupPages == pages;
    assert blocks * (g.entries + g.lookupPages) == blocks * pages;
  }

  lemma MulTwo(pages: nat, pageSize: nat)
    requires pages >= 2
    ensures pageSize * 2 <= pages * pageSize
  {
    if pages > 2 {
      MulStep(2, pages, pageSize);
    }
  }

  /** The lookup pages hold an entry for every page of the block. */
  lemma LookupFits(pages: nat, pageSize: nat)
    requires pageSize >= 14 && pageSize % 2 == 0 && pages >= 2
    requires pages * 2 <= pageSize || (pages * 2) % pageSize == 0
    ensures var lookup := pages * 2 / pageSize;
            var n := if lookup > 1 then lookup else 1;
            n < pages && pages <= n * (pageSize / 2)
  {
    var half := pageSize / 2;
    var lookup := pages * 2 / pageSize;
    if pages * 2 > pageSize {
      assert pages * 2 == lookup * pageSize;
      Halve(pages, lookup, half);
      MulStep(0, lookup, half - 1);
      assert lookup * half == lookup * (half - 1) + lookup;
    } else {
      SmallQuotient(pages * 2, pageSize);
    }
  }

  lemma Halve(pages: nat, lookup: nat, half: nat)
    requires pages * 2 == lookup * (half * 2)
    ensures pages == lookup * half
  {
    assert lookup * (half * 2) == (lookup * half) * 2;
  }

  lemma SmallQuotient(a: nat, d: nat)
    requires d > 0 && a <= d
    ensures a / d <= 1
  {
  }

  lemma DivMulExact(a: nat, d: nat)
    requires d > 0
    ensures a * d / d == a
  {
    DivUnique(a * d, d, a, 0);
  }

  // ---------------------------------------------------------------------------
  // Products and quotients by a fixed size.  `Times` and `Quot` are `*` and `/`,
  // written by recursion so that proofs about positions stay linear.

  function Times(n: nat, d: nat): nat
  {
    if n == 0 then 0 else Times(n - 1, d) + d
  }

  function Quot(k: nat, d: nat): nat
    requires d > 0
  {
    if k < d then 0 else 1 + Quot(k - d, d)
  }

  lemma {:induction false} TimesIsProduct(n: nat, d: nat)
    ensures Times(n, d) == n * d
  {
    if n > 0 {
      TimesIsProduct(n - 1, d);
      assert n * d == (n - 1) * d + d;
    }
  }

  lemma {:induction false} QuotIsQuotient(k: nat, d: nat)
    requires d > 0
    ensures Quot(k, d) == k / d
    ensures k - Times(Quot(k, d), d) == k % d
  {
    QuotSplit(k, d);
    var q := Quot(k, d);
    TimesIsProduct(q, d);
    assert k == q * d + (k - q * d);
    DivUnique(k, d, q, k - q * d);
  }

  lemma {:induction false} MulStep(a: nat, b: nat, d: nat)
    requires a < b
    ensures a * d + d <= b * d
  {
    if a + 1 < b {
      MulStep(a, b - 1, d);
    }
    assert b * d == (b - 1) * d + d;
  }

  lemma DivUnique(k: nat, d: nat, q: nat, r: nat)
    requires d > 0 && r < d && k == q * d + r
    ensures k / d == q && k % d == r
  {
    var q' := k / d;
    assert k == q' * d + k % d;
    if q < q' {
      MulStep(q, q', d);
    } else if q' < q {
      MulStep(q', q, d);
    }
  }

  lemma {:induction false} QuotSplit(k: nat, d: nat)
    requires d > 0
    ensures Times(Quot(k, d), d) <= k < Times(Quot(k, d), d) + d
  {
    if k >= d {
      QuotSplit(k - d, d);
    }
  }

  lemma {:induction false} TimesMono(m: nat, n: nat, d: nat)
    requires m <= n
    ensures Times(m, d) <= Times(n, d)
    ensures m < n ==> Times(m, d) + d <= Times(n, d)
  {
    if m < n {
      TimesMono(m, n - 1, d);
    }
  }

  /** The quotient is the only row a position can lie in. */
  lemma QuotUnique(k: nat, d: nat, n: nat)
    requires d > 0
    requires Times(n, d) <= k < Times(n, d) + d
    ensures Quot(k, d) == n
  {
    QuotSplit(k, d);
    var q := Quot(k, d);
    if q < n {
      TimesMono(q, n, d);
    } else if n < q {
      TimesMono(n, q, d);
    }
  }

  lemma QuotMono(j: nat, k: nat, d: nat)
    requires d > 0 && j <= k
    ensures Quot(j, d) <= Quot(k, d)
  {
    QuotSplit(j, d);
    QuotSplit(k, d);
    var m, n := Quot(j, d), Quot(k, d);
    assert n < m ==> Times(n, d) + d <= Times(m, d) by {
      if n < m { TimesMono(n, m, d); }
    }
  }

  // ---------------------------------------------------------------------------
  // Blocks and slots

  /** First slot of a block. */
  function Base(b: nat): nat { Times(b, ENTRIES) }

  const SLOTS: nat := Base(BLOCKS)

  function BlockOf(s: nat): nat { Quot(s, ENTRIES) }

  function EntryOf(s: nat): nat
  {
    QuotSplit(s, ENTRIES);
    s - Base(BlockOf(s))
  }

  function PixOfSlot(s: nat): nat
  {
    Times(BlockOf(s), ENTRIES + LOOKUP_PAGES) + LOOKUP_PAGES + EntryOf(s)
  }

  function SlotOfPix(pix: nat): nat
    requires pix - Times(Quot(pix, ENTRIES + LOOKUP_PAGES), ENTRIES + LOOKUP_PAGES) >= LOOKUP_PAGES
  {
    var b := Quot(pix, ENTRIES + LOOKUP_PAGES);
    Base(b) + (pix - Times(b, ENTRIES + LOOKUP_PAGES) - LOOKUP_PAGES)
  }

  lemma BlockBounds(s: nat)
    ensures Base(BlockOf(s)) <= s < Base(BlockOf(s)) + ENTRIES
    ensures s < SLOTS ==> BlockOf(s) < BLOCKS
  {
    QuotSplit(s, ENTRIES);
    if s < SLOTS && BlockOf(s) >= BLOCKS {
      TimesMono(BLOCKS, BlockOf(s), ENTRIES);
    }
  }

  lemma InBlock(b: nat, s: nat)
    requires Base(b) <= s < Base(b) + ENTRIES
    ensures BlockOf(s) == b
    ensures b < BLOCKS ==> s < SLOTS
  {
    QuotUnique(s, ENTRIES, b);
    if b < BLOCKS {
      TimesMono(b, BLOCKS, ENTRIES);
    }
  }

  /** Slots and the page indices of pages that are not lookup pages correspond
      one to one, and the macros that go from a page index back to its block and
      lookup entry undo the one that makes the page index. */
  lemma SlotPixRoundTrip(s: nat)
    requires s < SLOTS
    ensures var p, n := PixOfSlot(s), ENTRIES + LOOKUP_PAGES;
            && p < BLOCKS * n
            && p / n == BlockOf(s)
            && p % n == LOOKUP_PAGES + EntryOf(s)
            && p - Times(Quot(p, n), n) >= LOOKUP_PAGES
            && SlotOfPix(p) == s
  {
    var n := ENTRIES + LOOKUP_PAGES;
    var p := PixOfSlot(s);
    BlockBounds(s);
    QuotUnique(p, n, BlockOf(s));
    QuotIsQuotient(p, n);
    TimesMono(BlockOf(s), BLOCKS, n);
    TimesIsProduct(BLOCKS, n);
  }

  lemma PixSlotRoundTrip(pix: nat)
    requires pix < BLOCKS * (ENTRIES + LOOKUP_PAGES)
    requires pix % (ENTRIES + LOOKUP_PAGES) >= LOOKUP_PAGES
    ensures pix - Times(Quot(pix, ENTRIES + LOOKUP_PAGES), ENTRIES + LOOKUP_PAGES) >= LOOKUP_PAGES
    ensures SlotOfPix(pix) < SLOTS && PixOfSlot(SlotOfPix(pix)) == pix
  {
    var n := ENTRIES + LOOKUP_PAGES;
    QuotIsQuotient(pix, n);
    QuotSplit(pix, n);
    var b := Quot(pix, n);
    TimesIsProduct(BLOCKS, n);
    if b >= BLOCKS {
      TimesMono(BLOCKS, b, n);
    }
    InBlock(b, SlotOfPix(pix));
  }

  // ---------------------------------------------------------------------------
  // Data pages of a file and the index pages that refer to them

  /** Data page of a file that holds byte `k`, the offset in it, and the first byte of a page. */
  function PageOf(k: nat): nat { Quot(k, DATA_SIZE) }

  function Start(j: nat): nat { Times(j, DATA_SIZE) }

  function OffsetIn(k: nat): (o: nat)
    ensures o < DATA_SIZE && Start(PageOf(k)) + o == k
  {
    QuotSplit(k, DATA_SIZE);
    k - Start(PageOf(k))
  }

  /** Span of the index page that holds the reference to data page `j`. */
  function IxSpan(j: nat): nat
  {
    if j < HDR_REFS then 0 else 1 + Quot(j - HDR_REFS, IX_REFS)
  }

  /** Position of the reference to data page `j` in that index page. */
  function IxEntry(j: nat): nat
  {
    if j < HDR_REFS then j
    else
      QuotSplit(j - HDR_REFS, IX_REFS);
      j - HDR_REFS - Times(Quot(j - HDR_REFS, IX_REFS), IX_REFS)
  }

  /** First data page that index page `k` refers to, and how many it can. */
  function FirstRef(k: nat): nat
  {
    if k == 0 then 0 else HDR_REFS + Times(k - 1, IX_REFS)
  }

  function TableLen(k: nat): nat
  {
    if k == 0 then HDR_REFS else IX_REFS
  }

  /** Index pages a file of `n` data pages needs; an empty file has its header. */
  function IxCount(n: nat): nat
  {
    if n == 0 then 1 else IxSpan(n - 1) + 1
  }

  /** Every data page has exactly one place in the index pages. */
  lemma IndexPlace(j: nat)
    ensures IxEntry(j) < TableLen(IxSpan(j))
    ensures FirstRef(IxSpan(j)) + IxEntry(j) == j
  {
    if j >= HDR_REFS {
      QuotSplit(j - HDR_REFS, IX_REFS);
    }
  }

  lemma IndexPlaceUnique(k: nat, e: nat)
    requires e < TableLen(k)
    ensures IxSpan(FirstRef(k) + e) == k
    ensures IxEntry(FirstRef(k) + e) == e
  {
    if k > 0 {
      QuotUnique(Times(k - 1, IX_REFS) + e, IX_REFS, k - 1);
    }
  }

  /** The index pages cover consecutive runs of data pages. */
  lemma FirstRefNext(k: nat)
    ensures FirstRef(k + 1) == FirstRef(k) + TableLen(k)
  {
  }

  lemma IxSpanMono(i: nat, j: nat)
    requires i <= j
    ensures IxSpan(i) <= IxSpan(j)
  {
    if i >= HDR_REFS {
      QuotMono(i - HDR_REFS, j - HDR_REFS, IX_REFS);
    }
  }

  lemma IxSpanNext(j: nat)
    ensures IxSpan(j) <= IxSpan(j + 1) <= IxSpan(j) + 1
    ensures IxSpan(j + 1) == IxSpan(j) + 1 <==> j + 1 == FirstRef(IxSpan(j) + 1)
    ensures IxSpan(j + 1) == IxSpan(j) ==> IxEntry(j + 1) == IxEntry(j) + 1
    ensures IxSpan(j + 1) == IxSpan(j) + 1 ==> IxEntry(j + 1) == 0
  {
    IndexPlace(j);
    FirstRefNext(IxSpan(j));
    if IxEntry(j) + 1 < TableLen(IxSpan(j)) {
      IndexPlaceUnique(IxSpan(j), IxEntry(j) + 1);
    } else {
      IndexPlaceUnique(IxSpan(j) + 1, 0);
    }
  }

  /** The position functions are the divisions the source performs. */
  lemma AddressMacros(k: nat, j: nat)
    ensures PageOf(k) == k / DATA_SIZE && OffsetIn(k) == k % DATA_SIZE
    ensures IxSpan(j) == if j < HDR_REFS then 0 else 1 + (j - HDR_REFS) / IX_REFS
    ensures IxEntry(j) == if j < HDR_REFS then j else (j - HDR_REFS) % IX_REFS
    ensures FirstRef(j) == if j == 0 then 0 else HDR_REFS + (j - 1) * IX_REFS
  {
    QuotIsQuotient(k, DATA_SIZE);
    if j >= HDR_REFS {
      QuotIsQuotient(j - HDR_REFS, IX_REFS);
    }
    if j > 0 {
      TimesIsProduct(j - 1, IX_REFS);
    }
  }

  /** Byte position from page and offset. */
  lemma BytePlace(j: nat, o: nat)
    requires o < DATA_SIZE
    ensures PageOf(Start(j) + o) == j && OffsetIn(Start(j) + o) == o
  {
    QuotUnique(Start(j) + o, DATA_SIZE, j);
  }
}

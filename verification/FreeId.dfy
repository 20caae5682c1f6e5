/** A fresh object id, found through a bitmap of the ids in use. */
module FreeId {
  import opened Geometry
  import opened Image
  import opened Volume
  import opened Cache

  /** Ids a work page has a bit for: 1 up to this. */
  const ID_BITS: nat := PAGE_SIZE * 8

  /** The largest id the search is for. */
  const MAX_ID: nat := if SLOTS / 2 + 1 < IX_FLAG then SLOTS / 2 + 1 else IX_FLAG - 1

  /** All ids can be represented in one work page. */
  predicate IdsFitBitmap()
  {
    MAX_ID - 1 <= ID_BITS
  }

  function Mask(j: nat): bv8
    requires j < 8
  {
    (1 as bv8) << j
  }

  /** The bit of number `k`. */
  predicate Bit(work: seq<bv8>, k: nat)
    requires k < |work| * 8
  {
    work[k / 8] & Mask(k % 8) != 0
  }

  lemma MaskValues(j: nat)
    requires j < 8
    ensures Mask(j) == if j == 0 then 1 else if j == 1 then 2 else if j == 2 then 4 else if j == 3 then 8
                       else if j == 4 then 16 else if j == 5 then 32 else if j == 6 then 64 else 128
  {
  }

  /** Setting a bit of a byte sets that bit only. */
  lemma MaskOr(b: bv8, j: nat, k: nat)
    requires j < 8 && k < 8
    ensures (b | Mask(j)) & Mask(k) != 0 <==> j == k || b & Mask(k) != 0
  {
    MaskValues(j);
    MaskValues(k);
  }

  /** A byte with no clear bit is full. */
  lemma FullByte(b: bv8)
    ensures b == 0xff <==> forall j :: 0 <= j < 8 ==> b & Mask(j) != 0
  {
    forall j | 0 <= j < 8 { MaskValues(j); }
    if forall j :: 0 <= j < 8 ==> b & Mask(j) != 0 {
      assert b & Mask(0) != 0 && b & Mask(1) != 0 && b & Mask(2) != 0 && b & Mask(3) != 0;
      assert b & Mask(4) != 0 && b & Mask(5) != 0 && b & Mask(6) != 0 && b & Mask(7) != 0;
    }
  }

  /** Id `id` is in the lookup. */
  ghost predicate InUse(lu: seq<Entry>, id: nat, n: nat)
  {
    exists s: nat :: s < n && s < |lu| && lu[s].Used? && lu[s].id == id
  }

  /** Slot `s` is the header of a file with the given name. */
  predicate NamedHeader(lu: seq<Entry>, pg: seq<Page>, name: string, s: nat)
  {
    && s < |lu| && s < |pg| && lu[s].Used? && lu[s].ix && pg[s].IndexPage?
    && pg[s].hdr.span == 0 && pg[s].hdr.live && pg[s].hdr.final && pg[s].hdr.ixlive
    && pg[s].name == name
  }

  /** Marks the id of an entry. */
  method Mark(work: seq<bv8>, id: nat) returns (work': seq<bv8>)
    ensures |work'| == |work|
    ensures forall k: nat :: k < |work| * 8 ==> (Bit(work', k) <==> Bit(work, k) || k + 1 == id)
  {
    work' := work;
    if id > 0 && (id - 1) / 8 < |work| {
      var byteIx, bitIx := (id - 1) / 8, (id - 1) % 8;
      work' := work[byteIx := work[byteIx] | Mask(bitIx)];
      forall k: nat | k < |work| * 8 ensures Bit(work', k) <==> Bit(work, k) || k + 1 == id {
        if k / 8 == byteIx {
          MaskOr(work[byteIx], bitIx, k % 8);
        }
      }
    }
  }

  /** The bitmap of the ids in the lookup; stops at a file with the name to avoid. */
  method MarkAll(lu: seq<Entry>, pg: seq<Page>, avoid: Option<string>) returns (r: Status, work: seq<bv8>)
    requires Sizes(lu, pg)
    ensures r == Ok || r == ErrConflictingName
    ensures r == ErrConflictingName <==> avoid.Some? && exists s: nat :: NamedHeader(lu, pg, avoid.value, s)
    ensures r == Ok ==> |work| == PAGE_SIZE && forall k: nat :: k < ID_BITS ==> (Bit(work, k) <==> InUse(lu, k + 1, SLOTS))
  {
    work := seq(PAGE_SIZE, i => 0);
    var s: nat := 0;
    while s < SLOTS
      invariant s <= SLOTS && |work| == PAGE_SIZE
      invariant forall k: nat :: k < ID_BITS ==> (Bit(work, k) <==> InUse(lu, k + 1, s))
      invariant avoid.Some? ==> forall t: nat :: t < s ==> !NamedHeader(lu, pg, avoid.value, t)
    {
      if avoid.Some? && NamedHeader(lu, pg, avoid.value, s) {
        return ErrConflictingName, work;
      }
      ghost var before := work;
      if lu[s].Used? {
        work := Mark(work, lu[s].id);
      }
      forall k: nat | k < ID_BITS ensures Bit(work, k) <==> InUse(lu, k + 1, s + 1) {
        InUseNext(lu, k + 1, s);
        assert Bit(before, k) <==> InUse(lu, k + 1, s);
      }
      s := s + 1;
    }
    return Ok, work;
  }

  lemma InUseNext(lu: seq<Entry>, id: nat, s: nat)
    requires s < |lu|
    ensures InUse(lu, id, s + 1) <==> InUse(lu, id, s) || (lu[s].Used? && lu[s].id == id)
  {
    if lu[s].Used? && lu[s].id == id {
      assert s < s + 1;
    }
  }

  /** The first clear bit of a byte that has one. */
  method ClearBit(b: bv8) returns (j: nat)
    requires b != 0xff
    ensures j < 8 && b & Mask(j) == 0 && forall k :: 0 <= k < j ==> b & Mask(k) != 0
  {
    FullByte(b);
    j := 0;
    while b & Mask(j) != 0
      invariant j < 8 && forall k :: 0 <= k < j ==> b & Mask(k) != 0
      decreases 8 - j
    {
      j := j + 1;
    }
  }

  lemma BitsOfByte(work: seq<bv8>, i: nat, n: nat)
    requires i < |work| && n <= 8
    requires forall k :: 0 <= k < n ==> work[i] & Mask(k) != 0
    ensures forall k: nat :: i * 8 <= k < i * 8 + n ==> Bit(work, k)
    ensures n < 8 && work[i] & Mask(n) == 0 ==> !Bit(work, i * 8 + n)
  {
    hide Mask;
    forall k: nat | i * 8 <= k < i * 8 + n ensures Bit(work, k) {
      assert k / 8 == i && k % 8 == k - i * 8;
    }
    if n < 8 {
      assert (i * 8 + n) / 8 == i && (i * 8 + n) % 8 == n;
    }
  }

  /** Finds the smallest id that no entry of the lookup carries. */
  method FindFreeId(lu: seq<Entry>, pg: seq<Page>, avoid: Option<string>) returns (r: Status, id: nat)
    requires Sizes(lu, pg) && IdsFitBitmap()
    ensures r == Ok || r == ErrConflictingName || r == ErrFull
    ensures r == ErrConflictingName <==> avoid.Some? && exists s: nat :: NamedHeader(lu, pg, avoid.value, s)
    ensures r == Ok ==> 1 <= id <= ID_BITS && !InUse(lu, id, SLOTS) && forall i: nat :: 1 <= i < id ==> InUse(lu, i, SLOTS)
    ensures r == ErrFull ==> forall i: nat :: 1 <= i <= ID_BITS ==> InUse(lu, i, SLOTS)
  {
    hide Bit, Mask, InUse, NamedHeader;
    id := 0;
    var work;
    r, work := MarkAll(lu, pg, avoid);
    if r != Ok {
      return;
    }
    var i: nat := 0;
    while i < PAGE_SIZE
      invariant i <= PAGE_SIZE && |work| == PAGE_SIZE
      invariant forall k: nat :: k < i * 8 ==> Bit(work, k)
    {
      if work[i] != 0xff {
        var j := ClearBit(work[i]);
        BitsOfByte(work, i, j);
        IdsBelow(lu, work, i * 8 + j);
        return Ok, i * 8 + j + 1;
      }
      FullByte(work[i]);
      BitsOfByte(work, i, 8);
      i := i + 1;
    }
    IdsBelow(lu, work, ID_BITS);
    return ErrFull, 0;
  }

  lemma IdsBelow(lu: seq<Entry>, work: seq<bv8>, n: nat)
    requires |work| == PAGE_SIZE && n <= ID_BITS
    requires forall k: nat :: k < ID_BITS ==> (Bit(work, k) <==> InUse(lu, k + 1, SLOTS))
    requires forall k: nat :: k < n ==> Bit(work, k)
    ensures forall i: nat :: 1 <= i <= n ==> InUse(lu, i, SLOTS)
  {
    forall i: nat | 1 <= i <= n ensures InUse(lu, i, SLOTS) {
      assert Bit(work, i - 1);
    }
  }

  /** The ids of a consistent image are those of its files. */
  lemma InUseIsFile(lu: seq<Entry>, pg: seq<Page>, cat: Catalogue, id: nat)
    requires Holds(lu, pg, cat)
    ensures InUse(lu, id, SLOTS) <==> id in cat
  {
    if InUse(lu, id, SLOTS) {
      var s: nat :| s < SLOTS && lu[s].Used? && lu[s].id == id;
      assert SlotOk(lu, pg, cat, s);
    }
    if id in cat {
      assert FileOk(lu, pg, id, cat[id]);
      assert IndexOk(lu, pg, id, cat[id], 0);
    }
  }

  /** With fewer files than the bitmap has bits an id is free. */
  lemma NotFull(lu: seq<Entry>, pg: seq<Page>, cat: Catalogue)
    requires Holds(lu, pg, cat) && |cat| < ID_BITS
    ensures exists i: nat :: 1 <= i <= ID_BITS && !InUse(lu, i, SLOTS)
  {
    assert |cat.Keys| == |cat|;
    if forall i: nat :: 1 <= i <= ID_BITS ==> InUse(lu, i, SLOTS) {
      forall i: nat | 1 <= i <= ID_BITS ensures i in cat.Keys {
        InUseIsFile(lu, pg, cat, i);
      }
      Pigeonhole(cat.Keys, ID_BITS);
      assert false;
    }
  }

  /** A set that has all of 1 up to n has at least n elements. */
  lemma {:induction false} Pigeonhole(ids: set<nat>, n: nat)
    requires forall i: nat :: 1 <= i <= n ==> i in ids
    ensures |ids| >= n
  {
    if n > 0 {
      Pigeonhole(ids - {n}, n - 1);
    }
  }
}

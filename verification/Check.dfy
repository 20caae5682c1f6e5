/** The three consistency checks, up to the first thing they would mend: what each
    accepts, that a mounted volume gives the first two nothing to do, and on which
    geometries that is so for the third. */
module Check {
  import opened Geometry
  import opened Image
  import opened Lookup
  import opened Visitor
  import opened Volume
  import opened Encoding
  import opened Cache
  import opened Objects
  import opened Steps
  import Mount

  predicate Live(p: Page)
  {
    !p.Erased? && p.hdr.live
  }

  /** A page the page check reads as an object index. */
  predicate LiveIndex(p: Page)
  {
    p.IndexPage? && p.hdr.live && p.hdr.ixlive && p.hdr.ix
  }

  // ---------------------------------------------------------------------------
  // Lookup check

  /** The page header agrees with the lookup entry. */
  predicate EntryFine(e: Entry, p: Page)
  {
    match e
    case Free => p.Erased?
    case Deleted => !p.Erased? && !p.hdr.live
    case Used(id, ix) => !p.Erased? && p.hdr.id == id && p.hdr.ix == ix && p.hdr.live && p.hdr.final
  }

  /** Finds the first lookup entry the check would mend. */
  method LookupCheck(lu: seq<Entry>, pg: seq<Page>) returns (r: Option<nat>)
    requires Sizes(lu, pg)
    ensures r.None? <==> forall s: nat :: s < SLOTS ==> EntryFine(lu[s], pg[s])
    ensures r.Some? ==> r.value < SLOTS && !EntryFine(lu[r.value], pg[r.value])
                        && forall s: nat :: s < r.value ==> EntryFine(lu[s], pg[s])
  {
    var s: nat := 0;
    while s < SLOTS
      invariant s <= SLOTS && forall t: nat :: t < s ==> EntryFine(lu[t], pg[t])
    {
      var e, p := lu[s], pg[s];
      if (e.Deleted? && (p.Erased? || p.hdr.live)) || (e.Free? && !p.Erased?) {
        return Some(s);    // deleted or free in the lookup but not on the page
      }
      if e.Used? {
        if p.Erased? || p.hdr.id != e.id {
          return Some(s);  // other object id
        } else if e.ix != p.hdr.ix {
          return Some(s);  // index marking differs
        } else if !p.hdr.live {
          return Some(s);  // busy in the lookup but deleted on the page
        } else if !p.hdr.final {
          return Some(s);  // busy but not final
        }
      }
      s := s + 1;
    }
    return None;
  }

  // ---------------------------------------------------------------------------
  // Object index check

  /** An index page whose flags are in order; the check looks no further at it. */
  predicate Orderly(p: Page)
  {
    !p.Erased? && p.hdr.ix && p.hdr.final && p.hdr.live && p.hdr.ixlive
  }

  /** The header page of an object whose removal was interrupted. */
  predicate HalfRemoved(p: Page)
  {
    !p.Erased? && p.hdr.span == 0 && p.hdr.ix && p.hdr.final && p.hdr.live && !p.hdr.ixlive
  }

  function SpanOf(p: Page): nat
  {
    if p.Erased? then NO_ID else p.hdr.span
  }

  const TABLE_SIZE: nat := PAGE_SIZE / 2

  /** An object has an index page that calls itself its header. */
  ghost predicate HasHead(lu: seq<Entry>, pg: seq<Page>, id: nat)
  {
    exists t: nat :: t < |lu| && t < |pg| && lu[t] == Used(id, true) && SpanOf(pg[t]) == 0
  }

  /** An index page of an object without a header page. */
  ghost predicate Orphan(lu: seq<Entry>, pg: seq<Page>, s: nat)
  {
    && s < |lu| && s < |pg| && lu[s].Used? && lu[s].ix
    && SpanOf(pg[s]) != 0 && !HasHead(lu, pg, lu[s].id)
  }

  ghost predicate HeaderFound(lu: seq<Entry>, pg: seq<Page>, id: nat)
  {
    exists t: nat :: Matches(lu, pg, id, true, 0, t)
  }

  /** The ids the check has noted as those of objects with a header: a ring that starts
      with zeros. */
  datatype Ring = Ring(ids: seq<nat>, next: nat)

  function Noted(ring: Ring, id: nat): (r: Ring)
    requires ring.next < |ring.ids|
    ensures r.next < |r.ids| == |ring.ids|
  {
    Ring(ring.ids[ring.next := id], if ring.next + 1 >= |ring.ids| then 0 else ring.next + 1)
  }

  /** An index page the check looks up the header for, or takes for a header. */
  predicate LooksUp(lu: seq<Entry>, pg: seq<Page>, ring: Ring, s: nat)
    requires s < |lu| && s < |pg|
  {
    lu[s].Used? && lu[s].ix && !HalfRemoved(pg[s]) && !Orderly(pg[s]) && lu[s].id !in ring.ids
  }

  /** The ring when the pages before `n` have been gone through. */
  function RingAt(lu: seq<Entry>, pg: seq<Page>, n: nat): (ring: Ring)
    requires n <= |lu| && n <= |pg|
    ensures ring.next < |ring.ids| == TABLE_SIZE
  {
    if n == 0 then Ring(seq(TABLE_SIZE, i => 0), 0)
    else
      var ring := RingAt(lu, pg, n - 1);
      if LooksUp(lu, pg, ring, n - 1) then Noted(ring, lu[n - 1].id) else ring
  }

  /** What the check deletes: a header marked as being removed, and a page with flags
      that are not in order whose object is not noted and has no header to be found. */
  ghost predicate Reported(lu: seq<Entry>, pg: seq<Page>, s: nat)
    requires s < |lu| && s < |pg|
  {
    && lu[s].Used? && lu[s].ix
    && (HalfRemoved(pg[s])
        || (LooksUp(lu, pg, RingAt(lu, pg, s), s) && SpanOf(pg[s]) != 0 && !HeaderFound(lu, pg, lu[s].id)))
  }

  /** Finds the first index page the check would delete. */
  method IndexCheck(lu: seq<Entry>, pg: seq<Page>) returns (r: Option<nat>)
    requires Sizes(lu, pg)
    ensures r.None? <==> forall s: nat :: s < SLOTS ==> !Reported(lu, pg, s)
    ensures r.Some? ==> r.value < SLOTS && Reported(lu, pg, r.value) && forall s: nat :: s < r.value ==> !Reported(lu, pg, s)
  {
    var table: seq<nat>, next: nat := seq(TABLE_SIZE, i => 0), 0;
    var s: nat := 0;
    while s < SLOTS
      invariant s <= SLOTS && Ring(table, next) == RingAt(lu, pg, s)
      invariant forall t: nat :: t < s ==> !Reported(lu, pg, t)
    {
      if lu[s].Used? && lu[s].ix {
        if HalfRemoved(pg[s]) {
          assert Reported(lu, pg, s);
          return Some(s);
        }
        if !Orderly(pg[s]) && lu[s].id !in table {
          if SpanOf(pg[s]) != 0 {
            var lookup, pages, id := lu, pg, lu[s].id;
            var accept := (t: nat) => Matches(lookup, pages, id, true, 0, t);
            var found := Visit(0, 0, true, accept);
            if found.None? {
              forall t: nat ensures !Matches(lu, pg, id, true, 0, t) {
                assert t < SLOTS ==> !accept(t);
              }
              assert Reported(lu, pg, s);
              return Some(s);
            }
            assert Matches(lu, pg, id, true, 0, found.value);
          }
          table := table[next := lu[s].id];
          next := if next + 1 >= TABLE_SIZE then 0 else next + 1;
        }
      }
      s := s + 1;
    }
    return None;
  }

  /** Until something is reported only objects that have a header are noted. */
  lemma {:induction false} NotedHaveHeads(lu: seq<Entry>, pg: seq<Page>, n: nat)
    requires n <= |lu| && n <= |pg| && forall s: nat :: s < n ==> !Reported(lu, pg, s)
    ensures forall i :: 0 <= i < TABLE_SIZE ==> var id := RingAt(lu, pg, n).ids[i]; id == 0 || HasHead(lu, pg, id)
  {
    if n > 0 {
      NotedHaveHeads(lu, pg, n - 1);
      var ring := RingAt(lu, pg, n - 1);
      if LooksUp(lu, pg, ring, n - 1) {
        var id := lu[n - 1].id;
        FoundHasHead(lu, pg, id);
        assert HasHead(lu, pg, id) by {
          assert !Reported(lu, pg, n - 1) && lu[n - 1] == Used(id, true);
        }
        assert RingAt(lu, pg, n) == Noted(ring, id);
      }
    }
  }

  /** An index page without a header page anywhere is reported exactly if its flags are
      not in order.  (The id 0, which no object has, counts as noted at first.) */
  lemma OrphanReported(lu: seq<Entry>, pg: seq<Page>, s: nat)
    requires Orphan(lu, pg, s) && forall t: nat :: t < s ==> !Reported(lu, pg, t)
    ensures Reported(lu, pg, s) <==> !Orderly(pg[s]) && (lu[s].id == 0 ==> 0 !in RingAt(lu, pg, s).ids)
  {
    NotedHaveHeads(lu, pg, s);
    FoundHasHead(lu, pg, lu[s].id);
  }

  lemma FoundHasHead(lu: seq<Entry>, pg: seq<Page>, id: nat)
    ensures HeaderFound(lu, pg, id) ==> HasHead(lu, pg, id)
  {
    if HeaderFound(lu, pg, id) {
      var t: nat :| Matches(lu, pg, id, true, 0, t);
      assert SpanOf(pg[t]) == 0;
    }
  }

  /** A volume with a single page in use: the second index page of object 5. */
  function OneOrphan(): (r: (seq<Entry>, seq<Page>))
    ensures |r.0| == |r.1| == SLOTS
  {
    (seq(SLOTS, s => if s == 0 then Used(5, true) else Free),
     seq(SLOTS, s => if s == 0 then IndexPage(LiveHeader(5, true, 1), None, "", EmptyTable(1)) else Erased))
  }

  /** The check finds nothing there. */
  lemma OrphanUnreported()
    ensures var (lu, pg) := OneOrphan();
            SLOTS > 0 && Orphan(lu, pg, 0) && forall s: nat :: s < SLOTS ==> !Reported(lu, pg, s)
  {
    TimesMono(1, BLOCKS, ENTRIES);
    var (lu, pg) := OneOrphan();
    assert lu[0] == Used(5, true) && pg[0].hdr == LiveHeader(5, true, 1);
  }

  // ---------------------------------------------------------------------------
  // Page check

  /** Index page `s` refers to a page at position `e`. */
  predicate RefersAt(pg: seq<Page>, s: nat, e: nat)
  {
    s < |pg| && LiveIndex(pg[s]) && e < |pg[s].table| && pg[s].table[e].At?
  }

  function Target(pg: seq<Page>, s: nat, e: nat): nat
    requires RefersAt(pg, s, e)
  {
    pg[s].table[e].slot
  }

  /** The page referred to is the live data page of that object and span. */
  predicate Proper(pg: seq<Page>, s: nat, e: nat)
    requires RefersAt(pg, s, e)
  {
    var t := Target(pg, s, e);
    && t < |pg| && Live(pg[t]) && !pg[t].hdr.ix
    && pg[t].hdr.id == pg[s].hdr.id && pg[t].hdr.span == FirstRef(pg[s].hdr.span) + e
  }

  ghost predicate Referenced(pg: seq<Page>, t: nat)
  {
    exists s: nat, e: nat :: RefersAt(pg, s, e) && Target(pg, s, e) == t
  }

  /** A consistent set of pages: free or deleted pages are not referred to; data pages
      in use are referred to exactly once, by the entry for their object and span;
      index pages are not referred to. */
  ghost predicate PagesConsistent(pg: seq<Page>)
  {
    && (forall t: nat :: t < |pg| && !Live(pg[t]) ==> !Referenced(pg, t))
    && (forall t: nat :: t < |pg| && Live(pg[t]) && LiveIndex(pg[t]) ==> !Referenced(pg, t))
    && (forall t: nat :: t < |pg| && Live(pg[t]) && !LiveIndex(pg[t]) ==> Referenced(pg, t))
    && (forall s: nat, e: nat :: RefersAt(pg, s, e) ==> Proper(pg, s, e))
    && (forall s: nat, e: nat, s': nat, e': nat ::
          RefersAt(pg, s, e) && RefersAt(pg, s', e') && Target(pg, s, e) == Target(pg, s', e') ==> s == s' && e == e')
  }

  // ---------------------------------------------------------------------------
  // The page check goes through the pages in ranges its bitmap can hold.

  /** What the bitmap notes of a page. */
  datatype Marks = Marks(used: bool, referenced: bool, index: bool)

  /** Page indices have 16 bits, and so has the number of pages in a range. */
  const PIX_LIMIT: nat := 0x10000
  const NO_PIX: nat := 0xffff
  const PER_SCAN: nat := PAGE_SIZE * 2 % PIX_LIMIT

  /** Reference (t, e) comes before reference number `e1` of page `s`. */
  predicate Before(t: nat, e: nat, s: nat, e1: nat)
  {
    t < s || (t == s && e < e1)
  }

  /** Slot `t` is referred to before that point. */
  ghost predicate Seen(pg: seq<Page>, t: nat, s: nat, e1: nat)
  {
    exists u: nat, e: nat :: RefersAt(pg, u, e) && Before(u, e, s, e1) && Target(pg, u, e) == t
  }

  predicate InRange(t: nat, offset: nat)
  {
    offset <= PixOfSlot(t) < offset + PER_SCAN
  }

  // Erased references have the page index `NO_PIX`.  A range that contains it takes them
  // for references to the page `beyond` the volume that has this index.

  predicate ErasedIn(offset: nat)
  {
    offset <= NO_PIX < offset + PER_SCAN
  }

  predicate ErasedAt(pg: seq<Page>, s: nat, e: nat)
  {
    s < |pg| && LiveIndex(pg[s]) && e < |pg[s].table| && pg[s].table[e].NoPage?
  }

  /** The page beyond would be the page that index page `s` lacks at position `e`. */
  predicate ErasedProper(pg: seq<Page>, beyond: Page, s: nat, e: nat)
    requires ErasedAt(pg, s, e)
  {
    && NO_PIX % BLOCK_PAGES >= LOOKUP_PAGES && Live(beyond) && !beyond.hdr.ix
    && beyond.hdr.id == pg[s].hdr.id && beyond.hdr.span == FirstRef(pg[s].hdr.span) + e
  }

  ghost predicate ErasedSeen(pg: seq<Page>, s: nat, e1: nat)
  {
    exists u: nat, e: nat :: ErasedAt(pg, u, e) && Before(u, e, s, e1)
  }

  /** The erased references before that point are proper, and at most one. */
  ghost predicate ErasedFine(pg: seq<Page>, beyond: Page, s: nat, e1: nat)
  {
    && (forall u: nat, e: nat :: ErasedAt(pg, u, e) && Before(u, e, s, e1) ==> ErasedProper(pg, beyond, u, e))
    && (forall u: nat, e: nat, u': nat, e': nat ::
          ErasedAt(pg, u, e) && ErasedAt(pg, u', e') && Before(u, e, s, e1) && Before(u', e', s, e1) ==> u == u' && e == e')
  }

  /** The bitmap of a range after `n` pages have been marked and the references before
      number `e1` of page `s` have been followed. */
  ghost predicate BitmapOk(pg: seq<Page>, work: seq<Marks>, offset: nat, n: nat, s: nat, e1: nat)
    requires |pg| == SLOTS
  {
    && |work| == PER_SCAN
    && (forall t: nat :: t < SLOTS && InRange(t, offset) ==> MarksOk(pg, work[PixOfSlot(t) - offset], t, n, s, e1))
    && (forall k :: 0 <= k < PER_SCAN && work[k].used ==> exists t: nat :: t < SLOTS && PixOfSlot(t) == offset + k)
    && (ErasedIn(offset) ==> (work[NO_PIX - offset].referenced <==> ErasedSeen(pg, s, e1)))
  }

  ghost predicate MarksOk(pg: seq<Page>, m: Marks, t: nat, n: nat, s: nat, e1: nat)
    requires t < |pg|
  {
    && (m.used <==> t < n && Live(pg[t]))
    && (m.index <==> t < n && LiveIndex(pg[t]))
    && (m.referenced <==> Seen(pg, t, s, e1))
  }

  /** The references to slot `t` before that point are proper, and at most one. */
  ghost predicate PartOk(pg: seq<Page>, t: nat, s: nat, e1: nat)
  {
    && (forall u: nat, e: nat :: RefersAt(pg, u, e) && Before(u, e, s, e1) && Target(pg, u, e) == t ==> Proper(pg, u, e))
    && (forall u: nat, e: nat, u': nat, e': nat ::
          (RefersAt(pg, u, e) && RefersAt(pg, u', e') && Before(u, e, s, e1) && Before(u', e', s, e1)
           && Target(pg, u, e) == t && Target(pg, u', e') == t) ==> u == u' && e == e')
  }

  ghost predicate RangeOk(pg: seq<Page>, beyond: Page, offset: nat, s: nat, e1: nat)
    requires |pg| == SLOTS
  {
    && (forall t: nat :: t < SLOTS && InRange(t, offset) ==> PartOk(pg, t, s, e1))
    && (ErasedIn(offset) ==> ErasedFine(pg, beyond, s, e1))
  }

  /** References before that point are to pages that exist. */
  ghost predicate TargetsExist(pg: seq<Page>, s: nat, e1: nat)
  {
    forall u: nat, e: nat :: RefersAt(pg, u, e) && Before(u, e, s, e1) ==> Target(pg, u, e) < SLOTS
  }

  /** Everything about the references to a slot is in order. */
  ghost predicate TargetOk(pg: seq<Page>, t: nat)
  {
    && PartOk(pg, t, |pg|, 0)
    && (t < |pg| && Live(pg[t]) && !LiveIndex(pg[t]) ==> Referenced(pg, t))
  }

  /** The check finds nothing to mend in a range. */
  ghost predicate RangeClean(pg: seq<Page>, beyond: Page, offset: nat)
    requires |pg| == SLOTS
  {
    && TargetsExist(pg, SLOTS, 0)
    && (forall t: nat :: t < SLOTS && InRange(t, offset) ==> TargetOk(pg, t))
    && (ErasedIn(offset) ==> ErasedFine(pg, beyond, SLOTS, 0))
  }

  /** The next reference is one more. */
  lemma SeenNext(pg: seq<Page>, t: nat, s: nat, e: nat)
    requires s < |pg|
    ensures Seen(pg, t, s, e + 1) <==> Seen(pg, t, s, e) || (RefersAt(pg, s, e) && Target(pg, s, e) == t)
  {
    if RefersAt(pg, s, e) && Target(pg, s, e) == t {
      assert Before(s, e, s, e + 1);
    }
    if Seen(pg, t, s, e) {
      var u: nat, i: nat :| RefersAt(pg, u, i) && Before(u, i, s, e) && Target(pg, u, i) == t;
      assert Before(u, i, s, e + 1);
    }
  }

  lemma ErasedSeenNext(pg: seq<Page>, s: nat, e: nat)
    requires s < |pg|
    ensures ErasedSeen(pg, s, e + 1) <==> ErasedSeen(pg, s, e) || ErasedAt(pg, s, e)
  {
    if ErasedAt(pg, s, e) {
      assert Before(s, e, s, e + 1);
    }
    if ErasedSeen(pg, s, e) {
      var u: nat, i: nat :| ErasedAt(pg, u, i) && Before(u, i, s, e);
      assert Before(u, i, s, e + 1);
    }
  }

  lemma PartNext(pg: seq<Page>, t: nat, s: nat, e: nat)
    requires s < |pg| && PartOk(pg, t, s, e)
    requires RefersAt(pg, s, e) && Target(pg, s, e) == t ==> Proper(pg, s, e) && !Seen(pg, t, s, e)
    ensures PartOk(pg, t, s, e + 1)
  {
    forall u: nat, i: nat | RefersAt(pg, u, i) && Before(u, i, s, e + 1) && Target(pg, u, i) == t && !(u == s && i == e)
      ensures Before(u, i, s, e) && Seen(pg, t, s, e)
    {
    }
  }

  lemma ErasedNext(pg: seq<Page>, beyond: Page, s: nat, e: nat)
    requires s < |pg| && ErasedFine(pg, beyond, s, e)
    requires ErasedAt(pg, s, e) ==> ErasedProper(pg, beyond, s, e) && !ErasedSeen(pg, s, e)
    ensures ErasedFine(pg, beyond, s, e + 1)
  {
    forall u: nat, i: nat | ErasedAt(pg, u, i) && Before(u, i, s, e + 1) && !(u == s && i == e)
      ensures Before(u, i, s, e) && ErasedSeen(pg, s, e)
    {
    }
  }

  /** Follows reference number `e` of index page `s`. */
  method FollowReference(pg: seq<Page>, beyond: Page, work: seq<Marks>, offset: nat, s: nat, e: nat)
    returns (ok: bool, work': seq<Marks>)
    requires |pg| == SLOTS && s < SLOTS && LiveIndex(pg[s]) && e < |pg[s].table|
    requires BitmapOk(pg, work, offset, s + 1, s, e) && RangeOk(pg, beyond, offset, s, e) && TargetsExist(pg, s, e)
    ensures ok ==>
              && BitmapOk(pg, work', offset, s + 1, s, e + 1)
              && RangeOk(pg, beyond, offset, s, e + 1) && TargetsExist(pg, s, e + 1)
    ensures !ok ==> !RangeClean(pg, beyond, offset)
  {
    hide PartOk, Seen, PixOfSlot, ErasedSeen, ErasedFine, ErasedProper, Proper, RangeOk, TargetsExist, RangeClean;
    var ref := pg[s].table[e];
    if ref.At? {
      ok, work' := FollowPage(pg, beyond, work, offset, s, e, ref.slot);
    } else {
      ok, work' := FollowErased(pg, beyond, work, offset, s, e);
    }
    if ok {
      Followed(pg, beyond, work, work', offset, s, e);
    }
  }

  /** A reference to a page. */
  method FollowPage(pg: seq<Page>, beyond: Page, work: seq<Marks>, offset: nat, s: nat, e: nat, t: nat)
    returns (ok: bool, work': seq<Marks>)
    requires |pg| == SLOTS && RefersAt(pg, s, e) && Target(pg, s, e) == t
    requires BitmapOk(pg, work, offset, s + 1, s, e)
    ensures ok ==> t < SLOTS && MarkedFor(pg, beyond, work, work', offset, s, e)
    ensures !ok ==> !RangeClean(pg, beyond, offset)
  {
    hide PartOk, Seen, PixOfSlot, ErasedSeen, ErasedFine, ErasedProper, Proper, RangeClean, MarkedFor;
    work' := work;
    if t >= SLOTS {
      BadSlot(pg, beyond, offset, s, e);
      return false, work;
    }
    if InRange(t, offset) {
      var k := PixOfSlot(t) - offset;
      assert MarksOk(pg, work[k], t, s + 1, s, e);
      if !Proper(pg, s, e) || work[k].referenced {
        BadTarget(pg, beyond, offset, t, s, e);
        return false, work;
      }
      work' := work[k := work[k].(referenced := true)];
    }
    PageMarked(pg, beyond, work, work', offset, s, e, t);
    ok := true;
  }

  lemma PageMarked(pg: seq<Page>, beyond: Page, work: seq<Marks>, work': seq<Marks>, offset: nat, s: nat, e: nat, t: nat)
    requires |work| == |work'| == PER_SCAN && RefersAt(pg, s, e) && Target(pg, s, e) == t && t < SLOTS
    requires if InRange(t, offset)
             then
               var k := PixOfSlot(t) - offset;
               && Proper(pg, s, e) && !work[k].referenced && work' == work[k := work[k].(referenced := true)]
             else work' == work
    ensures MarkedFor(pg, beyond, work, work', offset, s, e)
  {
    hide PixOfSlot, Proper, ErasedProper;
    assert !ErasedAt(pg, s, e);
    if InRange(t, offset) {
      OthersUnmarked(work, work', offset, t);
      OneReferenced(work, work', PixOfSlot(t) - offset);
    }
    forall v: nat | v < SLOTS && InRange(v, offset)
      ensures work'[PixOfSlot(v) - offset].referenced == (work[PixOfSlot(v) - offset].referenced || t == v)
    {
    }
  }

  lemma OneReferenced(work: seq<Marks>, work': seq<Marks>, n: nat)
    requires n < |work| && work' == work[n := work[n].(referenced := true)]
    ensures forall k :: 0 <= k < |work| ==> work'[k] == work[k].(referenced := work'[k].referenced)
  {
  }

  /** An erased reference. */
  method FollowErased(pg: seq<Page>, beyond: Page, work: seq<Marks>, offset: nat, s: nat, e: nat)
    returns (ok: bool, work': seq<Marks>)
    requires |pg| == SLOTS && ErasedAt(pg, s, e)
    requires BitmapOk(pg, work, offset, s + 1, s, e)
    ensures ok ==> MarkedFor(pg, beyond, work, work', offset, s, e)
    ensures !ok ==> !RangeClean(pg, beyond, offset)
  {
    hide PartOk, Seen, PixOfSlot, ErasedSeen, ErasedFine, ErasedProper, Proper, RangeClean, MarksOk;
    work' := work;
    if ErasedIn(offset) {
      if !ErasedProper(pg, beyond, s, e) || work[NO_PIX - offset].referenced {
        BadErased(pg, beyond, offset, s, e);
        return false, work;
      }
      work' := work[NO_PIX - offset := work[NO_PIX - offset].(referenced := true)];
      ErasedApart();
    }
    ok := true;
  }

  /** The marks after reference number `e` of page `s` has been followed. */
  ghost predicate MarkedFor(pg: seq<Page>, beyond: Page, work: seq<Marks>, work': seq<Marks>, offset: nat, s: nat, e: nat)
    requires |work| == PER_SCAN
  {
    && |work'| == PER_SCAN && (forall k :: 0 <= k < PER_SCAN ==> work'[k] == work[k].(referenced := work'[k].referenced))
    && (RefersAt(pg, s, e) ==>
          && Target(pg, s, e) < SLOTS
          && (InRange(Target(pg, s, e), offset) ==> Proper(pg, s, e) && !work[PixOfSlot(Target(pg, s, e)) - offset].referenced))
    && (forall v: nat :: v < SLOTS && InRange(v, offset) ==>
          work'[PixOfSlot(v) - offset].referenced ==
          (work[PixOfSlot(v) - offset].referenced || (RefersAt(pg, s, e) && Target(pg, s, e) == v)))
    && (ErasedIn(offset) ==>
          && work'[NO_PIX - offset].referenced == (work[NO_PIX - offset].referenced || ErasedAt(pg, s, e))
          && (ErasedAt(pg, s, e) ==> ErasedProper(pg, beyond, s, e) && !work[NO_PIX - offset].referenced))
  }

  lemma BadSlot(pg: seq<Page>, beyond: Page, offset: nat, s: nat, e: nat)
    requires |pg| == SLOTS && RefersAt(pg, s, e) && Target(pg, s, e) >= SLOTS
    ensures !RangeClean(pg, beyond, offset)
  {
    assert Before(s, e, SLOTS, 0);
  }

  /** No page of the volume has the index of an erased reference. */
  lemma ErasedApart()
    ensures forall v: nat :: v < SLOTS ==> PixOfSlot(v) < NO_PIX
  {
    forall v: nat | v < SLOTS ensures PixOfSlot(v) < NO_PIX {
      PixFits(v);
    }
  }

  /** The invariants after a reference has been followed and marked. */
  lemma Followed(pg: seq<Page>, beyond: Page, work: seq<Marks>, work': seq<Marks>, offset: nat, s: nat, e: nat)
    requires |pg| == SLOTS && s < SLOTS && LiveIndex(pg[s]) && e < |pg[s].table|
    requires BitmapOk(pg, work, offset, s + 1, s, e) && RangeOk(pg, beyond, offset, s, e) && TargetsExist(pg, s, e)
    requires MarkedFor(pg, beyond, work, work', offset, s, e)
    ensures BitmapOk(pg, work', offset, s + 1, s, e + 1)
    ensures RangeOk(pg, beyond, offset, s, e + 1) && TargetsExist(pg, s, e + 1)
  {
    hide PartOk, Seen, PixOfSlot, ErasedSeen, ErasedFine, ErasedProper, Proper;
    forall v: nat | v < SLOTS && InRange(v, offset)
      ensures MarksOk(pg, work'[PixOfSlot(v) - offset], v, s + 1, s, e + 1) && PartOk(pg, v, s, e + 1)
    {
      assert MarksOk(pg, work[PixOfSlot(v) - offset], v, s + 1, s, e);
      SeenNext(pg, v, s, e);
      PartNext(pg, v, s, e);
    }
    ErasedSeenNext(pg, s, e);
    if ErasedIn(offset) {
      ErasedNext(pg, beyond, s, e);
    }
    forall u: nat, i: nat | RefersAt(pg, u, i) && Before(u, i, s, e + 1) ensures Target(pg, u, i) < SLOTS {
      assert (u == s && i == e) || Before(u, i, s, e);
    }
  }

  /** Changing the marks of one slot leaves those of the others. */
  lemma OthersUnmarked(work: seq<Marks>, work': seq<Marks>, offset: nat, t: nat)
    requires |work| == |work'| == PER_SCAN && t < SLOTS && InRange(t, offset)
    requires forall k :: 0 <= k < PER_SCAN && k != PixOfSlot(t) - offset ==> work'[k] == work[k]
    ensures forall v: nat :: v < SLOTS && InRange(v, offset) && v != t ==> work'[PixOfSlot(v) - offset] == work[PixOfSlot(v) - offset]
    ensures ErasedIn(offset) ==> work'[NO_PIX - offset] == work[NO_PIX - offset]
  {
    forall v: nat | v < SLOTS && InRange(v, offset) && v != t ensures PixOfSlot(v) != PixOfSlot(t) {
      if PixOfSlot(v) == PixOfSlot(t) {
        SlotsApart(v, t);
      }
    }
    PixFits(t);
  }

  /** A reference that is not proper, or not the first, is something to mend. */
  lemma BadTarget(pg: seq<Page>, beyond: Page, offset: nat, t: nat, s: nat, e: nat)
    requires |pg| == SLOTS && RefersAt(pg, s, e) && Target(pg, s, e) == t && t < SLOTS && InRange(t, offset)
    requires !Proper(pg, s, e) || Seen(pg, t, s, e)
    ensures !RangeClean(pg, beyond, offset)
  {
    if RangeClean(pg, beyond, offset) {
      assert TargetOk(pg, t) && Before(s, e, |pg|, 0);
      var u: nat, i: nat :| RefersAt(pg, u, i) && Before(u, i, s, e) && Target(pg, u, i) == t;
      assert Before(u, i, |pg|, 0);
    }
  }

  lemma BadErased(pg: seq<Page>, beyond: Page, offset: nat, s: nat, e: nat)
    requires |pg| == SLOTS && ErasedAt(pg, s, e) && ErasedIn(offset)
    requires !ErasedProper(pg, beyond, s, e) || ErasedSeen(pg, s, e)
    ensures !RangeClean(pg, beyond, offset)
  {
    if RangeClean(pg, beyond, offset) {
      assert Before(s, e, SLOTS, 0);
      var u: nat, i: nat :| ErasedAt(pg, u, i) && Before(u, i, s, e);
      assert Before(u, i, SLOTS, 0);
    }
  }

  /** Marks page `s` used, and as an index page, if it is in the range. */
  method MarkPage(pg: seq<Page>, work: seq<Marks>, offset: nat, s: nat) returns (work': seq<Marks>)
    requires |pg| == SLOTS && s < SLOTS && BitmapOk(pg, work, offset, s, s, 0)
    ensures BitmapOk(pg, work', offset, s + 1, s, 0)
  {
    hide Seen, ErasedSeen;
    work' := work;
    if InRange(s, offset) {
      var k := PixOfSlot(s) - offset;
      assert MarksOk(pg, work[k], s, s, s, 0);
      work' := work[k := work[k].(used := Live(pg[s]), index := LiveIndex(pg[s]))];
      OthersUnmarked(work, work', offset, s);
    }
    forall v: nat | v < SLOTS && InRange(v, offset) ensures MarksOk(pg, work'[PixOfSlot(v) - offset], v, s + 1, s, 0) {
      assert MarksOk(pg, work[PixOfSlot(v) - offset], v, s, s, 0);
    }
  }

  /** After the last entry of a page comes the next page. */
  lemma PageDone(pg: seq<Page>, t: nat, s: nat, e: nat)
    requires s < |pg|
    requires LiveIndex(pg[s]) ==> e == |pg[s].table|
    ensures Seen(pg, t, s, e) <==> Seen(pg, t, s + 1, 0)
    ensures PartOk(pg, t, s, e) ==> PartOk(pg, t, s + 1, 0)
    ensures TargetsExist(pg, s, e) ==> TargetsExist(pg, s + 1, 0)
  {
    forall u: nat, i: nat | RefersAt(pg, u, i) ensures Before(u, i, s, e) <==> Before(u, i, s + 1, 0) {
    }
    if Seen(pg, t, s + 1, 0) {
      var u: nat, i: nat :| RefersAt(pg, u, i) && Before(u, i, s + 1, 0) && Target(pg, u, i) == t;
      assert Before(u, i, s, e);
    }
  }

  lemma ErasedDone(pg: seq<Page>, beyond: Page, s: nat, e: nat)
    requires s < |pg|
    requires LiveIndex(pg[s]) ==> e == |pg[s].table|
    ensures ErasedSeen(pg, s, e) <==> ErasedSeen(pg, s + 1, 0)
    ensures ErasedFine(pg, beyond, s, e) ==> ErasedFine(pg, beyond, s + 1, 0)
  {
    forall u: nat, i: nat | ErasedAt(pg, u, i) ensures Before(u, i, s, e) <==> Before(u, i, s + 1, 0) {
    }
    if ErasedSeen(pg, s + 1, 0) {
      var u: nat, i: nat :| ErasedAt(pg, u, i) && Before(u, i, s + 1, 0);
      assert Before(u, i, s, e);
    }
  }

  /** Goes through page `s`. */
  method ScanPage(pg: seq<Page>, beyond: Page, work: seq<Marks>, offset: nat, s: nat) returns (ok: bool, work': seq<Marks>)
    requires |pg| == SLOTS && s < SLOTS
    requires BitmapOk(pg, work, offset, s, s, 0) && RangeOk(pg, beyond, offset, s, 0) && TargetsExist(pg, s, 0)
    ensures ok ==>
              && BitmapOk(pg, work', offset, s + 1, s + 1, 0)
              && RangeOk(pg, beyond, offset, s + 1, 0) && TargetsExist(pg, s + 1, 0)
    ensures !ok ==> !RangeClean(pg, beyond, offset)
  {
    hide RangeClean, PartOk, Seen, TargetsExist, ErasedSeen, ErasedFine;
    work' := MarkPage(pg, work, offset, s);
    var e: nat := 0;
    ok := true;
    if LiveIndex(pg[s]) {
      while e < |pg[s].table|
        invariant e <= |pg[s].table|
        invariant BitmapOk(pg, work', offset, s + 1, s, e) && RangeOk(pg, beyond, offset, s, e) && TargetsExist(pg, s, e)
      {
        ok, work' := FollowReference(pg, beyond, work', offset, s, e);
        if !ok {
          return;
        }
        e := e + 1;
      }
    }
    PageDone(pg, 0, s, e);
    ErasedDone(pg, beyond, s, e);
    forall v: nat | v < SLOTS && InRange(v, offset)
      ensures MarksOk(pg, work'[PixOfSlot(v) - offset], v, s + 1, s + 1, 0) && PartOk(pg, v, s + 1, 0)
    {
      PageDone(pg, v, s, e);
      assert MarksOk(pg, work'[PixOfSlot(v) - offset], v, s + 1, s, e);
    }
  }

  lemma SeenAll(pg: seq<Page>, t: nat)
    ensures Seen(pg, t, |pg|, 0) <==> Referenced(pg, t)
  {
    if Referenced(pg, t) {
      var u: nat, i: nat :| RefersAt(pg, u, i) && Target(pg, u, i) == t;
      assert Before(u, i, |pg|, 0);
    }
  }

  /** Goes through all pages for one range, and then through its bitmap. */
  method ScanRange(pg: seq<Page>, beyond: Page, offset: nat) returns (ok: bool)
    requires |pg| == SLOTS
    ensures ok <==> RangeClean(pg, beyond, offset)
  {
    hide RangeClean, PartOk, Seen, Referenced, TargetsExist, ErasedSeen, ErasedFine;
    var work := seq(PER_SCAN, k => Marks(false, false, false));
    NothingBefore(pg, beyond);
    var s: nat := 0;
    while s < SLOTS
      invariant s <= SLOTS
      invariant BitmapOk(pg, work, offset, s, s, 0) && RangeOk(pg, beyond, offset, s, 0) && TargetsExist(pg, s, 0)
    {
      ok, work := ScanPage(pg, beyond, work, offset, s);
      if !ok {
        return;
      }
      s := s + 1;
    }
    var k: nat := 0;
    while k < PER_SCAN
      invariant k <= PER_SCAN && forall j: nat :: j < k ==> work[j] != Marks(true, false, false)
    {
      if work[k] == Marks(true, false, false) {
        ghost var t: nat :| t < SLOTS && PixOfSlot(t) == offset + k;
        assert MarksOk(pg, work[PixOfSlot(t) - offset], t, SLOTS, SLOTS, 0);
        SeenAll(pg, t);
        assert !TargetOk(pg, t);
        NotClean(pg, beyond, offset, t);
        return false;
      }
      k := k + 1;
    }
    forall t: nat | t < SLOTS && InRange(t, offset) ensures TargetOk(pg, t) {
      assert MarksOk(pg, work[PixOfSlot(t) - offset], t, SLOTS, SLOTS, 0);
      SeenAll(pg, t);
    }
    IsClean(pg, beyond, offset);
    ok := true;
  }

  lemma NotClean(pg: seq<Page>, beyond: Page, offset: nat, t: nat)
    requires |pg| == SLOTS && t < SLOTS && InRange(t, offset) && !TargetOk(pg, t)
    ensures !RangeClean(pg, beyond, offset)
  {
  }

  lemma IsClean(pg: seq<Page>, beyond: Page, offset: nat)
    requires |pg| == SLOTS && TargetsExist(pg, SLOTS, 0) && (ErasedIn(offset) ==> ErasedFine(pg, beyond, SLOTS, 0))
    requires forall t: nat :: t < SLOTS && InRange(t, offset) ==> TargetOk(pg, t)
    ensures RangeClean(pg, beyond, offset)
  {
  }

  lemma NothingBefore(pg: seq<Page>, beyond: Page)
    ensures forall t: nat :: !Seen(pg, t, 0, 0) && PartOk(pg, t, 0, 0)
    ensures TargetsExist(pg, 0, 0) && !ErasedSeen(pg, 0, 0) && ErasedFine(pg, beyond, 0, 0)
  {
  }

  /** What becomes of a page check: it ends and has found nothing, it finds something to
      mend, or it has not ended after the rounds it was given. */
  datatype Verdict = Passed | Mends | Unfinished

  /** The loop over the ranges.  The offset of the next range has 16 bits. */
  ghost function Scan(pg: seq<Page>, beyond: Page, offset: nat, rounds: nat): Verdict
    requires |pg| == SLOTS
    decreases rounds
  {
    if offset >= PIXES then Passed
    else if rounds == 0 then Unfinished
    else if !RangeClean(pg, beyond, offset) then Mends
    else Scan(pg, beyond, (offset + PER_SCAN) % PIX_LIMIT, rounds - 1)
  }

  /** The page check, for a number of rounds. */
  method PageCheck(pg: seq<Page>, beyond: Page, rounds: nat) returns (v: Verdict)
    requires |pg| == SLOTS
    ensures v == Scan(pg, beyond, 0, rounds)
  {
    hide RangeClean;
    var offset: nat, left: nat := 0, rounds;
    while offset < PIXES && left > 0
      invariant left <= rounds && Scan(pg, beyond, 0, rounds) == Scan(pg, beyond, offset, left)
      decreases left
    {
      var ok := ScanRange(pg, beyond, offset);
      if !ok {
        return Mends;
      }
      offset := (offset + PER_SCAN) % PIX_LIMIT;
      left := left - 1;
    }
    return if offset >= PIXES then Passed else Unfinished;
  }

  // ---------------------------------------------------------------------------
  // Geometries

  /** Every page index of the volume is in a range that ends at or before the erased
      page index. */
  predicate CheckSafe(g: Geo)
  {
    var perScan := (g.dataSize + PAGE_HEADER) * 2 % PIX_LIMIT;
    perScan > 0 && g.blocks * (g.entries + g.lookupPages) <= NO_PIX / perScan * perScan
  }

  const LAST: nat := if PER_SCAN == 0 then 0 else Times(Quot(NO_PIX, PER_SCAN), PER_SCAN)

  lemma SafeIsLast()
    ensures CheckSafe(G) <==> PER_SCAN > 0 && PIXES <= LAST
  {
    TimesIsProduct(BLOCKS, BLOCK_PAGES);
    if PER_SCAN > 0 {
      QuotIsQuotient(NO_PIX, PER_SCAN);
      TimesIsProduct(Quot(NO_PIX, PER_SCAN), PER_SCAN);
    }
  }

  /** 4094 blocks of 16 pages of 256 bytes are a geometry, and not a safe one: the pages
      from number 65024 on share their range with the erased page index. */
  lemma UnsafeGeometry()
    ensures var g := Geo(4094, 15, 1, 128, 251, 105, 124, 41);
            g.Ok() && g == FromConfig(256, 4096, 4094) && !CheckSafe(g)
  {
    assert NO_PIX / 512 * 512 == 65024;
  }

  lemma RangeStep(n: nat)
    requires PER_SCAN > 0 && n < Quot(NO_PIX, PER_SCAN)
    ensures Times(n, PER_SCAN) < LAST && Times(n + 1, PER_SCAN) <= LAST <= NO_PIX
    ensures (Times(n, PER_SCAN) + PER_SCAN) % PIX_LIMIT == Times(n + 1, PER_SCAN)
    ensures !ErasedIn(Times(n, PER_SCAN))
  {
    TimesMono(n + 1, Quot(NO_PIX, PER_SCAN), PER_SCAN);
    QuotSplit(NO_PIX, PER_SCAN);
  }

  /** The ranges from number `n` on, on a safe geometry. */
  lemma {:induction false} SafeScan(pg: seq<Page>, beyond: Page, n: nat, rounds: nat)
    requires |pg| == SLOTS && PER_SCAN > 0 && PIXES <= LAST && n <= Quot(NO_PIX, PER_SCAN)
    requires rounds >= PIXES - Times(n, PER_SCAN)
    requires n > 0 ==> TargetsExist(pg, SLOTS, 0)
    requires forall t: nat :: t < SLOTS && PixOfSlot(t) < Times(n, PER_SCAN) ==> TargetOk(pg, t)
    ensures Scan(pg, beyond, Times(n, PER_SCAN), rounds) == if PagesConsistent(pg) then Passed else Mends
    decreases Quot(NO_PIX, PER_SCAN) - n
  {
    hide TargetOk, TargetsExist, PagesConsistent, RangeClean;
    var offset := Times(n, PER_SCAN);
    if offset >= PIXES {
      SomePix();
      forall t: nat | t < SLOTS ensures TargetOk(pg, t) {
        SlotPage(t);
      }
      AllInOrder(pg);
    } else {
      if n == Quot(NO_PIX, PER_SCAN) {
        assert false;
      }
      RangeStep(n);
      if RangeClean(pg, beyond, offset) {
        CleanTargets(pg, beyond, offset);
        SafeScan(pg, beyond, n + 1, rounds - 1);
      } else if PagesConsistent(pg) {
        ConsistentIsClean(pg, beyond, offset);
      }
    }
  }

  lemma SomePix()
    ensures PIXES > 0
  {
    TimesMono(1, BLOCKS, BLOCK_PAGES);
  }

  lemma CleanTargets(pg: seq<Page>, beyond: Page, offset: nat)
    requires |pg| == SLOTS && RangeClean(pg, beyond, offset)
    ensures TargetsExist(pg, SLOTS, 0) && forall t: nat :: t < SLOTS && InRange(t, offset) ==> TargetOk(pg, t)
  {
  }

  /** A range of consistent pages is clean if it does not contain the erased page index. */
  lemma ConsistentIsClean(pg: seq<Page>, beyond: Page, offset: nat)
    requires |pg| == SLOTS && PagesConsistent(pg) && !ErasedIn(offset)
    ensures RangeClean(pg, beyond, offset)
  {
  }

  /** On a safe geometry the page check ends, and finds nothing to mend exactly if the
      pages are consistent. */
  lemma SafeCheck(pg: seq<Page>, beyond: Page, rounds: nat)
    requires |pg| == SLOTS && CheckSafe(G) && rounds >= PIXES
    ensures Scan(pg, beyond, 0, rounds) == if PagesConsistent(pg) then Passed else Mends
  {
    SafeIsLast();
    SafeScan(pg, beyond, 0, rounds);
  }

  /** The ranges from number `n` on, on another geometry, if something is erased that
      the page beyond does not make up for. */
  lemma {:induction false} UnsafeScan(pg: seq<Page>, beyond: Page, n: nat, rounds: nat)
    requires |pg| == SLOTS && PER_SCAN > 0 && PIXES > LAST && n <= Quot(NO_PIX, PER_SCAN)
    requires !ErasedFine(pg, beyond, SLOTS, 0)
    ensures Scan(pg, beyond, Times(n, PER_SCAN), rounds) != Passed
    ensures rounds > Quot(NO_PIX, PER_SCAN) - n ==> Scan(pg, beyond, Times(n, PER_SCAN), rounds) == Mends
    decreases Quot(NO_PIX, PER_SCAN) - n
  {
    hide ErasedFine;
    QuotSplit(NO_PIX, PER_SCAN);
    TimesMono(n, Quot(NO_PIX, PER_SCAN), PER_SCAN);
    if rounds > 0 && n < Quot(NO_PIX, PER_SCAN) {
      RangeStep(n);
      UnsafeScan(pg, beyond, n + 1, rounds - 1);
    }
  }

  /** No range clean or unclean ends the check on a geometry that is not safe, if the
      ranges come round to the first one. */
  lemma {:induction false} NeverPasses(pg: seq<Page>, beyond: Page, n: nat, rounds: nat)
    requires |pg| == SLOTS && PER_SCAN > 0 && PIXES > LAST && n <= Quot(NO_PIX, PER_SCAN)
    requires PIX_LIMIT % PER_SCAN == 0
    ensures Scan(pg, beyond, Times(n, PER_SCAN), rounds) != Passed
    decreases rounds
  {
    hide RangeClean;
    QuotSplit(NO_PIX, PER_SCAN);
    TimesMono(n, Quot(NO_PIX, PER_SCAN), PER_SCAN);
    if rounds > 0 {
      if n < Quot(NO_PIX, PER_SCAN) {
        RangeStep(n);
        NeverPasses(pg, beyond, n + 1, rounds - 1);
      } else {
        ComesRound();
        NeverPasses(pg, beyond, 0, rounds - 1);
      }
    }
  }

  /** The range behind the last one is the first one. */
  lemma ComesRound()
    requires PER_SCAN > 0 && PIX_LIMIT % PER_SCAN == 0
    ensures (LAST + PER_SCAN) % PIX_LIMIT == 0
  {
    var q, m := Quot(NO_PIX, PER_SCAN), PIX_LIMIT / PER_SCAN;
    QuotSplit(NO_PIX, PER_SCAN);
    TimesIsProduct(q + 1, PER_SCAN);
    assert Times(q + 1, PER_SCAN) == LAST + PER_SCAN;
    assert PIX_LIMIT == m * PER_SCAN;
    if q + 1 < m {
      MulStep(q + 1, m, PER_SCAN);
    } else if m < q + 1 {
      MulStep(m, q + 1, PER_SCAN);
    }
  }

  /** With ranges of no pages the check stays at the first one. */
  lemma {:induction false} NoRanges(pg: seq<Page>, beyond: Page, rounds: nat)
    requires |pg| == SLOTS && PER_SCAN == 0
    ensures Scan(pg, beyond, 0, rounds) != Passed
  {
    SomePix();
    if rounds > 0 {
      NoRanges(pg, beyond, rounds - 1);
    }
  }

  lemma AllInOrder(pg: seq<Page>)
    requires |pg| == SLOTS && TargetsExist(pg, SLOTS, 0) && forall t: nat :: t < SLOTS ==> TargetOk(pg, t)
    ensures PagesConsistent(pg)
  {
    forall s: nat, e: nat | RefersAt(pg, s, e) ensures Target(pg, s, e) < SLOTS && Proper(pg, s, e) {
      assert Before(s, e, SLOTS, 0);
      assert TargetOk(pg, Target(pg, s, e));
    }
    forall s: nat, e: nat, s': nat, e': nat |
      RefersAt(pg, s, e) && RefersAt(pg, s', e') && Target(pg, s, e) == Target(pg, s', e')
      ensures s == s' && e == e'
    {
      assert Before(s, e, SLOTS, 0) && Before(s', e', SLOTS, 0);
      assert TargetOk(pg, Target(pg, s, e));
    }
    forall t: nat | t < |pg| && Live(pg[t]) && !LiveIndex(pg[t]) ensures Referenced(pg, t) {
      assert TargetOk(pg, t);
    }
  }

  // ---------------------------------------------------------------------------
  // Mounted volumes

  /** In an image that is in order, live pages are in use, and their headers are those
      of their file's page. */
  lemma LivePages(lu: seq<Entry>, pg: seq<Page>, cat: Catalogue, s: nat)
    requires Holds(lu, pg, cat) && Buried(lu, pg) && s < SLOTS
    ensures EntryFine(lu[s], pg[s])
    ensures Live(pg[s]) <==> lu[s].Used?
    ensures lu[s].Used? && lu[s].ix ==>
              var id, k := lu[s].id, pg[s].hdr.span;
              Orderly(pg[s]) && id in cat && k < |cat[id].ixs| && cat[id].ixs[k] == s && pg[s] == IndexImage(id, cat[id], k)
    ensures lu[s].Used? && !lu[s].ix ==>
              var id, j := lu[s].id, pg[s].hdr.span;
              id in cat && j < |cat[id].data| && cat[id].data[j] == s && pg[s].DataPage? && pg[s].hdr == LiveHeader(id, false, j)
  {
    assert SlotOk(lu, pg, cat, s);
    if lu[s].Used? {
      var id := lu[s].id;
      assert FileOk(lu, pg, id, cat[id]);
      if lu[s].ix {
        assert IndexOk(lu, pg, id, cat[id], pg[s].hdr.span);
      } else {
        assert DataOk(lu, pg, id, cat[id], pg[s].hdr.span);
      }
    }
  }

  /** A reference of a live index page is to the data page of its place. */
  lemma LiveReferences(lu: seq<Entry>, pg: seq<Page>, cat: Catalogue, s: nat, e: nat)
    requires Holds(lu, pg, cat) && Buried(lu, pg) && RefersAt(pg, s, e)
    ensures Proper(pg, s, e) && lu[s].Used? && lu[s].id in cat && FirstRef(pg[s].hdr.span) + e < |cat[lu[s].id].data|
    ensures Target(pg, s, e) == cat[lu[s].id].data[FirstRef(pg[s].hdr.span) + e]
    ensures lu[Target(pg, s, e)] == Used(lu[s].id, false)
  {
    LivePages(lu, pg, cat, s);
    var id, k := lu[s].id, pg[s].hdr.span;
    assert FileOk(lu, pg, id, cat[id]);
    assert DataOk(lu, pg, id, cat[id], FirstRef(k) + e);
  }

  lemma ReferencedOnce(lu: seq<Entry>, pg: seq<Page>, cat: Catalogue, s: nat, e: nat, s': nat, e': nat)
    requires Holds(lu, pg, cat) && Buried(lu, pg) && RefersAt(pg, s, e) && RefersAt(pg, s', e')
    requires Target(pg, s, e) == Target(pg, s', e')
    ensures s == s' && e == e'
  {
    LiveReferences(lu, pg, cat, s, e);
    LiveReferences(lu, pg, cat, s', e');
    LivePages(lu, pg, cat, s);
    LivePages(lu, pg, cat, s');
    IndexPlaceUnique(pg[s].hdr.span, e);
    IndexPlaceUnique(pg[s'].hdr.span, e');
  }

  lemma DataIsReferenced(lu: seq<Entry>, pg: seq<Page>, cat: Catalogue, t: nat)
    requires Holds(lu, pg, cat) && Buried(lu, pg) && t < SLOTS && Live(pg[t]) && !LiveIndex(pg[t])
    ensures Referenced(pg, t)
  {
    LivePages(lu, pg, cat, t);
    var id, j := lu[t].id, pg[t].hdr.span;
    var f := cat[id];
    assert FileOk(lu, pg, id, f);
    IxSpanMono(j, |f.data| - 1);
    assert IndexOk(lu, pg, id, f, IxSpan(j));
    IndexPlace(j);
    assert RefersAt(pg, f.ixs[IxSpan(j)], IxEntry(j)) && Target(pg, f.ixs[IxSpan(j)], IxEntry(j)) == t;
  }

  /** The pages of a consistent image are what the page check calls consistent. */
  lemma HoldsIsConsistent(lu: seq<Entry>, pg: seq<Page>, cat: Catalogue)
    requires Holds(lu, pg, cat) && Buried(lu, pg)
    ensures PagesConsistent(pg)
  {
    forall s: nat, e: nat | RefersAt(pg, s, e) ensures Proper(pg, s, e) {
      LiveReferences(lu, pg, cat, s, e);
    }
    forall s: nat, e: nat, s': nat, e': nat |
      RefersAt(pg, s, e) && RefersAt(pg, s', e') && Target(pg, s, e) == Target(pg, s', e')
      ensures s == s' && e == e'
    {
      ReferencedOnce(lu, pg, cat, s, e, s', e');
    }
    forall t: nat | t < |pg| && Live(pg[t]) && !LiveIndex(pg[t]) ensures Referenced(pg, t) {
      DataIsReferenced(lu, pg, cat, t);
    }
  }

  /** A volume between operations has one live index page for each span its files
      need, and no other. */
  lemma OneIndexPageEach(lu: seq<Entry>, pg: seq<Page>, cat: Catalogue, id: nat, k: nat)
    requires Holds(lu, pg, cat) && Buried(lu, pg) && Tight(cat) && id in cat
    ensures k < IxCount(|cat[id].data|) <==> exists s: nat :: s < SLOTS && LiveIndex(pg[s]) && pg[s].hdr.id == id && pg[s].hdr.span == k
    ensures forall s: nat, t: nat ::
              (s < SLOTS && t < SLOTS && LiveIndex(pg[s]) && LiveIndex(pg[t])
               && pg[s].hdr.id == pg[t].hdr.id && pg[s].hdr.span == pg[t].hdr.span) ==> s == t
  {
    forall s: nat | s < SLOTS { LivePages(lu, pg, cat, s); }
    if k < IxCount(|cat[id].data|) {
      assert FileOk(lu, pg, id, cat[id]);
      assert IndexOk(lu, pg, id, cat[id], k);
    }
  }

  // ---------------------------------------------------------------------------
  // All checks

  /** The pages of a volume between operations. */
  ghost predicate Healthy(pg: seq<Page>)
  {
    exists lu: seq<Entry>, cat: Catalogue :: Sizes(lu, pg) && Holds(lu, pg, cat) && Buried(lu, pg) && Tight(cat)
  }

  /** A volume with one file, which is empty. */
  function OneFile(): (r: (seq<Entry>, seq<Page>))
    ensures |r.0| == |r.1| == SLOTS
  {
    (seq(SLOTS, s => if s == 0 then Used(1, true) else Free),
     seq(SLOTS, s => if s == 0 then IndexPage(LiveHeader(1, true, 0), None, "", EmptyTable(0)) else Erased))
  }

  lemma OneFileIsHealthy()
    ensures Healthy(OneFile().1) && !ErasedFine(OneFile().1, Erased, SLOTS, 0)
  {
    TimesMono(1, BLOCKS, ENTRIES);
    var (lu, pg) := OneFile();
    var lu0: seq<Entry>, pg0: seq<Page> := seq(SLOTS, s => Free), seq(SLOTS, s => Erased);
    assert Holds(lu0, pg0, map[]);
    AddFile(lu0, pg0, map[], lu, pg, 1, "", 0);
    var cat := map[1 := File("", None, [0], [])];
    assert map[][1 := File("", None, [0], [])] == cat;
    assert Sizes(lu, pg) && Buried(lu, pg) && Tight(cat) && Holds(lu, pg, cat);
    assert ErasedAt(pg, 0, 0) && Before(0, 0, SLOTS, 0) && !ErasedProper(pg, Erased, 0, 0);
  }

  /** The page check leaves every healthy volume alone, and ends, exactly on the safe
      geometries, whatever lies beyond the volume. */
  lemma HarmlessIfSafe()
    ensures CheckSafe(G) <==> forall pg: seq<Page>, beyond: Page :: Healthy(pg) ==> PassesInTime(pg, beyond)
  {
    hide Healthy, ErasedFine, Scan, CheckSafe;
    if CheckSafe(G) {
      forall pg: seq<Page>, beyond: Page | Healthy(pg) ensures PassesInTime(pg, beyond) {
        HealthyIsConsistent(pg);
        SafeCheck(pg, beyond, PIXES);
      }
    } else {
      SafeIsLast();
      OneFileIsHealthy();
      var pg := OneFile().1;
      forall rounds: nat ensures Scan(pg, Erased, 0, rounds) != Passed {
        if PER_SCAN == 0 {
          NoRanges(pg, Erased, rounds);
        } else {
          UnsafeScan(pg, Erased, 0, rounds);
        }
      }
      assert !PassesInTime(pg, Erased);
    }
  }

  /** The page check ends some time, having found nothing. */
  ghost predicate PassesInTime(pg: seq<Page>, beyond: Page)
  {
    |pg| == SLOTS && exists rounds: nat :: Scan(pg, beyond, 0, rounds) == Passed
  }

  lemma HealthyIsConsistent(pg: seq<Page>)
    requires Healthy(pg)
    ensures |pg| == SLOTS && PagesConsistent(pg)
  {
    var lu: seq<Entry>, cat: Catalogue :| Sizes(lu, pg) && Holds(lu, pg, cat) && Buried(lu, pg) && Tight(cat);
    HoldsIsConsistent(lu, pg, cat);
  }

  /** The first two checks find nothing on a mounted volume. */
  lemma NothingReported(lu: seq<Entry>, pg: seq<Page>, cat: Catalogue)
    requires Holds(lu, pg, cat) && Buried(lu, pg)
    ensures forall s: nat :: s < SLOTS ==> EntryFine(lu[s], pg[s]) && !Reported(lu, pg, s)
  {
    forall s: nat | s < SLOTS ensures EntryFine(lu[s], pg[s]) && !Reported(lu, pg, s) {
      LivePages(lu, pg, cat, s);
    }
  }

  /** The three checks, one after the other, and the scan that closes them.  On a mounted
      volume the first two find nothing to mend, on a safe geometry the third does not
      either, and then the scan finds the counters there are. */
  method CheckAll(fs: Spiffs, beyond: Page, rounds: nat) returns (v: Verdict)
    requires Mounted(fs)
    modifies fs`pAllocated, fs`pDeleted, fs`freeBlocks, fs`maxEraseCount
    ensures v == Scan(fs.pg, beyond, 0, rounds)
    ensures CheckSafe(G) && rounds >= PIXES ==> v == Passed
    ensures Mounted(fs) && fs.pAllocated == old(fs.pAllocated) && fs.pDeleted == old(fs.pDeleted) && fs.freeBlocks == old(fs.freeBlocks)
  {
    hide PagesConsistent, Matches, Scan, EntryFine, Reported, Holds, FlashState, FreeSuffix, CursorOk, Tight, Count, FreeBlocks, CheckSafe;
    NothingReported(fs.lu, fs.pg, fs.cat);
    HoldsIsConsistent(fs.lu, fs.pg, fs.cat);
    if CheckSafe(G) && rounds >= PIXES {
      SafeCheck(fs.pg, beyond, rounds);
    }
    var bad := LookupCheck(fs.lu, fs.pg);
    if bad.Some? {
      return Mends;
    }
    bad := IndexCheck(fs.lu, fs.pg);
    if bad.Some? {
      return Mends;
    }
    v := PageCheck(fs.pg, beyond, rounds);
    if v.Passed? {
      fs.pAllocated, fs.pDeleted, fs.freeBlocks := Mount.Scan(fs.lu);
      fs.maxEraseCount := Mount.ScanEraseCounts(fs.eraseCount);
    }
  }
}

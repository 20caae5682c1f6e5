/** The object lookup visitor: a search through all lookup entries, block by block
    and lookup page by lookup page, from any starting point, that wraps around. */
module Visitor {
  import opened Geometry
  import opened Image

  /** The slot a search from (block, entry) looks at first; an entry past the end
      of its block stands for the start of the next block. */
  function FirstSlot(block: nat, entry: nat): nat
  {
    if entry < ENTRIES then Base(block) + entry
    else if block + 1 < BLOCKS then Base(block + 1)
    else 0
  }

  /** Steps from slot `p` to slot `s`, going round. */
  function Distance(p: nat, s: nat): int
  {
    if s >= p then s - p else s + SLOTS - p
  }

  /** `s` is the first accepted slot in cyclic order from `p`. */
  ghost predicate CyclicFirst(p: nat, s: nat, accept: nat -> bool)
  {
    && s < SLOTS && accept(s)
    && forall t: nat :: t < SLOTS && Distance(p, t) < Distance(p, s) ==> !accept(t)
  }

  lemma FirstSlotInRange(block: nat, entry: nat)
    requires block < BLOCKS
    ensures FirstSlot(block, entry) < SLOTS
  {
    TimesMono(block, BLOCKS, ENTRIES);
    if block + 1 < BLOCKS {
      TimesMono(block + 1, BLOCKS, ENTRIES);
    }
    TimesMono(0, BLOCKS, ENTRIES);
  }

  lemma EntryOfPage(page: nat)
    requires page < LOOKUP_PAGES
    ensures Times(page + 1, PER_PAGE) == Times(page, PER_PAGE) + PER_PAGE
    ensures page + 1 == LOOKUP_PAGES ==> Times(page + 1, PER_PAGE) >= ENTRIES
  {
    TimesIsProduct(LOOKUP_PAGES, PER_PAGE);
  }

  lemma FirstPage(entry: nat)
    requires entry < ENTRIES
    ensures Quot(entry, PER_PAGE) < LOOKUP_PAGES
    ensures Times(Quot(entry, PER_PAGE), PER_PAGE) <= entry < Times(Quot(entry, PER_PAGE) + 1, PER_PAGE)
  {
    QuotSplit(entry, PER_PAGE);
    TimesIsProduct(LOOKUP_PAGES, PER_PAGE);
    if Quot(entry, PER_PAGE) >= LOOKUP_PAGES {
      TimesMono(LOOKUP_PAGES, Quot(entry, PER_PAGE), PER_PAGE);
    }
  }

  /** Scans the entries of one block from `entry` on. */
  method VisitBlock(block: nat, entry: nat, accept: nat -> bool) returns (r: Option<nat>)
    requires block < BLOCKS && entry < ENTRIES
    ensures r.Some? ==> Base(block) + entry <= r.value < Base(block) + ENTRIES && accept(r.value)
    ensures forall t: nat :: Base(block) + entry <= t < (if r.Some? then r.value else Base(block) + ENTRIES) ==> !accept(t)
  {
    FirstPage(entry);
    var curEntry := entry;
    var page := Quot(curEntry, PER_PAGE);
    while page < LOOKUP_PAGES
      invariant page <= LOOKUP_PAGES
      invariant entry <= curEntry <= ENTRIES
      invariant curEntry < ENTRIES ==> page < LOOKUP_PAGES && Times(page, PER_PAGE) <= curEntry < Times(page + 1, PER_PAGE)
      invariant forall t: nat :: Base(block) + entry <= t < Base(block) + curEntry ==> !accept(t)
    {
      EntryOfPage(page);
      var entryOffset := Times(page, PER_PAGE);
      while curEntry - entryOffset < PER_PAGE && curEntry < ENTRIES
        invariant entry <= curEntry <= ENTRIES
        invariant curEntry < ENTRIES ==> entryOffset <= curEntry <= entryOffset + PER_PAGE
        invariant forall t: nat :: Base(block) + entry <= t < Base(block) + curEntry ==> !accept(t)
      {
        if accept(Base(block) + curEntry) {
          return Some(Base(block) + curEntry);
        }
        curEntry := curEntry + 1;
      }
      page := page + 1;
      if page < LOOKUP_PAGES {
        EntryOfPage(page);
      }
    }
    return None;
  }

  /** The search.  With `wrap`, the result is the cyclically first accepted slot
      from the start, and there is none only if no slot is accepted; without, the
      same for the slots from the start to the end. */
  method Visit(startBlock: nat, startEntry: nat, wrap: bool, accept: nat -> bool) returns (r: Option<nat>)
    requires startBlock < BLOCKS
    ensures r.Some? ==> CyclicFirst(FirstSlot(startBlock, startEntry), r.value, accept)
    ensures r.None? && wrap ==> forall t: nat :: t < SLOTS ==> !accept(t)
    ensures r.None? && !wrap && (startEntry < ENTRIES || startBlock + 1 < BLOCKS) ==>
              forall t: nat :: FirstSlot(startBlock, startEntry) <= t < SLOTS ==> !accept(t)
    ensures !wrap && r.Some? ==> r.value >= FirstSlot(startBlock, startEntry)
  {
    var entryCount: int := SLOTS;
    var curBlock: nat, curEntry: nat := startBlock, startEntry;
    FirstSlotInRange(startBlock, startEntry);
    ghost var p := FirstSlot(startBlock, startEntry);
    if curEntry > ENTRIES - 1 {
      curEntry := 0;
      curBlock := curBlock + 1;
      if curBlock >= BLOCKS {
        if !wrap {
          return None;
        }
        curBlock := 0;
      }
    }
    ghost var wrapped := false;
    while entryCount > 0
      invariant curBlock < BLOCKS && curEntry < ENTRIES
      invariant wrapped ==> wrap
      invariant entryCount > 0 ==> Base(curBlock) + curEntry + (if wrapped then SLOTS else 0) == p + SLOTS - entryCount
      invariant forall t: nat ::
        t < SLOTS && (entryCount <= 0 || (if wrapped then t >= p || t < Base(curBlock) + curEntry else p <= t < Base(curBlock) + curEntry))
        ==> !accept(t)
      decreases entryCount
    {
      TimesMono(curBlock, BLOCKS, ENTRIES);
      r := VisitBlock(curBlock, curEntry, accept);
      if r.Some? {
        return;
      }
      entryCount := entryCount - (ENTRIES - curEntry);
      assert entryCount <= 0 ==> forall t: nat :: t < SLOTS ==> !accept(t);
      curEntry := 0;
      curBlock := curBlock + 1;
      if curBlock >= BLOCKS {
        if !wrap {
          return None;
        }
        curBlock := 0;
        wrapped := true;
      }
    }
    return None;
  }
}

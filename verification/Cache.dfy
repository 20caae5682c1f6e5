/** The page cache: copies of flash pages, evicted least recently used first, and
    pages that hold data written to files and not yet in flash. */
module Cache {
  import opened Geometry
  import opened Image
  import opened Nor

  /** What a cache page is used for.  A write page holds `size` bytes that belong at
      `offset` of object `id`. */
  datatype CachePage =
    | Unused
    | ReadPage(pix: nat, lastAccess: nat)
    | WritePage(id: nat, offset: nat, size: nat)

  // ---------------------------------------------------------------------------
  // Coherence

  /** A read page is the flash page it names. */
  ghost predicate MirrorsAt(page: CachePage, mem: seq<byte>, flash: seq<byte>)
  {
    page.ReadPage? ==> PageStart(page.pix) + PAGE_SIZE <= |flash| && mem == PageBytes(flash, page.pix)
  }

  ghost predicate Mirrors(pages: seq<CachePage>, mem: seq<seq<byte>>, flash: seq<byte>)
  {
    |pages| == |mem| && forall i :: 0 <= i < |pages| ==> MirrorsAt(pages[i], mem[i], flash)
  }

  /** A flash page has at most one copy, an object at most one write page. */
  predicate Distinct(pages: seq<CachePage>)
  {
    && (forall i, j :: 0 <= i < j < |pages| && pages[i].ReadPage? && pages[j].ReadPage? ==> pages[i].pix != pages[j].pix)
    && (forall i, j :: 0 <= i < j < |pages| && pages[i].WritePage? && pages[j].WritePage? ==> pages[i].id != pages[j].id)
  }

  predicate CacheState(pages: seq<CachePage>, mem: seq<seq<byte>>, now: nat)
  {
    && |pages| == |mem| && Distinct(pages)
    && (forall i :: 0 <= i < |mem| ==> |mem[i]| == PAGE_SIZE)
    && (forall i :: 0 <= i < |pages| && pages[i].ReadPage? ==> pages[i].lastAccess <= now)
    && (forall i :: 0 <= i < |pages| && pages[i].WritePage? ==> pages[i].size <= PAGE_SIZE)
  }

  /** The write pages are the same, and so are their bytes. */
  predicate WritesKept(pages: seq<CachePage>, mem: seq<seq<byte>>, pages': seq<CachePage>, mem': seq<seq<byte>>)
  {
    && |pages| == |mem| == |pages'| == |mem'|
    && forall i :: 0 <= i < |pages| && (pages[i].WritePage? || pages'[i].WritePage?) ==>
                     pages'[i] == pages[i] && mem'[i] == mem[i]
  }

  lemma KeptChain(pages: seq<CachePage>, mem: seq<seq<byte>>, pages1: seq<CachePage>, mem1: seq<seq<byte>>,
                  pages2: seq<CachePage>, mem2: seq<seq<byte>>)
    requires WritesKept(pages, mem, pages1, mem1) && WritesKept(pages1, mem1, pages2, mem2)
    ensures WritesKept(pages, mem, pages2, mem2)
  {
  }

  predicate Copies(p: CachePage, pix: nat)
  {
    p.ReadPage? && p.pix == pix
  }

  predicate HasCopy(pages: seq<CachePage>, pix: nat)
  {
    exists i :: 0 <= i < |pages| && Copies(pages[i], pix)
  }

  /** `i` is the page the eviction chooses when none is unused: the first of the
      read pages that were used longest ago, if that is not just now. */
  ghost predicate Oldest(pages: seq<CachePage>, now: nat, i: nat)
  {
    && i < |pages| && pages[i].ReadPage? && pages[i].lastAccess < now
    && forall j :: 0 <= j < |pages| && pages[j].ReadPage? ==>
         pages[i].lastAccess <= pages[j].lastAccess && (j < i ==> pages[i].lastAccess < pages[j].lastAccess)
  }

  /** Copies that are left as they are still equal flash. */
  lemma FewerCopies(pages: seq<CachePage>, mem: seq<seq<byte>>, pages': seq<CachePage>, mem': seq<seq<byte>>, flash: seq<byte>)
    requires Mirrors(pages, mem, flash) && |pages'| == |mem'| == |pages|
    requires forall i :: 0 <= i < |pages'| && pages'[i].ReadPage? ==> pages[i] == pages'[i] && mem[i] == mem'[i]
    ensures Mirrors(pages', mem', flash)
  {
    forall i | 0 <= i < |pages'| ensures MirrorsAt(pages'[i], mem'[i], flash) {
      assert MirrorsAt(pages[i], mem[i], flash);
    }
  }

  class Cache {
    var pages: seq<CachePage>
    var mem: seq<seq<byte>>
    var now: nat              // access counter

    /** A cache of `n` unused pages. */
    constructor (n: nat)
      ensures Ok() && |pages| == n && forall i :: 0 <= i < n ==> pages[i].Unused?
    {
      pages := seq(n, i => Unused);
      mem := seq(n, i => seq(PAGE_SIZE, j => 0));
      now := 0;
    }

    ghost predicate Ok()
      reads this
    {
      CacheState(pages, mem, now)
    }

    /** Finds the copy of a flash page and marks it used. */
    method PageGet(pix: nat) returns (r: Option<nat>)
      requires Ok()
      modifies this`pages
      ensures Ok()
      ensures r.None? ==> pages == old(pages) && !HasCopy(pages, pix)
      ensures r.Some? ==>
                && r.value < |pages| && Copies(old(pages)[r.value], pix)
                && pages == old(pages)[r.value := ReadPage(pix, now)]
    {
      var i := 0;
      while i < |pages|
        invariant i <= |pages| && pages == old(pages) && Ok()
        invariant forall j :: 0 <= j < i ==> !Copies(pages[j], pix)
      {
        if Copies(pages[i], pix) {
          pages := pages[i := ReadPage(pix, now)];
          return Some(i);
        }
        i := i + 1;
      }
      return None;
    }

    /** Counts an access, to read page `i` if one is given. */
    method Tick(i: Option<nat>)
      requires Ok() && (i.Some? ==> i.value < |pages| && pages[i.value].ReadPage?)
      modifies this`pages, this`now
      ensures Ok() && now == old(now) + 1
      ensures pages == if i.Some? then old(pages)[i.value := ReadPage(old(pages)[i.value].pix, now)] else old(pages)
    {
      now := now + 1;
      if i.Some? {
        pages := pages[i.value := ReadPage(pages[i.value].pix, now)];
      }
    }

    /** Fills a page. */
    method Load(i: nat, bytes: seq<byte>)
      requires Ok() && i < |mem| && |bytes| == PAGE_SIZE
      modifies this`mem
      ensures Ok() && mem == old(mem)[i := bytes]
    {
      mem := mem[i := bytes];
    }

    /** Frees a page. */
    method PageFree(i: nat)
      requires Ok() && i < |pages|
      modifies this`pages
      ensures Ok() && pages == old(pages)[i := Unused]
    {
      pages := pages[i := Unused];
    }

    /** Frees the read page used longest ago, if every page is used.  Write pages are
        never chosen. */
    method RemoveOldest()
      requires Ok()
      modifies this`pages
      ensures Ok() && |pages| == |old(pages)|
      ensures Unused in old(pages) ==> pages == old(pages)
      ensures Unused !in old(pages) ==>
                || (pages == old(pages) && forall i: nat :: !Oldest(pages, now, i))
                || (exists i: nat :: Oldest(old(pages), now, i) && pages == old(pages)[i := Unused])
    {
      if Unused in pages {
        return;
      }
      var i, age := 0, 0;
      var candidate: Option<nat> := None;
      while i < |pages|
        invariant i <= |pages| && pages == old(pages)
        invariant candidate.None? ==> age == 0
        invariant candidate.Some? ==>
                    && candidate.value < i && pages[candidate.value].ReadPage?
                    && age == now - pages[candidate.value].lastAccess > 0
                    && forall j :: 0 <= j < candidate.value && pages[j].ReadPage? ==> now - pages[j].lastAccess < age
        invariant forall j :: 0 <= j < i && pages[j].ReadPage? ==> now - pages[j].lastAccess <= age
      {
        if pages[i].ReadPage? && now - pages[i].lastAccess > age {
          age := now - pages[i].lastAccess;
          candidate := Some(i);
        }
        i := i + 1;
      }
      if candidate.Some? {
        assert Oldest(pages, now, candidate.value);
        PageFree(candidate.value);
      }
    }

    /** Takes the first unused page. */
    method Allocate(page: CachePage) returns (r: Option<nat>)
      requires Ok() && !page.Unused?
      requires page.ReadPage? ==> !HasCopy(pages, page.pix) && page.lastAccess <= now
      requires page.WritePage? ==> page.size <= PAGE_SIZE && forall i :: 0 <= i < |pages| && pages[i].WritePage? ==> pages[i].id != page.id
      modifies this`pages
      ensures Ok()
      ensures r.None? ==> pages == old(pages) && Unused !in pages
      ensures r.Some? ==>
                && r.value < |pages| && old(pages)[r.value] == Unused && Unused !in old(pages)[..r.value]
                && pages == old(pages)[r.value := page]
    {
      var i := 0;
      while i < |pages|
        invariant i <= |pages| && pages == old(pages) && Unused !in pages[..i]
      {
        if pages[i].Unused? {
          pages := pages[i := page];
          forall j | 0 <= j < |pages| && j != i && page.ReadPage? && pages[j].ReadPage? ensures pages[j].pix != page.pix {
            assert !Copies(old(pages)[j], page.pix);
          }
          return Some(i);
        }
        i := i + 1;
      }
      return None;
    }

    /** Drops the copy of a flash page. */
    method DropPage(pix: nat)
      requires Ok()
      modifies this`pages
      ensures Ok() && WritesKept(old(pages), mem, pages, mem) && !HasCopy(pages, pix)
      ensures forall i :: 0 <= i < |pages| && pages[i].ReadPage? ==> old(pages)[i].ReadPage? && old(pages)[i].pix == pages[i].pix
    {
      ghost var before := pages;
      var i := PageGet(pix);
      if i.Some? {
        PageFree(i.value);
        forall j | 0 <= j < |pages| ensures !Copies(pages[j], pix) {
          if j < i.value {
            assert before[j].ReadPage? ==> before[j].pix != before[i.value].pix;
          }
        }
      }
    }

    /** The write page of an object. */
    method GetByObject(id: nat) returns (r: Option<nat>)
      requires Ok()
      ensures r.None? ==> forall i :: 0 <= i < |pages| && pages[i].WritePage? ==> pages[i].id != id
      ensures r.Some? ==> r.value < |pages| && pages[r.value].WritePage? && pages[r.value].id == id
    {
      var i := 0;
      while i < |pages|
        invariant i <= |pages|
        invariant forall j :: 0 <= j < i && pages[j].WritePage? ==> pages[j].id != id
      {
        if pages[i].WritePage? && pages[i].id == id {
          return Some(i);
        }
        i := i + 1;
      }
      return None;
    }

    /** Allocates the write page of an object, empty and at `offset`.  A read page may
        have to go for it; no write page does. */
    method AllocateFor(id: nat, offset: nat) returns (r: Option<nat>)
      requires Ok() && forall i :: 0 <= i < |pages| && pages[i].WritePage? ==> pages[i].id != id
      modifies this`pages
      ensures Ok() && |pages| == |old(pages)|
      ensures forall i :: 0 <= i < |pages| && pages[i].ReadPage? ==> pages[i] == old(pages)[i]
      ensures r.None? ==> Unused !in old(pages) && WritesKept(old(pages), mem, pages, mem)
      ensures r.Some? ==>
                && r.value < |pages| && !old(pages)[r.value].WritePage?
                && pages[r.value] == WritePage(id, offset, 0)
                && WritesKept(old(pages), mem, pages[r.value := Unused], mem)
    {
      RemoveOldest();
      r := Allocate(WritePage(id, offset, 0));
    }
  }
}

/** Flash behind the page cache, at byte level: every read is served from a copy that
    equals flash, and a write leaves the copies equal to flash exactly when it asks
    for what flash can do. */
module Flash {
  import Bytes
  import opened Geometry
  import opened Image
  import opened Nor
  import opened Trace
  import opened Cache

  /** The writes after which a copy of the page written to, if there is one, still
      equals flash. */
  ghost predicate CoherentWrite(kind: OpType, command: OpCommand, copied: bool, flash: seq<byte>, addr: nat, src: seq<byte>)
    requires addr + |src| <= |flash|
  {
    if !copied then true
    else if command == WriteThrough then Program(flash, addr, src) == flash
    else if command == Delete && kind != OnLookup then true
    else OnlyClears(flash, addr, src)
  }

  /** The copy written over equals the programmed page exactly when only bits are cleared. */
  lemma WrittenCopy(flash: seq<byte>, addr: nat, src: seq<byte>)
    requires InOnePage(flash, addr, |src|)
    ensures addr + |src| <= |flash|
    ensures var copy := PageBytes(flash, PixOf(addr));
            Overwrite(copy, OffsetInPage(addr), src) == PageBytes(Program(flash, addr, src), PixOf(addr))
            <==> OnlyClears(flash, addr, src)
  {
    hide Overwrite, Program, OnlyClears;
    InPageInFlash(flash, addr, |src|);
    var p, o := PageStart(PixOf(addr)), OffsetInPage(addr);
    ProgramSlice(flash, p, PAGE_SIZE, o, src);
    OverwriteIsProgram(flash[p..p + PAGE_SIZE], o, src);
    ClearsSlice(flash, p, PAGE_SIZE, o, src);
  }

  lemma UntouchedCopy(flash: seq<byte>, addr: nat, src: seq<byte>)
    requires InOnePage(flash, addr, |src|)
    ensures addr + |src| <= |flash|
    ensures PageBytes(flash, PixOf(addr)) == PageBytes(Program(flash, addr, src), PixOf(addr))
            <==> Program(flash, addr, src) == flash
  {
    InPageInFlash(flash, addr, |src|);
    var p := PageStart(PixOf(addr));
    var after := Program(flash, addr, src);
    if PageBytes(flash, PixOf(addr)) == PageBytes(after, PixOf(addr)) {
      forall i | 0 <= i < |flash| ensures after[i] == flash[i] {
        if p <= i < p + PAGE_SIZE {
          assert PageBytes(flash, PixOf(addr))[i - p] == PageBytes(after, PixOf(addr))[i - p];
        }
      }
    }
  }

  /** All copies equal flash after a write if the one of the page written to does. */
  lemma MirrorsAfterWrite(pages: seq<CachePage>, mem: seq<seq<byte>>, pages': seq<CachePage>, mem': seq<seq<byte>>,
                          flash: seq<byte>, addr: nat, src: seq<byte>, hit: Option<nat>)
    requires Mirrors(pages, mem, flash) && InOnePage(flash, addr, |src|) && Distinct(pages)
    requires |pages'| == |mem'| == |pages|
    requires hit.None? ==> !HasCopy(pages, PixOf(addr)) && pages' == pages && mem' == mem
    requires hit.Some? ==>
               && hit.value < |pages| && Copies(pages[hit.value], PixOf(addr))
               && forall i :: 0 <= i < |pages| && i != hit.value ==> pages'[i] == pages[i] && mem'[i] == mem[i]
    ensures addr + |src| <= |flash|
    ensures Mirrors(pages', mem', Program(flash, addr, src)) <==>
            (hit.Some? ==> MirrorsAt(pages'[hit.value], mem'[hit.value], Program(flash, addr, src)))
  {
    InPageInFlash(flash, addr, |src|);
    forall i | 0 <= i < |pages| && hit != Some(i) ensures MirrorsAt(pages'[i], mem'[i], Program(flash, addr, src)) {
      assert MirrorsAt(pages[i], mem[i], flash);
      assert hit.None? ==> !Copies(pages[i], PixOf(addr));
      assert hit.Some? && pages[i].ReadPage? ==> pages[i].pix != PixOf(addr) by {
        if hit.Some? && i < hit.value {
          assert pages[i].ReadPage? ==> pages[i].pix != pages[hit.value].pix;
        }
      }
      if pages[i].ReadPage? {
        OtherPages(flash, addr, src, pages[i].pix);
      }
    }
  }

  class Flash {
    const cache: Cache
    var bytes: seq<byte>

    constructor (cache: Cache, bytes: seq<byte>)
      requires cache.Ok() && forall i :: 0 <= i < |cache.pages| ==> !cache.pages[i].ReadPage?
      ensures this.cache == cache && this.bytes == bytes && Coherent()
    {
      this.cache, this.bytes := cache, bytes;
    }

    ghost predicate Coherent()
      reads this, cache
    {
      cache.Ok() && Mirrors(cache.pages, cache.mem, bytes)
    }

    /** Reads a page that has no copy, through a new one if a page can be had for it. */
    method ReadMiss(addr: nat, len: nat) returns (dst: seq<byte>)
      requires Coherent() && InOnePage(bytes, addr, len) && !HasCopy(cache.pages, PixOf(addr))
      modifies cache
      ensures Coherent() && addr + len <= |bytes|
      ensures WritesKept(old(cache.pages), old(cache.mem), cache.pages, cache.mem)
      ensures dst == bytes[addr..addr + len]
    {
      hide Distinct;
      InPageInFlash(bytes, addr, len);
      CopySlice(bytes, addr, len);
      cache.RemoveOldest();
      ghost var pages1 := cache.pages;
      var i := cache.Allocate(ReadPage(PixOf(addr), cache.now));
      if i.Some? {
        cache.Load(i.value, PageBytes(bytes, PixOf(addr)));
        dst := cache.mem[i.value][OffsetInPage(addr)..OffsetInPage(addr) + len];
      } else {
        dst := bytes[addr..addr + len];
      }
    }

    /** Reads from a copy of the page, which is made if there is room for one; reads
        of the second lookup level make no copy. */
    method PhysRd(kind: OpType, addr: nat, len: nat) returns (dst: seq<byte>)
      requires Coherent() && InOnePage(bytes, addr, len)
      modifies cache
      ensures Coherent() && addr + len <= |bytes|
      ensures WritesKept(old(cache.pages), old(cache.mem), cache.pages, cache.mem)
      ensures dst == bytes[addr..addr + len]
    {
      hide Distinct, PageBytes;
      InPageInFlash(bytes, addr, len);
      CopySlice(bytes, addr, len);
      var i := cache.PageGet(PixOf(addr));
      assert i.Some? ==> MirrorsAt(old(cache.pages)[i.value], cache.mem[i.value], bytes);
      cache.Tick(i);
      if i.Some? {
        dst := cache.mem[i.value][OffsetInPage(addr)..OffsetInPage(addr) + len];
      } else if kind == OnLookup2 {
        dst := bytes[addr..addr + len];
      } else {
        dst := ReadMiss(addr, len);
      }
    }

    /** Brings the copy of a page, if there is one, in line with a write to it. */
    method WriteCopy(kind: OpType, command: OpCommand, addr: nat, src: seq<byte>) returns (hit: Option<nat>)
      requires cache.Ok() && OffsetInPage(addr) + |src| <= PAGE_SIZE
      modifies cache
      ensures cache.Ok() && |cache.pages| == |cache.mem| == |old(cache.pages)| == |old(cache.mem)|
      ensures hit.None? ==> !HasCopy(old(cache.pages), PixOf(addr)) && cache.pages == old(cache.pages) && cache.mem == old(cache.mem)
      ensures hit.Some? ==>
                && hit.value < |cache.pages| && Copies(old(cache.pages)[hit.value], PixOf(addr))
                && |old(cache.mem)[hit.value]| == PAGE_SIZE
                && (forall i :: 0 <= i < |cache.pages| && i != hit.value ==>
                      cache.pages[i] == old(cache.pages)[i] && cache.mem[i] == old(cache.mem)[i])
                && (if command == Delete && kind != OnLookup then cache.pages[hit.value].Unused?
                    else
                      && Copies(cache.pages[hit.value], PixOf(addr))
                      && cache.mem[hit.value] ==
                         (if command == WriteThrough then old(cache.mem)[hit.value]
                          else Overwrite(old(cache.mem)[hit.value], OffsetInPage(addr), src)))
    {
      hide Overwrite, Distinct;
      hit := cache.PageGet(PixOf(addr));
      if hit.Some? && command != WriteThrough {
        if command == Delete && kind != OnLookup {
          cache.PageFree(hit.value);
        } else {
          cache.Load(hit.value, Overwrite(cache.mem[hit.value], OffsetInPage(addr), src));
          cache.Tick(hit);
        }
      }
    }

    /** Writes to flash and to the copy of the page; a page that is being deleted
        loses its copy instead. */
    method PhysWr(kind: OpType, command: OpCommand, addr: nat, src: seq<byte>)
      requires Coherent() && InOnePage(bytes, addr, |src|)
      modifies cache, this`bytes
      ensures addr + |src| <= |old(bytes)| && bytes == Program(old(bytes), addr, src)
      ensures cache.Ok() && WritesKept(old(cache.pages), old(cache.mem), cache.pages, cache.mem)
      ensures Coherent() <==>
              CoherentWrite(kind, command, HasCopy(old(cache.pages), PixOf(addr)), old(bytes), addr, src)
    {
      hide Program, Overwrite, PageBytes, OnlyClears, Distinct, CacheState;
      InPageInFlash(bytes, addr, |src|);
      WrittenCopy(bytes, addr, src);
      UntouchedCopy(bytes, addr, src);
      CacheIsDistinct();
      ghost var pages0, mem0 := cache.pages, cache.mem;
      var hit := WriteCopy(kind, command, addr, src);
      assert hit.Some? ==> MirrorsAt(pages0[hit.value], mem0[hit.value], bytes);
      MirrorsAfterWrite(pages0, mem0, cache.pages, cache.mem, bytes, addr, src, hit);
      bytes := Program(bytes, addr, src);
    }

    lemma CacheIsDistinct()
      requires cache.Ok()
      ensures Distinct(cache.pages)
    {
    }

    /** Drops every copy of a page of a block. */
    method DropBlock(first: nat)
      requires cache.Ok()
      modifies cache
      ensures cache.Ok() && cache.mem == old(cache.mem) && WritesKept(old(cache.pages), cache.mem, cache.pages, cache.mem)
      ensures forall k :: 0 <= k < |cache.pages| && cache.pages[k].ReadPage? ==>
                && old(cache.pages)[k].ReadPage? && old(cache.pages)[k].pix == cache.pages[k].pix
                && !(first <= cache.pages[k].pix < first + BLOCK_PAGES)
    {
      hide Distinct;
      var i := 0;
      while i < BLOCK_PAGES
        invariant i <= BLOCK_PAGES && cache.Ok() && cache.mem == old(cache.mem)
        invariant WritesKept(old(cache.pages), cache.mem, cache.pages, cache.mem)
        invariant forall k :: 0 <= k < |cache.pages| && cache.pages[k].ReadPage? ==>
                    && old(cache.pages)[k].ReadPage? && old(cache.pages)[k].pix == cache.pages[k].pix
                    && !(first <= cache.pages[k].pix < first + i)
      {
        cache.DropPage(first + i);
        forall k | 0 <= k < |cache.pages| && cache.pages[k].ReadPage? ensures cache.pages[k].pix != first + i {
          assert !Copies(cache.pages[k], first + i);
        }
        i := i + 1;
      }
    }

    /** Erases a block, notes its erase count behind the cache's back, and drops every
        copy of a page of the block: the copies that are left equal flash. */
    method EraseBlock(b: nat, count: seq<byte>, countOffset: nat)
      requires Coherent() && PageStart(BlockStart(b) + BLOCK_PAGES) <= |bytes|
      requires countOffset + |count| <= PAGE_SIZE
      modifies cache, this`bytes
      ensures Coherent() && WritesKept(old(cache.pages), old(cache.mem), cache.pages, cache.mem)
      ensures var at := PageStart(BlockStart(b) + LOOKUP_PAGES - 1) + countOffset;
              && |bytes| == |old(bytes)| && at + |count| <= |old(bytes)|
              && bytes == Program(EraseRange(old(bytes), PageStart(BlockStart(b)), PageStart(BlockStart(b) + BLOCK_PAGES)), at, count)
    {
      hide Distinct, PageBytes, Program, EraseRange, CacheState;
      var first := BlockStart(b);
      TimesMono(first + LOOKUP_PAGES - 1, first + BLOCK_PAGES, PAGE_SIZE);
      TimesMono(first, first + LOOKUP_PAGES - 1, PAGE_SIZE);
      var at := PageStart(first + LOOKUP_PAGES - 1) + countOffset;
      ghost var bytes0 := bytes;
      bytes := EraseRange(bytes, PageStart(first), PageStart(first + BLOCK_PAGES));
      bytes := Program(bytes, at, count);
      OutsideKept(bytes0, PageStart(first), PageStart(first + BLOCK_PAGES), at, count);
      DropBlock(first);
      forall k | 0 <= k < |cache.pages| ensures MirrorsAt(cache.pages[k], cache.mem[k], bytes) {
        assert MirrorsAt(old(cache.pages)[k], old(cache.mem)[k], bytes0);
        if cache.pages[k].ReadPage? {
          PageOutside(bytes0, bytes, first, cache.pages[k].pix);
        }
      }
    }

    /** Does what is asked of flash, through the cache. */
    method Do(op: FlashOp)
      requires Coherent() && Sound(bytes, op)
      modifies cache, this`bytes
      ensures Coherent() && bytes == Apply(old(bytes), op)
      ensures WritesKept(old(cache.pages), old(cache.mem), cache.pages, cache.mem)
    {
      hide Program, OnlyClears, Distinct, PageBytes;
      match op {
        case Wr(kind, command, pix, offset, src) =>
          if src == [] {
            ProgramNone(bytes, PageStart(pix) + offset);
          } else {
            AddressOf(pix, offset);
            PhysWr(kind, command, PageStart(pix) + offset, src);
          }
        case Rd(kind, pix, offset, len) =>
          if len > 0 {
            AddressOf(pix, offset);
            var data := PhysRd(kind, PageStart(pix) + offset, len);
          }
        case Er(b, count) =>
          EraseBlock(b, count, PAGE_SIZE - |count|);
      }
    }

    /** Does a whole record.  If every operation in it is sound when its turn comes, the
        copies equal flash afterwards, and flash holds what the record says. */
    method Play(ops: seq<FlashOp>)
      requires Coherent() && AllSound(bytes, ops)
      modifies cache, this`bytes
      ensures Coherent() && bytes == After(old(bytes), ops)
      ensures WritesKept(old(cache.pages), old(cache.mem), cache.pages, cache.mem)
    {
      hide Sound, Apply, Distinct, Mirrors;
      var i := 0;
      while i < |ops|
        invariant i <= |ops| && Coherent() && bytes == After(old(bytes), ops[..i])
        invariant WritesKept(old(cache.pages), old(cache.mem), cache.pages, cache.mem)
      {
        assert ops[..i] + [ops[i]] == ops[..i + 1];
        SoundPrefix(old(bytes), ops, i + 1);
        OneMore(old(bytes), ops[..i], ops[i]);
        Do(ops[i]);
        i := i + 1;
      }
      assert ops[..i] == ops;
    }
  }

  lemma AddressOf(pix: nat, offset: nat)
    requires offset < PAGE_SIZE
    ensures PixOf(PageStart(pix) + offset) == pix && OffsetInPage(PageStart(pix) + offset) == offset
  {
    QuotUnique(PageStart(pix) + offset, PAGE_SIZE, pix);
  }

  lemma ProgramNone(bytes: seq<byte>, offset: nat)
    requires offset <= |bytes|
    ensures Program(bytes, offset, []) == bytes
  {
  }

  /** Erasing a range and programming bytes in it changes nothing outside. */
  lemma OutsideKept(flash: seq<byte>, from: nat, to: nat, at: nat, count: seq<byte>)
    requires from <= at && at + |count| <= to <= |flash|
    ensures var flash' := Program(EraseRange(flash, from, to), at, count);
            forall i :: 0 <= i < |flash| && !(from <= i < to) ==> flash'[i] == flash[i]
  {
  }

  /** A page outside a range of pages has the bytes it had. */
  lemma PageOutside(flash: seq<byte>, flash': seq<byte>, first: nat, pix: nat)
    requires |flash'| == |flash| && PageStart(pix) + PAGE_SIZE <= |flash|
    requires !(first <= pix < first + BLOCK_PAGES)
    requires forall i :: 0 <= i < |flash| && !(PageStart(first) <= i < PageStart(first + BLOCK_PAGES)) ==> flash'[i] == flash[i]
    ensures PageBytes(flash', pix) == PageBytes(flash, pix)
  {
    if pix < first {
      TimesMono(pix, first, PAGE_SIZE);
    } else {
      TimesMono(first + BLOCK_PAGES, pix, PAGE_SIZE);
    }
  }

  /** The addresses are divided by the page size as the source divides them. */
  lemma PageMacros(addr: nat, pix: nat)
    ensures PixOf(addr) == addr / PAGE_SIZE && OffsetInPage(addr) == addr % PAGE_SIZE
    ensures PageStart(pix) == pix * PAGE_SIZE
  {
    QuotIsQuotient(addr, PAGE_SIZE);
    TimesIsProduct(pix, PAGE_SIZE);
  }
}

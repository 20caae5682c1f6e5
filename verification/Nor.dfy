/** Flash bytes: addresses of pages, and programming, which only clears bits. */
module Nor {
  import Bytes
  import opened Geometry
  import opened Image

  // ---------------------------------------------------------------------------
  // Flash addresses

  function PixOf(addr: nat): nat { Quot(addr, PAGE_SIZE) }

  function PageStart(pix: nat): nat { Times(pix, PAGE_SIZE) }

  function OffsetInPage(addr: nat): (o: nat)
    ensures o < PAGE_SIZE && PageStart(PixOf(addr)) + o == addr
  {
    QuotSplit(addr, PAGE_SIZE);
    addr - PageStart(PixOf(addr))
  }

  /** A stretch of flash that lies in one page. */
  predicate InOnePage(flash: seq<byte>, addr: nat, len: nat)
  {
    PageStart(PixOf(addr)) + PAGE_SIZE <= |flash| && OffsetInPage(addr) + len <= PAGE_SIZE
  }

  /** The bytes of a flash page. */
  function PageBytes(flash: seq<byte>, pix: nat): seq<byte>
    requires PageStart(pix) + PAGE_SIZE <= |flash|
  {
    flash[PageStart(pix)..PageStart(pix) + PAGE_SIZE]
  }

  /** Pages are apart. */
  lemma PagesApart(p: nat, q: nat)
    requires p != q
    ensures PageStart(p) + PAGE_SIZE <= PageStart(q) || PageStart(q) + PAGE_SIZE <= PageStart(p)
  {
    if p < q {
      TimesMono(p, q, PAGE_SIZE);
    } else {
      TimesMono(q, p, PAGE_SIZE);
    }
  }

  function BlockStart(b: nat): nat { Times(b, BLOCK_PAGES) }

  function EraseRange(flash: seq<byte>, from: nat, to: nat): (r: seq<byte>)
    ensures |r| == |flash|
  {
    seq(|flash|, i requires 0 <= i < |flash| => if from <= i < to then ERASED_BYTE else flash[i])
  }

  // ---------------------------------------------------------------------------
  // Programming

  function ErasedBytes(): seq<byte>
  {
    seq(DATA_SIZE, i => ERASED_BYTE)
  }

  /** Programming flash only clears bits. */
  function Program(bytes: seq<byte>, offset: nat, data: seq<byte>): (r: seq<byte>)
    requires offset + |data| <= |bytes|
    ensures |r| == |bytes|
  {
    seq(|bytes|, i requires 0 <= i < |bytes| =>
      if offset <= i < offset + |data| then bytes[i] & data[i - offset] else bytes[i])
  }

  /** A write that asks no bit to go from 0 to 1. */
  ghost predicate OnlyClears(bytes: seq<byte>, offset: nat, data: seq<byte>)
    requires offset + |data| <= |bytes|
  {
    forall i :: 0 <= i < |data| ==> bytes[offset + i] & data[i] == data[i]
  }

  /** Over erased bytes anything can be written. */
  lemma ErasedTakesAll(bytes: seq<byte>, offset: nat, data: seq<byte>)
    requires offset + |data| <= |bytes|
    requires forall i :: offset <= i < offset + |data| ==> bytes[i] == ERASED_BYTE
    ensures OnlyClears(bytes, offset, data)
  {
    forall i | 0 <= i < |data| ensures bytes[offset + i] & data[i] == data[i] {
      ClearErased(data[i]);
    }
  }

  lemma ClearErased(b: byte)
    ensures ERASED_BYTE & b == b
  {
  }

  /** Bytes programmed over erased ones are the bytes given. */
  lemma ProgramErased(bytes: seq<byte>, offset: nat, data: seq<byte>)
    requires offset + |data| <= |bytes|
    requires forall i :: offset <= i < offset + |data| ==> bytes[i] == ERASED_BYTE
    ensures Program(bytes, offset, data) == bytes[..offset] + data + bytes[offset + |data|..]
  {
    forall i | 0 <= i < |data| ensures Program(bytes, offset, data)[offset + i] == data[i] {
      ClearErased(data[i]);
    }
  }

  /** Bytes with a range replaced. */
  function Overwrite(bytes: seq<byte>, offset: nat, data: seq<byte>): (r: seq<byte>)
    requires offset + |data| <= |bytes|
    ensures |r| == |bytes|
  {
    bytes[..offset] + data + bytes[offset + |data|..]
  }

  /** A fresh page filled from an old one except for a range, which gets new bytes,
      is the old page with the range overwritten. */
  lemma RewrittenPage(orig: seq<byte>, offset: nat, data: seq<byte>)
    requires |orig| == DATA_SIZE && offset + |data| <= DATA_SIZE
    ensures var b := offset + |data|;
            var p1 := Program(ErasedBytes(), 0, orig[..offset]);
            var p2 := Program(p1, b, orig[b..]);
            Program(p2, offset, data) == Overwrite(orig, offset, data)
  {
    var b := offset + |data|;
    var p1 := Program(ErasedBytes(), 0, orig[..offset]);
    ProgramErased(ErasedBytes(), 0, orig[..offset]);
    var p2 := Program(p1, b, orig[b..]);
    ProgramErased(p1, b, orig[b..]);
    ProgramErased(p2, offset, data);
  }

  lemma ProgramTwice(bytes: seq<byte>, offset: nat, a: seq<byte>, b: seq<byte>)
    requires offset + |a| + |b| <= |bytes|
    ensures Program(Program(bytes, offset, a), offset + |a|, b) == Program(bytes, offset, a + b)
  {
  }

  lemma InPageInFlash(flash: seq<byte>, addr: nat, len: nat)
    requires InOnePage(flash, addr, len)
    ensures addr + len <= |flash| && PageStart(PixOf(addr)) <= addr
  {
    assert PageStart(PixOf(addr)) + OffsetInPage(addr) == addr;
  }

  lemma CopySlice(flash: seq<byte>, addr: nat, len: nat)
    requires InOnePage(flash, addr, len)
    ensures addr + len <= |flash|
    ensures PageBytes(flash, PixOf(addr))[OffsetInPage(addr)..OffsetInPage(addr) + len] == flash[addr..addr + len]
  {
    InPageInFlash(flash, addr, len);
    Bytes.SliceSlice(flash, PageStart(PixOf(addr)), PAGE_SIZE, OffsetInPage(addr), len);
  }

  /** Programming one page leaves the others as they are. */
  lemma OtherPages(flash: seq<byte>, addr: nat, src: seq<byte>, pix: nat)
    requires InOnePage(flash, addr, |src|) && pix != PixOf(addr) && PageStart(pix) + PAGE_SIZE <= |flash|
    ensures addr + |src| <= |flash| && PageBytes(Program(flash, addr, src), pix) == PageBytes(flash, pix)
  {
    InPageInFlash(flash, addr, |src|);
    PagesApart(pix, PixOf(addr));
    var after := Program(flash, addr, src);
    forall i | PageStart(pix) <= i < PageStart(pix) + PAGE_SIZE ensures after[i] == flash[i] {
    }
  }

  /** Programming a stretch of a page, seen in the page. */
  lemma ProgramSlice(flash: seq<byte>, p: nat, n: nat, o: nat, src: seq<byte>)
    requires p + n <= |flash| && o + |src| <= n
    ensures Program(flash, p + o, src)[p..p + n] == Program(flash[p..p + n], o, src)
  {
    var a, b := Program(flash, p + o, src)[p..p + n], Program(flash[p..p + n], o, src);
    forall i | 0 <= i < n ensures a[i] == b[i] {
    }
  }

  lemma ProgramAt(copy: seq<byte>, o: nat, src: seq<byte>, i: nat)
    requires o + |src| <= |copy| && i < |copy|
    ensures Program(copy, o, src)[i] == if o <= i < o + |src| then copy[i] & src[i - o] else copy[i]
    ensures Overwrite(copy, o, src)[i] == if o <= i < o + |src| then src[i - o] else copy[i]
  {
  }

  lemma OverwriteIsProgram(copy: seq<byte>, o: nat, src: seq<byte>)
    requires o + |src| <= |copy|
    ensures Overwrite(copy, o, src) == Program(copy, o, src) <==> OnlyClears(copy, o, src)
  {
    hide Overwrite, Program;
    var a, b := Overwrite(copy, o, src), Program(copy, o, src);
    if OnlyClears(copy, o, src) {
      forall i | 0 <= i < |copy| ensures a[i] == b[i] {
        ProgramAt(copy, o, src, i);
        if o <= i < o + |src| {
          var k := i - o;
          assert copy[o + k] & src[k] == src[k];
        }
      }
    }
    if a == b {
      forall i | 0 <= i < |src| ensures copy[o + i] & src[i] == src[i] {
        ProgramAt(copy, o, src, o + i);
      }
    }
  }

  lemma ClearsSlice(flash: seq<byte>, p: nat, n: nat, o: nat, src: seq<byte>)
    requires p + n <= |flash| && o + |src| <= n
    ensures OnlyClears(flash[p..p + n], o, src) <==> OnlyClears(flash, p + o, src)
  {
    var page := flash[p..p + n];
    if OnlyClears(page, o, src) {
      forall i | 0 <= i < |src| ensures flash[p + o + i] & src[i] == src[i] {
        assert page[o + i] & src[i] == src[i];
      }
    }
    if OnlyClears(flash, p + o, src) {
      forall i | 0 <= i < |src| ensures page[o + i] & src[i] == src[i] {
        assert flash[p + o + i] & src[i] == src[i];
      }
    }
  }
}

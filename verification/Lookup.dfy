/** The object lookup as a whole: free entries are a suffix of each block, and the
    three numbers a full scan computes change by one when one entry does. */
module Lookup {
  import opened Geometry
  import opened Image

  datatype Kind = IsFree | IsDeleted | IsUsed

  function KindOf(e: Entry): Kind
  {
    match e case Free => IsFree case Deleted => IsDeleted case Used(_, _) => IsUsed
  }

  /** Number of entries of a kind. */
  function Count(es: seq<Entry>, k: Kind): nat
  {
    if es == [] then 0
    else Count(es[..|es| - 1], k) + if KindOf(es[|es| - 1]) == k then 1 else 0
  }

  lemma {:induction false} CountUpdate(es: seq<Entry>, i: nat, e: Entry, k: Kind)
    requires i < |es|
    ensures Count(es[i := e], k) ==
            Count(es, k) - (if KindOf(es[i]) == k then 1 else 0) + (if KindOf(e) == k then 1 else 0)
  {
    var n := |es| - 1;
    if i == n {
      assert es[i := e][..n] == es[..n];
    } else {
      CountUpdate(es[..n], i, e, k);
      assert es[i := e][..n] == es[..n][i := e];
    }
  }

  lemma {:induction false} CountConcat(a: seq<Entry>, b: seq<Entry>, k: Kind)
    ensures Count(a + b, k) == Count(a, k) + Count(b, k)
  {
    if b == [] {
      assert a + b == a;
    } else {
      CountConcat(a, b[..|b| - 1], k);
      assert (a + b)[..|a + b| - 1] == a + b[..|b| - 1];
    }
  }

  lemma {:induction false} CountAll(es: seq<Entry>, k: Kind)
    requires forall i :: 0 <= i < |es| ==> KindOf(es[i]) == k
    ensures forall j :: Count(es, j) == if j == k then |es| else 0
  {
    if es != [] {
      CountAll(es[..|es| - 1], k);
    }
  }

  lemma {:induction false} CountNone(es: seq<Entry>, k: Kind)
    requires forall i :: 0 <= i < |es| ==> KindOf(es[i]) != k
    ensures Count(es, k) == 0
  {
    if es != [] {
      CountNone(es[..|es| - 1], k);
    }
  }

  lemma {:induction false} NoneCounted(es: seq<Entry>, k: Kind)
    requires Count(es, k) == 0
    ensures forall i :: 0 <= i < |es| ==> KindOf(es[i]) != k
  {
    if es != [] {
      NoneCounted(es[..|es| - 1], k);
    }
  }

  /** Of the first `n` blocks, those whose first entry is free. */
  function FreeBlocks(lu: seq<Entry>, n: nat): nat
    requires n <= BLOCKS && |lu| == SLOTS
  {
    if n == 0 then 0
    else
      TimesMono(n - 1, BLOCKS, ENTRIES);
      FreeBlocks(lu, n - 1) + if lu[Base(n - 1)].Free? then 1 else 0
  }

  lemma {:induction false} NoFreeBlocks(lu: seq<Entry>, n: nat)
    requires n <= BLOCKS && |lu| == SLOTS && forall s: nat :: s < SLOTS ==> !lu[s].Free?
    ensures FreeBlocks(lu, n) == 0
  {
    if n > 0 {
      TimesMono(n - 1, BLOCKS, ENTRIES);
      NoFreeBlocks(lu, n - 1);
    }
  }

  /** A change that keeps the first entry of every block, except that of `b`. */
  lemma {:induction false} FreeBlocksUpdate(lu: seq<Entry>, lu': seq<Entry>, b: nat, n: nat)
    requires n <= BLOCKS && |lu| == |lu'| == SLOTS && b < BLOCKS
    requires forall c: nat :: c < BLOCKS && c != b && Base(c) < SLOTS ==> (lu'[Base(c)].Free? <==> lu[Base(c)].Free?)
    ensures Base(b) < SLOTS
    ensures FreeBlocks(lu', n) ==
            FreeBlocks(lu, n) + (if b < n && lu'[Base(b)].Free? then 1 else 0) - (if b < n && lu[Base(b)].Free? then 1 else 0)
  {
    TimesMono(b, BLOCKS, ENTRIES);
    if n > 0 {
      TimesMono(n - 1, BLOCKS, ENTRIES);
      FreeBlocksUpdate(lu, lu', b, n - 1);
    }
  }

  /** The entries of a block after a free one are free. */
  ghost predicate FreeSuffix(lu: seq<Entry>)
    requires |lu| == SLOTS
  {
    forall s: nat, t: nat {:trigger lu[s], lu[t]} ::
      s < t < SLOTS && BlockOf(s) == BlockOf(t) && lu[s].Free? ==> lu[t].Free?
  }

  /** All entries of a block before `s` are taken. */
  ghost predicate TakenBefore(lu: seq<Entry>, s: nat)
    requires s < |lu| == SLOTS
  {
    forall t: nat :: t < s && BlockOf(t) == BlockOf(s) ==> !lu[t].Free?
  }

  /** The lookup after block `b` is erased. */
  function BlockErased(lu: seq<Entry>, b: nat): seq<Entry>
    requires |lu| == SLOTS
  {
    seq(SLOTS, s requires 0 <= s < SLOTS => if Base(b) <= s < Base(b) + ENTRIES then Free else lu[s])
  }

  function PagesErased(pg: seq<Page>, b: nat): seq<Page>
    requires |pg| == SLOTS
  {
    seq(SLOTS, s requires 0 <= s < SLOTS => if Base(b) <= s < Base(b) + ENTRIES then Erased else pg[s])
  }

  lemma TakeFree(lu: seq<Entry>, s: nat, e: Entry)
    requires |lu| == SLOTS && FreeSuffix(lu) && s < SLOTS
    requires lu[s].Free? && TakenBefore(lu, s) && !e.Free?
    ensures FreeSuffix(lu[s := e])
    ensures FreeBlocks(lu[s := e], BLOCKS) == FreeBlocks(lu, BLOCKS) - if EntryOf(s) == 0 then 1 else 0
  {
    BlockBounds(s);
    forall c: nat | c < BLOCKS && c != BlockOf(s) && Base(c) < SLOTS ensures Base(c) != s {
      InBlock(c, Base(c));
    }
    FreeBlocksUpdate(lu, lu[s := e], BlockOf(s), BLOCKS);
    if EntryOf(s) > 0 {
      InBlock(BlockOf(s), Base(BlockOf(s)));
    }
  }

  lemma DeleteUsed(lu: seq<Entry>, s: nat)
    requires |lu| == SLOTS && FreeSuffix(lu) && s < SLOTS && !lu[s].Free?
    ensures FreeSuffix(lu[s := Deleted])
    ensures FreeBlocks(lu[s := Deleted], BLOCKS) == FreeBlocks(lu, BLOCKS)
  {
    BlockBounds(s);
    forall c: nat | c < BLOCKS && Base(c) < SLOTS
      ensures lu[s := Deleted][Base(c)].Free? <==> lu[Base(c)].Free?
    {
    }
    FreeBlocksUpdate(lu, lu[s := Deleted], BlockOf(s), BLOCKS);
  }

  lemma ErasedSuffix(lu: seq<Entry>, b: nat)
    requires |lu| == SLOTS && FreeSuffix(lu) && b < BLOCKS
    ensures FreeSuffix(BlockErased(lu, b))
  {
    var lu' := BlockErased(lu, b);
    forall s: nat, t: nat {:trigger lu'[s], lu'[t]} |
      s < t < SLOTS && BlockOf(s) == BlockOf(t) && lu'[s].Free?
      ensures lu'[t].Free?
    {
      BlockBounds(s);
      BlockBounds(t);
      if Base(b) <= s < Base(b) + ENTRIES {
        InBlock(b, s);
      }
    }
  }

  lemma ErasedFreeBlocks(lu: seq<Entry>, b: nat)
    requires |lu| == SLOTS && b < BLOCKS
    ensures Base(b) + ENTRIES <= SLOTS
    ensures FreeBlocks(BlockErased(lu, b), BLOCKS) ==
            FreeBlocks(lu, BLOCKS) + if lu[Base(b)].Free? then 0 else 1
  {
    TimesMono(b, BLOCKS, ENTRIES);
    var lu' := BlockErased(lu, b);
    forall c: nat | c < BLOCKS && c != b && Base(c) < SLOTS ensures lu'[Base(c)].Free? <==> lu[Base(c)].Free? {
      if Base(b) <= Base(c) < Base(b) + ENTRIES {
        InBlock(b, Base(c));
        InBlock(c, Base(c));
      }
    }
    FreeBlocksUpdate(lu, lu', b, BLOCKS);
  }

  lemma CountReplaced(a: seq<Entry>, b: seq<Entry>, b': seq<Entry>, c: seq<Entry>, k: Kind)
    ensures Count(a + b' + c, k) == Count(a + b + c, k) - Count(b, k) + Count(b', k)
  {
    CountConcat(a + b, c, k);
    CountConcat(a, b, k);
    CountConcat(a + b', c, k);
    CountConcat(a, b', k);
  }

  lemma ErasedCount(lu: seq<Entry>, b: nat)
    requires |lu| == SLOTS && b < BLOCKS && Base(b) + ENTRIES <= SLOTS
    ensures var es := lu[Base(b)..Base(b) + ENTRIES];
            && Count(BlockErased(lu, b), IsUsed) == Count(lu, IsUsed) - Count(es, IsUsed)
            && Count(BlockErased(lu, b), IsDeleted) == Count(lu, IsDeleted) - Count(es, IsDeleted)
  {
    var lo, hi := Base(b), Base(b) + ENTRIES;
    var lu' := BlockErased(lu, b);
    assert lu == lu[..lo] + lu[lo..hi] + lu[hi..];
    assert lu' == lu[..lo] + lu'[lo..hi] + lu[hi..];
    CountAll(lu'[lo..hi], IsFree);
    CountReplaced(lu[..lo], lu[lo..hi], lu'[lo..hi], lu[hi..], IsUsed);
    CountReplaced(lu[..lo], lu[lo..hi], lu'[lo..hi], lu[hi..], IsDeleted);
  }
}

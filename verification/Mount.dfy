/** The scan at mount time.  It finds the numbers the file system then keeps up to
    date, so at any time between operations a new scan would find them again. */
module Mount {
  import opened Geometry
  import opened Image
  import opened Lookup
  import opened Volume
  import opened Encoding
  import opened Objects
  import opened Reader

  /** Goes on counting through block `b`. */
  method ScanBlock(lu: seq<Entry>, b: nat, nUsed: nat, nDeleted: nat, nFree: nat)
    returns (pAllocated: nat, pDeleted: nat, freeBlocks: nat)
    requires |lu| == SLOTS && b < BLOCKS && Base(b) <= SLOTS && nFree == FreeBlocks(lu, b)
    requires nUsed == Count(lu[..Base(b)], IsUsed) && nDeleted == Count(lu[..Base(b)], IsDeleted)
    ensures Base(b + 1) <= SLOTS && freeBlocks == FreeBlocks(lu, b + 1)
    ensures pAllocated == Count(lu[..Base(b + 1)], IsUsed) && pDeleted == Count(lu[..Base(b + 1)], IsDeleted)
  {
    pAllocated, pDeleted, freeBlocks := nUsed, nDeleted, nFree;
    TimesMono(b, BLOCKS, ENTRIES);
    var e: nat := 0;
    while e < ENTRIES
      invariant e <= ENTRIES
      invariant freeBlocks == nFree + if e > 0 && lu[Base(b)].Free? then 1 else 0
      invariant pAllocated == Count(lu[..Base(b) + e], IsUsed) && pDeleted == Count(lu[..Base(b) + e], IsDeleted)
    {
      var s := Base(b) + e;
      CountNext(lu, s);
      if lu[s].Free? {
        if e == 0 {
          freeBlocks := freeBlocks + 1;
        }
      } else if lu[s].Deleted? {
        pDeleted := pDeleted + 1;
      } else {
        pAllocated := pAllocated + 1;
      }
      e := e + 1;
    }
  }

  /** Counts used and deleted entries and blocks whose first entry is free. */
  method Scan(lu: seq<Entry>) returns (pAllocated: nat, pDeleted: nat, freeBlocks: nat)
    requires |lu| == SLOTS
    ensures Counted(lu, pAllocated, pDeleted, freeBlocks)
  {
    pAllocated, pDeleted, freeBlocks := 0, 0, 0;
    var b: nat := 0;
    while b < BLOCKS
      invariant b <= BLOCKS && Base(b) <= SLOTS
      invariant freeBlocks == FreeBlocks(lu, b)
      invariant pAllocated == Count(lu[..Base(b)], IsUsed) && pDeleted == Count(lu[..Base(b)], IsDeleted)
    {
      pAllocated, pDeleted, freeBlocks := ScanBlock(lu, b, pAllocated, pDeleted, freeBlocks);
      b := b + 1;
    }
    assert lu[..SLOTS] == lu;
  }

  const NO_COUNT: nat := 0xffff

  /** The erase count of a block that has been erased before; a count has 16 bits. */
  predicate HasCount(counts: seq<nat>, n: nat)
  {
    n != NO_COUNT && exists i :: 0 <= i < |counts| && counts[i] % 0x10000 == n
  }

  ghost predicate Least(counts: seq<nat>, n: nat)
  {
    HasCount(counts, n) && forall m: nat :: HasCount(counts, m) ==> n <= m
  }

  ghost predicate Greatest(counts: seq<nat>, n: nat)
  {
    HasCount(counts, n) && forall m: nat :: HasCount(counts, m) ==> m <= n
  }

  /** The next erase count: one more than the greatest there is, or than the least if the
      counts have wrapped around; 1 if no block has a count. */
  ghost predicate NextCount(counts: seq<nat>, next: nat)
  {
    && ((forall n: nat :: !HasCount(counts, n)) ==> next == 1)
    && forall lo: nat, hi: nat :: Least(counts, lo) && Greatest(counts, hi) ==>
         next == if hi - lo > 0x7fff then lo + 1 else hi + 1
  }

  /** Finds the next erase count. */
  method ScanEraseCounts(counts: seq<nat>) returns (next: nat)
    ensures NextCount(counts, next)
  {
    var lo: nat, hi: nat, any, i := NO_COUNT, 0, false, 0;
    while i < |counts|
      invariant i <= |counts| && lo <= NO_COUNT && hi < NO_COUNT
      invariant any ==> HasCount(counts, lo) && HasCount(counts, hi)
      invariant !any ==> lo == NO_COUNT && hi == 0
      invariant forall k :: 0 <= k < i && counts[k] % 0x10000 != NO_COUNT ==> any && lo <= counts[k] % 0x10000 <= hi
    {
      var n := counts[i] % 0x10000;
      if n != NO_COUNT {
        assert HasCount(counts, n);
        lo := if n < lo then n else lo;
        hi := if n > hi then n else hi;
        any := true;
      }
      i := i + 1;
    }
    if hi - lo > NO_COUNT / 2 {
      next := lo + 1;
    } else {
      next := hi + 1;
    }
  }

  lemma CountNext(lu: seq<Entry>, s: nat)
    requires s < |lu|
    ensures forall k :: Count(lu[..s + 1], k) == Count(lu[..s], k) + if KindOf(lu[s]) == k then 1 else 0
  {
    assert lu[..s + 1][..s] == lu[..s];
  }

  /** The erase counts in flash. */
  function CountsIn(flash: seq<byte>): (counts: seq<nat>)
    ensures |counts| == BLOCKS
  {
    seq(BLOCKS, b requires 0 <= b => CountAt(flash, b))
  }

  /** Flash holds a consistent image with this catalogue. */
  ghost predicate Consistent(fs: Spiffs, cat: Catalogue)
    reads fs`lu, fs`pg, fs`eraseCount, fs`flash
  {
    && |fs.eraseCount| == BLOCKS && Sizes(fs.lu, fs.pg) && FreeSuffix(fs.lu) && Buried(fs.lu, fs.pg)
    && Tight(cat) && Stored(fs.flash, fs.lu, fs.pg, fs.eraseCount, cat)
  }

  /** Mounts what is in flash: counters and the next erase count from a scan of its bytes,
      cursors at the start, no file open.  Nothing is asked of flash; if it holds a
      consistent image the volume is in order then. */
  method MountImage(fs: Spiffs, flash: seq<byte>, fds: nat, ghost cat: Catalogue)
    requires |fs.lu| == SLOTS && flash == fs.flash
    modifies fs`pAllocated, fs`pDeleted, fs`freeBlocks, fs`maxEraseCount, fs`freeBlock, fs`freeEntry, fs`cursorBlock,
             fs`cursorEntry, fs`cleaning, fs`fds, fs`cat, fs`trace, fs`start
    ensures Counted(LookupIn(flash), fs.pAllocated, fs.pDeleted, fs.freeBlocks) && CursorOk(fs.lu, fs.freeBlock, fs.freeEntry)
    ensures NextCount(CountsIn(flash), fs.maxEraseCount)
    ensures |fs.fds| == fds && forall f :: 0 <= f < fds ==> !Tracked(fs.fds[f])
    ensures fs.cat == cat && (Consistent(fs, cat) ==> Mounted(fs) && NextCount(fs.eraseCount, fs.maxEraseCount))
  {
    hide Counted, FreeBlocks, FreeSuffix, Buried, Holds, Tight, OnFlash, FlashState, Recorded, LookupIn, CountsIn, NextCount, Stored, CursorOk, FdsPagesOk, FdsSizesOk;
    Initialise(fs, fds, cat);
    fs.pAllocated, fs.pDeleted, fs.freeBlocks := Scan(LookupIn(flash));
    fs.maxEraseCount := ScanEraseCounts(CountsIn(flash));
    if Consistent(fs, cat) {
      ScannedRight(fs, cat);
    }
  }

  /** Cursors at the start, closed descriptors, and nothing asked of flash yet. */
  method Initialise(fs: Spiffs, fds: nat, ghost cat: Catalogue)
    requires |fs.lu| == SLOTS
    modifies fs`freeBlock, fs`freeEntry, fs`cursorBlock, fs`cursorEntry, fs`cleaning, fs`fds, fs`cat, fs`trace, fs`start
    ensures CursorOk(fs.lu, fs.freeBlock, fs.freeEntry) && fs.cursorBlock < BLOCKS && !fs.cleaning && fs.cat == cat
    ensures |fs.fds| == fds && FdsPagesOk(fs.fds, cat) && FdsSizesOk(fs.fds, cat) && forall f :: 0 <= f < fds ==> !Tracked(fs.fds[f])
    ensures OnFlash(fs.flash, fs.lu, fs.pg, fs.eraseCount) ==> FlashState(fs.start, fs.trace, fs.flash, fs.lu, fs.pg, fs.eraseCount)
  {
    hide OnFlash, FlashState, Recorded, CursorOk, FdsPagesOk, FdsSizesOk;
    fs.freeBlock, fs.freeEntry, fs.cursorBlock, fs.cursorEntry, fs.cleaning := 0, 0, 0, 0, false;
    fs.fds := seq(fds, i => Fd(0, 0, Some(0), 0, 0, 0, 0, 0));
    fs.cat := cat;
    fs.NewRecord();
    StartOk(fs.lu, fs.fds, cat);
  }

  lemma StartOk(lu: seq<Entry>, fds: seq<Fd>, cat: Catalogue)
    requires |lu| == SLOTS && forall f :: 0 <= f < |fds| ==> !Tracked(fds[f])
    ensures CursorOk(lu, 0, 0) && FdsPagesOk(fds, cat) && FdsSizesOk(fds, cat)
  {
  }

  /** What has been scanned is what the volume holds. */
  lemma ScannedRight(fs: Spiffs, cat: Catalogue)
    requires Consistent(fs, cat)
    requires Counted(LookupIn(fs.flash), fs.pAllocated, fs.pDeleted, fs.freeBlocks) && NextCount(CountsIn(fs.flash), fs.maxEraseCount)
    ensures Counted(fs.lu, fs.pAllocated, fs.pDeleted, fs.freeBlocks) && NextCount(fs.eraseCount, fs.maxEraseCount)
    ensures OnFlash(fs.flash, fs.lu, fs.pg, fs.eraseCount) && Holds(fs.lu, fs.pg, cat)
  {
    hide Counted, FreeSuffix, Buried, Holds, Tight, OnFlash, LookupIn, CountsIn, NextCount, Storable, SmallVolume, PageAt, CountAt, Files;
    VolumeRead(fs.flash, fs.lu, fs.pg, fs.eraseCount, cat);
    SameCounts(fs.flash, fs.eraseCount, fs.maxEraseCount);
  }

  /** Counts that agree as numbers of 16 bits have the same next count. */
  lemma SameCounts(flash: seq<byte>, counts: seq<nat>, next: nat)
    requires |counts| == BLOCKS && forall b: nat :: b < BLOCKS ==> CountAt(flash, b) == counts[b] % 0x1_0000
    requires NextCount(CountsIn(flash), next)
    ensures NextCount(counts, next)
  {
    hide CountAt, HasCount;
    var a := CountsIn(flash);
    forall n: nat ensures HasCount(a, n) <==> HasCount(counts, n) {
      SameHas(a, counts, n);
    }
    forall lo: nat, hi: nat | Least(counts, lo) && Greatest(counts, hi)
      ensures next == if hi - lo > 0x7fff then lo + 1 else hi + 1
    {
      assert Least(a, lo) && Greatest(a, hi);
    }
  }

  lemma SameHas(a: seq<nat>, c: seq<nat>, n: nat)
    requires |a| == |c| && forall i: nat :: i < |a| ==> a[i] == c[i] % 0x1_0000
    ensures HasCount(a, n) <==> HasCount(c, n)
  {
    if HasCount(a, n) {
      var i: nat :| i < |a| && a[i] % 0x10000 == n;
      ModOnce(c[i]);
      assert c[i] % 0x10000 == n;
    }
    if HasCount(c, n) {
      var i: nat :| i < |c| && c[i] % 0x10000 == n;
      ModOnce(c[i]);
      assert a[i] % 0x10000 == n;
    }
  }

  lemma ModOnce(n: nat)
    ensures n % 0x1_0000 % 0x1_0000 == n % 0x1_0000
  {
  }

  /** Scanning a mounted volume again finds the counters it has. */
  method Rescan(fs: Spiffs) returns (same: bool)
    requires fs.LookupOk()
    ensures same
  {
    var pAllocated, pDeleted, freeBlocks := Scan(fs.lu);
    same := (pAllocated, pDeleted, freeBlocks) == (fs.pAllocated, fs.pDeleted, fs.freeBlocks);
  }
}

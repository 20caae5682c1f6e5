/** Firmware upload: a POST body arrives in chunks and a state machine puts the chosen
    part of it into flash, page by page.  How the body is cut does not matter. */
module Upload {
  import B = Bytes
  import opened Image
  import opened Volume
  import opened Nor
  import opened Flash

  const PAGELEN: nat := 64
  const SECTOR: nat := 4096

  datatype State = Start | Write | Skip | Done | Error

  /** What the header of an upload asks for: `before` bytes to skip, then `n` bytes for
      flash address `base`, then `after` bytes to skip. */
  datatype Plan = Bad | Go(header: nat, before: nat, n: nat, after: nat, base: nat)

  datatype Target = Target(firmware: bool, fwSize: nat, fw1Pos: nat, fw2Pos: nat, tag: seq<byte>)

  const OTA_HEADER: nat := 40

  predicate BinHeader(data: seq<byte>)
    requires |data| >= 12
  {
    && data[0] == 0xea && data[1] == 4 && data[2] <= 3 && data[3] <= 0x40
    && data[6] == 0x10 && data[7] == 0x40
    && data[8] == 0 && data[9] == 0 && data[10] == 0 && data[11] == 0
  }

  const EHUG: seq<byte> := [0x45, 0x48, 0x55, 0x47]
  const ESFS: seq<byte> := [0x45, 0x53, 0x66, 0x73]

  /** A first chunk that holds what is looked at in it: the whole header of a combined
      image, the first 12 bytes of other firmware, the first 4 of a file system. */
  predicate HeaderIn(t: Target, data: seq<byte>)
  {
    |data| >= 4 && (t.firmware ==> |data| >= if data[..4] == EHUG then OTA_HEADER else 12)
  }

  /** What is done with an upload of `postLen` bytes that begins with `data`. */
  function PlanFor(t: Target, userbin: nat, forced: bool, postLen: nat, data: seq<byte>): Plan
    requires HeaderIn(t, data)
  {
    if t.firmware && data[..4] == EHUG then
      if B.CString(data[4..31]) != t.tag && !forced then Bad
      else if postLen > t.fwSize * 2 + OTA_HEADER then Bad
      else
        var len1, len2 := B.Value(data[32..36]), B.Value(data[36..40]);
        if userbin == 1 then Go(OTA_HEADER, 0, len1, len2, t.fw1Pos) else Go(OTA_HEADER, len1, len2, 0, t.fw2Pos)
    else if t.firmware && BinHeader(data) then
      if postLen > t.fwSize then Bad else Go(0, 0, postLen, 0, t.fw1Pos)
    else if !t.firmware && data[..4] == ESFS then
      if postLen > t.fwSize then Bad else Go(0, 0, postLen, 0, t.fw1Pos)
    else Bad
  }

  // ---------------------------------------------------------------------------
  // What flash holds when part of the image is in it

  /** Flash with the image from `base` on, erased to the end of `sectors` sectors, and
      otherwise as it was. */
  function Flashed(flash: seq<byte>, base: nat, image: seq<byte>, sectors: nat): (r: seq<byte>)
    ensures |r| == |flash|
  {
    seq(|flash|, i requires 0 <= i < |flash| =>
      if base <= i < base + |image| then image[i - base]
      else if base <= i < base + sectors * SECTOR then ERASED_BYTE
      else flash[i])
  }

  /** Sectors that hold `m` bytes. */
  function Sectors(m: nat): nat
  {
    (m + SECTOR - 1) / SECTOR
  }

  lemma SectorsNext(m: nat, k: nat)
    requires m % PAGELEN == 0 && 0 < k <= PAGELEN
    ensures m % SECTOR == 0 ==> Sectors(m) * SECTOR == m && Sectors(m + k) == Sectors(m) + 1
    ensures m % SECTOR != 0 ==> Sectors(m + k) == Sectors(m) && m + k <= Sectors(m) * SECTOR
  {
  }

  /** Erasing the next sector. */
  lemma EraseNext(flash: seq<byte>, base: nat, image: seq<byte>, sectors: nat)
    requires |image| == sectors * SECTOR && base + (sectors + 1) * SECTOR <= |flash|
    ensures EraseRange(Flashed(flash, base, image, sectors), base + |image|, base + |image| + SECTOR) ==
            Flashed(flash, base, image, sectors + 1)
  {
  }

  /** Writing a page into erased flash behind the image. */
  lemma WriteNext(flash: seq<byte>, base: nat, image: seq<byte>, sectors: nat, page: seq<byte>)
    requires |image| + |page| <= sectors * SECTOR && base + sectors * SECTOR <= |flash|
    ensures Program(Flashed(flash, base, image, sectors), base + |image|, page) == Flashed(flash, base, image + page, sectors)
  {
    var before := Flashed(flash, base, image, sectors);
    var at := base + |image|;
    ProgramErased(before, at, page);
    var a, b := Program(before, at, page), Flashed(flash, base, image + page, sectors);
    forall i | 0 <= i < |flash| ensures a[i] == b[i] {
    }
  }

  lemma NothingFlashed(flash: seq<byte>, base: nat)
    ensures Flashed(flash, base, [], 0) == flash
  {
  }

  // ---------------------------------------------------------------------------
  // The state machine

  /** Where in the body the image lies and where it goes. */
  datatype Layout = Layout(before: nat, n: nat, after: nat, base: nat)
  {
    /** The target is aligned to sectors and inside flash. */
    predicate Fits(size: nat) {
      base % SECTOR == 0 && base + (if n == 0 then SECTOR else Sectors(n) * SECTOR) <= size
    }

    /** The part of the image in `body`. */
    function Image(body: seq<byte>): (r: seq<byte>)
      ensures |r| <= n
    {
      if |body| <= before then [] else if |body| <= before + n then body[before..] else body[before..before + n]
    }
  }

  function SectorAddresses(base: nat, sectors: nat): seq<nat>
  {
    seq(sectors, k requires 0 <= k < sectors => base + k * SECTOR)
  }

  /** The first `m` bytes of the image are in flash, and the sectors for them were
      erased once each, in order. */
  ghost predicate InFlash(l: Layout, body: seq<byte>, m: nat, flash0: seq<byte>, flash: seq<byte>, erased: seq<nat>)
    requires m <= |l.Image(body)|
  {
    && flash == Flashed(flash0, l.base, l.Image(body)[..m], |erased|)
    && erased == SectorAddresses(l.base, |erased|)
  }

  /** All of the image is in flash.  An image of no bytes may have cost a sector. */
  ghost predicate AllInFlash(l: Layout, body: seq<byte>, flash0: seq<byte>, flash: seq<byte>, erased: seq<nat>)
  {
    && |body| >= l.before + l.n && |l.Image(body)| == l.n
    && InFlash(l, body, l.n, flash0, flash, erased)
    && (if l.n > 0 then |erased| == Sectors(l.n) else |erased| <= 1)
  }

  /** The page being filled. */
  ghost predicate InPage(l: Layout, body: seq<byte>, page: seq<byte>, pagePos: nat, address: nat,
                         flash0: seq<byte>, flash: seq<byte>, erased: seq<nat>)
  {
    var w := |l.Image(body)|;
    && pagePos == w % PAGELEN <= |page| && page[..pagePos] == l.Image(body)[w - pagePos..]
    && address == l.base + (w - pagePos)
    && InFlash(l, body, w - pagePos, flash0, flash, erased) && |erased| == Sectors(w - pagePos)
  }

  class Uploader {
    const target: Target
    const userbin: nat
    const forced: bool
    const postLen: nat
    const page: array<byte>
    var state: State
    var pagePos: nat
    var address: nat
    var len: nat
    var skip: nat
    var flash: seq<byte>
    var erased: seq<nat>          // addresses of the sectors erased so far
    ghost const flash0: seq<byte>
    ghost var l: Layout
    ghost var body: seq<byte>     // what followed the header

    constructor (target: Target, userbin: nat, forced: bool, postLen: nat, flash: seq<byte>)
      ensures state == Start && this.flash == flash == flash0 && erased == [] && page.Length == PAGELEN && fresh(page)
      ensures pagePos == 0 && skip == 0
      ensures this.target == target && this.userbin == userbin && this.forced == forced && this.postLen == postLen
    {
      this.target, this.userbin, this.forced, this.postLen := target, userbin, forced, postLen;
      state, pagePos, address, len, skip, this.flash, erased := Start, 0, 0, 0, 0, flash, [];
      page := new byte[PAGELEN];
      flash0, l, body := flash, Layout(0, 0, 0, 0), [];
    }

    /** The machine has done with the body so far what the layout says. */
    ghost predicate Valid()
      reads this, page
    {
      && page.Length == PAGELEN && |flash| == |flash0| && l.Fits(|flash|)
      && match state
         case Start => false
         case Error => false
         case Skip =>
           || (|body| <= l.before && len == l.n && skip == l.before - |body| && l.after == 0
              && erased == [] && flash == flash0 && pagePos == 0 && address == l.base)
           || (AllInFlash(l, body, flash0, flash, erased) && len == 0 && skip > 0 && |body| + skip == l.before + l.n + l.after)
         case Write =>
           && l.before <= |body| && (|body| < l.before + l.n || (l.n == 0 && |body| == l.before))
           && len == l.before + l.n - |body| && skip == l.after
           && InPage(l, body, page[..], pagePos, address, flash0, flash, erased)
         case Done => AllInFlash(l, body, flash0, flash, erased) && |body| >= l.before + l.n + l.after
    }

    /** Takes bytes that are to be skipped. */
    method SkipStep(data: seq<byte>) returns (k: nat)
      requires Valid() && state == Skip && |data| > 0
      modifies this`state, this`skip, this`body
      ensures k <= |data| && body == old(body) + data[..k] && Valid() && state != Start && state != Error
      ensures k == 0 ==> old(skip) == 0 && state != Skip && (state == Write ==> len > 0)
    {
      hide Flashed, Sectors;
      if skip > |data| {
        skip := skip - |data|;
        k := |data|;
      } else {
        k := skip;
        skip := 0;
        state := if len != 0 then Write else Done;
      }
      ImageLater(l, body, data[..k]);
      NothingFlashed(flash0, l.base);
      NoSectors();
      body := body + data[..k];
    }

    /** Writes the page to flash, erasing a sector before its first page. */
    method FlushPage(ghost image: seq<byte>, ghost m: nat)
      requires page.Length == PAGELEN && |flash| == |flash0| && l.base % SECTOR == 0
      requires m + pagePos == |image| && m % PAGELEN == 0 && pagePos <= PAGELEN && page[..pagePos] == image[m..]
      requires flash == Flashed(flash0, l.base, image[..m], |erased|) && |erased| == Sectors(m)
      requires erased == SectorAddresses(l.base, |erased|) && address == l.base + m
      requires l.base + (if m % SECTOR == 0 then m + SECTOR else Sectors(m) * SECTOR) <= |flash|
      requires pagePos == 0 ==> m == 0
      modifies this`flash, this`erased, this`address, this`pagePos
      ensures flash == Flashed(flash0, l.base, image, |erased|) && |flash| == |flash0|
      ensures erased == SectorAddresses(l.base, |erased|)
      ensures |erased| == if |image| == 0 then 1 else Sectors(|image|)
      ensures address == old(address) + PAGELEN && pagePos == 0
    {
      hide Flashed, Sectors, Program;
      SectorStart(l.base, m);
      SectorsOf(m, pagePos);
      assert image[..m] + page[..pagePos] == image;
      if address % SECTOR == 0 {
        EraseNext(flash0, l.base, image[..m], |erased|);
        flash := EraseRange(flash, address, address + SECTOR);
        erased := erased + [address];
      }
      WriteNext(flash0, l.base, image[..m], |erased|, page[..pagePos]);
      flash := Program(flash, address, page[..pagePos]);
      address := address + PAGELEN;
      pagePos := 0;
    }

    method CopyToPage(data: seq<byte>, n: nat)
      requires page.Length == PAGELEN && pagePos + n <= PAGELEN && n <= |data|
      modifies page
      ensures page[..pagePos + n] == old(page[..pagePos]) + data[..n]
    {
      var i := 0;
      while i < n
        invariant i <= n && page[..pagePos + i] == old(page[..pagePos]) + data[..i]
      {
        page[pagePos + i] := data[i];
        i := i + 1;
      }
    }

    /** Copies bytes of the image into the page. */
    method TakeBytes(data: seq<byte>, k: nat)
      requires Valid() && state == Write && k <= |data| && k <= len && pagePos + k <= PAGELEN
      modifies this`body, this`len, this`pagePos, page
      ensures body == old(body) + data[..k] && len == old(len) - k && pagePos == old(pagePos) + k && page.Length == PAGELEN
      ensures l.before <= |body| && len == l.before + l.n - |body|
      ensures var w, m := |l.Image(body)|, |old(l.Image(body))| - old(pagePos);
              && w == m + pagePos && m % PAGELEN == 0 && (pagePos < PAGELEN ==> w % PAGELEN == pagePos)
              && page[..pagePos] == l.Image(body)[m..] && address == l.base + m
              && InFlash(l, body, m, flash0, flash, erased) && |erased| == Sectors(m)
    {
      hide Flashed, Sectors, SectorAddresses, InFlash;
      ghost var image0 := l.Image(body);
      ghost var m := |image0| - pagePos;
      ImageLater(l, body, data[..k]);
      ghost var image := l.Image(body + data[..k]);
      assert image == image0 + data[..k];
      StillInFlash(l, body, body + data[..k], m, flash0, flash, erased);
      PagePlace(|image0|, pagePos, k);
      CopyToPage(data, k);
      BehindTheRest(image0, data[..k], m);
      pagePos, len, body := pagePos + k, len - k, body + data[..k];
    }

    /** Takes bytes of the image into the page, and writes the page when it is full or
        the image is complete. */
    method WriteStep(data: seq<byte>) returns (k: nat)
      requires Valid() && state == Write && |data| > 0
      modifies this`state, this`body, this`len, this`pagePos, this`address, this`flash, this`erased, page
      ensures k <= |data| && body == old(body) + data[..k] && Valid() && state != Start && state != Error
      ensures k == 0 ==> old(len) == 0 && state != Write && (state == Skip ==> skip > 0)
    {
      hide Flashed, Sectors, SectorAddresses;
      var lenLeft := PAGELEN - pagePos;
      if len < lenLeft {
        lenLeft := len;
      }
      if |data| < lenLeft {
        k := |data|;
        TakeBytes(data, k);
      } else {
        k := lenLeft;
        ghost var m := |l.Image(body)| - pagePos;
        TakeBytes(data, k);
        FinishPage(m);
      }
    }

    /** Writes the page, which is full or the last one. */
    method FinishPage(ghost m: nat)
      requires page.Length == PAGELEN && |flash| == |flash0| && l.Fits(|flash|) && state == Write && skip == l.after
      requires l.before <= |body| && len == l.before + l.n - |body| && (pagePos == PAGELEN || (pagePos < PAGELEN && len == 0))
      requires var image := l.Image(body);
               && |image| == m + pagePos && m % PAGELEN == 0 && page[..pagePos] == image[m..] && address == l.base + m
               && InFlash(l, body, m, flash0, flash, erased) && |erased| == Sectors(m) && (pagePos == 0 ==> m == 0 && l.n == 0)
      modifies this`state, this`pagePos, this`address, this`flash, this`erased
      ensures Valid() && state != Start && state != Error
      ensures len == 0 ==> state != Write && (state == Skip ==> skip > 0)
    {
      hide Flashed, Sectors, SectorAddresses;
      ghost var image := l.Image(body);
      RoomFor(l, m, |image|);
      FlushPage(image, m);
      assert image[..|image|] == image;
      if len == 0 {
        state := if skip != 0 then Skip else Done;
      }
    }

    /** Goes on to write `n` bytes to `base` and to skip `after` more. */
    method EnterWrite(n: nat, after: nat, base: nat)
      requires page.Length == PAGELEN && flash == flash0 && erased == [] && pagePos == 0
      requires Layout(0, n, after, base).Fits(|flash|)
      modifies this`state, this`len, this`skip, this`address, this`l, this`body
      ensures Valid() && state == Write && body == [] && l == Layout(0, n, after, base)
    {
      hide Flashed, Sectors, InPage;
      len, skip, state, address := n, after, Write, base;
      l, body := Layout(0, n, after, base), [];
      PageEmpty(l, page[..], flash0);
    }

    /** Goes on to skip `before` bytes and then to write `n` bytes to `base`. */
    method EnterSkip(before: nat, n: nat, base: nat)
      requires page.Length == PAGELEN && flash == flash0 && erased == [] && pagePos == 0
      requires Layout(before, n, 0, base).Fits(|flash|)
      modifies this`state, this`len, this`skip, this`address, this`l, this`body
      ensures Valid() && state == Skip && body == [] && l == Layout(before, n, 0, base)
    {
      hide Flashed, Sectors;
      len, skip, state, address := n, before, Skip, base;
      l, body := Layout(before, n, 0, base), [];
    }

    /** Reads the header. */
    method StartStep(data: seq<byte>) returns (k: nat)
      requires state == Start && Opens(data) && page.Length == PAGELEN
      modifies this`state, this`len, this`skip, this`address, this`l, this`body
      ensures k <= |data|
      ensures var plan := PlanFor(target, userbin, forced, postLen, data);
              if plan.Bad? then state == Error
              else
                && k == plan.header && body == [] && l == Layout(plan.before, plan.n, plan.after, plan.base)
                && Valid() && (state == Write || state == Skip)
    {
      hide BinHeader, Flashed, Valid;
      k := 0;
      if target.firmware && data[..4] == EHUG {
        if B.CString(data[4..31]) != target.tag && !forced {
          state := Error;
        } else if postLen > target.fwSize * 2 + OTA_HEADER {
          state := Error;
        } else {
          k := OTA_HEADER;
          if userbin == 1 {
            EnterWrite(B.Value(data[32..36]), B.Value(data[36..40]), target.fw1Pos);
          } else {
            EnterSkip(B.Value(data[32..36]), B.Value(data[36..40]), target.fw2Pos);
          }
        }
      } else if (target.firmware && BinHeader(data)) || (!target.firmware && data[..4] == ESFS) {
        if postLen > target.fwSize {
          state := Error;
        } else {
          EnterWrite(postLen, 0, target.fw1Pos);
        }
      } else {
        state := Error;
      }
    }

    /** What the first chunk must hold: the header, with a target that fits. */
    ghost predicate Opens(data: seq<byte>)
      reads this
    {
      && HeaderIn(target, data) && flash == flash0 && erased == [] && pagePos == 0 && skip == 0
      && var plan := PlanFor(target, userbin, forced, postLen, data);
         plan.Go? ==> Layout(plan.before, plan.n, plan.after, plan.base).Fits(|flash|)
    }

    /** How often the state can change before bytes must be taken. */
    ghost function Rank(): nat
      reads this
    {
      if (state == Skip && skip == 0) || (state == Write && len == 0) then 1 else 0
    }

    /** One round of the byte loop. */
    method Step(data: seq<byte>) returns (k: nat)
      requires Valid() && state != Start && state != Error && |data| > 0
      modifies this, page
      ensures k <= |data| && body == old(body) + data[..k] && l == old(l)
      ensures Valid() && state != Start && state != Error
      ensures k == 0 ==> old(Rank()) == 1 && Rank() == 0
    {
      hide Valid;
      if state == Skip {
        k := SkipStep(data);
      } else if state == Write {
        k := WriteStep(data);
      } else {
        Ignore(data);
        k := |data|;
        assert data[..k] == data;
      }
    }

    /** Receives a chunk of the body. */
    method Chunk(data: seq<byte>)
      requires page.Length == PAGELEN
      requires if state == Start then Opens(data) else state == Error || Valid()
      modifies this, page
      ensures old(state) == Start ==>
                var plan := PlanFor(target, userbin, forced, postLen, data);
                if plan.Bad? then state == Error && flash == old(flash) && erased == old(erased)
                else
                  && Valid() && state != Start && state != Error
                  && l == Layout(plan.before, plan.n, plan.after, plan.base)
                  && plan.header <= |data| && body == data[plan.header..]
      ensures old(state) == Error ==> state == Error && flash == old(flash) && erased == old(erased)
      ensures old(state) != Start && old(state) != Error ==>
                Valid() && state != Start && state != Error && l == old(l) && body == old(body) + data
    {
      hide PlanFor, Valid, Flashed, Sectors;
      var i := 0;
      if state == Start {
        i := StartStep(data);
      }
      if state == Error {
        return;     // eats up the bytes
      }
      ghost var l0, start, body0 := l, i, body;
      assert data[start..i] == [];
      while i < |data|
        invariant start <= i <= |data| && l == l0 && state != Start && state != Error && Valid()
        invariant body == body0 + data[start..i]
        decreases |data| - i, Rank()
      {
        var k := Step(data[i..]);
        assert data[start..i] + data[i..][..k] == data[start..i + k];
        i := i + k;
      }
    }

    /** Ignores bytes after the upload. */
    method Ignore(more: seq<byte>)
      requires Valid() && state == Done
      modifies this`body
      ensures Valid() && body == old(body) + more
    {
      ImageLater(l, body, more);
      body := body + more;
    }

    /** When the whole upload is in, the state is Done and the image is in flash. */
    lemma Complete()
      requires Valid() && l.n > 0 && |body| >= l.before + l.n + l.after
      ensures state == Done
      ensures flash == Flashed(flash0, l.base, body[l.before..l.before + l.n], Sectors(l.n))
      ensures erased == SectorAddresses(l.base, Sectors(l.n))
    {
      assert l.Image(body) == body[l.before..l.before + l.n];
      assert l.Image(body)[..l.n] == l.Image(body);
    }
  }

  lemma PagePlace(w: nat, pagePos: nat, k: nat)
    requires pagePos == w % PAGELEN && pagePos + k <= PAGELEN
    ensures (w - pagePos) % PAGELEN == 0
    ensures pagePos + k < PAGELEN ==> (w + k) % PAGELEN == pagePos + k
    ensures pagePos + k == PAGELEN ==> (w + k) % PAGELEN == 0
  {
  }

  lemma BehindTheRest(image: seq<byte>, more: seq<byte>, m: nat)
    requires m <= |image|
    ensures (image + more)[m..] == image[m..] + more && (image + more)[..m] == image[..m]
  {
  }

  /** The sector a page goes to lies in the target. */
  lemma RoomFor(l: Layout, m: nat, end: nat)
    requires m <= end <= l.n && (m == end ==> l.n == 0)
    ensures (if m % SECTOR == 0 then m + SECTOR else Sectors(m) * SECTOR) <= if l.n == 0 then SECTOR else Sectors(l.n) * SECTOR
  {
  }

  lemma StillInFlash(l: Layout, body: seq<byte>, body': seq<byte>, m: nat, flash0: seq<byte>, flash: seq<byte>, erased: seq<nat>)
    requires m <= |l.Image(body)| && l.Image(body) <= l.Image(body') && InFlash(l, body, m, flash0, flash, erased)
    ensures InFlash(l, body', m, flash0, flash, erased)
  {
    assert l.Image(body')[..m] == l.Image(body)[..m];
  }

  lemma PageEmpty(l: Layout, page: seq<byte>, flash: seq<byte>)
    requires l.before == 0
    ensures InPage(l, [], page, 0, l.base, flash, flash, [])
  {
    hide Flashed, Sectors;
    NothingFlashed(flash, l.base);
    NoSectors();
  }

  lemma NoSectors()
    ensures Sectors(0) == 0
  {
  }

  lemma SectorStart(base: nat, m: nat)
    requires base % SECTOR == 0
    ensures (base + m) % SECTOR == 0 <==> m % SECTOR == 0
  {
  }

  lemma SectorsOf(m: nat, k: nat)
    requires m % PAGELEN == 0 && k <= PAGELEN && (k == 0 ==> m == 0)
    ensures m % SECTOR == 0 ==> Sectors(m) * SECTOR == m && (k > 0 ==> Sectors(m + k) == Sectors(m) + 1)
    ensures m % SECTOR != 0 ==> Sectors(m + k) == Sectors(m) && m + k <= Sectors(m) * SECTOR
    ensures Sectors(0) == 0
  {
    if k > 0 {
      SectorsNext(m, k);
    }
  }

  /** Bytes after the image do not change it, and bytes before it are not part of it. */
  lemma ImageLater(l: Layout, body: seq<byte>, more: seq<byte>)
    ensures |body| >= l.before + l.n ==> l.Image(body + more) == l.Image(body)
    ensures |body + more| <= l.before ==> l.Image(body + more) == []
    ensures l.before <= |body| && |body + more| <= l.before + l.n ==> l.Image(body + more) == l.Image(body) + more
  {
  }

  function Concat(chunks: seq<seq<byte>>): seq<byte>
  {
    if chunks == [] then [] else Concat(chunks[..|chunks| - 1]) + chunks[|chunks| - 1]
  }

  // ---------------------------------------------------------------------------
  // What an upload does

  /** A combined image for both slots: it begins with EHUG. */
  predicate Combined(t: Target, data: seq<byte>)
    requires HeaderIn(t, data)
  {
    t.firmware && data[..4] == [0x45, 0x48, 0x55, 0x47]
  }

  /** The headers that are taken: combined images with the tag of the device, or forced,
      firmware for one slot, and file systems, if they are not too long. */
  predicate Accepted(t: Target, forced: bool, postLen: nat, data: seq<byte>)
    requires HeaderIn(t, data)
  {
    if Combined(t, data) then (forced || B.CString(data[4..31]) == t.tag) && postLen <= 2 * t.fwSize + 40
    else if t.firmware then
      && data[0] == 0xea && data[1] == 4 && data[2] <= 3 && data[3] <= 0x40 && data[6..12] == [0x10, 0x40, 0, 0, 0, 0]
      && postLen <= t.fwSize
    else data[..4] == [0x45, 0x53, 0x66, 0x73] && postLen <= t.fwSize
  }

  /** A word of a header, least significant byte first. */
  function Word(data: seq<byte>, i: nat): nat
    requires i + 4 <= |data|
  {
    B.Num(data[i]) + 0x100 * B.Num(data[i + 1]) + 0x1_0000 * B.Num(data[i + 2]) + 0x100_0000 * B.Num(data[i + 3])
  }

  lemma WordIs(data: seq<byte>, i: nat)
    requires i + 4 <= |data|
    ensures B.Value(data[i..i + 4]) == Word(data, i)
  {
    var w := data[i..i + 4];
    assert B.Value(w) == B.Num(w[0]) + 256 * B.Value(w[1..]);
    assert B.Value(w[1..]) == B.Num(w[1]) + 256 * B.Value(w[1..][1..]) && w[1..][1..] == w[2..];
    assert B.Value(w[2..]) == B.Num(w[2]) + 256 * B.Value(w[2..][1..]) && w[2..][1..] == w[3..];
    assert B.Value(w[3..]) == B.Num(w[3]) + 256 * B.Value(w[3..][1..]) && w[3..][1..] == [];
  }

  /** What the header selects: of a combined image the first part for slot 1 if the device
      is told to write user1.bin, and otherwise the second part for slot 2; the whole body
      of anything else. */
  lemma PlanIs(t: Target, userbin: nat, forced: bool, postLen: nat, data: seq<byte>)
    requires HeaderIn(t, data)
    ensures PlanFor(t, userbin, forced, postLen, data) ==
            if !Accepted(t, forced, postLen, data) then Bad
            else if !Combined(t, data) then Go(0, 0, postLen, 0, t.fw1Pos)
            else if userbin == 1 then Go(40, 0, Word(data, 32), Word(data, 36), t.fw1Pos)
            else Go(40, Word(data, 32), Word(data, 36), 0, t.fw2Pos)
  {
    hide B.Value, Word, B.CString;
    if Combined(t, data) {
      WordIs(data, 32);
      WordIs(data, 36);
    } else if t.firmware {
      assert data[6..12] == [data[6], data[7], data[8], data[9], data[10], data[11]];
    }
  }

  /** The image is in flash from `pos` on, the rest of its last sector is erased, and all
      else is as it was. */
  ghost predicate Placed(flash: seq<byte>, after: seq<byte>, pos: nat, image: seq<byte>)
  {
    && |after| == |flash|
    && forall i :: 0 <= i < |flash| ==>
         after[i] == if pos <= i < pos + |image| then image[i - pos]
                     else if pos <= i < pos + (|image| + 4095) / 4096 * 4096 then 0xff
                     else flash[i]
  }

  /** Every sector of the image has been erased once, in order. */
  ghost predicate ErasedOnce(erased: seq<nat>, pos: nat, n: nat)
  {
    |erased| == (n + 4095) / 4096 && forall k :: 0 <= k < |erased| ==> erased[k] == pos + k * 4096
  }

  /** A slot that begins with a sector and has room for an image of `n` bytes. */
  predicate SlotFits(pos: nat, n: nat, size: nat)
  {
    pos % 4096 == 0 && pos + (if n == 0 then 4096 else (n + 4095) / 4096 * 4096) <= size
  }

  /** A part of the body has been uploaded to `pos` when the body is complete and not before.
      A part of no bytes may have cost a sector. */
  ghost predicate Uploaded(body: seq<byte>, from: nat, n: nat, rest: nat, pos: nat, flash: seq<byte>, done: bool, after: seq<byte>, erased: seq<nat>)
  {
    if n > 0 then
      && (done <==> |body| >= from + n + rest)
      && (done ==> Placed(flash, after, pos, body[from..from + n]) && ErasedOnce(erased, pos, n))
    else
      && (erased == [] || erased == [pos]) && |after| == |flash| && (done ==> |body| >= from + rest)
      && forall i :: 0 <= i < |flash| ==> after[i] == if erased == [pos] && pos <= i < pos + 4096 then 0xff else flash[i]
  }

  /** Uploads a body in chunks, the first of which holds the header.  A header that is not
      accepted changes nothing.  Otherwise, when all of the body has come, the slot holds
      exactly the selected part of it, the rest of its last sector is erased, each sector
      was erased once and in order, and nothing else changed. */
  method Receive(target: Target, userbin: nat, forced: bool, postLen: nat, flash: seq<byte>, chunks: seq<seq<byte>>)
    returns (done: bool, after: seq<byte>, erased: seq<nat>)
    requires chunks != [] && HeaderIn(target, chunks[0])
    requires Accepted(target, forced, postLen, chunks[0]) ==>
               if !Combined(target, chunks[0]) then SlotFits(target.fw1Pos, postLen, |flash|)
               else if userbin == 1 then SlotFits(target.fw1Pos, Word(chunks[0], 32), |flash|)
               else SlotFits(target.fw2Pos, Word(chunks[0], 36), |flash|)
    ensures !Accepted(target, forced, postLen, chunks[0]) ==> !done && after == flash && erased == []
    ensures var t, data, body := target, chunks[0], Concat(chunks);
            Accepted(t, forced, postLen, data) ==>
              if !Combined(t, data) then Uploaded(body, 0, postLen, 0, t.fw1Pos, flash, done, after, erased)
              else
                var len1, len2 := Word(data, 32), Word(data, 36);
                if userbin == 1 then Uploaded(body, 40, len1, len2, t.fw1Pos, flash, done, after, erased)
                else Uploaded(body, 40 + len1, len2, 0, t.fw2Pos, flash, done, after, erased)
  {
    hide PlanFor, Flashed, Sectors, Uploader.Valid, Accepted, Word, Uploaded;
    var u := new Uploader(target, userbin, forced, postLen, flash);
    ghost var plan := PlanFor(target, userbin, forced, postLen, chunks[0]);
    PlanIs(target, userbin, forced, postLen, chunks[0]);
    if plan.Go? {
      FitsIs(plan, |flash|);
    }
    u.Chunk(chunks[0]);
    assert Concat(chunks[..1]) == chunks[0] by { assert chunks[..1] == [chunks[0]]; OneChunk(chunks[0]); }
    if u.state == Error {
      Refuse(u, chunks);
    } else {
      More(u, chunks, plan.header);
      UploadEnds(u, Concat(chunks), plan.header, flash);
    }
    done, after, erased := u.state == Done, u.flash, u.erased;
  }

  lemma FitsIs(plan: Plan, size: nat)
    requires plan.Go?
    ensures Layout(plan.before, plan.n, plan.after, plan.base).Fits(size) <==> SlotFits(plan.base, plan.n, size)
  {
  }

  /** What is in flash when the machine has stopped. */
  lemma UploadEnds(u: Uploader, body: seq<byte>, header: nat, flash: seq<byte>)
    requires u.Valid() && u.state != Start && u.state != Error && header <= |body| && u.body == body[header..] && u.flash0 == flash
    ensures Uploaded(body, header + u.l.before, u.l.n, u.l.after, u.l.base, flash, u.state == Done, u.flash, u.erased)
  {
    hide Flashed, Sectors;
    var l := u.l;
    if l.n > 0 {
      if |u.body| >= l.before + l.n + l.after {
        u.Complete();
        SliceOfTail(body, header, l.before, l.n);
        PlacedIs(flash, l.base, body[header + l.before..header + l.before + l.n]);
      }
    } else {
      EmptyEnds(u, flash);
    }
  }

  lemma EmptyEnds(u: Uploader, flash: seq<byte>)
    requires u.Valid() && u.state != Start && u.state != Error && u.l.n == 0 && u.flash0 == flash
    ensures u.erased == [] || u.erased == [u.l.base]
    ensures |u.flash| == |flash|
    ensures forall i :: 0 <= i < |flash| ==>
              u.flash[i] == if u.erased == [u.l.base] && u.l.base <= i < u.l.base + 4096 then 0xff else flash[i]
  {
    hide Flashed, Sectors, SectorAddresses, InPage, AllInFlash, Layout.Fits, Layout.Image;
    NothingFlashed(flash, u.l.base);
    NoAddresses(u.l.base);
    if u.state == Write {
      EmptyPage(u.l, u.body, u.page[..], u.pagePos, u.address, flash, u.flash, u.erased);
    } else if AllInFlash(u.l, u.body, flash, u.flash, u.erased) {
      EmptyAll(u.l, u.body, flash, u.flash, u.erased);
    }
    EmptyFlashed(flash, u.l.base, |u.erased|);
  }

  lemma EmptyPage(l: Layout, body: seq<byte>, page: seq<byte>, pagePos: nat, address: nat, flash0: seq<byte>, flash: seq<byte>, erased: seq<nat>)
    requires l.n == 0 && InPage(l, body, page, pagePos, address, flash0, flash, erased)
    ensures erased == [] && flash == Flashed(flash0, l.base, [], 0)
  {
    hide Flashed, Sectors, SectorAddresses;
    NoSectors();
    assert l.Image(body) == [];
  }

  lemma EmptyAll(l: Layout, body: seq<byte>, flash0: seq<byte>, flash: seq<byte>, erased: seq<nat>)
    requires l.n == 0 && AllInFlash(l, body, flash0, flash, erased)
    ensures |erased| <= 1 && erased == SectorAddresses(l.base, |erased|) && flash == Flashed(flash0, l.base, [], |erased|)
  {
    hide Flashed, Sectors, SectorAddresses;
    assert l.Image(body) == [];
  }

  lemma NoAddresses(base: nat)
    ensures SectorAddresses(base, 0) == [] && SectorAddresses(base, 1) == [base]
  {
  }

  lemma EmptyFlashed(flash: seq<byte>, base: nat, sectors: nat)
    requires sectors <= 1
    ensures forall i :: 0 <= i < |flash| ==>
              Flashed(flash, base, [], sectors)[i] == if sectors == 1 && base <= i < base + 4096 then 0xff else flash[i]
  {
  }

  lemma PlacedIs(flash: seq<byte>, pos: nat, image: seq<byte>)
    ensures Placed(flash, Flashed(flash, pos, image, Sectors(|image|)), pos, image)
    ensures ErasedOnce(SectorAddresses(pos, Sectors(|image|)), pos, |image|)
  {
  }

  /** Bytes after a header that was refused are eaten up. */
  method Refuse(u: Uploader, chunks: seq<seq<byte>>)
    requires chunks != [] && u.page.Length == PAGELEN && u.state == Error
    modifies u, u.page
    ensures u.state == Error && u.flash == old(u.flash) && u.erased == old(u.erased)
  {
    var i := 1;
    while i < |chunks|
      invariant u.state == Error && u.flash == old(u.flash) && u.erased == old(u.erased)
    {
      u.Chunk(chunks[i]);
      i := i + 1;
    }
  }

  /** Receives all chunks but the first. */
  method More(u: Uploader, chunks: seq<seq<byte>>, ghost header: nat)
    requires chunks != [] && u.page.Length == PAGELEN && u.state != Start && u.state != Error && u.Valid()
    requires header <= |Concat(chunks[..1])| && u.body == Concat(chunks[..1])[header..]
    modifies u, u.page
    ensures u.state != Start && u.state != Error && u.Valid() && u.l == old(u.l)
    ensures header <= |Concat(chunks)| && u.body == Concat(chunks)[header..]
  {
    hide Uploader.Valid;
    var i := 1;
    while i < |chunks|
      invariant 1 <= i <= |chunks| && u.state != Start && u.state != Error && u.Valid() && u.l == old(u.l)
      invariant header <= |Concat(chunks[..i])| && u.body == Concat(chunks[..i])[header..]
    {
      u.Chunk(chunks[i]);
      ConcatNext(chunks, i, header);
      i := i + 1;
    }
    assert chunks[..i] == chunks;
  }

  lemma SliceOfTail(s: seq<byte>, a: nat, b: nat, n: nat)
    requires a + b + n <= |s|
    ensures s[a..][b..b + n] == s[a + b..a + b + n]
  {
  }

  lemma ConcatNext(chunks: seq<seq<byte>>, i: nat, from: nat)
    requires i < |chunks| && from <= |Concat(chunks[..i])|
    ensures from <= |Concat(chunks[..i + 1])|
    ensures Concat(chunks[..i + 1])[from..] == Concat(chunks[..i])[from..] + chunks[i]
  {
    assert chunks[..i + 1][..i] == chunks[..i];
  }

  lemma OneChunk(c: seq<byte>)
    ensures Concat([c]) == c
  {
    assert [c][..0] == [];
  }
}

/** Whole runs of calls.  Whatever is written back when, a run gives the results plain
    byte sequences would give. */
module Runs {
  import opened Geometry
  import opened Image
  import opened Steps
  import opened Volume
  import opened Nucleus
  import opened Cache
  import opened FreeId
  import opened Objects
  import opened Pending
  import opened Api
  import opened Encoding
  import opened Reader
  import Modify

  datatype Call =
    | CallOpen(path: string, hint: Option<nat>, block: nat, entry: nat)
    | CallWrite(f: nat, data: seq<byte>)
    | CallRead(f: nat, len: nat)
    | CallSeek(f: nat, to: nat)
    | CallFlush(f: nat)
    | CallClose(f: nat)
    | CallRemove(path: string, block: nat, entry: nat)

  datatype Result = Done | Bytes(bytes: seq<byte>) | Descriptor(f: nat) | Refused(status: Status)

  ghost predicate Named(p: Plain, path: string)
  {
    exists id :: id in p.files && p.files[id].name == path
  }

  /** A descriptor that cannot be used. */
  ghost predicate NoHandle(p: Plain, f: nat, status: Status)
  {
    if f < |p.handles| then p.handles[f] == Closed && status == ErrFileClosed else status == ErrBadDescriptor
  }

  /** What can be seen of a session: its files and handles, the handles that take their file
      for empty while data is pending, and whether a descriptor can be had. */
  datatype Observed = Observed(plain: Plain, blind: set<nat>, free: bool)

  ghost function Observe(s: Session): Observed
    reads s, s.fs
  {
    Observed(s.State(), (set f: nat | f < |s.fs.fds| && Tracked(s.fs.fds[f]) && s.Hidden(f)), s.HasFreeFd())
  }

  /** Only files of at most a cache page are taken for empty. */
  ghost predicate BlindToLittle(o: Observed)
  {
    forall f :: f in o.blind ==>
      && f < |o.plain.handles| && o.plain.handles[f].Opened? && o.plain.handles[f].id in o.plain.files
      && |o.plain.files[o.plain.handles[f].id].bytes| <= PAGE_SIZE
  }

  /** A read finds that the file has ended: the handle stands at its end, or takes it for empty. */
  ghost predicate SeesEnd(o: Observed, f: nat, len: nat)
    requires Standing(o.plain, f)
  {
    var h := o.plain.handles[f];
    h.offset == |o.plain.files[h.id].bytes| || (len > 0 && f in o.blind)
  }

  /** When a call may be refused.  What is refused changes nothing. */
  ghost predicate PlainRefused(o: Observed, call: Call, status: Status)
  {
    var p := o.plain;
    match call
    case CallOpen(path, _, _, _) =>
      if |path| >= NAME_LEN then status == ErrNameTooLong
      else (status == ErrOutOfFileDescs && !o.free) || (status in {ErrFull, ErrNotFound} && !Named(p, path))
    case CallRead(f, len) => NoHandle(p, f, status) || (Standing(p, f) && status == ErrEndOfObject && SeesEnd(o, f, len))
    case CallSeek(f, to) =>
      || NoHandle(p, f, status)
      || (Standing(p, f) &&
          var n := |p.files[p.handles[f].id].bytes|;
          || (status == ErrEndOfObject && to > n)
          || (status == ErrNotFound && (to <= n ==> IxSpan(PageOf(to)) >= IxCount(PagesFor(n)))))
    case CallRemove(path, _, _) =>
      if |path| >= NAME_LEN then status == ErrNameTooLong
      else (status == ErrOutOfFileDescs && !o.free) || (status == ErrNotFound && !Named(p, path))
    case _ => NoHandle(p, call.f, status)
  }

  /** A call takes the plain files and handles from those of `o` to `p'` with the given
      result.  A read gives bytes only if it does not see the end of the file. */
  ghost predicate PlainCall(o: Observed, call: Call, result: Result, p': Plain)
  {
    var p := o.plain;
    if result.Refused? then p' == p && PlainRefused(o, call, result.status) else
    match call
    case CallOpen(path, _, _, _) => |path| < NAME_LEN && result.Descriptor? && PlainOpened(p, p', result.f, path)
    case CallWrite(f, data) => Standing(p, f) && result == Done && p' == PlainWrite(p, f, data)
    case CallRead(f, len) =>
      && Standing(p, f) && result.Bytes? && (p', result.bytes) == PlainRead(p, f, len)
      && (len > 0 ==> !SeesEnd(o, f, len))
    case CallSeek(f, to) =>
      Standing(p, f) && to <= |p.files[p.handles[f].id].bytes| && result == Done && p' == PlainSeek(p, f, to)
    case CallFlush(f) => Standing(p, f) && result == Done && p' == p
    case CallClose(f) => Standing(p, f) && result == Done && p' == p.(handles := p.handles[f := Closed])
    case CallRemove(path, _, _) =>
      result == Done && exists id: nat :: id in p.files && p.files[id].name == path && p' == PlainRemoved(p, id)
  }

  /** A call may be made: its descriptor is closed or was opened by name, and a file it
      removes has nothing pending. */
  ghost predicate MayMake(s: Session, call: Call)
    reads s, s.fs
  {
    match call
    case CallOpen(_, _, block, _) => block < BLOCKS
    case CallRemove(path, block, _) => block < BLOCKS && NonePending(s, path)
    case _ => s.Usable(call.f)
  }

  /** Why a run stops: the call may not be made; or what had to be written back or created
      did not reach flash, or not as it should have (`written` is what was reported of
      it); or a descriptor of an empty file now stands past the end. */
  ghost predicate Stops(s: Session, call: Call, written: Status)
    reads s, s.fs, s.dev, s.cache
  {
    || (s.Valid() && !MayMake(s, call))
    || !s.ending.Complete?
    || written in {ErrFull, ErrNotFound, ErrCheck}
    || (call.CallSeek? && call.to > 0 && s.Reaches(s.State(), call.f) && s.State().files[s.State().handles[call.f].id].bytes == [])
  }

  /** Finds that out. */
  method Allowed(s: Session, call: Call) returns (ok: bool)
    requires s.Valid()
    modifies s.fs`cursorBlock, s.fs`cursorEntry
    ensures s.Valid() && Observe(s) == old(Observe(s))
    ensures ok <==> MayMake(s, call)
    ensures !ok ==> Stops(s, call, Ok)
  {
    hide FlashState, LookupState, Mounted, CacheState, Synced, Listed, Linked, Within, SeenFiles, GapFree;
    match call {
      case CallOpen(_, _, block, _) => ok := block < BLOCKS;
      case CallRemove(path, block, _) =>
        ok := block < BLOCKS;
        if ok {
          ok := NothingPending(s, path);
        }
      case _ =>
        var f := call.f;
        ok := f < |s.fs.fds| && s.fs.fds[f].nbr != 0 ==> Tracked(s.fs.fds[f]);
    }
  }

  /** No file with the name has data pending. */
  ghost predicate NonePending(s: Session, path: string)
    reads s, s.fs
  {
    forall id :: id in s.pending && id in s.Seen() ==> s.Seen()[id].name != path
  }

  /** Looks at the header of every object with a write page. */
  method NothingPending(s: Session, path: string) returns (ok: bool)
    requires s.Valid()
    modifies s.fs`cursorBlock, s.fs`cursorEntry
    ensures s.Valid() && Observe(s) == old(Observe(s))
    ensures ok <==> NonePending(s, path)
  {
    hide FlashState, LookupState, CacheState, Synced, Linked, Within, SeenFiles, GapFree, Holds, Tight, FdsPagesOk, FdsSizesOk;
    var i := 0;
    s.CacheInOrder();
    while i < |s.cache.pages|
      invariant i <= |s.cache.pages| && s.Valid() && Observe(s) == old(Observe(s))
      invariant forall j :: 0 <= j < i && s.cache.pages[j].WritePage? ==>
                  s.cache.pages[j].id in s.Seen() && s.Seen()[s.cache.pages[j].id].name != path
    {
      if s.cache.pages[i].WritePage? {
        var id := s.cache.pages[i].id;
        s.PendingAt(i);
        var found := s.fs.FindIdAndSpan(id, true, 0);
        var name := HeaderName(s.fs, id, found);
        if name == path {
          WritesListed(s.cache.pages, s.cache.mem, s.pending);
          return false;
        }
      }
      i := i + 1;
    }
    forall id | id in s.pending && id in s.Seen() ensures s.Seen()[id].name != path {
      assert s.cache.pages[s.pending[id].page].WritePage?;
    }
    ok := true;
  }

  /** The name in the header of an object. */
  method HeaderName(fs: Spiffs, id: nat, found: Option<nat>) returns (name: string)
    requires Mounted(fs) && id in fs.cat
    requires found.Some? ==> Matches(fs.lu, fs.pg, id, true, 0, found.value)
    requires found.None? ==> forall t: nat :: !Matches(fs.lu, fs.pg, id, true, 0, t)
    ensures name == fs.cat[id].name
  {
    hide FlashState, LookupState;
    FileOf(fs.lu, fs.pg, fs.cat, id);
    assert IndexOk(fs.lu, fs.pg, id, fs.cat[id], 0);
    FindIsUnique(fs.lu, fs.pg, fs.cat, id, true, 0, fs.cat[id].ixs[0]);
    if found.None? {
      assert false;
    }
    FindIsUnique(fs.lu, fs.pg, fs.cat, id, true, 0, found.value);
    name := fs.pg[found.value].name;
  }

  /** Makes one call. */
  method Make(s: Session, call: Call) returns (ok: bool, result: Result, written: Status)
    requires s.Valid() && IdsFitBitmap()
    modifies s, s.fs, s.dev, s.cache
    ensures s.InSync()
    ensures ok ==> s.Valid() && PlainCall(old(Observe(s)), call, result, s.State())
    ensures !ok ==> Stops(s, call, written)
  {
    hide Stops, PlainCall, FlashState, LookupState, Mounted, CacheState, PlainWrite, PlainRead, PlainOpened, PlainRemoved, Synced, Listed, Linked, Within, SeenFiles, GapFree;
    result, written := Done, Ok;
    s.LookupInOrder();
    ok := Allowed(s, call);
    s.LookupInOrder();
    if !ok {
      return;
    }
    match call {
      case CallOpen(path, hint, block, entry) =>
        ok, result := OpenFile(s, path, hint, block, entry);
      case CallWrite(f, data) =>
        ok, result, written := WriteFile(s, f, data);
      case CallRead(f, len) =>
        ok, result, written := ReadFile(s, f, len);
      case CallSeek(f, to) =>
        ok, result, written := Seek(s, f, to);
      case CallFlush(f) =>
        ok, result, written := Flush(s, f);
      case CallClose(f) =>
        ok, result, written := CloseFile(s, f);
      case CallRemove(path, block, entry) =>
        ok, result := RemoveFile(s, path, block, entry);
    }
  }

  /** A call through a descriptor that cannot be used is refused. */
  method Outcome(s: Session, r: Status, done: Result) returns (ok: bool, result: Result)
    ensures result == if r == Ok then done else Refused(r)
    ensures ok <==> (r == Ok && s.ending.Complete?) || r in {ErrBadDescriptor, ErrFileClosed}
  {
    ok := (r == Ok && s.ending.Complete?) || r in {ErrBadDescriptor, ErrFileClosed};
    result := if r == Ok then done else Refused(r);
  }

  method OpenFile(s: Session, path: string, hint: Option<nat>, block: nat, entry: nat) returns (ok: bool, result: Result)
    requires s.Valid() && IdsFitBitmap() && block < BLOCKS
    modifies s, s.fs, s.dev, s.cache
    ensures s.InSync()
    ensures ok ==> s.Valid() && PlainCall(old(Observe(s)), CallOpen(path, hint, block, entry), result, s.State())
    ensures !ok ==> Stops(s, CallOpen(path, hint, block, entry), Ok)
  {
    hide FlashState, LookupState, Mounted, CacheState, Synced, Listed, Linked, Within, SeenFiles, GapFree, PlainOpened;
    var r, f := s.Open(path, hint, block, entry);
    ok := s.ending.Complete?;
    result := if r == Ok then Descriptor(f) else Refused(r);
  }

  method ReadFile(s: Session, f: nat, len: nat) returns (ok: bool, result: Result, written: Status)
    requires s.Valid() && s.Usable(f)
    modifies s, s.fs, s.dev, s.cache
    ensures s.InSync()
    ensures ok ==> s.Valid() && PlainCall(old(Observe(s)), CallRead(f, len), result, s.State())
    ensures !ok ==> Stops(s, CallRead(f, len), written)
  {
    hide FlashState, LookupState, Mounted, CacheState, Synced, Listed, Linked, Within, SeenFiles, GapFree, PlainRead;
    s.LookupInOrder();
    var r, bytes;
    ghost var mid;
    r, bytes, written, mid := s.Read(f, len);
    ok := r in {ErrBadDescriptor, ErrFileClosed} || (s.ending.Complete? && written == Ok);
    result := if r == Ok then Bytes(bytes) else Refused(r);
  }

  method Seek(s: Session, f: nat, to: nat) returns (ok: bool, result: Result, written: Status)
    requires s.Valid() && s.Usable(f)
    modifies s, s.fs, s.dev, s.cache
    ensures s.InSync()
    ensures ok ==> s.Valid() && PlainCall(old(Observe(s)), CallSeek(f, to), result, s.State())
    ensures !ok ==> Stops(s, CallSeek(f, to), written)
  {
    hide FlashState, LookupState, Mounted, CacheState, Synced, Listed, Linked, Within, SeenFiles, GapFree;
    s.LookupInOrder();
    var r;
    ghost var mid;
    r, written, mid := s.Lseek(f, to, Set);
    ok := r in {ErrBadDescriptor, ErrFileClosed} ||
          (s.ending.Complete? && written == Ok && (r == Ok ==> f < |s.fs.fds| && (to == 0 || s.fs.fds[f].size.Some?)));
    result := if r == Ok then Done else Refused(r);
  }

  method WriteFile(s: Session, f: nat, data: seq<byte>) returns (ok: bool, result: Result, written: Status)
    requires s.Valid() && s.Usable(f)
    modifies s, s.fs, s.dev, s.cache
    ensures s.InSync()
    ensures ok ==> s.Valid() && PlainCall(old(Observe(s)), CallWrite(f, data), result, s.State())
    ensures !ok ==> Stops(s, CallWrite(f, data), written)
  {
    hide FlashState, LookupState, Mounted, CacheState, Synced, Listed, Linked, Within, SeenFiles, GapFree, PlainWrite;
    s.LookupInOrder();
    ghost var done;
    written, done := s.Write(f, data);
    ok, result := Outcome(s, written, Done);
  }

  method CloseFile(s: Session, f: nat) returns (ok: bool, result: Result, written: Status)
    requires s.Valid() && s.Usable(f)
    modifies s, s.fs, s.dev, s.cache
    ensures s.InSync()
    ensures ok ==> s.Valid() && PlainCall(old(Observe(s)), CallClose(f), result, s.State())
    ensures !ok ==> Stops(s, CallClose(f), written)
  {
    hide FlashState, LookupState, Mounted, CacheState, Synced, Listed, Linked, Within, SeenFiles, GapFree;
    s.LookupInOrder();
    written := s.Close(f);
    ok, result := Outcome(s, written, Done);
  }

  method Flush(s: Session, f: nat) returns (ok: bool, result: Result, written: Status)
    requires s.Valid() && s.Usable(f)
    modifies s, s.fs, s.dev, s.cache
    ensures s.InSync()
    ensures ok ==> s.Valid() && PlainCall(old(Observe(s)), CallFlush(f), result, s.State())
    ensures !ok ==> Stops(s, CallFlush(f), written)
  {
    hide FlashState, LookupState, Mounted, CacheState, Synced, Listed, Linked, Within, SeenFiles, GapFree;
    ghost var fds := s.fs.fds;
    if 0 <= f < |fds| && Tracked(fds[f]) {
      s.OpenStands(f);
    }
    var r := s.FflushCache(f);
    ok, result := Outcome(s, r, Done);
    written := r;
    if r == Ok && ok {
      KeptHandles(fds, s.fs.fds);
    }
  }

  method RemoveFile(s: Session, path: string, block: nat, entry: nat) returns (ok: bool, result: Result)
    requires s.Valid() && block < BLOCKS && NonePending(s, path)
    modifies s, s.fs, s.dev, s.cache
    ensures s.InSync()
    ensures ok && s.Valid() && PlainCall(old(Observe(s)), CallRemove(path, block, entry), result, s.State())
  {
    hide FlashState, LookupState, Mounted, CacheState, Synced, Listed, Linked, Within, SeenFiles, GapFree, PlainRemoved;
    var r, c;
    ghost var id;
    r, c, id := s.Remove(path, block, entry);
    ok, result := true, if r == Ok then Done else Refused(r);
  }

  /** A string of C. */
  predicate CharsOk(path: string)
  {
    forall c :: c in path ==> 0 < c as int < 256
  }

  /** A call leaves files that can be told in flash, if it opens none under a name that is
      not a string of C, and there are not too many. */
  lemma StorableCall(o: Observed, call: Call, result: Result, p': Plain)
    requires PlainCall(o, call, result, p') && Storable(o.plain.files) && |o.plain.files| < 0x7ffe
    requires call.CallOpen? ==> CharsOk(call.path)
    ensures Storable(p'.files)
  {
    hide IdOk, LeastFree;
    if call.CallOpen? && !result.Refused? && p'.files != o.plain.files {
      var id: nat :| id in p'.files && LeastFree(o.plain.files, id) && p'.files == o.plain.files[id := FileView(call.path, [])];
      LeastIsSmall(o.plain.files, id);
    }
  }

  /** The least free id is at most one more than the number of files. */
  lemma LeastIsSmall(files: map<nat, FileView>, id: nat)
    requires LeastFree(files, id) && |files| < 0x7ffe
    ensures IdOk(id)
  {
    Modify.RangeIn(files.Keys, 1, id - 1);
  }

  /** So does a run. */
  lemma {:induction false} StorableRun(calls: seq<Call>, results: seq<Result>, states: seq<Observed>, n: nat)
    requires |states| == |results| + 1 && n <= |results| <= |calls| && Storable(states[0].plain.files)
    requires forall i :: 0 <= i < |results| ==> PlainCall(states[i], calls[i], results[i], states[i + 1].plain)
    requires forall i :: 0 <= i < |states| ==> |states[i].plain.files| < 0x7ffe
    requires forall i :: 0 <= i < |calls| && calls[i].CallOpen? ==> CharsOk(calls[i].path)
    ensures Storable(states[n].plain.files)
  {
    hide PlainCall, Storable, CharsOk;
    if n > 0 {
      StorableRun(calls, results, states, n - 1);
      StorableCall(states[n - 1], calls[n - 1], results[n - 1], states[n].plain);
    }
  }

  lemma StorableInFlash(s: Session)
    requires s.Valid() && Storable(s.State().files)
    ensures Storable(FilesOf(s.fs)) && Holds(s.fs.lu, s.fs.pg, s.fs.cat) && Tight(s.fs.cat)
    ensures OnFlash(s.fs.flash, s.fs.lu, s.fs.pg, s.fs.eraseCount)
  {
    hide Holds, OnFlash, IdOk, NameOk, Tight, LookupState, CacheState, Listed, Linked, Synced, Within;
    SeenKeys(FilesOf(s.fs), s.pending);
    forall id | id in FilesOf(s.fs) ensures IdOk(id) && NameOk(FilesOf(s.fs)[id].name) {
      assert id in s.State().files;
      assert s.State().files[id].name == FilesOf(s.fs)[id].name;
    }
  }

  /** Then the bytes in flash determine the files in flash: any other volume that flash
      holds has the same lookup and the same files. */
  lemma FlashTells(s: Session, lu: seq<Entry>, pg: seq<Page>, counts: seq<nat>, cat: Catalogue)
    requires s.Valid() && Storable(s.State().files) && SmallVolume()
    requires Stored(s.fs.flash, lu, pg, counts, cat) && Tight(cat)
    ensures lu == s.fs.lu && Files(pg, cat) == FilesOf(s.fs)
  {
    hide Holds, OnFlash, Storable, SmallVolume, Tight;
    StorableInFlash(s);
    FlashDetermines(s.fs.flash, s.fs.lu, s.fs.pg, s.fs.eraseCount, s.fs.cat, lu, pg, counts, cat);
  }

  lemma BlindAreShort(s: Session)
    requires s.Valid()
    ensures BlindToLittle(Observe(s))
  {
    hide FlashState, LookupState, Mounted, CacheState, Synced, Listed, Linked, Within, SeenFiles, GapFree;
    forall f | f in Observe(s).blind
      ensures s.Reaches(s.State(), f) && |s.State().files[s.State().handles[f].id].bytes| <= PAGE_SIZE
    {
      s.HiddenIsPending(f);
    }
  }

  /** Makes calls one after the other, until one `Stops` the run.  Every result is the one
      plain byte sequences would have given; calls that are refused change nothing.
      Lookup, counters and cursors agree, flash holds the volume and the copies in the cache
      equal flash in any case. */
  method Run(s: Session, calls: seq<Call>) returns (results: seq<Result>, written: Status, ghost states: seq<Observed>)
    requires s.Valid() && IdsFitBitmap()
    modifies s, s.fs, s.dev, s.cache
    ensures s.InSync()
    ensures |results| <= |calls| && |states| == |results| + 1 && states[0] == old(Observe(s))
    ensures forall i :: 0 <= i < |results| ==> PlainCall(states[i], calls[i], results[i], states[i + 1].plain)
    ensures forall i :: 0 <= i < |states| ==> BlindToLittle(states[i])
    ensures |results| == |calls| ==> s.Valid() && states[|calls|] == Observe(s)
    ensures |results| < |calls| ==> Stops(s, calls[|results|], written)
  {
    hide FlashState, LookupState, PlainCall, BlindToLittle, Mounted, CacheState, Synced, Listed, Linked, Within, SeenFiles, GapFree;
    results, written, states := [], Ok, [Observe(s)];
    s.LookupInOrder();
    BlindAreShort(s);
    while |results| < |calls|
      invariant |results| <= |calls| && |states| == |results| + 1 && states[0] == old(Observe(s))
      invariant s.Valid() && states[|results|] == Observe(s)
      invariant forall i :: 0 <= i < |results| ==> PlainCall(states[i], calls[i], results[i], states[i + 1].plain)
      invariant forall i :: 0 <= i < |states| ==> BlindToLittle(states[i])
    {
      var ok, result;
      ok, result, written := Make(s, calls[|results|]);
      if !ok {
        return;
      }
      BlindAreShort(s);
      results, states := results + [result], states + [Observe(s)];
    }
    s.LookupInOrder();
  }
}

/** Pending pages: data written to files that is still in the page cache.  The files
    a user sees are those in flash with the pending pages laid over them. */
module Pending {
  import opened Geometry
  import opened Image
  import opened Volume
  import opened Cache
  import opened Hydrogen

  /** Data waiting in cache page `page` to be written at `offset` of a file. */
  datatype Pending = Pending(page: nat, offset: nat, data: seq<byte>)

  /** What a write page holds. */
  function Held(page: CachePage, mem: seq<byte>): seq<byte>
    requires page.WritePage? && page.size <= |mem|
  {
    mem[..page.size]
  }

  /** `pending` lists the write pages by object. */
  ghost predicate Listed(pages: seq<CachePage>, mem: seq<seq<byte>>, pending: map<nat, Pending>)
    requires |pages| == |mem|
  {
    && (forall id :: id in pending ==>
          var p := pending[id];
          && p.page < |pages| && pages[p.page] == WritePage(id, p.offset, |p.data|)
          && |p.data| <= |mem[p.page]| && p.data == Held(pages[p.page], mem[p.page]))
    && (forall i :: 0 <= i < |pages| && pages[i].WritePage? ==> pages[i].id in pending && pending[pages[i].id].page == i)
  }

  /** Pending data leaves no gap behind the end of its file. */
  ghost predicate GapFree(files: map<nat, FileView>, pending: map<nat, Pending>)
  {
    forall id :: id in pending ==> id in files && pending[id].offset <= |files[id].bytes|
  }

  /** A file with its pending data laid over it. */
  function Lay(v: FileView, p: Pending): FileView
  {
    if p.offset <= |v.bytes| then Spliced(v, p.offset, p.data) else v
  }

  /** The files as their users see them. */
  function SeenFiles(files: map<nat, FileView>, pending: map<nat, Pending>): map<nat, FileView>
  {
    map id | id in files :: if id in pending then Lay(files[id], pending[id]) else files[id]
  }

  /** A descriptor that refers to a cache page refers to the write page of its object. */
  ghost predicate Linked(fds: seq<Fd>, links: seq<Option<nat>>, pages: seq<CachePage>)
  {
    && |links| == |fds|
    && forall f :: 0 <= f < |fds| && links[f].Some? ==>
         && Tracked(fds[f]) && links[f].value < |pages|
         && pages[links[f].value].WritePage? && pages[links[f].value].id == fds[f].id
  }

  /** Descriptors stand within their files. */
  ghost predicate Within(fds: seq<Fd>, seen: map<nat, FileView>)
  {
    forall f :: 0 <= f < |fds| && Tracked(fds[f]) ==> fds[f].id in seen && fds[f].offset <= |seen[fds[f].id].bytes|
  }

  // ---------------------------------------------------------------------------

  /** Writing the pending data of a file to flash changes nothing its users see. */
  lemma DumpUnseen(files: map<nat, FileView>, pending: map<nat, Pending>, id: nat)
    requires GapFree(files, pending) && id in pending
    ensures var files' := files[id := Spliced(files[id], pending[id].offset, pending[id].data)];
            GapFree(files', pending - {id}) && SeenFiles(files', pending - {id}) == SeenFiles(files, pending)
  {
    var files' := files[id := Spliced(files[id], pending[id].offset, pending[id].data)];
    var a, b := SeenFiles(files', pending - {id}), SeenFiles(files, pending);
    forall i | i in a ensures a[i] == b[i] {
    }
  }

  /** When only the first bytes of what is pending reach flash, the others are gone. */
  lemma DumpPart(files: map<nat, FileView>, pending: map<nat, Pending>, id: nat, done: nat)
    requires GapFree(files, pending) && id in pending && done <= |pending[id].data|
    ensures var v := Spliced(files[id], pending[id].offset, pending[id].data[..done]);
            && GapFree(files[id := v], pending - {id})
            && SeenFiles(files[id := v], pending - {id}) == SeenFiles(files, pending)[id := v]
  {
    var v := Spliced(files[id], pending[id].offset, pending[id].data[..done]);
    var a, b := SeenFiles(files[id := v], pending - {id}), SeenFiles(files, pending)[id := v];
    forall i | i in a ensures a[i] == b[i] {
    }
  }

  /** Writing to flash a file that has nothing pending. */
  lemma WriteSeen(files: map<nat, FileView>, pending: map<nat, Pending>, id: nat, v: FileView)
    requires GapFree(files, pending) && id in files && id !in pending
    ensures GapFree(files[id := v], pending)
    ensures SeenFiles(files[id := v], pending) == SeenFiles(files, pending)[id := v]
  {
    var a, b := SeenFiles(files[id := v], pending), SeenFiles(files, pending)[id := v];
    forall i | i in a ensures a[i] == b[i] {
    }
  }

  /** Data stored in a pending page is data written to the file. */
  lemma StoreSeen(files: map<nat, FileView>, pending: map<nat, Pending>, id: nat, offset: nat, data: seq<byte>)
    requires GapFree(files, pending) && id in pending
    requires pending[id].offset <= offset <= pending[id].offset + |pending[id].data|
    ensures var p := pending[id].(data := Splice(pending[id].data, offset - pending[id].offset, data));
            var seen := SeenFiles(files, pending);
            && GapFree(files, pending[id := p]) && id in seen && offset <= |seen[id].bytes|
            && SeenFiles(files, pending[id := p]) == seen[id := Spliced(seen[id], offset, data)]
  {
    var p := pending[id].(data := Splice(pending[id].data, offset - pending[id].offset, data));
    var seen := SeenFiles(files, pending);
    SpliceSplice(files[id].bytes, p.offset, pending[id].data, offset, data);
    var a, b := SeenFiles(files, pending[id := p]), seen[id := Spliced(seen[id], offset, data)];
    assert a.Keys == b.Keys;
    forall i | i in a ensures a[i] == b[i] {
    }
  }

  /** An empty pending page is not seen. */
  lemma EmptyUnseen(files: map<nat, FileView>, pending: map<nat, Pending>, id: nat, i: nat, offset: nat)
    requires GapFree(files, pending) && id in files && id !in pending && offset <= |files[id].bytes|
    ensures var pending' := pending[id := Pending(i, offset, [])];
            GapFree(files, pending') && SeenFiles(files, pending') == SeenFiles(files, pending)
  {
    var pending' := pending[id := Pending(i, offset, [])];
    assert Splice(files[id].bytes, offset, []) == files[id].bytes;
    var a, b := SeenFiles(files, pending'), SeenFiles(files, pending);
    forall j | j in a ensures a[j] == b[j] {
    }
  }

  /** Traffic through the cache that keeps the write pages keeps what is pending. */
  lemma KeptListed(pages: seq<CachePage>, mem: seq<seq<byte>>, pages': seq<CachePage>, mem': seq<seq<byte>>, pending: map<nat, Pending>)
    requires WritesKept(pages, mem, pages', mem') && Listed(pages, mem, pending)
    ensures Listed(pages', mem', pending)
  {
    forall i | 0 <= i < |pages'| && pages'[i].WritePage? ensures pages'[i].id in pending && pending[pages'[i].id].page == i {
      assert pages[i].WritePage?;
    }
  }

  lemma KeptLinked(fds: seq<Fd>, fds': seq<Fd>, links: seq<Option<nat>>, pages: seq<CachePage>, mem: seq<seq<byte>>,
                   pages': seq<CachePage>, mem': seq<seq<byte>>)
    requires WritesKept(pages, mem, pages', mem') && Linked(fds, links, pages) && FdsKept(fds, fds')
    ensures Linked(fds', links, pages')
  {
  }

  lemma KeptWithin(fds: seq<Fd>, fds': seq<Fd>, seen: map<nat, FileView>)
    requires Within(fds, seen) && FdsKept(fds, fds')
    ensures Within(fds', seen)
  {
  }

  /** A file that does not shrink keeps the descriptors within it. */
  lemma GrowWithin(fds: seq<Fd>, seen: map<nat, FileView>, id: nat, v: FileView)
    requires Within(fds, seen) && id in seen && |seen[id].bytes| <= |v.bytes|
    ensures Within(fds, seen[id := v])
  {
  }

  /** Freeing the write page of an object and unlinking every descriptor from it. */
  lemma ReleaseKeeps(fds: seq<Fd>, links: seq<Option<nat>>, links': seq<Option<nat>>, pages: seq<CachePage>,
                     mem: seq<seq<byte>>, pending: map<nat, Pending>, id: nat)
    requires |pages| == |mem| && Listed(pages, mem, pending) && Linked(fds, links, pages) && id in pending
    requires |links'| == |links|
    requires forall f :: 0 <= f < |links| ==> links'[f] == if links[f] == Some(pending[id].page) then None else links[f]
    ensures Listed(pages[pending[id].page := Unused], mem, pending - {id})
    ensures Linked(fds, links', pages[pending[id].page := Unused])
  {
  }
}

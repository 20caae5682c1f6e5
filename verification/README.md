# A model of the SPIFFS port and of five small cores of libesphttpd

This project models, in Dafny, the SPIFFS flash file system of the ESP8266 port
(`port/esp8266/spiffs/src`) and five small cores of its web server
(`port/esp8266/libesphttpd`): SHA-1, Base64, the WebSocket frame parser, the
firmware upload and the ESPFS image with its reader.

`dafny verify dfyconfig.toml` checks all of it.

## What is modelled

SPIFFS keeps files in pages of NOR flash.  Erasing a block sets all bits, writing only
clears them.  Each block has a lookup table with one entry a page, each file has an
index header page, further index pages and data pages, and every change of a page that is
already written goes to a new page.  A garbage collector moves what is still used out of
a block and erases it.  On top of that there are a read cache, a write-back cache of one
page an object, and descriptors that remember where index pages are.

The reference views are simple: a file is a name and a sequence of bytes (`FileView`), the
counters are a recount of the lookup (`Counted`), flash holds the pages and the lookup byte
for byte (`OnFlash`) and determines them again (`Reader.FlashDetermines`), a cached page is the flash page it names (`Mirrors`), and a user of the
volume sees plain files and handles (`Plain`).

| file | what it holds |
|---|---|
| Geometry | pages, entries and index places for any geometry |
| Image | lookup, pages, files, and when an image holds files (`Holds`) |
| Steps, Lookup | what one elementary change does to the files, and to the counts |
| Nor, Bits, Encoding | flash as bytes: programming and erasing, flags, the bytes of pages and lookup |
| Reader | the way back: what the bytes in flash say, at the offsets of the source |
| Trace | what is asked of flash, and when that keeps cached pages right |
| Visitor, Candidates | the cyclic lookup search; the in-place table of candidate blocks |
| Volume, Nucleus | class `Spiffs`: flash, counters, cursors, descriptors, page operations |
| Gc | block cleaning, candidate search, collection |
| Objects, Modify, Append, Truncate, Hydrogen | object operations and the write to flash |
| Cache, Flash | the page cache, and the device: flash bytes behind it |
| Pending, Api, Runs | the write-back cache, the calls, and runs of calls |
| Shortfalls | states in which a call does not do what plain files would |
| FreeId, Check, Mount | fresh ids, the consistency check, mounting |
| Sha1, Base64, WebSocket, Upload, EspFs, Bytes | the cores of libesphttpd |

Members that the source writes as loops over mutable state are methods with invariants,
over classes with the fields of the source.  The hardest ones (`Gc.Clean`, `Modify.ModifyAll`,
`Append.ObjectAppend`, `Truncate.TruncateAll`) keep the index page they are changing in the
work buffer.  Their invariants say that the image *with the work buffer in the place of that
page* holds the files, which is true at every step although flash alone is not consistent.

How the model stands for the source:

- A page is named by its slot: its number among the pages that are not lookup pages.
  `SlotPixRoundTrip` and `PixSlotRoundTrip` are the bijection to the page indices of the
  source.  References in index pages are slots too; `PixFits` and `RefRead` tie them to the
  16-bit page indices in flash.
- Class `Spiffs` has the pages as values and, beside them, the bytes of flash.  Every page
  operation records what it asks of flash (`Log`): writes with their kind, command, address and
  bytes, reads of a copy loop, and erasures.  `LookupOk` includes that flash holds lookup,
  pages and erase counts byte for byte, that the record leads there, and that every operation in
  it keeps cached pages equal to flash when its turn comes (`Sound`).  A call plays its
  record through the device (`Flash.Flash.Play`, `Api.Session.Sync`).  Reading a file goes
  through the device byte by byte: the index page is read through the cache, the page index is
  taken from its bytes, and the data page is read through the cache (`Objects.Read`).  Searches, and
  the operations that change files, read the values, which flash holds byte for byte.
- The bytes mean the values.  Module Reader reads entries, headers, references, sizes and names
  at the offsets and with the numbers of the source, written out, and what it reads from flash is
  the lookup, every page in use and the files (`Reader.VolumeRead`).  A search accepts a page
  exactly if its bytes match (`Reader.MatchesRead`, `Reader.NamedRead`), and mounting counts what
  is read from flash (`Mount.MountImage`).  This is for ids of 1 to 0x7ffe, names that are strings of
  C, and volumes of less than 2^32 - 1 bytes of data; runs of calls with such names keep to it
  (`Runs.StorableRun`).
- The layout is that of a 32-bit little-endian target without magic numbers: an index header
  has 46 bytes before its references, other index pages have 8; padding bytes are taken as
  erased, and bytes of a name behind its end as zero.
- Programming is a bitwise AND.  An index page may be programmed in place only where
  `CanProgram` holds, and every data write has a proved precondition that it only clears bits.
- Flash operations succeed.  Pages can run out at every allocation.  When they do is decided by
  the lookup and the number of free blocks (`Volume.Room.CanTake`), and what the source does
  then is modelled to the end of the call: it stores what has been done if it can, or returns
  at once.  `Ending` says what flash is left with, and `Hydrogen.WriteEnds` which bytes can still
  be found there.  After `Complete` the volume is consistent and holds the file with the part
  that was written.  The other endings (lost pages, a stale header, a spare index page, a zero
  length, stale lengths in descriptors, an index page that could not be stored) leave volumes
  that no longer satisfy the conditions the operations rely on; further calls on them are not
  modelled.  Lookup, counters, free cursor, flash and cache agree after every ending.
- Three conditions can be checked before a write.  `Hydrogen.Ample`: there are enough sure pages,
  and it succeeds.  `Modify.Sheltered`: with what a modification gives up before it deletes the
  old page of its last data page, no block holds deleted pages only, so that nothing can be
  erased before; then the number of pages to be had (`Volume.Room.Left`), and whether some block
  does with that page (`Modify.Emptied`), decide how the modification ends.  It is so if every
  block has a page that is free or another file's (`Modify.BarrenStays`), and if the pages given
  up are fewer than those of a block (`Modify.FewPages`).  No block holds deleted pages only: then
  the number of pages to be had decides how an append ends whose bytes belong to one index page.
  The last two are for a volume on which the collector has nothing to do or nothing to erase
  (`Gc.Roomy`), and for the volume that it leaves otherwise (`Hydrogen.AfterCollecting`).
- What a collection does is stated on layouts, that is lookup, pages and erase counts, without
  the code (`Gc.Collected`).  Each run erases the best block: of those with a deleted page the one
  preferred to all others (`Gc.Best`), five points for a deleted page, one less for a page in use,
  and fifty for an erasure of age unless the volume is crammed (`Gc.Preferred`).  The block
  can be cleaned exactly if the free pages outside it suffice for the pages in use in it and the
  index pages elsewhere that refer to them (`Gc.Margin`); every move keeps that number, so that a
  cleaning fails exactly if it was negative at first (`Gc.Clean`).  It gains the deleted pages of
  the block and costs those index pages (`Gc.Cleaned`).  There are at most five runs
  (`Gc.Collection`, `Gc.CollectionEnds`).
- A file that has lost data pages is described by an image with gaps (`Image.HoldsBut`,
  `Image.FilesBut`): what is proved of steps and searches in consistent images is proved of
  those too.
- A file's catalogue entry (`cat`) is ghost state: which slots hold its pages, in order.
- Numbers are unbounded, except for page indices in the page check, lengths and offsets where
  a seek wraps, the byte count of SHA-1, the accumulators of Base64, the 64-bit length of a
  WebSocket frame and the erase count, which wrap as in the source.
- Branches for broken images (a page deleted in its header but not in the lookup, an index
  page that is not found) are proved not to be reached from a consistent image.
- The source reloads its lookup buffer after every move; the model reads the lookup directly.
- A search by name may start anywhere, and the descriptor that a name hash would pick is a
  parameter (`hint`), so hashes and the saved search position do not matter.
- Index pages and the work buffer are values, `fs.pg[x := work]` being the image with the
  buffer in place.

## What does not hold, and when

Where a promise fails the code is modelled as it is and the contract has the exact condition.
Where that is a matter of the state before the call, a lemma or method has such a state.

- Reading through a second descriptor of an empty file, while data is pending in the cache,
  reports the end of the object before the data is written back
  (`port/esp8266/spiffs/src/spiffs_hydrogen.c:376-384`): `Api.Session.Read`, condition `Hidden`;
  `Shortfalls.HiddenRead`.
- A write of no bytes within a file that is written back stores what is in the work buffer when
  the collector is done as the header of the file
  (`port/esp8266/spiffs/src/spiffs_nucleus.c:1410-1413`, `1576-1601`; the check at
  `port/esp8266/spiffs/src/spiffs_nucleus.h:309-315` does not compare ids).  No one notices exactly
  if that is this header.  With more than three free blocks and room the collector does nothing,
  and it is the buffer as it was; with nothing to erase it is blank and rejected, whatever it
  was, or a full volume is reported; otherwise it is the index page stored last, or the table of
  candidate blocks (`port/esp8266/spiffs/src/spiffs_gc.c:247-255`), which can pass for a header on
  volumes of more than 128 blocks: `Modify.StoreStale`, `Gc.GcCheck`, `Gc.TableBytes`, `Api.Session.FflushCache`;
  `Shortfalls.EmptyWrite`, `Shortfalls.CollectedWrite`.
- Seeking to the end of a file whose last index page is full, from another index page, is
  refused as not found: `Api.Session.SeekIndex`, `Api.SeekMissesOnlyFullEnd`;
  `Shortfalls.FullEnd`.
- Removing a file leaves the descriptor used for it in use exactly if its score is 0:
  `Api.Session.Remove`; `Shortfalls.LeakyRemove`.  Data pending for a removed file stays in
  its write page (`Orphaned`).
- If no page can be had for a data page that a modification replaces as a whole, the old page is
  deleted all the same and the loop goes on (`port/esp8266/spiffs/src/spiffs_nucleus.c:1504-1509`,
  `1552-1570`); exactly then that page is lost (`Modify.ModifyPage`).  If no block comes to
  hold deleted pages only before the last old page is deleted (`Modify.Sheltered`), a modification
  loses pages exactly if the first page that cannot be had is for such a data page
  (`Modify.Loses`).  It reports success exactly if the pages to be had are enough, or a block is
  free and what has been deleted leaves another one to be erased for the last index page, and
  either that is the only page missing or the lost pages go on to the end of the data in one
  index page (`Modify.Succeeds`); otherwise a full volume:
  `Modify.ObjectModify`, `Modify.LostForGood`, `Hydrogen.HydroWrite`; `Shortfalls.LostPages`,
  where a full volume is reported, and `Shortfalls.UnnoticedLoss`, where success is, exactly if one
  block is free and the old pages of the data are all there is in some block.
  `Shortfalls.FilledIsUnnoticed` has such a volume: a file fills the first block, one block is
  free, and every other one has one page in use.
- An append that fails can leave an index page without references, or a header with the old length,
  or the length 0 in the header of an empty file, where no other length can be programmed later.
  Length 0 is stored exactly if the file is empty and no page can be had.  For bytes that belong to
  one index page the number of pages to be had says which it is (`Append.AppendCounts`); in general
  the length reached and the length in flash do (`Append.EndOf`), and what was stored before is
  still readable: `Append.ObjectAppend`, `Append.FinishAppend`, `Append.LengthIsNotZero`,
  `Encoding.ZeroLengthStays`; `Shortfalls.ZeroLength`, `Shortfalls.SpareIndexPage`,
  `Shortfalls.TornAppend`.
- A write leaves the cached copy of a page right exactly if it only clears bits; deleting an
  index page or a finished page does not, which is why its copy is dropped: `Flash.Flash.PhysWr`,
  `Bits.DeleteNeedsDrop`.
- Erasing a block of deleted pages makes the free cursor skip free entries exactly if it stands at
  the end of that block: `Volume.EraseSkips`; `Volume.SkippedBlock`.
- The page check takes an erased reference for one to page 0xffff when its range reaches that
  far, and its 16-bit offset then comes round to 0.  It ends and leaves healthy volumes alone
  exactly on the geometries whose pages end below that range: `Check.HarmlessIfSafe`;
  `Check.UnsafeGeometry`, `Check.NeverPasses`.
- The object index check returns at once for every index page with orderly flags, so an orphan
  is reported exactly if its flags are out of order, although the comments at
  `port/esp8266/spiffs/src/spiffs_check.c:10-13` and `969-972` say that every orphan is:
  `Check.OrphanReported`; `Check.OrphanUnreported`.
- The branch for volumes without any erase count tests for a least count of 0 and a greatest of
  0xffff (`port/esp8266/spiffs/src/spiffs_nucleus.c:395-397`), which no volume has; the next count
  is 1 then: `Mount.ScanEraseCounts`.
- The answer to a WebSocket close frame has the two bytes behind its head, which lie behind the
  segment if that ends there; it depends on the stream alone exactly if the segment has both:
  `WebSocket.AnswerInSegment`, `WebSocket.SameAnswer`; `WebSocket.CutClose`.
- The SHA-1 length field counts modulo 2^32 bytes: `Sha1.Sha1Info.Result`.
- The test for another octet after the Base64 decoding loop never succeeds:
  `Base64.LessThanAnOctet`.
- A part of no bytes that reaches the write state still costs one erased sector:
  `Upload.Uploader.FlushPage`.

## Model

| member | source | states |
|---|---|---|
| Runs.Run | port/esp8266/spiffs/src/spiffs_hydrogen.c:201-609 | Any run of open, write, read, seek, flush, close and remove calls, on any number of descriptors and files, gives the results that plain byte sequences would give, whatever is held back in the cache and whenever it is written; refused calls change nothing and the run goes on; a read of anything gives bytes exactly if its handle is not at the end and does not take for empty a file of at most a cache page whose data is pending; descriptors run out only if none is free; it stops only at a call that may not be made (a descriptor not opened by name, a removal of a file with data pending), when something that had to be written did not reach flash as it should, or when a descriptor of an empty file has moved past its end; the lookup, counters and cursor agree, flash holds the volume and all cached pages equal flash in any case |
| Runs.Make | port/esp8266/spiffs/src/spiffs_hydrogen.c:201-609 | One call is one step of the plain model, with the same result, or is refused for a reason the plain model has, a read only at the end or when its handle takes the file for empty while data is pending, and changes nothing, or it stops the run |
| Runs.StorableRun | port/esp8266/spiffs/src/spiffs_hydrogen.c:201-609 | A run of calls keeps to ids and names that can be told in flash, as long as there are fewer than 0x7ffe files |
| Runs.FlashTells | port/esp8266/spiffs/src/spiffs_hydrogen.c:78-148 | Whatever consistent volume is read into the bytes that a session has in flash, it has the files of the session |
| Api.Session.constructor | port/esp8266/spiffs/src/spiffs_hydrogen.c:78-148 | A mounted volume with no open descriptor, on a device without copies, starts with its files and closed handles |
| Api.Session.Sync | port/esp8266/spiffs/src/spiffs_cache.c:120-219 | The flash operations a call has recorded are played through the device: afterwards every cached page equals flash, flash holds the volume, and write pages are untouched |
| Api.Session.Write | port/esp8266/spiffs/src/spiffs_hydrogen.c:437-563 | A write, of no bytes too, replaces bytes at the offset of the descriptor, extends the file by what reaches past its end, moves the offset, and touches no other file, whether it is held back, written back first, or written through; a small write that fits what is pending, or has an unused cache page, cannot fail and leaves flash alone; with nothing pending and ample room it succeeds; written through with nothing pending it ends as the free pages before it say, and what flash is left with is said for every ending; pages run out only when room is scarce for the data, what was pending and one more page |
| Api.Session.WriteSmall | port/esp8266/spiffs/src/spiffs_hydrogen.c:485-537 | A write below a page is stored in the write page or written through, and the file seen is the spliced one either way |
| Api.Session.PutSmall | port/esp8266/spiffs/src/spiffs_hydrogen.c:509-536 | Data goes to the write page of the descriptor, to a new one, or to flash, and is in the file; with a page to be had nothing is asked of flash |
| Api.Session.WriteBig | port/esp8266/spiffs/src/spiffs_hydrogen.c:538-561 | A larger write first writes back what is pending for the object |
| Api.Session.WriteRest | port/esp8266/spiffs/src/spiffs_hydrogen.c:553-561 | The write to flash behind a write-back puts the data, or the first part of it, in the file |
| Api.Session.DumpIfOutside | port/esp8266/spiffs/src/spiffs_hydrogen.c:489-507 | After it the write page, if there is still one, takes the data without a gap and without running past a page |
| Api.Session.Store | port/esp8266/spiffs/src/spiffs_hydrogen.c:519-530 | Data copied into the write page is seen as written to the file, and what is pending stays one gap-free piece of at most a page |
| Api.Session.Allocate | port/esp8266/spiffs/src/spiffs_hydrogen.c:509-517 | Taking an empty write page changes nothing users see and costs no other object its pending data |
| Api.Session.Link | port/esp8266/spiffs/src/spiffs_hydrogen.c:465-470 | A descriptor finds the write page of its object, also one that another descriptor filled |
| Api.Session.Dump | port/esp8266/spiffs/src/spiffs_hydrogen.c:489-502 | Writing the pending page to flash and giving it up changes nothing users see; if it fails the file has the part that was written; with ample room for what is pending it succeeds; an empty page below the end of the file leaves a consistent volume exactly if what the collector leaves in the work buffer is the header of the file |
| Api.Session.Release | port/esp8266/spiffs/src/spiffs_cache.c:263-276 | Every descriptor lets go of the write page before it is freed; the other pending data stays |
| Api.Session.WriteFlash | port/esp8266/spiffs/src/spiffs_hydrogen.c:555-557 | A write to flash of a file with nothing pending is a splice of the file that users see, of the part that was written if it fails; with ample room it succeeds, and otherwise it ends as the free pages before it say; a write of no bytes below the end that reports success keeps the volume exactly if what the collector leaves in the work buffer is the header of the file: what was there before if the collector has nothing to do, never if it finds nothing to erase, and an index page otherwise on volumes of up to 128 blocks; if the collector has work to do, the room it leaves decides |
| Api.Session.ToFlash | port/esp8266/spiffs/src/spiffs_hydrogen.c:414-434 | What a write asks of flash is played through the device, and flash, caches and volume agree afterwards, however it ended |
| Api.Session.FflushCache | port/esp8266/spiffs/src/spiffs_hydrogen.c:757-788 | After a flush nothing is pending for the object, and no file and no handle has changed; with nothing pending it succeeds and leaves all files alone; with ample room for what is pending it succeeds, and otherwise it ends as the free pages before it say, with what that leaves in flash; an empty write page that is written back below the end leaves the volume as it was exactly if what the collector leaves in the work buffer is the header of the file; after a failure only that file can differ; and it fails only when room is scarce; what the collector leaves decides if it has work to do |
| Api.Session.Close | port/esp8266/spiffs/src/spiffs_hydrogen.c:806-824 | Closing writes back what is pending, closes that handle only, and changes no file; with nothing pending it succeeds; after a failure the handle stays and only that file can differ |
| Api.Session.Read | port/esp8266/spiffs/src/spiffs_hydrogen.c:359-411 | A read gives the bytes of the plain file at the offset and moves on, also when the write-back before it failed, which is ignored: then the file is what the write-back left; after a write-back that succeeded it reports the end of the object exactly at the end of the file, or when the descriptor still takes the file for empty while data is pending; the work buffer is left with the index page of the last byte read |
| Api.Session.WriteBack | port/esp8266/spiffs/src/spiffs_hydrogen.c:386-391 | What is pending is written back before a read or a seek; what that leaves is the volume the call goes on with |
| Api.Session.ReadFlushed | port/esp8266/spiffs/src/spiffs_hydrogen.c:386-406 | With nothing pending a read of any length is cut off at the end of the file; it reports the end exactly for a descriptor that knows a length and stands there, and a missing index page exactly for a file not known to have one |
| Api.Session.ReadFlash | port/esp8266/spiffs/src/spiffs_hydrogen.c:392-406 | The bytes read from flash are those of the file that users see, and the work buffer is left with the index page of the last of them |
| Api.Session.Lseek | port/esp8266/spiffs/src/spiffs_hydrogen.c:565-609 | A seek moves the offset and nothing else, or is refused: at a position in the file only where no index page exists for it, which with nothing pending is so exactly when the descriptor does not stand in that index page already; past the end of a file that is not empty it reports the end; the position is the sum as a signed number of 32 bits, and one below 0 stands for one 2^32 further on |
| Api.Session.SeekFlushed | port/esp8266/spiffs/src/spiffs_hydrogen.c:580-608 | With nothing pending a seek that does not report the end fails exactly if the file does not have the index page that the 16-bit page number of the position needs and the descriptor is not in it |
| Api.Session.SeekFrom | port/esp8266/spiffs/src/spiffs_hydrogen.c:580-587 | From the start, the offset or the end, the position is the one asked for, a sum being a signed number of 32 bits |
| Api.Session.SeekInFile | port/esp8266/spiffs/src/spiffs_hydrogen.c:594-596 | For positions in a file the 16-bit page number is the page |
| Api.Session.SeekIndex | port/esp8266/spiffs/src/spiffs_hydrogen.c:594-603 | The index page for a position is found exactly if the file has it |
| Api.SeekMissesOnlyFullEnd | port/esp8266/spiffs/src/spiffs_hydrogen.c:594-603 | The position without an index page is exactly the end of a file whose last index page is full |
| Api.Session.Open | port/esp8266/spiffs/src/spiffs_hydrogen.c:201-279 | Opening with create and read-write gives a handle at offset 0 on the file of that name, which is created empty under the least free id if there is none; a long name is reported, and a full descriptor table, only if no descriptor is free; a full volume is reported only for a new name, when every id is taken, or when the collection fails or leaves no page; what is refused changes nothing; with a free descriptor opening an existing file succeeds |
| Api.Session.CreateFile | port/esp8266/spiffs/src/spiffs_hydrogen.c:237-252 | A created file is empty, has the least id no file had, and leaves all files and pending data as they are; so does a creation that fails, which it does exactly if every id is taken, the collection fails, or it leaves no page |
| Api.Session.CreateInFlash | port/esp8266/spiffs/src/spiffs_hydrogen.c:237-252 | What a creation asks of flash is played through the device, and flash, caches and volume agree afterwards |
| Api.Session.FreshId | port/esp8266/spiffs/src/spiffs_hydrogen.c:241-245 | The id given is the least that no file has, and there is none exactly when all are taken |
| Api.Session.OpenByPage | port/esp8266/spiffs/src/spiffs_nucleus.c:1118-1153 | A descriptor filled in from a header page knows the header page and the length of the object |
| Api.Session.FindByName | port/esp8266/spiffs/src/spiffs_nucleus.c:1607-1669 | A search by name, from any place, finds the header of a file with the name, and finds none only if there is none |
| Api.Session.FindNew | port/esp8266/spiffs/src/spiffs_nucleus.c:2188-2264 | The descriptor found was closed, open descriptors are untouched, and none is found only if every closed one has the highest score |
| Api.Session.AgeScores | port/esp8266/spiffs/src/spiffs_nucleus.c:2196-2206 | Ageing lowers the scores of closed descriptors that were used, never to the score of one never used |
| Api.Candidate | port/esp8266/spiffs/src/spiffs_nucleus.c:2208-2221 | The closed descriptor taken is the one of the same name or the first with the least score |
| Api.Session.FdGet | port/esp8266/spiffs/src/spiffs_nucleus.c:2282-2292 | A descriptor out of range and a closed one are told apart |
| Api.Session.Remove | port/esp8266/spiffs/src/spiffs_hydrogen.c:611-651 | Removing a file takes away exactly that file and, if nothing of it was pending, closes exactly its handles; with data pending its write page stays behind without a file; it fails only for a long name, an unknown name or want of a descriptor, and then changes nothing; the descriptor used for it stays in use exactly if its score was 0 |
| Api.Session.RemoveThrough | port/esp8266/spiffs/src/spiffs_hydrogen.c:611-651 | Through a closed descriptor the object of a header page is removed, and nothing else |
| Api.Session.FillUnnamed | port/esp8266/spiffs/src/spiffs_nucleus.c:1118-1153 | Removing opens the header page in a descriptor that events may not follow |
| Pending.DumpUnseen | port/esp8266/spiffs/src/spiffs_hydrogen.c:757-788 | Splicing the pending data into the file in flash leaves what users see the same |
| Pending.DumpPart | port/esp8266/spiffs/src/spiffs_hydrogen.c:757-788 | Writing back a part of the pending data and giving up the rest changes that file only |
| Pending.StoreSeen | port/esp8266/spiffs/src/spiffs_hydrogen.c:519-530 | Splicing into the pending piece is splicing into the file users see |
| Pending.WriteSeen | port/esp8266/spiffs/src/spiffs_hydrogen.c:555-557 | Changing a file in flash that has nothing pending changes what users see in the same way |
| Pending.EmptyUnseen | port/esp8266/spiffs/src/spiffs_cache.c:246-260 | An empty write page within the file is not seen |
| Pending.ReleaseKeeps | port/esp8266/spiffs/src/spiffs_cache.c:263-276 | Freeing a write page leaves the list of pending data and the links of descriptors in order |
| Api.Session.HiddenIsPending | port/esp8266/spiffs/src/spiffs_hydrogen.c:376-384 | What a descriptor hides that takes its file for empty is all there is in the file, at most a cache page |
| Shortfalls.HiddenRead | port/esp8266/spiffs/src/spiffs_hydrogen.c:376-384 | Two descriptors on an empty file: what one has written is not read through the other, which is told that the file has ended |
| Shortfalls.EmptyWrite | port/esp8266/spiffs/src/spiffs_hydrogen.c:509-517 | A write of no bytes within a file, flushed while the work buffer holds the header of another file and the collector has nothing to do: success is reported, that header is stored as the header of this file, and flash holds no volume with the files there were |
| Shortfalls.CollectedWrite | port/esp8266/spiffs/src/spiffs_gc.c:236-255 | The same with the header of this very file in the buffer, at most three free blocks and no deleted page: the collector blanks the buffer out and the flush fails |
| Shortfalls.LostPages | port/esp8266/spiffs/src/spiffs_nucleus.c:449-465 | Whole pages are written over while two blocks are free and none of them begun, no page is deleted and every block has a page that is free or another file's: the second page is lost and a full volume is reported |
| Shortfalls.UnnoticedLoss | port/esp8266/spiffs/src/spiffs_nucleus.c:1501-1601 | At most a block of whole pages of one index page is written over with at most one block free, no page deleted and room as it is: pages are lost, and success is reported exactly if one block is free and the old pages are all there is in some block |
| Shortfalls.WholePagesLost | port/esp8266/spiffs/src/spiffs_nucleus.c:1501-1601 | Whole pages of one index page that are written over when no page can be had are lost with success reported exactly if one block is free and what is deleted leaves another one to be erased |
| Shortfalls.FilledIsUnnoticed | port/esp8266/spiffs/src/spiffs_nucleus.c:449-465 | There is such a volume: the data pages of a file fill the first block, the last one is free, every other one begins with a header; its files, lookup and counters are in order, there is room for the write, and it reports success |
| Shortfalls.ZeroLength | port/esp8266/spiffs/src/spiffs_nucleus.c:1373-1387 | Data is written to an empty file when no page can be had: the length 0 is programmed in its header |
| Shortfalls.SpareIndexPage | port/esp8266/spiffs/src/spiffs_nucleus.c:1250-1302 | Data is written behind a full last index page with one page to be had: the new index page stays without a reference |
| Shortfalls.TornAppend | port/esp8266/spiffs/src/spiffs_nucleus.c:1302-1396 | Bytes that fit in the last page are pending when no page can be had: they are programmed, but the header keeps the old length |
| Shortfalls.FullEnd | port/esp8266/spiffs/src/spiffs_hydrogen.c:594-603 | A seek to the end of a file whose last index page is full is refused as not found, unless the descriptor has the next index page at hand |
| Shortfalls.LeakyRemove | port/esp8266/spiffs/src/spiffs_hydrogen.c:627-645 | After mounting, a removal takes a descriptor for good |
| Hydrogen.HydroWrite | port/esp8266/spiffs/src/spiffs_hydrogen.c:414-434 | Modifying what exists and appending the rest makes the file the splice into it, at the offset, of the data, or of the part written before pages ran out; in every other file nothing changes; how else it can end, and which bytes of the file can still be found in flash then; with ample room before the call it succeeds; while no block comes to hold deleted pages only before the last old page is deleted, a page is lost exactly if the first page that cannot be had is for a whole one, and a write within the file reports success exactly if the pages before the call are enough, or what is deleted leaves a block to be erased for the last index page; a write of no bytes below the end stores what the collector leaves in the work buffer; if the collector has work to do, the room it leaves decides how the modification ends, or the append at the end of the file, and if the collection fails the write does |
| Hydrogen.PartCollected | port/esp8266/spiffs/src/spiffs_hydrogen.c:414-424 | How a modification ends after a collection, in terms of the room the collection leaves, is how the write ends |
| Hydrogen.RoomForWrite | port/esp8266/spiffs/src/spiffs_gc.c:109-196 | A write that finds too little room, on a volume short of free pages by no more than twice the deleted pages of its best block: that block is erased, and if then three blocks are free and the pages hold what is asked for, the write succeeds with enough sure pages |
| Hydrogen.WriteNothing | port/esp8266/spiffs/src/spiffs_nucleus.c:1405-1604 | A modification by no bytes stores what the collector leaves in the work buffer: it goes unnoticed exactly if that is the header of the file, and is rejected if it does not look like a header; at the end of the file nothing is done |
| Hydrogen.ModifyPart | port/esp8266/spiffs/src/spiffs_hydrogen.c:414-424 | The part of a write that replaces bytes loses a page exactly if the first that cannot be had is for a whole one, and reports success exactly if there are enough pages or a block to be erased for the last index page, while no block comes to hold deleted pages only before the last old page is deleted; if no page can be had from the start and the first page is a whole one, it is lost; all in terms of the room that the collector leaves |
| Hydrogen.AmpleBlocks | port/esp8266/spiffs/src/spiffs_nucleus.c:449-465 | Four free blocks beside those that hold the pages of the write are ample room, if the free pages beside those hold the data and a page |
| Hydrogen.AmpleLeft | port/esp8266/spiffs/src/spiffs_hydrogen.c:414-434 | Ample room for a write is still enough for its append when the modification is done |
| Hydrogen.AppendRest | port/esp8266/spiffs/src/spiffs_hydrogen.c:424-432 | An append behind a modification that reached the end is the rest of the splice, and ends as the room says that the modification and the collection after it leave |
| Hydrogen.ModifyThenAppend | port/esp8266/spiffs/src/spiffs_hydrogen.c:414-434 | Overwriting the first part and appending the rest is one splice |
| Hydrogen.SpliceSplice | port/esp8266/spiffs/src/spiffs_hydrogen.c:489-527 | A splice inside or at the end of spliced data is a splice of the spliced data |
| Modify.ObjectModify | port/esp8266/spiffs/src/spiffs_nucleus.c:1405-1604 | The bytes at the offset are replaced, across data pages and index pages; length, name and all other files stay; if no page can be had for a part of a page, what has been replaced is stored if it can be and a full volume reported; if none can be had for a whole one, that page and the whole ones after it are lost; success is reported then only if the index pages can be stored; everything but the pages gone is still readable; enough sure pages make it succeed; while no block comes to hold deleted pages only before the last old page is deleted, it loses pages exactly if the first that cannot be had is for a whole one, and reports success exactly if the pages to be had are enough, or a block is free, the deletions leave another one to be erased, and the page for the last index page is the only one missing or whole pages are lost up to the end; the room that the collector leaves decides all of this, and if the collection fails its report is that of the modification |
| Modify.ModifyBytes | port/esp8266/spiffs/src/spiffs_nucleus.c:1428-1604 | The same behind the collector: the first page is lost, or the failure reported before anything changes, exactly if no page can be had; while no block comes to hold deleted pages only before the last old page is deleted, what is lost and when success is reported is decided by the number of pages to be had and by whether the deletions leave a block to be erased |
| Modify.ModifyAll | port/esp8266/spiffs/src/spiffs_nucleus.c:1428-1570 | The loop overlays all chunks and blanks out the whole pages no page could be had for, or stops before a chunk that could not be written; the work buffer stands for its index page throughout |
| Modify.ModifyNext | port/esp8266/spiffs/src/spiffs_nucleus.c:1428-1570 | A round of the loop in terms of the pages and the file there were at first: what has been deleted is what the modification has given up, and what could be had of the pages to be had |
| Modify.ModifyRound | port/esp8266/spiffs/src/spiffs_nucleus.c:1428-1570 | A round brings the right index page into the work buffer and overlays one chunk or loses the page; a failed allocation leaves the work buffer standing for what has been modified |
| Modify.RoundRationed | port/esp8266/spiffs/src/spiffs_nucleus.c:1428-1570 | What a round takes of the pages to be had decides whether the page it cannot have is for an index page, a part of a page or a whole one; whole ones of the same index page are lost from then on |
| Modify.LosingGoesOn | port/esp8266/spiffs/src/spiffs_nucleus.c:1501-1570 | Once a page has been lost the next rounds lose whole pages, up to the end of the data, a part of a page or the next index page, where the modification fails |
| Modify.RationEnds | port/esp8266/spiffs/src/spiffs_nucleus.c:1576-1601 | With enough pages all are had; otherwise a data page is lost exactly if the first page not had was for a whole one, and success is reported exactly if the only page missing, or all that were not had up to the end, can be made up for by erasing a block for the last index page |
| Modify.LosesBelow | port/esp8266/spiffs/src/spiffs_nucleus.c:1428-1570 | A page that is lost is never the last one asked for, which is for an index page |
| Modify.TakenOneMore | port/esp8266/spiffs/src/spiffs_nucleus.c:1428-1570 | A further round takes one page for the data page and one for an index page that is left behind |
| Modify.EnterIndex | port/esp8266/spiffs/src/spiffs_nucleus.c:1436-1489 | The index page of the next data page is in the work buffer, and the one before it in flash |
| Modify.SwitchIndex | port/esp8266/spiffs/src/spiffs_nucleus.c:1436-1489 | The index page left behind is stored before the next one is loaded; if it cannot be, the work buffer still stands for it |
| Modify.ModifyChunk | port/esp8266/spiffs/src/spiffs_nucleus.c:1490-1570 | A chunk of one data page: overlaid, lost or refused exactly as a page can be had or not |
| Modify.ModifyPage | port/esp8266/spiffs/src/spiffs_nucleus.c:1490-1564 | One data page is replaced by a copy with the chunk in it; it is lost exactly if no page can be had and it was to be replaced as a whole, and refused exactly if no page can be had for a part of it |
| Modify.ReplacePage | port/esp8266/spiffs/src/spiffs_nucleus.c:1552-1564 | The old page is deleted and the work buffer refers to the new one |
| Modify.FailPage | port/esp8266/spiffs/src/spiffs_nucleus.c:1552-1564 | Without a new page the old one is deleted all the same if it was to be replaced as a whole, and nothing changes otherwise |
| Modify.FinishModify | port/esp8266/spiffs/src/spiffs_nucleus.c:1576-1601 | The work buffer is stored at the end exactly if a page can be had |
| Modify.Finished | port/esp8266/spiffs/src/spiffs_nucleus.c:1576-1601 | What index pages in flash lead to when the work buffer is stored or not: every byte but those in the pages gone |
| Modify.StaleIndex | port/esp8266/spiffs/src/spiffs_nucleus.c:1576-1601 | With the work buffer not stored, all but the pages lost and those replaced since it was loaded is still found in flash |
| Modify.StaleLeads | port/esp8266/spiffs/src/spiffs_nucleus.c:1576-1601 | An index page that is out of date leads exactly to the data pages that are not gone |
| Modify.BarrenStays | port/esp8266/spiffs/src/spiffs_nucleus.c:449-465 | If every block has a page that is free or of another object, no modification of this one leaves a block of deleted pages only, before its last page or with it |
| Modify.FewPages | port/esp8266/spiffs/src/spiffs_nucleus.c:449-465 | If a modification gives up fewer pages than make up a block with those deleted already, none comes to hold deleted pages only before its last page is deleted |
| Modify.StillSheltered | port/esp8266/spiffs/src/spiffs_nucleus.c:449-465 | While a modification has come to an index page and a data page not behind its last one, what it has given up leaves no block to be erased, if all it gives up before the last one does not |
| Modify.EmptiedAtEnd | port/esp8266/spiffs/src/spiffs_nucleus.c:1576-1601 | After the loop a block can be erased for the index page exactly if what was given up makes one |
| Modify.ModifyStep | port/esp8266/spiffs/src/spiffs_nucleus.c:1552-1564 | Replacing the page and the reference in the work buffer overlays the chunk on the file and on nothing else, whatever pages have been lost before |
| Modify.LoseStep | port/esp8266/spiffs/src/spiffs_nucleus.c:1552-1564 | Deleting a data page that was not replaced blanks its bytes out and changes nothing else |
| Modify.LostForGood | port/esp8266/spiffs/src/spiffs_nucleus.c:1501-1552 | Whatever index pages are written for an object that has lost a data page, its file ends before that page |
| Modify.LostIsLost | port/esp8266/spiffs/src/spiffs_nucleus.c:1552-1553 | A page lost by the modification is lost in that sense |
| Modify.StoreStale | port/esp8266/spiffs/src/spiffs_nucleus.c:1588-1601 | What a modification by no bytes stores as the header is what the collector leaves in the work buffer: it is seen by no one exactly if it is the header of the object; it is the buffer of before exactly if the collector has nothing to do, and is rejected if there is nothing to erase; unless it is rejected, the collection and one page after it decide the report |
| Modify.StoreAsHeader | port/esp8266/spiffs/src/spiffs_nucleus.c:965-1016 | A page that passes for a header is stored as one exactly if a page can be had |
| Modify.HeaderReplaced | port/esp8266/spiffs/src/spiffs_nucleus.c:965-1016 | Another page in the place of a header holds the same files only if it is the header |
| Modify.OtherHeader | port/esp8266/spiffs/src/spiffs_nucleus.h:309-315 | The header of another object passes all that is checked of a header |
| Modify.RewritePage | port/esp8266/spiffs/src/spiffs_nucleus.c:1501-1550 | The new page holds the old bytes with the chunk over them, although it is put together from up to three writes that only clear bits |
| Modify.FillRewritten | port/esp8266/spiffs/src/spiffs_nucleus.c:1516-1547 | What stays is copied around the chunk, part by part, into erased bytes |
| Objects.Read | port/esp8266/spiffs/src/spiffs_nucleus.c:1912-2002 | The bytes read through the page cache are the bytes of the file; only cursors and copies of pages change; the index page loaded last is that of the last byte |
| Objects.ReadRound | port/esp8266/spiffs/src/spiffs_nucleus.c:1928-1999 | A chunk of one data page, read through the page cache, is the slice of the file at its place, whatever index page was loaded |
| Objects.ReadIndex | port/esp8266/spiffs/src/spiffs_nucleus.c:1937-1962 | An index page read through the cache is the page of that file and span |
| Objects.ReadPage | port/esp8266/spiffs/src/spiffs_nucleus.c:1963-1992 | The page index found in the bytes of the index page leads to the data page, whose bytes are read through the cache |
| Objects.Create | port/esp8266/spiffs/src/spiffs_nucleus.c:907-957 | A new id gets an empty file of that name; every other file and descriptor stays, also if it fails, which it does only if room for a page is scarce; it fails exactly if the collection does, or if no page can be had after it |
| Objects.NewObject | port/esp8266/spiffs/src/spiffs_nucleus.c:925-957 | With a page to be had, and only then, an empty object is entered; all other files stay in any case |
| Objects.CreateKeepsFds | port/esp8266/spiffs/src/spiffs_nucleus.c:943-957 | No descriptor is misled by the event of a new object |
| Append.ObjectAppend | port/esp8266/spiffs/src/spiffs_nucleus.c:1158-1399 | The data, or the part of it written before pages ran out, is added at the end of the file, across data pages and index pages, and stored; all other files stay and every descriptor of the object learns the new header page and length; enough sure pages make it succeed; if the bytes belong to one index page and no block holds deleted pages only, the number of pages to be had decides success and which of the other endings it comes to; after a torn append the bytes stored before are still readable; the room that the collector leaves decides all of this, and if the collection fails its report is that of the append |
| Append.AppendAll | port/esp8266/spiffs/src/spiffs_nucleus.c:1190-1341 | After the loop the image with the work buffer in place holds the file with the data added, or with the part before an allocation failed; nothing is added exactly if the first byte needs a page and none can be had; a failure to make an index page ends the append at once |
| Append.AppendLoaded | port/esp8266/spiffs/src/spiffs_nucleus.c:1190-1399 | The loop and the store after it add the data, or the part before an allocation failed, and end as the pages to be had say |
| Append.AppendBytes | port/esp8266/spiffs/src/spiffs_nucleus.c:1158-1399 | The same from the start, with the page that a new index page takes: length 0 is stored exactly if the file is empty and no page can be had |
| Append.LoadedFails | port/esp8266/spiffs/src/spiffs_nucleus.c:1341-1396 | After a failed allocation with a block free the store fails too; which ending that is follows from the length reached and the length in flash |
| Append.LoadedCounts | port/esp8266/spiffs/src/spiffs_nucleus.c:1190-1396 | With as many pages as data pages begun and the header they are enough; with fewer an empty file has what was added or length 0, another file nothing, an index page too many, or its old length |
| Append.StartCounts | port/esp8266/spiffs/src/spiffs_nucleus.c:1250-1265 | What the first index page takes of the pages to be had; if it cannot be had nothing has changed |
| Append.FlashLeft | port/esp8266/spiffs/src/spiffs_nucleus.c:1341-1396 | What was in flash before the append is still readable while it runs |
| Append.AppendRound | port/esp8266/spiffs/src/spiffs_nucleus.c:1190-1340 | A round stores a full index page, makes the next one and adds a chunk |
| Append.NextIndex | port/esp8266/spiffs/src/spiffs_nucleus.c:1197-1265 | The full index page is stored before the next one is made; if there is no page for that, all that was appended is in flash, and only after the first index page of an empty file the other descriptors do not know the length |
| Append.AppendNewPage | port/esp8266/spiffs/src/spiffs_nucleus.c:1293-1302 | A chunk that starts a page goes to a new page that the index page in the work buffer refers to |
| Append.AppendToPage | port/esp8266/spiffs/src/spiffs_nucleus.c:1302-1319 | A chunk that fills free bytes of the last page is programmed over erased bytes only |
| Append.AppendNewStep | port/esp8266/spiffs/src/spiffs_nucleus.c:1293-1335 | A new last page with its reference adds the chunk to the file |
| Append.AppendMoreStep | port/esp8266/spiffs/src/spiffs_nucleus.c:1302-1335 | Bytes programmed behind the end of the last page are added to the file |
| Append.LastPageErased | port/esp8266/spiffs/src/spiffs_nucleus.c:1315-1316 | The last data page is still erased behind the end of the file |
| Append.NewIndexPage | port/esp8266/spiffs/src/spiffs_nucleus.c:1250-1265 | The next index page is created empty when the ones before are full |
| Append.StoreAppend | port/esp8266/spiffs/src/spiffs_nucleus.c:1348-1396 | Storing the work buffer and the length makes the image consistent again, with the same files |
| Append.StoreFresh | port/esp8266/spiffs/src/spiffs_nucleus.c:1373-1387 | The header of an object that was empty can be programmed in place: its size field and references are still erased |
| Append.StoreHeader | port/esp8266/spiffs/src/spiffs_nucleus.c:1388-1395 | A header with a new length goes to a new page and the descriptors follow |
| Append.StoreLast | port/esp8266/spiffs/src/spiffs_nucleus.c:1350-1370 | A later index page is programmed in place and the header gets the new length |
| Append.StoreLength | port/esp8266/spiffs/src/spiffs_nucleus.c:1365-1370 | The header gets the new length on a new page |
| Append.FinishAppend | port/esp8266/spiffs/src/spiffs_nucleus.c:1341-1396 | What the loop has added is stored with its length exactly if the header can be programmed in place or a page can be had; the ending is decided by the length reached, the length in flash and the index page at hand, and if the header is not stored the bytes up to the length in flash are readable |
| Append.StoreZero | port/esp8266/spiffs/src/spiffs_nucleus.c:1373-1387 | An append of nothing to an empty file stores length 0 in its header |
| Append.LengthIsNotZero | port/esp8266/spiffs/src/spiffs_nucleus.c:1373-1387 | No image holds the empty file with length 0 in its header |
| Encoding.ZeroLengthStays | port/esp8266/spiffs/src/spiffs_nucleus.c:1373-1387 | A length of 0 in flash stays 0 whatever is programmed over it |
| Append.AfterGc | port/esp8266/spiffs/src/spiffs_nucleus.c:1170-1178 | The collection before an append changes no file |
| Append.AppendPosition | port/esp8266/spiffs/src/spiffs_nucleus.c:1165-1168 | The end known to the descriptor is the end of the file |
| Append.EventSetsSizes | port/esp8266/spiffs/src/spiffs_nucleus.c:1019-1061 | The event of a rewritten header brings page and length of every descriptor of the object up to date |
| Truncate.TruncateObject | port/esp8266/spiffs/src/spiffs_nucleus.c:1673-1687 | Truncating to 0 empties that file and leaves one index page; all other files and every open handle stay; a failure leaves all files, or an image that with another header in the place of one page holds the file cut somewhere and all others as they were; pages run out only if at most two blocks are free or the free pages are no more than needed; if the collection before it fails, its report is that of the truncation |
| Truncate.EmptyFile | port/esp8266/spiffs/src/spiffs_nucleus.c:1673-1687 | After the collection the file is emptied, or an image that with another page in the place of one holds it cut somewhere; all other files stay |
| Truncate.TruncateAll | port/esp8266/spiffs/src/spiffs_nucleus.c:1711-1852 | The loop takes the file down to no data, page by page, and ends; while removing it cannot fail; a failure leaves the file cut somewhere, but for a header that is out of date |
| Truncate.TruncateRound | port/esp8266/spiffs/src/spiffs_nucleus.c:1711-1852 | A round drops the last index page if no data page needs it, then the last data page |
| Truncate.DropChunk | port/esp8266/spiffs/src/spiffs_nucleus.c:1764-1802 | Deleting the last data page cuts the file at the start of that page |
| Truncate.DropStep | port/esp8266/spiffs/src/spiffs_nucleus.c:1764-1802 | The same for the image: the file ends where the page began and no other file changes |
| Truncate.LengthBeforeIsStart | port/esp8266/spiffs/src/spiffs_nucleus.c:1794-1799 | The remainder arithmetic gives the first byte of the last page |
| Truncate.DropIndexPage | port/esp8266/spiffs/src/spiffs_nucleus.c:1717-1730 | An index page that no data page needs is deleted; descriptors that stood in it forget it |
| Truncate.UpdateLength | port/esp8266/spiffs/src/spiffs_nucleus.c:1735-1740 | Between index pages the header gets the length reached; if no page can be had, the image with a header of that length in its place holds the cut file and all others |
| Truncate.RemoveObject | port/esp8266/spiffs/src/spiffs_nucleus.c:1854-1868 | Removing an object succeeds, takes away that file only, and closes the descriptors on it |
| Truncate.MarkRemoved | port/esp8266/spiffs/src/spiffs_nucleus.c:1701-1709 | Marking the header before the deletion loses nothing the deletion needs |
| Truncate.DeleteHeader | port/esp8266/spiffs/src/spiffs_nucleus.c:1858-1868 | With the header the file is gone |
| Truncate.StoreEmpty | port/esp8266/spiffs/src/spiffs_nucleus.c:1869-1877 | The emptied object gets a header without length and references; if no page can be had, only that header is missing |
| Truncate.EventObjectDeleted | port/esp8266/spiffs/src/spiffs_nucleus.c:1019-1061 | The event of a deleted header closes the descriptors of the object and no others |
| Nucleus.StoreIndexPage | port/esp8266/spiffs/src/spiffs_nucleus.c:1436-1457 | Writing the work buffer to a new page changes no file and every descriptor learns where the index page is; if no page can be had the buffer still stands for it; so it is for a file that has lost data pages |
| Nucleus.WriteIndex | port/esp8266/spiffs/src/spiffs_nucleus.c:1576-1601 | A header is rewritten with its event, another index page is moved with its event |
| Nucleus.IndexSlot | port/esp8266/spiffs/src/spiffs_nucleus.c:1459-1483 | The saved cursor of a descriptor and a search give the same page, the one of the index, also for a file that has lost data pages |
| Nucleus.IndexMoveStep | port/esp8266/spiffs/src/spiffs_nucleus.c:1019-1061 | A moved index page and its event together keep image and descriptors in agreement |
| Nucleus.IndexMoveStepBut | port/esp8266/spiffs/src/spiffs_nucleus.c:1019-1061 | The same for a file that has lost data pages |
| Nucleus.SetCursor | port/esp8266/spiffs/src/spiffs_nucleus.c:1484-1486 | Remembering the index page just used keeps the descriptors right |
| Steps.ReplaceData | port/esp8266/spiffs/src/spiffs_nucleus.c:1490-1564 | A data page replaced under its reference keeps the image consistent and changes the bytes of that page only |
| Steps.ReplaceDataBut | port/esp8266/spiffs/src/spiffs_nucleus.c:1490-1564 | The same in a file that has lost other pages |
| Steps.LoseData | port/esp8266/spiffs/src/spiffs_nucleus.c:1552-1564 | A data page deleted without a new one, and a reference to some page or other in its place: the other bytes of the file and all other files are as before |
| Steps.AddData | port/esp8266/spiffs/src/spiffs_nucleus.c:1291-1335 | A data page added under the next reference extends the file by its bytes |
| Steps.ExtendData | port/esp8266/spiffs/src/spiffs_nucleus.c:1302-1335 | Bytes added in the last page extend the file |
| Steps.DropData | port/esp8266/spiffs/src/spiffs_nucleus.c:1764-1802 | A dropped last page cuts the file at its start |
| Steps.MoveIndex | port/esp8266/spiffs/src/spiffs_nucleus.c:812-871 | An index page at a new place changes no file |
| Steps.MoveIndexBut | port/esp8266/spiffs/src/spiffs_nucleus.c:812-871 | The same for a file that has lost data pages |
| Steps.AddIndex | port/esp8266/spiffs/src/spiffs_nucleus.c:1250-1265 | An empty index page changes no file |
| Steps.DropIndex | port/esp8266/spiffs/src/spiffs_nucleus.c:1716-1743 | A dropped index page that refers to nothing changes no file |
| Steps.AddFile | port/esp8266/spiffs/src/spiffs_nucleus.c:907-957 | A fresh header is a new empty file |
| Steps.RemoveFile | port/esp8266/spiffs/src/spiffs_nucleus.c:1855-1868 | A deleted last header removes its file only |
| Steps.FindIsUnique | port/esp8266/spiffs/src/spiffs_nucleus.c:501-562 | In a consistent image one page matches an id and a span, so a search gives the same page from any cursor |
| Steps.FindIndexBut | port/esp8266/spiffs/src/spiffs_nucleus.c:501-562 | The search for an index page of a file that has lost data pages finds the page of the index |
| Image.OneFileStep | port/esp8266/spiffs/src/spiffs_check.c:499-507 | If only slots of one file change and that file is in order, the image is consistent and all other files are the same |
| Image.OneFileStepBut | port/esp8266/spiffs/src/spiffs_check.c:499-507 | The same for an image in which that file has lost data pages |
| Image.WipeStep | port/esp8266/spiffs/src/spiffs_gc.c:87-94 | Erasing deleted pages changes no file |
| Volume.Spiffs.FindFree | port/esp8266/spiffs/src/spiffs_nucleus.c:449-480 | The page chosen is the cyclically first free one from the cursor, and counters, free suffix and cursor agree with taking it; outside a collection one is found exactly if two blocks are free, or one is and another one holds deleted pages only, and a full volume is reported otherwise; if no block holds deleted pages only, the pages to be had one after another are one less |
| Volume.Spiffs.FindFreeEntry | port/esp8266/spiffs/src/spiffs_nucleus.c:464-479 | No page is found only if there is no free entry anywhere |
| Volume.SupplyTaken | port/esp8266/spiffs/src/spiffs_nucleus.c:449-480 | Taking the page found first leaves one less to be had |
| Volume.SureAfter | port/esp8266/spiffs/src/spiffs_nucleus.c:449-480 | The free pages in the block of the cursor and in the blocks that may be begun are sure to be had: taking one leaves at most one less |
| Volume.FirstFreeTaken | port/esp8266/spiffs/src/spiffs_nucleus.c:464-479 | The cyclically first free entry from the cursor has no free entry before it in its block |
| Volume.TakeKeepsCursor | port/esp8266/spiffs/src/spiffs_nucleus.c:474-479 | The cursor behind the page just taken skips no free entry |
| Volume.Spiffs.AllocateData | port/esp8266/spiffs/src/spiffs_nucleus.c:753-806 | A new page holds the header and the payload over erased bytes, in flash byte for byte; nothing else but erased deleted pages differs |
| Volume.Spiffs.TakeEntry | port/esp8266/spiffs/src/spiffs_nucleus.c:770-788 | Writing the entry of a reserved page restores the agreement of counters and lookup, in flash too; the bytes written are those from which the entry is read (Reader.EntryImageRead) |
| Volume.Spiffs.PageDelete | port/esp8266/spiffs/src/spiffs_nucleus.c:876-902 | The page is deleted in lookup and header, by exactly two writes to flash, and the counters follow |
| Volume.Spiffs.PageMove | port/esp8266/spiffs/src/spiffs_nucleus.c:812-871 | The page is at a new place and deleted at the old one, exactly if a page can be had; a failed move changes nothing but erased deleted pages |
| Volume.Spiffs.CbObjectEvent | port/esp8266/spiffs/src/spiffs_nucleus.c:1019-1061 | Every descriptor of the object is changed as the event says, no other one is |
| Volume.EventAfterMove | port/esp8266/spiffs/src/spiffs_nucleus.c:1030-1061 | Descriptors that knew the page of an index page know it after the move and its event |
| Volume.Spiffs.FindIdAndSpan | port/esp8266/spiffs/src/spiffs_nucleus.c:501-562 | From any cursor the search finds a page with that id and span, and finds none only if there is none |
| Volume.Spiffs.UpdateIndexHdr | port/esp8266/spiffs/src/spiffs_nucleus.c:965-1016 | The header is at a new page with the new length if one is given, and its event has been raised |
| Volume.Spiffs.ProgramData | port/esp8266/spiffs/src/spiffs_nucleus.c:1315-1316 | Bytes are written to a data page only where no bit goes from 0 to 1 |
| Volume.Spiffs.PhysCpy | port/esp8266/spiffs/src/spiffs_nucleus.c:83-103 | Copying through a small buffer copies the range into erased bytes |
| Volume.Spiffs.CopyBuffer | port/esp8266/spiffs/src/spiffs_nucleus.c:83-103 | A buffer of bytes goes from one page to the same place in another |
| Volume.Spiffs.ProgramIndex | port/esp8266/spiffs/src/spiffs_nucleus.c:1359-1360 | An index page is programmed in place only from erased fields |
| Volume.Spiffs.PutBytes | port/esp8266/spiffs/src/spiffs_cache.c:180-219 | A write to a page is recorded, and flash holds that page with the bytes programmed, every other page as before |
| Volume.Spiffs.PutEntry | port/esp8266/spiffs/src/spiffs_nucleus.c:770-773 | A write of a lookup entry is recorded, and flash holds the changed lookup |
| Volume.Spiffs.FillPage | port/esp8266/spiffs/src/spiffs_nucleus.c:777-797 | Header and payload written to an erased page are the bytes of the new page |
| Volume.Spiffs.FillGiven | port/esp8266/spiffs/src/spiffs_nucleus.c:836-866 | A moved index page is written unfinished, entered in the lookup and finished, and flash holds it |
| Volume.Spiffs.CopyPage | port/esp8266/spiffs/src/spiffs_nucleus.c:83-103 | A page copied through a small buffer is in flash byte for byte |
| Volume.Spiffs.PutFlags | port/esp8266/spiffs/src/spiffs_nucleus.c:1541-1546 | Writing the flags byte changes the flags of the page and nothing else in flash |
| Volume.Spiffs.Finalize | port/esp8266/spiffs/src/spiffs_nucleus.c:1541-1546 | The page is marked as completely written |
| Nor.RewrittenPage | port/esp8266/spiffs/src/spiffs_nucleus.c:1519-1540 | Three programmed parts make the old page with the new bytes in it |
| Nor.ProgramErased | port/esp8266/spiffs/src/spiffs_nucleus.c:1537-1540 | Data programmed over erased bytes is the data |
| Nor.ProgramTwice | port/esp8266/spiffs/src/spiffs_nucleus.c:90-103 | Two programs of neighbouring ranges are one |
| Volume.Spiffs.EraseBlock | port/esp8266/spiffs/src/spiffs_nucleus.c:226-264 | After erasing, flash holds the volume byte for byte, free entries are behind all others, the number of free blocks is that of a recount, one more than before, and the largest erase count stays below the flag bit |
| Volume.Spiffs.EraseDeleted | port/esp8266/spiffs/src/spiffs_gc.c:87-94 | Erasing a block of deleted pages keeps the counters equal to a recount; the free cursor stands behind free entries then exactly if it stood at the end of that block |
| Volume.Spiffs.GcQuick | port/esp8266/spiffs/src/spiffs_gc.c:32-105 | The first block whose entries are all deleted is erased, if there is one; nothing used is lost |
| Volume.EraseKeeps | port/esp8266/spiffs/src/spiffs_gc.c:87-94 | An erased block keeps free entries behind all others and changes the recount by what it held |
| Volume.EraseKeepsCursor | port/esp8266/spiffs/src/spiffs_nucleus.c:226-264 | The cursor stays right unless it stands inside the erased block |
| Volume.EraseSkips | port/esp8266/spiffs/src/spiffs_gc.c:87-94 | Erasing a block of deleted pages makes the free cursor skip free entries exactly if it stands at the end of that block |
| Volume.SkippedBlock | port/esp8266/spiffs/src/spiffs_gc.c:87-94 | A volume whose first block is all deleted, with the cursor behind it, is such a case |
| Lookup.TakeFree | port/esp8266/spiffs/src/spiffs_nucleus.c:770-788 | Taking the first free entry of a block keeps free entries behind all others, and costs a free block exactly if it is the first entry |
| Lookup.DeleteUsed | port/esp8266/spiffs/src/spiffs_nucleus.c:876-892 | Deleting an entry keeps the order of the block and the number of free blocks |
| Lookup.ErasedSuffix | port/esp8266/spiffs/src/spiffs_nucleus.c:226-264 | An erased block is free to its end |
| Lookup.ErasedFreeBlocks | port/esp8266/spiffs/src/spiffs_nucleus.c:226-264 | Erasing adds a free block unless the block was one |
| Lookup.ErasedCount | port/esp8266/spiffs/src/spiffs_gc.c:199-233 | Erasing a block takes exactly its used and deleted entries off the recount |
| Gc.Clean | port/esp8266/spiffs/src/spiffs_gc.c:377-604 | The find, move and store machine ends; it succeeds exactly if the free pages outside the block suffice for the pages in use in it and the index pages elsewhere that refer to them, and just those have been deleted outside it then; if it succeeds no used entry is left in the block, every file has the bytes and length it had, every descriptor knows the pages, even if moved pages land in the free tail of the block; if it fails one index page is out of date; the work buffer is as it was or has an index page of the volume |
| Gc.TableBytes | port/esp8266/spiffs/src/spiffs_gc.c:247-255 | The table of candidates in the work buffer passes for a header exactly if its second row names block 0 and its third one a block whose number has the flags of a header, which needs more than 128 blocks |
| Gc.MoveDataPass | port/esp8266/spiffs/src/spiffs_gc.c:433-477 | One pass leaves no data page of the loaded index page in the block; it fails exactly when the pages outside the block are too few, and keeps what the block needs |
| Gc.MoveDataEntry | port/esp8266/spiffs/src/spiffs_gc.c:433-477 | Moving a page during the scan puts it where the scan has not been |
| Gc.MoveDataPage | port/esp8266/spiffs/src/spiffs_gc.c:445-474 | A moved page with its reference changed in the work buffer changes no file |
| Gc.MoveDataStep | port/esp8266/spiffs/src/spiffs_gc.c:445-474 | The same for the image with the work buffer in place |
| Gc.MoveDuringScan | port/esp8266/spiffs/src/spiffs_gc.c:433-477 | The target of a move is outside the scanned part of the block |
| Gc.MoveIndexPass | port/esp8266/spiffs/src/spiffs_gc.c:478-514 | After the pass no used entry is left in the block; it fails exactly when the pages outside the block are too few |
| Gc.MoveIndexEntry | port/esp8266/spiffs/src/spiffs_gc.c:478-514 | An index page leaves the block and descriptors follow; other entries are passed over |
| Gc.MoveIndexPage | port/esp8266/spiffs/src/spiffs_gc.c:489-500 | A moved index page with its event changes no file |
| Gc.StoreIndex | port/esp8266/spiffs/src/spiffs_gc.c:569-589 | Storing the work buffer makes the image consistent, without a new data page in the block |
| Gc.MoveDataAndStore | port/esp8266/spiffs/src/spiffs_gc.c:433-589 | Moving all data pages of an index page and storing it leaves no data page before the saved place, and the index page stored no longer refers to the block |
| Gc.FindData | port/esp8266/spiffs/src/spiffs_gc.c:421-432 | The scan stops at the first data page from the saved place on |
| Gc.LoadIndex | port/esp8266/spiffs/src/spiffs_gc.c:528-562 | The index page loaded is the one that refers to the data page found |
| Gc.FindCandidate | port/esp8266/spiffs/src/spiffs_gc.c:236-345 | The table holds the best rows of the stable sort of all blocks with a deleted page, and the count is their number: no block is in it without those before it that are preferred, by five points for a deleted page, one less for a page in use, and fifty for an erasure of age unless the volume is crammed |
| Gc.TableRanked | port/esp8266/spiffs/src/spiffs_gc.c:295-337 | If a block is in the table, every block with a deleted page that is preferred to it is in a row before it |
| Gc.Preferences | port/esp8266/spiffs/src/spiffs_gc.c:311-315 | Between blocks of one age the one with more deleted and no more used pages is preferred, and a deleted page outweighs four used ones; an erasure of age outweighs nine deleted pages, and on a crammed volume age does not matter |
| Gc.AgeIs | port/esp8266/spiffs/src/spiffs_gc.c:305-310 | The age is the number of erasures since the block was erased, with counts modulo 2^16 - 1 |
| Gc.FirstIsBest | port/esp8266/spiffs/src/spiffs_gc.c:150-152 | The first row of such a table is the block preferred to all others |
| Gc.AddCandidate | port/esp8266/spiffs/src/spiffs_gc.c:295-337 | A block enters the table exactly if it holds a deleted page |
| Gc.CountBlock | port/esp8266/spiffs/src/spiffs_gc.c:266-293 | Stopping at the first free entry counts the deleted and used pages of the whole block |
| Gc.BestCandidate | port/esp8266/spiffs/src/spiffs_gc.c:295-337 | The first row has a deleted page, and no block with a deleted page scores more |
| Candidates.InsertCandidate | port/esp8266/spiffs/src/spiffs_gc.c:316-335 | Insertion in place keeps the best rows in order; what falls off the end scores no more |
| Candidates.ShiftDown | port/esp8266/spiffs/src/spiffs_gc.c:324-329 | Rows behind the place go down by one, the last one is lost |
| Candidates.SortedIsOrdered | port/esp8266/spiffs/src/spiffs_gc.c:316-335 | Insertion in the order of discovery is a stable sort by falling score |
| Candidates.InsertOrdered | port/esp8266/spiffs/src/spiffs_gc.c:316-335 | Inserting the block found last keeps the order, behind equal scores |
| Candidates.InsertIntoCut | port/esp8266/spiffs/src/spiffs_gc.c:316-335 | Keeping only the best rows while inserting loses none of the best rows of the whole list |
| Candidates.InsertKeeps | port/esp8266/spiffs/src/spiffs_gc.c:316-335 | Insertion adds one candidate and keeps the others |
| Gc.ErasePageStats | port/esp8266/spiffs/src/spiffs_gc.c:199-233 | The counters go down by exactly what the block holds |
| Gc.Collect | port/esp8266/spiffs/src/spiffs_gc.c:133-196 | At most five runs, each cleaning and erasing the best block, lead to a volume with enough room, or to the reason why not; no file has changed in any case but a torn one; the work buffer has the candidates or the index page stored last |
| Gc.CleanBlock | port/esp8266/spiffs/src/spiffs_gc.c:153-169 | Cleaning and erasing a block succeeds exactly if the free pages outside it suffice; it keeps all files, leaves the block free with the next erase count, gains its deleted pages, and deletes outside it just the index pages that referred to it |
| Gc.CleanBest | port/esp8266/spiffs/src/spiffs_gc.c:133-178 | A run cleans and erases a block exactly if any page is deleted, and it is the one preferred to all others that hold one |
| Gc.CollectionEnds | port/esp8266/spiffs/src/spiffs_gc.c:133-196 | Every collection that does not fail has erased a block if any page was deleted, and ends after five, with no deleted page left, with a volume that stays crammed, or with three blocks free and room enough; only then |
| Gc.CollectionKeeps | port/esp8266/spiffs/src/spiffs_gc.c:133-196 | A collection keeps the pages in use: what it gains in free pages are deleted ones; it reports success only with room for the length, and a full volume only if the free pages are no more than needed |
| Gc.RoomMade | port/esp8266/spiffs/src/spiffs_gc.c:133-178 | If the free pages fall short by no more than twice the deleted pages of the best block, that block is erased; if then three blocks are free and the pages hold the length, it ends there with success |
| Gc.MarginEnough | port/esp8266/spiffs/src/spiffs_gc.c:377-604 | The free pages beside two blocks, and twice the deleted pages of a block, suffice to clean it |
| Gc.FewReferring | port/esp8266/spiffs/src/spiffs_gc.c:528-589 | No more index pages refer to a block than pages in it are in use |
| Gc.MoveAccount | port/esp8266/spiffs/src/spiffs_gc.c:433-514 | Moving a page out of a block, or storing an index page that refers to it, keeps the margin of the block and the pages outside it that are deleted or will be |
| Gc.NoMargin | port/esp8266/spiffs/src/spiffs_gc.c:433-514 | If no page is free while one must still be moved, the pages outside the block were too few |
| Gc.AccountSettled | port/esp8266/spiffs/src/spiffs_gc.c:596-604 | With nothing in use in the block no index page refers to it, and the pages sufficed |
| Gc.GcCheck | port/esp8266/spiffs/src/spiffs_gc.c:109-196 | Success means that the free pages hold the length asked for and that no file has changed. With room and free blocks to spare nothing is done, and a request that the deleted pages cannot meet is refused at once. Otherwise blocks are cleaned and erased, best first, in at most five runs, each of which gains the deleted pages of its block and costs the index pages elsewhere that refer to it; another run follows while fewer than three blocks are free or the free pages are too few, unless a crammed volume stays as it is; it fails exactly if the free pages outside the best block are too few to clean it, and otherwise succeeds exactly if the free pages then hold the length, or, with no deleted page left, if they are more than those needed. The work buffer is left as it was if nothing is done, blank if no page is deleted, and otherwise with what the search for blocks or the cleaning put there |
| Visitor.Visit | port/esp8266/spiffs/src/spiffs_nucleus.c:124-223 | The search returns the cyclically first accepted entry from any start, and ends without one only if none in range is accepted |
| Visitor.VisitBlock | port/esp8266/spiffs/src/spiffs_nucleus.c:124-223 | In a block the first accepted entry from the start on is returned |
| Mount.MountImage | port/esp8266/spiffs/src/spiffs_hydrogen.c:78-148 | Mounting any image gives counters that are a recount of the lookup read from flash, and the next erase count that the counts in flash lead to, with no open descriptor; a consistent image gives a volume in order |
| Mount.Scan | port/esp8266/spiffs/src/spiffs_nucleus.c:320-342 | The scan counts the used and the deleted entries and the blocks whose first entry is free |
| Mount.ScanEraseCounts | port/esp8266/spiffs/src/spiffs_nucleus.c:357-405 | The next erase count is one more than the greatest in flash, or than the least if they have wrapped around, and 1 if there is none |
| Mount.ScanBlock | port/esp8266/spiffs/src/spiffs_nucleus.c:320-342 | The same block by block |
| Mount.Rescan | port/esp8266/spiffs/src/spiffs_nucleus.c:420-444 | The counters kept in every reachable state are those a scan would find |
| FreeId.FindFreeId | port/esp8266/spiffs/src/spiffs_nucleus.c:2079-2115 | In the bitmap branch the id is the smallest that no entry carries; it fails exactly for a name in use, and reports full only if every id with a bit is taken |
| FreeId.MarkAll | port/esp8266/spiffs/src/spiffs_nucleus.c:2012-2043 | The bitmap has a bit exactly for the ids in the lookup, unless the name to avoid is found |
| FreeId.Mark | port/esp8266/spiffs/src/spiffs_nucleus.c:2035-2040 | Marking an id sets its bit and no other |
| FreeId.InUseIsFile | port/esp8266/spiffs/src/spiffs_nucleus.c:2012-2043 | The ids in the lookup are the ids of the files |
| FreeId.NotFull | port/esp8266/spiffs/src/spiffs_nucleus.c:2079-2115 | With fewer files than the bitmap has bits an id is free |
| Check.CheckAll | port/esp8266/spiffs/src/spiffs_hydrogen.c:972-992 | On a mounted volume the lookup and the index check find nothing to mend, the page check does what its scan does, and the closing scan finds the counters there are; on a geometry whose pages end below the range of the erased page index everything passes |
| Check.PageCheck | port/esp8266/spiffs/src/spiffs_check.c:509-848 | The page check is the scan of the ranges in turn, with an offset of 16 bits |
| Check.ScanRange | port/esp8266/spiffs/src/spiffs_check.c:516-845 | A range passes exactly if its references are to pages that exist, proper and single, its live data pages are referred to, and it does not hold the erased page index or the erased references are in order by chance |
| Check.FollowReference | port/esp8266/spiffs/src/spiffs_check.c:583-702 | A bad, improper or second reference is reported, and an erased one in a range that holds the erased page index is followed like any other; what is reported makes the range unclean |
| Check.FollowErased | port/esp8266/spiffs/src/spiffs_check.c:583-702 | An erased reference in such a range is taken for one to the page behind the volume |
| Check.SafeCheck | port/esp8266/spiffs/src/spiffs_check.c:516-845 | On a safe geometry the check ends, and has nothing to mend exactly if the pages are consistent |
| Check.HarmlessIfSafe | port/esp8266/spiffs/src/spiffs_check.c:516-845 | The check ends and leaves every healthy volume alone exactly on the safe geometries |
| Check.UnsafeGeometry | port/esp8266/spiffs/src/spiffs_check.c:513-520 | 256-byte pages, 4096-byte blocks and 4094 of them, are a geometry that is not safe |
| Check.UnsafeScan | port/esp8266/spiffs/src/spiffs_check.c:516-845 | On such a geometry an erased reference that the page behind the volume does not make up for is mended |
| Check.NeverPasses | port/esp8266/spiffs/src/spiffs_check.c:840-845 | Whatever the pages are, the check never ends there having found nothing, since the offset of the range comes round to 0 |
| Check.NoRanges | port/esp8266/spiffs/src/spiffs_check.c:513-520 | With pages of 32768 bytes and their multiples a range has no pages and the check stays where it is |
| Check.OneFileIsHealthy | port/esp8266/spiffs/src/spiffs_check.c:583-642 | A volume with one empty file is healthy and has an erased reference |
| Check.HoldsIsConsistent | port/esp8266/spiffs/src/spiffs_check.c:499-507 | An image that holds files is consistent in the sense of the page check |
| Check.OneIndexPageEach | port/esp8266/spiffs/src/spiffs_check.c:499-507 | A file has exactly one live index page for every span its data needs, and none else |
| Check.LookupCheck | port/esp8266/spiffs/src/spiffs_check.c:173-494 | The lookup check stops at the first entry whose header disagrees with it, and passes exactly if there is none |
| Check.IndexCheck | port/esp8266/spiffs/src/spiffs_check.c:878-993 | The check reports exactly headers of half-removed objects, and pages whose flags are out of order, whose object is not among those noted and has no header to be found; it stops at the first of them |
| Check.OrphanReported | port/esp8266/spiffs/src/spiffs_check.c:914-962 | An index page without a header page is reported exactly if its flags are out of order (and its id is not a 0 still in the table) |
| Check.OrphanUnreported | port/esp8266/spiffs/src/spiffs_check.c:909-912 | An orphan with orderly flags is not reported |
| Check.NotedHaveHeads | port/esp8266/spiffs/src/spiffs_check.c:914-923 | Until something is reported only objects with a header are noted |
| Check.NothingReported | port/esp8266/spiffs/src/spiffs_check.c:878-993 | On a mounted volume nothing is reported |
| Flash.Flash.PhysRd | port/esp8266/spiffs/src/spiffs_cache.c:120-177 | A read through the cache gives the bytes in flash, every read page still equals the flash page it names, and no write page is touched |
| Flash.Flash.PhysWr | port/esp8266/spiffs/src/spiffs_cache.c:180-219 | After a write the copies equal flash exactly if the page has no copy, the copy is dropped, or only bits are cleared that the write asks to clear |
| Flash.Flash.Do | port/esp8266/spiffs/src/spiffs_cache.c:120-219 | An operation that asks for nothing flash cannot do leaves all copies equal to flash |
| Flash.Flash.Play | port/esp8266/spiffs/src/spiffs_cache.c:120-219 | A whole record of such operations leaves all copies equal to flash and flash as the record says |
| Trace.SoundPrefix | port/esp8266/spiffs/src/spiffs_cache.c:120-219 | The operations before any point of a record are such a record |
| Flash.Flash.WriteCopy | port/esp8266/spiffs/src/spiffs_cache.c:180-219 | A deletion drops the copy, a write through leaves it, every other write goes to it |
| Flash.Flash.ReadMiss | port/esp8266/spiffs/src/spiffs_cache.c:133-177 | A miss reads the page into a new copy, or only what is asked for |
| Flash.WrittenCopy | port/esp8266/spiffs/src/spiffs_cache.c:180-219 | The copy written over equals the programmed page exactly if no bit goes from 0 to 1 |
| Flash.UntouchedCopy | port/esp8266/spiffs/src/spiffs_cache.c:180-219 | A copy left alone stays right exactly if the write changes nothing in flash |
| Flash.MirrorsAfterWrite | port/esp8266/spiffs/src/spiffs_cache.c:180-219 | A write to one page can only put the copy of that page in the wrong |
| Flash.Flash.DropBlock | port/esp8266/spiffs/src/spiffs_gc.c:9-27 | No copy of a page of the block is left; other copies and write pages stay |
| Flash.Flash.EraseBlock | port/esp8266/spiffs/src/spiffs_nucleus.c:226-264 | After erasing, recording the count and dropping, all copies equal flash |
| Flash.PageMacros | port/esp8266/spiffs/src/spiffs_nucleus.h:197-202 | Pages and offsets are quotient and remainder by the page size |
| Cache.Cache.constructor | port/esp8266/spiffs/src/spiffs_cache.c:281-312 | A new cache has no page in use |
| Cache.Cache.PageGet | port/esp8266/spiffs/src/spiffs_cache.c:14-30 | The copy of a page is found if there is one, and marked as just used |
| Cache.Cache.PageFree | port/esp8266/spiffs/src/spiffs_cache.c:33-56 | The page is unused, the others are as they were |
| Cache.Cache.RemoveOldest | port/esp8266/spiffs/src/spiffs_cache.c:59-86 | Only when all pages are in use a page is given up: a read page that was not used for longest, never a write page |
| Cache.Cache.Allocate | port/esp8266/spiffs/src/spiffs_cache.c:89-107 | The first unused page is taken, and copies and objects still have at most one page each |
| Cache.Cache.DropPage | port/esp8266/spiffs/src/spiffs_cache.c:110-115 | The copy of a page is gone, and nothing else |
| Cache.Cache.GetByObject | port/esp8266/spiffs/src/spiffs_cache.c:223-242 | The write page of an object is found exactly if there is one |
| Cache.Cache.AllocateFor | port/esp8266/spiffs/src/spiffs_cache.c:246-260 | A write page for an object never takes the place of another write page |
| Encoding.EntryWritesClear | port/esp8266/spiffs/src/spiffs_nucleus.c:876-892 | Taking and deleting an entry only clear bits of the lookup |
| Encoding.IndexWritesClear | port/esp8266/spiffs/src/spiffs_nucleus.c:1359-1360 | Programming an index page from its erased fields only clears bits of the page and leaves the new page |
| Encoding.WriteSlot | port/esp8266/spiffs/src/spiffs_nucleus.c:777-788 | A write to a page is a program of that page and of no other page or lookup page |
| Encoding.WriteEntry | port/esp8266/spiffs/src/spiffs_nucleus.c:770-773 | A write of an entry changes the lookup in flash to the changed lookup, and only clears bits |
| Encoding.EraseImage | port/esp8266/spiffs/src/spiffs_nucleus.c:226-264 | A block erased with its count recorded in flash is the block erased in the volume |
| Encoding.DataWritten | port/esp8266/spiffs/src/spiffs_nucleus.c:777-788 | Header and payload programmed on an erased page are the data page |
| Encoding.IndexWritten | port/esp8266/spiffs/src/spiffs_nucleus.c:777-797 | A header programmed on an erased page is an empty index page |
| Encoding.HeaderPageWritten | port/esp8266/spiffs/src/spiffs_nucleus.c:935-946 | The header structure programmed on an erased page is the header page of an empty file |
| Encoding.FlagsWritten | port/esp8266/spiffs/src/spiffs_nucleus.c:1541-1546 | Writing the flags byte gives the page with those flags, if they only clear bits |
| Encoding.DeletionWritten | port/esp8266/spiffs/src/spiffs_nucleus.c:894-899 | The flags byte of a deletion makes the page the deleted page |
| Encoding.PayloadWritten | port/esp8266/spiffs/src/spiffs_nucleus.c:1315-1316 | Bytes programmed in a page are bytes programmed in its payload |
| Encoding.RefRead | port/esp8266/spiffs/src/spiffs_nucleus.c:1963-1970 | The bytes at the place of a reference are those of the reference |
| Encoding.PayloadRead | port/esp8266/spiffs/src/spiffs_nucleus.c:1987-1993 | The bytes at a place of a data page are those of its payload |
| Encoding.PixFits | port/esp8266/spiffs/src/spiffs_nucleus.h:188-210 | A page index has two bytes and is never the erased value |
| Encoding.SlotRead | port/esp8266/spiffs/src/spiffs_cache.c:120-177 | What flash has at the place of a slot is what the slot holds |
| Reader.EntryImageRead | port/esp8266/spiffs/src/spiffs_nucleus.c:770-773 | The two bytes of a lookup entry give the entry back: id and index bit of a page in use, all ones for a free and zero for a deleted one |
| Reader.EntryRead | port/esp8266/spiffs/src/spiffs_nucleus.c:124-221 | The bytes of flash at the address of an entry are that entry |
| Reader.FlagsRead | port/esp8266/spiffs/src/spiffs_nucleus.h:256-270 | The flags byte gives the flags of a page back |
| Reader.HeaderRead | port/esp8266/spiffs/src/spiffs_nucleus.h:458-465 | The five bytes of a page header give id, index bit, span and flags back |
| Reader.SizeRead | port/esp8266/spiffs/src/spiffs_nucleus.h:468-483 | The four bytes of a size give it back, and all ones are no size |
| Reader.NameFieldRead | port/esp8266/spiffs/src/spiffs_nucleus.h:468-483 | The bytes of a name up to the first zero are the name |
| Reader.RefImageRead | port/esp8266/spiffs/src/spiffs_nucleus.h:486-489 | The two bytes of a reference give the slot back, and all ones are no reference |
| Reader.PageImageRead | port/esp8266/spiffs/src/spiffs_nucleus.h:458-489 | The bytes of a page give the page back: header, payload, size, name and references |
| Reader.CountRead | port/esp8266/spiffs/src/spiffs_nucleus.c:226-264 | The erase count in flash is that of the block, modulo 2^16 |
| Reader.VolumeRead | port/esp8266/spiffs/src/spiffs_nucleus.c:357-405 | The lookup and every page in use are what is read from flash |
| Reader.FlashDetermines | port/esp8266/spiffs/src/spiffs_hydrogen.c:78-148 | Flash determines the volume: two volumes that the same bytes hold have the same lookup, the same pages in use and the same files |
| Reader.MatchesRead | port/esp8266/spiffs/src/spiffs_nucleus.c:501-524 | A search by id and span accepts a page exactly if its bytes in flash match: entry, id, span and flags |
| Reader.NamedRead | port/esp8266/spiffs/src/spiffs_nucleus.c:1607-1636 | A search by name accepts a page exactly if its bytes in flash are those of a header with the name |
| Bits.FlagWritesClear | port/esp8266/spiffs/src/spiffs_nucleus.c:1701-1706 | Finishing a page and marking a removal only clear flag bits and leave the flags of the page afterwards |
| Bits.DeleteNeedsDrop | port/esp8266/spiffs/src/spiffs_nucleus.c:876-902 | The flags a deletion writes are what flash then holds exactly for an unfinished data page, so the copy of any other page must be dropped |
| Geometry.ConfigIsOk | port/esp8266/spiffs/src/spiffs_nucleus.h:170-183 | Every configuration with an even page size, at least three blocks, whole lookup pages and room behind the last entry for the erase count gives a geometry that all theorems hold for |
| Geometry.SlotPixRoundTrip | port/esp8266/spiffs/src/spiffs_nucleus.h:188-210 | Block, entry and page index of a lookup entry determine each other |
| Geometry.PixSlotRoundTrip | port/esp8266/spiffs/src/spiffs_nucleus.h:188-210 | Every page index that is not a lookup page belongs to one entry |
| Geometry.IndexPlace | port/esp8266/spiffs/src/spiffs_nucleus.h:230-243 | Every data page has a place in the index pages |
| Geometry.IndexPlaceUnique | port/esp8266/spiffs/src/spiffs_nucleus.h:230-243 | Every place in the index pages belongs to one data page |
| Geometry.AddressMacros | port/esp8266/spiffs/src/spiffs_nucleus.h:230-243 | The places are the quotients and remainders of the macros |
| Sha1.HashPieces | port/esp8266/libesphttpd/core/sha1.c:95-135 | However a message below 2^32 bytes is cut into writes, the digest is that of FIPS 180-4 |
| Sha1.Sha1Info.Result | port/esp8266/libesphttpd/core/sha1.c:117-135 | The result is the hash of all data with a padding that gives its length in bytes modulo 2^32, which is the digest of section 5.1.1 and 6.1.2 of FIPS 180-4 for shorter messages |
| Sha1.DigestOf | port/esp8266/libesphttpd/core/sha1.c:99-135 | The two paddings agree for shorter messages |
| Sha1.Sha1Info.constructor | port/esp8266/libesphttpd/core/sha1.c:25-33 | A new context has added nothing |
| Sha1.Sha1Info.HashBlock | port/esp8266/libesphttpd/core/sha1.c:39-74 | Hashing the buffer with the circular schedule is the block function of section 6.1.2 |
| Sha1.Sha1Info.Schedule | port/esp8266/libesphttpd/core/sha1.c:50-51 | A word overwritten in place is the schedule word of that number |
| Sha1.ScheduleWord | port/esp8266/libesphttpd/core/sha1.c:50-51 | The ring of sixteen words has what the recurrence of section 6.1.3 needs |
| Sha1.RingNext | port/esp8266/libesphttpd/core/sha1.c:50-51 | Overwriting a word leaves the last sixteen words of the schedule in the ring |
| Sha1.Mix | port/esp8266/libesphttpd/core/sha1.c:52-64 | The four phases use the functions and constants of sections 4.1.1 and 4.2.1 |
| Sha1.ConstantsAreRoots | port/esp8266/libesphttpd/core/sha1.c:20-23 | The constants of section 4.2.1 are the square roots of 2, 3, 5 and 10, scaled by 2^30 and rounded down |
| Sha1.InitialHash | port/esp8266/libesphttpd/core/sha1.c:25-33 | The initial hash value of section 5.3.1, byte by byte |
| Sha1.ChForm | port/esp8266/libesphttpd/core/sha1.c:53-54 | The rewritten choice function is Ch |
| Sha1.MajForm | port/esp8266/libesphttpd/core/sha1.c:59-60 | The rewritten majority function is Maj |
| Sha1.RoundForm | port/esp8266/libesphttpd/core/sha1.c:52-67 | A round summed in the order of the code is a round of the standard |
| Sha1.Sha1Info.AddUncounted | port/esp8266/libesphttpd/core/sha1.c:76-88 | A byte goes to the block at its address with the last two bits flipped by an exclusive or, and a full block is hashed |
| Sha1.FlipIs | port/esp8266/libesphttpd/core/sha1.c:77-78 | The exclusive or with 3 is the mirror image in a word |
| Sha1.BufferWords | port/esp8266/libesphttpd/core/sha1.c:76-88 | Bytes at flipped addresses of little-endian memory are big-endian words |
| Sha1.AppendByte | port/esp8266/libesphttpd/core/sha1.c:76-88 | One more byte is one more hashed block exactly after 63 others |
| Sha1.Sha1Info.Write | port/esp8266/libesphttpd/core/sha1.c:90-97 | A write adds its bytes to the data, the count wraps at 2^32 |
| Sha1.Sha1Info.PadData | port/esp8266/libesphttpd/core/sha1.c:99-115 | The padding is a one bit, zeros and the length in bits |
| Sha1.Sha1Info.TakeDigest | port/esp8266/libesphttpd/core/sha1.c:121-134 | Swapping the words in place gives the bytes of the hash, most significant first |
| Sha1.SwappedBytes | port/esp8266/libesphttpd/core/sha1.c:123-131 | A swapped word lies in memory most significant byte first |
| Base64.EncodeDecode | port/esp8266/libesphttpd/core/base64.c:42-108 | Encoding into a buffer and decoding into a buffer gives back every byte string |
| Base64.RoundTrip | port/esp8266/libesphttpd/core/base64.c:42-108 | Decoding the text of section 4 of RFC 4648 gives the octets it encodes |
| Base64.GroupsDecoded | port/esp8266/libesphttpd/core/base64.c:42-67 | Whole groups in front of a text decode to their octets in front of the rest |
| Base64.TablesAreAlphabet | port/esp8266/libesphttpd/core/base64.c:7-69 | The tables are the alphabet of RFC 4648 and its inverse; any other character stops the decoder |
| Base64.Encode | port/esp8266/libesphttpd/core/base64.c:80-108 | The buffer holds the encoding and a terminator, although the accumulator wraps; it fails exactly if the buffer is no longer than the text |
| Base64.EncodeOctet | port/esp8266/libesphttpd/core/base64.c:85-95 | An octet completes one or two characters, and fails exactly if they do not fit |
| Base64.CharsNext | port/esp8266/libesphttpd/core/base64.c:85-95 | The characters complete after one more octet |
| Base64.Finish | port/esp8266/libesphttpd/core/base64.c:96-107 | The bits left over, the padding and the terminator complete the text |
| Base64.PadOut | port/esp8266/libesphttpd/core/base64.c:100-107 | Padding goes on up to a multiple of four characters |
| Base64.Decode | port/esp8266/libesphttpd/core/base64.c:42-67 | The buffer holds the octets of the text up to the first character that stops the decoder; it fails exactly if they do not fit |
| Base64.DecodeNumber | port/esp8266/libesphttpd/core/base64.c:53-59 | A six-bit number completes at most one octet |
| Base64.LessThanAnOctet | port/esp8266/libesphttpd/core/base64.c:61-65 | The test for another octet after the loop never succeeds |
| WebSocket.Receive | port/esp8266/libesphttpd/util/cgiwebsocket.c:163-273 | Frames delivered and bytes sent depend only on the concatenation of the segments, for any stream and any cut, but for the answer to a close frame: that has the two bytes behind the head of the frame, from the segment in which the head ends or from the memory behind it, unless the server closed first |
| WebSocket.Websock.Recv | port/esp8266/libesphttpd/util/cgiwebsocket.c:163-273 | Receiving a segment is reading its bytes one after the other, and a connection ends where reading the bytes one by one ends it |
| WebSocket.Websock.Payload | port/esp8266/libesphttpd/util/cgiwebsocket.c:207-263 | All payload at hand is unmasked in place and served in one go, which is the same as byte by byte |
| WebSocket.Websock.HeaderByte | port/esp8266/libesphttpd/util/cgiwebsocket.c:171-198 | A header byte moves the parser one step |
| WebSocket.Websock.UnmaskInPlace | port/esp8266/libesphttpd/util/cgiwebsocket.c:214-214 | The payload is unmasked from the position in the key where the last segment stopped |
| WebSocket.Websock.CheckHeader | port/esp8266/libesphttpd/util/cgiwebsocket.c:221-256 | The connection ends exactly for a close frame, a long ping and unmasked data; a close frame is answered with the two bytes found behind the head unless the server closed first |
| WebSocket.AnswerInSegment | port/esp8266/libesphttpd/util/cgiwebsocket.c:245-252 | The answer to a close frame does not depend on what is behind the segment exactly if the segment holds both bytes of the reason |
| WebSocket.SameAnswer | port/esp8266/libesphttpd/util/cgiwebsocket.c:245-252 | Two cuts that both do so give the same answer |
| WebSocket.CutClose | port/esp8266/libesphttpd/util/cgiwebsocket.c:137-144 | A close frame cut behind its head is answered with 88 02 and what memory holds there, received whole with its reason |
| WebSocket.EndsOnce | port/esp8266/libesphttpd/util/cgiwebsocket.c:163-273 | A stream ends a connection at one place |
| WebSocket.Websock.Answer | port/esp8266/libesphttpd/util/cgiwebsocket.c:226-244 | A ping is answered with one pong head and its payload; data goes to the receiver as one frame |
| WebSocket.Websock.Serve | port/esp8266/libesphttpd/util/cgiwebsocket.c:256-262 | The frame ends exactly with its last byte |
| WebSocket.FrameReceived | port/esp8266/libesphttpd/util/cgiwebsocket.c:163-264 | What a frame does, on its bytes: with opcode 0, 1 or 2 and masked, exactly its payload is delivered, as one frame with its binary and final marks; with opcode 9 the bytes sent are 8a, the length and the payload; unmasked data and pings of more than 125 bytes are answered with 88 02 03 ea and end the connection; opcode 8 ends it; any other opcode does nothing. All three forms of the length are read, and a frame without a key is unmasked with the one before |
| WebSocket.HeadRead | port/esp8266/libesphttpd/util/cgiwebsocket.c:171-206 | A frame head of any length form leaves the parser with its flags, length and key |
| WebSocket.CloseAnswer | port/esp8266/libesphttpd/util/cgiwebsocket.c:245-252 | A close frame is answered with 88 02 and the two bytes of the reason unless the server closed first |
| WebSocket.HeadParsed | port/esp8266/libesphttpd/util/cgiwebsocket.c:89-109 | The head the server writes, with the mask bit, is what the parser reads: flags and length in all three forms of section 5.2 |
| WebSocket.FoldChunk | port/esp8266/libesphttpd/util/cgiwebsocket.c:207-263 | Payload bytes one at a time are a chunk |
| WebSocket.ChunkSplit | port/esp8266/libesphttpd/util/cgiwebsocket.c:207-263 | A chunk in two parts is the whole chunk |
| WebSocket.UnmaskTwice | port/esp8266/libesphttpd/util/cgiwebsocket.c:214-214 | Masking is its own inverse |
| Upload.Receive | port/esp8266/libesphttpd/util/cgiflash.c:104-251 | For any division of the body whose first chunk has the header that its type needs: refused headers change nothing. Of a combined image with userbin 1 the bytes from 40 on, as many as the word at offset 32 says, go to the first slot; with another userbin those behind them, as many as the word at 36 says, to the second one; a raw or file system image goes to the first slot as a whole. Its sectors have been erased once each in order, nothing else has changed, and the state is done exactly with the whole body in; a part of no bytes costs at most one erased sector |
| Upload.PlanIs | port/esp8266/libesphttpd/util/cgiflash.c:134-196 | Which headers are refused, and for the others which bytes go where, with the offsets and words of the header written out |
| Upload.Uploader.Chunk | port/esp8266/libesphttpd/util/cgiflash.c:130-251 | A chunk is taken to its last byte and the loop ends |
| Upload.Uploader.Step | port/esp8266/libesphttpd/util/cgiflash.c:133-251 | A round takes bytes, or changes the state without need to do so again |
| Upload.Uploader.StartStep | port/esp8266/libesphttpd/util/cgiflash.c:134-196 | The header, as long as its type needs it, selects image, place and bytes to skip, or the upload is refused |
| Upload.Uploader.SkipStep | port/esp8266/libesphttpd/util/cgiflash.c:197-209 | Bytes that are not of the image change nothing in flash |
| Upload.Uploader.WriteStep | port/esp8266/libesphttpd/util/cgiflash.c:210-242 | Bytes of the image fill the page; a full page or the end of the image goes to flash |
| Upload.Uploader.FinishPage | port/esp8266/libesphttpd/util/cgiflash.c:222-242 | A full page, or the last one, goes to flash, and the end of the image ends the writing |
| Upload.Uploader.FlushPage | port/esp8266/libesphttpd/util/cgiflash.c:229-237 | A sector is erased before its first page and only then |
| Upload.Uploader.Complete | port/esp8266/libesphttpd/util/cgiflash.c:210-242 | With the whole body in, the state is done and the image is in flash |
| Upload.EraseNext | port/esp8266/libesphttpd/util/cgiflash.c:230-232 | Erasing the next sector keeps what was written |
| Upload.WriteNext | port/esp8266/libesphttpd/util/cgiflash.c:235-235 | A page programmed into the erased sector is the page |
| EspFs.WriteFindRead | port/esp8266/libesphttpd/espfs/mkespfsimage/main.c:183-277 | For any files with proper names, an image made, placed at an aligned address and opened gives the first file of a name, none for any other name, and reads of any sizes give its contents |
| EspFs.HandleFile | port/esp8266/libesphttpd/espfs/mkespfsimage/main.c:183-250 | A file is written as header, name and data, each padded to four bytes |
| EspFs.FinishArchive | port/esp8266/libesphttpd/espfs/mkespfsimage/main.c:268-277 | The image ends with a header that has the magic and the mark of the last file, where a reader stops |
| EspFs.MakeImage | port/esp8266/libesphttpd/espfs/mkespfsimage/main.c:279-371 | The image is the entries one behind the other and the last header |
| EspFs.PadOut | port/esp8266/libesphttpd/espfs/mkespfsimage/main.c:239-248 | Padding goes on to a multiple of four |
| EspFs.HeaderRoundTrip | port/esp8266/libesphttpd/espfs/espfs.c:142-153 | Reading a header gives the fields that were written |
| EspFs.HeaderLayout | port/esp8266/libesphttpd/espfs/mkespfsimage/main.c:226-237 | The bytes of a header: magic number, flags, compression and three lengths, least significant byte first |
| EspFs.ReadLayout | port/esp8266/libesphttpd/espfs/espfs.c:142-153 | What the reader takes from 16 bytes, and when it takes them for a header |
| EspFs.EntryParts | port/esp8266/libesphttpd/espfs/espfs.c:139-190 | Header, name and data are found where the image has them |
| EspFs.NameRead | port/esp8266/libesphttpd/espfs/espfs.c:154-159 | The name read into the buffer is the name of the file |
| EspFs.Look | port/esp8266/libesphttpd/espfs/espfs.c:141-193 | A header is the end of the image, the file asked for, or leads to the next header |
| EspFs.Open | port/esp8266/libesphttpd/espfs/espfs.c:128-194 | The first file with the name, less leading slashes, is found; none is found exactly if there is none |
| EspFs.ReadFlashUnaligned | port/esp8266/libesphttpd/espfs/espfs.c:103-110 | Reading aligned and copying from the offset gives the bytes at any address |
| EspFs.EspFsFile.Read | port/esp8266/libesphttpd/espfs/espfs.c:197-216 | A read gives the next bytes, cut off at the end of the file |
| EspFs.ReadSizes | port/esp8266/libesphttpd/espfs/espfs.c:197-216 | Reads of any sizes concatenate to the contents |

## Left out

- Runs.Run: stops where a call leaves an ending other than `Complete`, reports that data could not be written back, removes a file with data pending, uses a descriptor not opened by name, or moves a descriptor of an empty file past its end; the contracts of the calls say what holds then. Seeks in a run are from the start.
- Api.Session.Write: descriptors for append, direct and truncating access are not modelled.
- Api.Session.Read: lengths are not negative. Where data could not be written back first, the contract also admits the status of a missing index page for a file that is empty then.
- Api.Session.Lseek: the length of a file is compared as it is, not as a signed number of 32 bits, which differs only for files of 2^31 bytes and more.
- Api.Session.Open: models the flags create and read-write, the ones this port uses; exclusive creation and truncation on opening are left out. The number of the descriptor is set at the end, which no other call can observe.
- Modify.ObjectModify: which page the work buffer refers to in the place of one that is lost is left open (the source leaves a page index of before there, or a value never set); and on a volume where a block comes to hold deleted pages only before the last old page is deleted, what the number of pages to be had decides is said for the first page only.
- Append.ObjectAppend: requires data, and offset 0 if the descriptor takes the file for empty, as its only caller passes. How it ends is decided from the pages to be had for bytes that belong to one index page; across index pages the header is moved and deleted more than once, and the endings are tied to the length reached.
- Hydrogen.HydroWrite: the collection before an append that follows a modification starts from the volume that the modification leaves, and is not tied to the volume before the call. The write ends with its status at a modification that lost a page, reported success and reaches the end of the file; the source goes on to append the rest.
- Gc.TableBytes: a table of candidates taken for a page is any page, but for passing for a header.
- Volume.Spiffs.GcQuick: models the call that allows no free page in the block, the only one the file system makes itself.
- FreeId.FindFreeId: models the bitmap branch, for volumes whose ids fit a work page; the compaction branch for larger volumes is left out.
- Api.Session.CreateFile: for volumes whose ids fit a work page, as FreeId.FindFreeId.
- Check.CheckAll: each pass is modelled up to the first thing it would mend; the repairs and their restarts are left out, and so is the outcome of a mended pass. The three flag bits of a page in the bitmap are a record.
- Check.PageCheck: ends at the first range with something to mend, as Check.CheckAll does.
- Mount.MountImage: probing, magic numbers and formatting are left out.
- Gc.GcCheck: the statistics counters of collections are left out. How many free blocks a run leaves is a recount of the lookup it leaves; a bound from the volume before it is not stated.
- Truncate.TruncateObject: that a collection that succeeds leaves pages enough for the truncation is not stated.
- Reader.FlashDetermines: the erase counts are determined modulo 2^16, as they are stored, and deleted pages are not.
- Cache.Cache.RemoveOldest: the hit statistics are left out; so are the byte positions of pages in the cache memory.
- Sha1.Sha1Info.Result: the keyed hash (HMAC) is left out.
- Base64.Decode: characters are taken as unsigned, and isspace as that of the C locale.
- WebSocket.Receive: characters are taken as unsigned. The handshake, sending data frames and closing callbacks are left out; after the connection ends nothing more is read.
- Upload.Receive: requires the header that the type needs in the first chunk and a target aligned to sectors inside flash; part lengths are not negative. The HTTP response and the reboot are left out.
- Upload.Uploader.StartStep: requires that header, as Upload.Receive does.
- EspFs.WriteFindRead: files are stored uncompressed; heatshrink and gzip are left out, and so is an image that fails the check of its first header.
- EspFs.HandleFile: stores a file uncompressed.
- EspFs.MakeImage: stores all files uncompressed.
- Truncation to a length other than 0, which no call reaches.
- Index maps, renaming, file status, directory listings, removal through a descriptor, and descriptors opened by page or directory entry.
- Two file system calls at the same time: the source takes a lock around each.
- Loss of power between two flash operations, and flash operations that fail.
- The read shim of the SPI flash, the drivers, the network stack and the rest of the web server.

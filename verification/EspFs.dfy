/** The read-only file image: the tool that writes it and the routines that find and
    read its files.  Every file that goes in comes out, and nothing else does. */
module EspFs {
  import I = Image
  import opened Bytes

  datatype File = File(name: seq<byte>, data: seq<byte>)

  const FLAG_LASTFILE: byte := 1
  const COMPRESS_NONE: byte := 0
  const MAGIC: seq<byte> := [0x45, 0x53, 0x66, 0x73]
  const HEADER_SIZE: nat := 16
  const NAME_BUFFER: nat := 256

  /** Bytes to the next multiple of four. */
  function Pad(n: nat): (p: nat)
    ensures p < 4 && (n + p) % 4 == 0
  {
    (4 - n % 4) % 4
  }

  function Zeros(n: nat): (z: seq<byte>)
    ensures |z| == n
  {
    seq(n, i => 0)
  }

  /** Names the image can hold: short, without a terminator in them, and not made
      unreachable by a leading slash. */
  predicate NameOk(name: seq<byte>)
  {
    |name| <= 255 && 0 !in name && (name != [] ==> name[0] != 0x2f)
  }

  predicate FileOk(f: File)
  {
    NameOk(f.name) && |f.data| < 0x8000_0000
  }

  // ---------------------------------------------------------------------------
  // The image

  datatype Header = Header(flags: byte, compression: byte, nameLen: nat, fileLenComp: nat, fileLenDecomp: nat)

  function HeaderBytes(h: Header): (b: seq<byte>)
    ensures |b| == HEADER_SIZE
  {
    MAGIC + [h.flags, h.compression] + Little(h.nameLen, 2) + Little(h.fileLenComp, 4) + Little(h.fileLenDecomp, 4)
  }

  /** The bytes of a header: the magic number, flags and compression, and three lengths, least
      significant byte first. */
  lemma HeaderLayout(h: Header)
    requires h.nameLen < 0x1_0000 && h.fileLenComp < 0x1_0000_0000 && h.fileLenDecomp < 0x1_0000_0000
    ensures var b := HeaderBytes(h);
            && b[..6] == [0x45, 0x53, 0x66, 0x73, h.flags, h.compression]
            && Number(b[6], b[7], 0, 0) == h.nameLen && Number(b[8], b[9], b[10], b[11]) == h.fileLenComp
            && Number(b[12], b[13], b[14], b[15]) == h.fileLenDecomp
  {
    ReadLayout(HeaderBytes(h));
    HeaderRoundTrip(h);
  }

  function Number(b0: byte, b1: byte, b2: byte, b3: byte): nat
  {
    b0 as nat + 0x100 * b1 as nat + 0x1_0000 * b2 as nat + 0x100_0000 * b3 as nat
  }

  /** What the reader takes from 16 bytes, and when it takes them for a header. */
  lemma ReadLayout(b: seq<byte>)
    requires |b| == HEADER_SIZE
    ensures IsMagic(b) <==> b[0] == 0x45 && b[1] == 0x53 && b[2] == 0x66 && b[3] == 0x73
    ensures ParseHeader(b) == Header(b[4], b[5], Number(b[6], b[7], 0, 0), Number(b[8], b[9], b[10], b[11]),
                                     Number(b[12], b[13], b[14], b[15]))
  {
    TwoBytes(b[6], b[7]);
    FourBytes(b[8], b[9], b[10], b[11]);
    FourBytes(b[12], b[13], b[14], b[15]);
    assert b[6..8] == [b[6], b[7]] && b[8..12] == [b[8], b[9], b[10], b[11]] && b[12..16] == [b[12], b[13], b[14], b[15]];
    if b[0] == 0x45 && b[1] == 0x53 && b[2] == 0x66 && b[3] == 0x73 {
      assert b[..4] == MAGIC;
    } else {
      assert b[..4] != MAGIC by {
        assert forall i :: 0 <= i < 4 ==> b[..4][i] == b[i];
      }
    }
  }

  lemma TwoBytes(b0: byte, b1: byte)
    ensures Value([b0, b1]) == Number(b0, b1, 0, 0)
  {
    assert [b0, b1][1..] == [b1] && [b1][1..] == [];
    assert Value([b1]) == Num(b1);
  }

  lemma FourBytes(b0: byte, b1: byte, b2: byte, b3: byte)
    ensures Value([b0, b1, b2, b3]) == Number(b0, b1, b2, b3)
  {
    assert [b0, b1, b2, b3][1..] == [b1, b2, b3] && [b1, b2, b3][1..] == [b2, b3];
    TwoBytes(b2, b3);
  }

  function FileHeader(f: File): Header
  {
    Header(0, COMPRESS_NONE, |f.name| + 1 + Pad(|f.name| + 1), |f.data|, |f.data|)
  }

  function NameField(name: seq<byte>): seq<byte>
  {
    name + [0] + Zeros(Pad(|name| + 1))
  }

  /** A file in the image: header, name and data, each padded to four bytes. */
  function Entry(f: File): seq<byte>
  {
    HeaderBytes(FileHeader(f)) + NameField(f.name) + f.data + Zeros(Pad(|f.data|))
  }

  function Entries(files: seq<File>): seq<byte>
  {
    if files == [] then [] else Entries(files[..|files| - 1]) + Entry(files[|files| - 1])
  }

  const LAST: Header := Header(FLAG_LASTFILE, COMPRESS_NONE, 0, 0, 0)

  function Image(files: seq<File>): seq<byte>
  {
    Entries(files) + HeaderBytes(LAST)
  }

  /** Writes one file to the stream. */
  method HandleFile(stream: seq<byte>, f: File) returns (out: seq<byte>)
    ensures out == stream + Entry(f)
  {
    hide HeaderBytes;
    var nameLen := |f.name| + 1;
    var rounded := if nameLen % 4 != 0 then nameLen + (4 - nameLen % 4) else nameLen;
    out := stream + HeaderBytes(Header(0, COMPRESS_NONE, rounded, |f.data|, |f.data|)) + f.name + [0];
    out := PadOut(out, nameLen);
    out := out + f.data;
    out := PadOut(out, |f.data|);
    assert out == stream + Entry(f);
  }

  /** Pads a stream to a multiple of four after a field of `n` bytes. */
  method PadOut(stream: seq<byte>, n: nat) returns (out: seq<byte>)
    ensures out == stream + Zeros(Pad(n))
  {
    out := stream;
    var m := n;
    while m % 4 != 0
      invariant n <= m <= n + Pad(n) && out == stream + Zeros(m - n)
      decreases n + Pad(n) - m
    {
      PadLeft(n, m);
      out := out + [0];
      m := m + 1;
    }
    PadLeft(n, m);
  }

  lemma PadLeft(n: nat, m: nat)
    requires n <= m <= n + Pad(n)
    ensures m % 4 == 0 <==> m == n + Pad(n)
  {
  }

  /** Ends an image: behind what there is stands a header that the reader recognises, and
      at which it stops. */
  method FinishArchive(stream: seq<byte>) returns (out: seq<byte>)
    ensures |out| == |stream| + HEADER_SIZE && out[..|stream|] == stream
    ensures IsMagic(out[|stream|..]) && LastFile(ParseHeader(out[|stream|..]).flags) && out == stream + HeaderBytes(LAST)
  {
    HeaderRoundTrip(LAST);
    out := stream + HeaderBytes(LAST);
    assert out[|stream|..] == HeaderBytes(LAST);
  }

  /** Writes an image. */
  method MakeImage(files: seq<File>) returns (out: seq<byte>)
    ensures out == Image(files)
  {
    out := [];
    var i := 0;
    while i < |files|
      invariant i <= |files| && out == Entries(files[..i])
    {
      assert files[..i + 1][..i] == files[..i];
      out := HandleFile(out, files[i]);
      i := i + 1;
    }
    assert files[..i] == files;
    out := FinishArchive(out);
  }

  // ---------------------------------------------------------------------------
  // Reading flash

  /** Copies bytes with aligned reads only. */
  method ReadFlashUnaligned(flash: seq<byte>, src: nat, len: nat) returns (dst: seq<byte>)
    requires src + len <= |flash|
    ensures dst == flash[src..src + len]
  {
    var offset := src % 4;
    var address := src - offset;
    var buffer := flash[address..address + len + offset];
    dst := buffer[offset..offset + len];
  }

  predicate IsMagic(b: seq<byte>)
  {
    |b| == HEADER_SIZE && b[..4] == MAGIC
  }

  function ParseHeader(b: seq<byte>): Header
    requires |b| == HEADER_SIZE
  {
    Header(b[4], b[5], Value(b[6..8]), Value(b[8..12]), Value(b[12..16]))
  }

  /** Reading a header gives what was written. */
  lemma HeaderRoundTrip(h: Header)
    requires h.nameLen < 0x1_0000 && h.fileLenComp < 0x1_0000_0000 && h.fileLenDecomp < 0x1_0000_0000
    ensures IsMagic(HeaderBytes(h)) && ParseHeader(HeaderBytes(h)) == h
  {
    var b := HeaderBytes(h);
    assert b[..4] == MAGIC;
    assert b[6..8] == Little(h.nameLen, 2) && b[8..12] == Little(h.fileLenComp, 4) && b[12..16] == Little(h.fileLenDecomp, 4);
    Powers();
    LittleValue(h.nameLen, 2);
    LittleValue(h.fileLenComp, 4);
    LittleValue(h.fileLenDecomp, 4);
  }

  lemma Powers()
    ensures Pow256(2) == 0x1_0000 && Pow256(4) == 0x1_0000_0000
  {
    assert Pow256(1) == 256;
    assert Pow256(3) == 256 * Pow256(2);
  }

  /** `b` is in flash at `p`. */
  ghost predicate At(flash: seq<byte>, p: nat, b: seq<byte>)
  {
    p + |b| <= |flash| && flash[p..p + |b|] == b
  }

  lemma AtParts(flash: seq<byte>, p: nat, a: seq<byte>, b: seq<byte>)
    requires At(flash, p, a + b)
    ensures At(flash, p, a) && At(flash, p + |a|, b)
  {
    var s := flash[p..p + |a + b|];
    assert a == (a + b)[..|a|] && b == (a + b)[|a|..];
    assert flash[p..p + |a|] == s[..|a|] && flash[p + |a|..p + |a| + |b|] == s[|a|..];
  }

  lemma EntrySize(f: File)
    ensures |Entry(f)| == HEADER_SIZE + (|f.name| + 1 + Pad(|f.name| + 1)) + |f.data| + Pad(|f.data|)
    ensures |Entry(f)| % 4 == 0
  {
    hide HeaderBytes, Pad;
    Aligned(|f.name| + 1 + Pad(|f.name| + 1), |f.data| + Pad(|f.data|));
  }

  lemma Aligned(a: nat, b: nat)
    requires a % 4 == 0 && b % 4 == 0
    ensures (HEADER_SIZE + a + b) % 4 == 0
  {
  }

  /** Where the entry of file `i` begins. */
  function Offset(files: seq<File>, i: nat): nat
    requires i <= |files|
  {
    |Entries(files[..i])|
  }

  lemma OffsetNext(files: seq<File>, i: nat)
    requires i < |files|
    ensures Offset(files, i + 1) == Offset(files, i) + |Entry(files[i])|
  {
    assert files[..i + 1][..i] == files[..i];
  }

  /** The entries of an image lie one behind the other. */
  lemma {:induction false} EntryAt(flash: seq<byte>, base: nat, files: seq<File>, i: nat)
    requires At(flash, base, Entries(files)) && i < |files|
    ensures At(flash, base + Offset(files, i), Entry(files[i]))
  {
    hide Entry;
    var n := |files| - 1;
    AtParts(flash, base, Entries(files[..n]), Entry(files[n]));
    if i < n {
      EntryAt(flash, base, files[..n], i);
      assert files[..n][..i] == files[..i];
    }
  }

  /** What lies in flash where an entry is. */
  lemma EntryParts(flash: seq<byte>, p: nat, f: File)
    requires At(flash, p, Entry(f)) && FileOk(f)
    ensures var h := FileHeader(f);
            && p + HEADER_SIZE + h.nameLen + |f.data| <= |flash|
            && IsMagic(flash[p..p + HEADER_SIZE]) && ParseHeader(flash[p..p + HEADER_SIZE]) == h
            && At(flash, p + HEADER_SIZE, NameField(f.name))
            && At(flash, p + HEADER_SIZE + h.nameLen, f.data)
  {
    hide HeaderBytes, ParseHeader, IsMagic;
    var h := FileHeader(f);
    HeaderRoundTrip(h);
    AtParts(flash, p, HeaderBytes(h) + NameField(f.name) + f.data, Zeros(Pad(|f.data|)));
    AtParts(flash, p, HeaderBytes(h) + NameField(f.name), f.data);
    AtParts(flash, p, HeaderBytes(h), NameField(f.name));
  }

  /** The name read from the buffer is the name of the file. */
  lemma NameRead(flash: seq<byte>, p: nat, name: seq<byte>)
    requires NameOk(name) && At(flash, p, NameField(name))
    ensures CString(flash[p..if p + NAME_BUFFER <= |flash| then p + NAME_BUFFER else |flash|]) == name
  {
    var field := flash[p..if p + NAME_BUFFER <= |flash| then p + NAME_BUFFER else |flash|];
    var nf := name + [0];
    AtParts(flash, p, nf, Zeros(Pad(|name| + 1)));
    assert field[..|nf|] == nf;
    assert field == name + [0] + field[|nf|..];
    CStringOf(name, field[|nf|..]);
  }

  /** The name without its leading slashes. */
  function Stripped(name: seq<byte>): seq<byte>
  {
    if name != [] && name[0] == 0x2f then Stripped(name[1..]) else name
  }

  /** An open file, by the flash addresses the source keeps. */
  class EspFsFile {
    const header: nat
    const posStart: nat
    var posComp: nat

    constructor (header: nat, posStart: nat)
      ensures this.header == header && this.posStart == posStart == posComp
    {
      this.header, this.posStart, posComp := header, posStart, posStart;
    }

    /** The file is open on data that is in flash. */
    ghost predicate OpenOn(flash: seq<byte>, data: seq<byte>)
      reads this
    {
      && header + HEADER_SIZE <= |flash| && Value(flash[header + 8..header + 12]) == |data|
      && At(flash, posStart, data) && posStart <= posComp <= posStart + |data|
    }

    /** Reads on, up to the end of the file. */
    method Read(flash: seq<byte>, ghost data: seq<byte>, len: nat) returns (bytes: seq<byte>)
      requires OpenOn(flash, data)
      modifies this
      ensures OpenOn(flash, data)
      ensures var pos := old(posComp) - posStart;
              && |bytes| == (if len < |data| - pos then len else |data| - pos)
              && bytes == data[pos..pos + |bytes|] && posComp == old(posComp) + |bytes|
    {
      var lenField := ReadFlashUnaligned(flash, header + 8, 4);
      var toRead := Value(lenField) - (posComp - posStart);
      var n := if len > toRead then toRead else len;
      bytes := ReadFlashUnaligned(flash, posComp, n);
      SliceSlice(flash, posStart, |data|, posComp - posStart, n);
      posComp := posComp + n;
    }
  }

  /** The image is in flash at an aligned address. */
  ghost predicate Mounted(flash: seq<byte>, base: nat, files: seq<File>)
  {
    && base % 4 == 0 && At(flash, base, Image(files))
    && forall i :: 0 <= i < |files| ==> FileOk(files[i])
  }

  /** What is found at a header: the end of the image, the file, or another file. */
  datatype Outcome = End | Hit(posStart: nat) | Next(p: nat)

  /** Looks at the header at `p`, which is that of file `f` or the last one. */
  method Look(flash: seq<byte>, p: nat, ghost f: I.Option<File>, name: seq<byte>) returns (r: Outcome)
    requires p % 4 == 0
    requires f.Some? ==> At(flash, p, Entry(f.value)) && FileOk(f.value)
    requires f.None? ==> At(flash, p, HeaderBytes(LAST))
    ensures p + HEADER_SIZE <= |flash|
    ensures f.None? ==> r == End
    ensures f.Some? && f.value.name == name ==>
              r.Hit? && At(flash, r.posStart, f.value.data) && Value(flash[p + 8..p + 12]) == |f.value.data|
    ensures f.Some? && f.value.name != name ==> r == Next(p + |Entry(f.value)|) && r.p % 4 == 0
  {
    hide ParseHeader, IsMagic, HeaderBytes, Entry, CString, FileOk, LastFile, At;
    if f.Some? {
      EntryHere(flash, p, f.value);
      EntryEnd(p, f.value);
    } else {
      LastHere(flash, p);
    }
    var bytes := flash[p..p + HEADER_SIZE];
    if !IsMagic(bytes) {
      assert false;
    }
    var h := ParseHeader(bytes);
    if LastFile(h.flags) {
      return End;
    }
    var q := p + HEADER_SIZE;
    var nameBuf := flash[q..if q + NAME_BUFFER <= |flash| then q + NAME_BUFFER else |flash|];
    if CString(nameBuf) == name {
      return Hit(q + h.nameLen);
    }
    var next := q + h.nameLen + h.fileLenComp;
    if next % 4 != 0 {
      next := next + (4 - next % 4);
    }
    return Next(next);
  }

  /** Finds a file: the first with the name, if there is one. */
  method Open(flash: seq<byte>, base: nat, ghost files: seq<File>, fileName: seq<byte>)
    returns (r: I.Option<EspFsFile>, ghost found: nat)
    requires Mounted(flash, base, files) && 0 !in fileName
    ensures r.None? <==> forall i :: 0 <= i < |files| ==> files[i].name != Stripped(fileName)
    ensures r.Some? ==>
              && fresh(r.value) && found < |files| && files[found].name == Stripped(fileName)
              && (forall i :: 0 <= i < found ==> files[i].name != Stripped(fileName))
              && r.value.OpenOn(flash, files[found].data) && r.value.posComp == r.value.posStart
  {
    hide HeaderBytes, Entry, FileOk, At;
    var name := fileName;
    while name != [] && name[0] == 0x2f
      invariant Stripped(name) == Stripped(fileName)
      decreases |name|
    {
      name := name[1..];
    }
    AtParts(flash, base, Entries(files), HeaderBytes(LAST));
    var p := base;
    found := 0;
    while true
      invariant found <= |files| && p == base + Offset(files, found) && p % 4 == 0
      invariant forall i :: 0 <= i < found ==> files[i].name != name
      decreases |files| - found
    {
      if found < |files| {
        EntryAt(flash, base, files, found);
        OffsetNext(files, found);
      } else {
        assert files[..found] == files;
      }
      var outcome := Look(flash, p, if found < |files| then I.Some(files[found]) else I.None, name);
      if outcome.End? {
        return I.None, found;
      }
      if outcome.Hit? {
        var f := new EspFsFile(p, outcome.posStart);
        return I.Some(f), found;
      }
      p := outcome.p;
      found := found + 1;
    }
  }

  predicate LastFile(flags: byte)
  {
    flags & FLAG_LASTFILE != 0
  }

  lemma EntryHere(flash: seq<byte>, p: nat, f: File)
    requires At(flash, p, Entry(f)) && FileOk(f) && p % 4 == 0
    ensures p + HEADER_SIZE <= |flash| && IsMagic(flash[p..p + HEADER_SIZE])
    ensures var h, q := ParseHeader(flash[p..p + HEADER_SIZE]), p + HEADER_SIZE;
            && !LastFile(h.flags) && h == FileHeader(f)
            && CString(flash[q..if q + NAME_BUFFER <= |flash| then q + NAME_BUFFER else |flash|]) == f.name
            && At(flash, q + h.nameLen, f.data)
            && Value(flash[p + 8..p + 12]) == |f.data|
  {
    hide IsMagic, HeaderBytes, Entry, CString, NameField, At, ParseHeader;
    EntryParts(flash, p, f);
    NameRead(flash, p + HEADER_SIZE, f.name);
    LengthField(flash[p..p + HEADER_SIZE]);
    SliceSlice(flash, p, HEADER_SIZE, 8, 4);
  }

  lemma EntryEnd(p: nat, f: File)
    requires p % 4 == 0
    ensures var h, q := FileHeader(f), p + HEADER_SIZE;
            && p + |Entry(f)| == q + h.nameLen + h.fileLenComp + Pad(q + h.nameLen + h.fileLenComp)
            && (p + |Entry(f)|) % 4 == 0
  {
    hide Entry, Pad;
    EntrySize(f);
    NextEntry(p, |f.name| + 1, |f.data|);
  }

  lemma LengthField(b: seq<byte>)
    requires |b| == HEADER_SIZE
    ensures Value(b[8..12]) == ParseHeader(b).fileLenComp
  {
  }

  /** The padding after the data brings the position to the next entry. */
  lemma NextEntry(p: nat, a: nat, n: nat)
    requires p % 4 == 0
    ensures Pad(p + HEADER_SIZE + (a + Pad(a)) + n) == Pad(n) && (p + HEADER_SIZE + (a + Pad(a)) + n + Pad(n)) % 4 == 0
  {
    hide Pad;
    Aligned(a + Pad(a), p);
    Aligned(a + Pad(a), n + Pad(n));
    PadMoved(p + HEADER_SIZE + (a + Pad(a)), n);
    SumAligned(p + HEADER_SIZE + (a + Pad(a)), n + Pad(n));
  }

  lemma SumAligned(a: nat, b: nat)
    requires a % 4 == 0 && b % 4 == 0
    ensures (a + b) % 4 == 0
  {
  }

  lemma PadMoved(a: nat, n: nat)
    requires a % 4 == 0
    ensures Pad(a + n) == Pad(n)
  {
  }

  lemma LastHere(flash: seq<byte>, p: nat)
    requires At(flash, p, HeaderBytes(LAST))
    ensures p + HEADER_SIZE <= |flash| && IsMagic(flash[p..p + HEADER_SIZE])
    ensures LastFile(ParseHeader(flash[p..p + HEADER_SIZE]).flags)
  {
    HeaderRoundTrip(LAST);
  }

  function Sum(sizes: seq<nat>): nat
  {
    if sizes == [] then 0 else Sum(sizes[..|sizes| - 1]) + sizes[|sizes| - 1]
  }

  /** Reads of any sizes, one after the other, give the contents up to what they ask for. */
  method ReadSizes(f: EspFsFile, flash: seq<byte>, ghost data: seq<byte>, sizes: seq<nat>) returns (bytes: seq<byte>)
    requires f.OpenOn(flash, data) && f.posComp == f.posStart
    modifies f
    ensures bytes == data[..if Sum(sizes) < |data| then Sum(sizes) else |data|]
  {
    hide At;
    bytes := [];
    var i := 0;
    while i < |sizes|
      invariant i <= |sizes| && f.OpenOn(flash, data)
      invariant f.posComp - f.posStart == if Sum(sizes[..i]) < |data| then Sum(sizes[..i]) else |data|
      invariant bytes == data[..f.posComp - f.posStart]
    {
      var more := f.Read(flash, data, sizes[i]);
      bytes := bytes + more;
      assert sizes[..i + 1][..i] == sizes[..i];
      i := i + 1;
    }
    assert sizes[..i] == sizes;
  }

  /** An image is written, put into flash, and a file is looked for and read: the file
      is there exactly if it went in, and has the contents that went in. */
  method WriteFindRead(files: seq<File>, below: seq<byte>, above: seq<byte>, fileName: seq<byte>, sizes: seq<nat>)
    returns (contents: I.Option<seq<byte>>)
    requires |below| % 4 == 0 && 0 !in fileName && forall i :: 0 <= i < |files| ==> FileOk(files[i])
    ensures contents.None? <==> forall i :: 0 <= i < |files| ==> files[i].name != Stripped(fileName)
    ensures contents.Some? ==>
              exists i :: 0 <= i < |files| && files[i].name == Stripped(fileName)
                          && (forall j :: 0 <= j < i ==> files[j].name != files[i].name)
                          && contents.value == files[i].data[..if Sum(sizes) < |files[i].data| then Sum(sizes) else |files[i].data|]
  {
    hide FileOk, Image, Stripped;
    var image := MakeImage(files);
    var flash := below + image + above;
    assert flash[|below|..|below| + |image|] == image;
    var f, found := Open(flash, |below|, files, fileName);
    if f.None? {
      return I.None;
    }
    var bytes := ReadSizes(f.value, flash, files[found].data, sizes);
    return I.Some(bytes);
  }
}

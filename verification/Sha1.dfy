/** SHA-1 as a stream: bytes go into a block buffer one at a time, and full blocks are
    hashed over a schedule kept in that same buffer.  The specification is FIPS 180-4. */
module Sha1 {
  import opened Bytes

  // ---------------------------------------------------------------------------
  // FIPS 180-4

  /** Rotate left (section 2.2.2). */
  function Rotl(x: bv32, n: nat): bv32
    requires 0 < n < 32
  {
    (x << n) | (x >> (32 - n))
  }

  /** Addition modulo 2^32 (section 2.2.2). */
  function Plus(x: bv32, y: bv32): bv32 { x + y }

  /** The functions of section 4.1.1. */
  function Ch(x: bv32, y: bv32, z: bv32): bv32 { (x & y) ^ (!x & z) }
  function Parity(x: bv32, y: bv32, z: bv32): bv32 { x ^ y ^ z }
  function Maj(x: bv32, y: bv32, z: bv32): bv32 { (x & y) ^ (x & z) ^ (y & z) }

  function F(t: nat, x: bv32, y: bv32, z: bv32): bv32
  {
    if t < 20 then Ch(x, y, z) else if t < 40 then Parity(x, y, z) else if t < 60 then Maj(x, y, z) else Parity(x, y, z)
  }

  const K0: bv32 := 0x5a827999
  const K20: bv32 := 0x6ed9eba1
  const K40: bv32 := 0x8f1bbcdc
  const K60: bv32 := 0xca62c1d6

  function K(t: nat): bv32
  {
    if t < 20 then K0 else if t < 40 then K20 else if t < 60 then K40 else K60
  }

  /** The message schedule of section 6.1.2, step 1. */
  function W(m: seq<bv32>, t: nat): bv32
    requires |m| == 16
  {
    if t < 16 then m[t] else Rotl(W(m, t - 3) ^ W(m, t - 8) ^ W(m, t - 14) ^ W(m, t - 16), 1)
  }

  datatype Vars = Vars(a: bv32, b: bv32, c: bv32, d: bv32, e: bv32)

  function RoundSum(r: bv32, f: bv32, e: bv32, k: bv32, w: bv32): bv32
  {
    r + f + e + k + w
  }

  function Round(v: Vars, t: nat, w: bv32): Vars
  {
    Vars(RoundSum(Rotl(v.a, 5), F(t, v.b, v.c, v.d), v.e, K(t), w), v.a, Rotl(v.b, 30), v.c, v.d)
  }

  function Rounds(v: Vars, m: seq<bv32>, t: nat): Vars
    requires |m| == 16
  {
    if t == 0 then v else Round(Rounds(v, m, t - 1), t - 1, W(m, t - 1))
  }

  /** The hash of one block (section 6.1.2). */
  function Compress(h: Vars, m: seq<bv32>): Vars
    requires |m| == 16
  {
    var v := Rounds(h, m, 80);
    Vars(Plus(v.a, h.a), Plus(v.b, h.b), Plus(v.c, h.c), Plus(v.d, h.d), Plus(v.e, h.e))
  }

  const H0: Vars := Vars(0x67452301, 0xefcdab89, 0x98badcfe, 0x10325476, 0xc3d2e1f0)

  lemma ConstantsAsNumbers()
    ensures K0 as int == 0x5a827999 && K20 as int == 0x6ed9eba1 && K40 as int == 0x8f1bbcdc && K60 as int == 0xca62c1d6
  {
  }

  /** A number is the square root of `n`, scaled by 2^30 and rounded down. */
  predicate IsRoot(k: int, n: int)
  {
    k >= 0 && k * k <= n * 0x1000_0000_0000_0000 < (k + 1) * (k + 1)
  }

  /** The constants of section 4.2.1 are the square roots of 2, 3, 5 and 10. */
  lemma ConstantsAreRoots(t: nat)
    ensures IsRoot(K(t) as int, if t < 20 then 2 else if t < 40 then 3 else if t < 60 then 5 else 10)
  {
    ConstantsAsNumbers();
  }

  /** The initial hash value of section 5.3.1: read from the last byte of each word on, the
      bytes of the first four words count up from 01 to ef and down again by 22, and those of
      the fifth one down from f0 by 0f, all in hexadecimal. */
  lemma InitialHash(i: nat)
    requires i < 4
    ensures Big32(H0.a)[3 - i] as int == 0x01 + 0x22 * i && Big32(H0.b)[3 - i] as int == 0x89 + 0x22 * i
    ensures Big32(H0.c)[3 - i] as int == 0xfe - 0x22 * i && Big32(H0.d)[3 - i] as int == 0x76 - 0x22 * i
    ensures Big32(H0.e)[3 - i] as int == 0xf0 - 0x0f * i
  {
    InitialBytes();
  }

  lemma InitialBytes()
    ensures HashBytes(H0) == [0x67, 0x45, 0x23, 0x01, 0xef, 0xcd, 0xab, 0x89, 0x98, 0xba, 0xdc, 0xfe,
                              0x10, 0x32, 0x54, 0x76, 0xc3, 0xd2, 0xe1, 0xf0]
  {
  }

  /** Four bytes as a word, most significant first. */
  function Word(b0: byte, b1: byte, b2: byte, b3: byte): bv32
  {
    ((b0 as bv32) << 24) | ((b1 as bv32) << 16) | ((b2 as bv32) << 8) | (b3 as bv32)
  }

  function Words(block: seq<byte>): (m: seq<bv32>)
    requires |block| == 64
    ensures |m| == 16
  {
    seq(16, i requires 0 <= i < 16 => Word(block[4 * i], block[4 * i + 1], block[4 * i + 2], block[4 * i + 3]))
  }

  /** The hash of all full blocks. */
  function HashBlocks(h: Vars, bytes: seq<byte>): Vars
  {
    if |bytes| < 64 then h
    else
      var n := (|bytes| - 64) / 64 * 64;
      Compress(HashBlocks(h, bytes[..n]), Words(bytes[n..n + 64]))
  }

  /** A 64-bit number, most significant byte first. */
  function Big64(n: nat): (b: seq<byte>)
    ensures |b| == 8
  {
    [ByteOf(n / 0x100_0000_0000_0000), ByteOf(n / 0x1_0000_0000_0000), ByteOf(n / 0x100_0000_0000),
     ByteOf(n / 0x1_0000_0000), ByteOf(n / 0x100_0000), ByteOf(n / 0x1_0000), ByteOf(n / 0x100), ByteOf(n)]
  }

  /** Zero bytes of the padding of a message of `n` bytes. */
  function Zeros(n: nat): (z: nat)
    ensures z < 64 && (n + 1 + z) % 64 == 56
  {
    (119 - n % 64) % 64
  }

  /** A message with padding that gives its length as `n` bytes. */
  function PadTo(message: seq<byte>, n: nat): seq<byte>
  {
    message + [0x80] + seq(Zeros(|message|), i => 0) + Big64(8 * n)
  }

  /** The padded message of section 5.1.1. */
  function Pad(message: seq<byte>): seq<byte>
  {
    PadTo(message, |message|)
  }

  /** A word as bytes, most significant first. */
  function Big32(w: bv32): seq<byte>
  {
    [(w >> 24) as byte, ((w >> 16) & 0xff) as byte, ((w >> 8) & 0xff) as byte, (w & 0xff) as byte]
  }

  function HashBytes(h: Vars): seq<byte>
  {
    Big32(h.a) + Big32(h.b) + Big32(h.c) + Big32(h.d) + Big32(h.e)
  }

  function Digest(message: seq<byte>): seq<byte>
  {
    HashBytes(HashBlocks(H0, Pad(message)))
  }

  // ---------------------------------------------------------------------------
  // The forms the source computes

  function SourceCh(b: bv32, c: bv32, d: bv32): bv32 { d ^ (b & (c ^ d)) }
  function SourceMaj(b: bv32, c: bv32, d: bv32): bv32 { (b & c) | (d & (b | c)) }

  lemma ChBits(b: bv32, c: bv32, d: bv32)
    ensures d ^ (b & (c ^ d)) == (b & c) ^ (!b & d)
  {
  }

  lemma ChForm(b: bv32, c: bv32, d: bv32)
    ensures SourceCh(b, c, d) == Ch(b, c, d)
  {
    ChBits(b, c, d);
  }

  lemma MajBits(b: bv32, c: bv32, d: bv32)
    ensures (b & c) | (d & (b | c)) == (b & c) ^ (b & d) ^ (c & d)
  {
  }

  lemma MajForm(b: bv32, c: bv32, d: bv32)
    ensures SourceMaj(b, c, d) == Maj(b, c, d)
  {
    MajBits(b, c, d);
  }

  function SourceSum(f: bv32, k: bv32, r: bv32, e: bv32, w: bv32): bv32 { (f + k) + ((r + e) + w) }

  lemma SumForm(f: bv32, k: bv32, r: bv32, e: bv32, w: bv32)
    ensures SourceSum(f, k, r, e, w) == RoundSum(r, f, e, k, w)
  {
  }

  lemma PlusCommutes(x: bv32, y: bv32)
    ensures Plus(x, y) == Plus(y, x)
  {
  }

  /** One round, summed in the order of the source. */
  lemma RoundForm(v: Vars, i: nat, w: bv32)
    ensures Vars(SourceSum(F(i, v.b, v.c, v.d), K(i), Rotl(v.a, 5), v.e, w), v.a, Rotl(v.b, 30), v.c, v.d) == Round(v, i, w)
  {
    hide F, K, Rotl, SourceSum, RoundSum;
    SumForm(F(i, v.b, v.c, v.d), K(i), Rotl(v.a, 5), v.e, w);
  }

  /** The function and constant of round `i`, as the source writes them. */
  method Mix(i: nat, b: bv32, c: bv32, d: bv32) returns (f: bv32, k: bv32)
    ensures f == F(i, b, c, d) && k == K(i)
  {
    hide Ch, Maj, Parity, SourceCh, SourceMaj;
    ChForm(b, c, d);
    MajForm(b, c, d);
    if i < 20 {
      f, k := SourceCh(b, c, d), K0;
    } else if i < 40 {
      f, k := Parity(b, c, d), K20;
    } else if i < 60 {
      f, k := SourceMaj(b, c, d), K40;
    } else {
      f, k := Parity(b, c, d), K60;
    }
  }

  // ---------------------------------------------------------------------------
  // Words in little-endian memory

  /** The byte address with its two low bits flipped. */
  function Flip3(o: nat): (a: nat)
    ensures a / 4 == o / 4 && a % 4 == 3 - o % 4
  {
    o / 4 * 4 + (3 - o % 4)
  }

  /** The address the source computes for a byte of the block. */
  function FlippedAddress(o: nat): (a: nat)
    requires o < 64
    ensures a == Flip3(o)
  {
    FlipIs(o);
    ((o as bv8) ^ 3) as nat
  }

  lemma FlipIs(o: nat)
    requires o < 64
    ensures ((o as bv8) ^ 3) as nat == Flip3(o)
  {
    if o < 32 {
      if o < 16 { } else { }
    } else {
      if o < 48 { } else { }
    }
  }

  /** The bytes of a word in memory, least significant first. */
  function Little32(w: bv32): (b: seq<byte>)
    ensures |b| == 4
  {
    [(w & 0xff) as byte, ((w >> 8) & 0xff) as byte, ((w >> 16) & 0xff) as byte, (w >> 24) as byte]
  }

  lemma WordOfBytes(w: bv32)
    ensures var b := Little32(w); Word(b[3], b[2], b[1], b[0]) == w
  {
  }

  function Swap(w: bv32): bv32
  {
    ((w << 24) & 0xff000000) | ((w << 8) & 0x00ff0000) | ((w >> 8) & 0x0000ff00) | ((w >> 24) & 0x000000ff)
  }

  lemma SwappedBytes(w: bv32)
    ensures Little32(Swap(w)) == Big32(w)
  {
  }

  /** Word `i` of memory. */
  function WordAt(mem: seq<byte>, i: nat): bv32
    requires 4 * i + 4 <= |mem|
  {
    Word(mem[4 * i + 3], mem[4 * i + 2], mem[4 * i + 1], mem[4 * i])
  }

  function WordsOf(mem: seq<byte>): (m: seq<bv32>)
    requires |mem| == 64
    ensures |m| == 16
  {
    seq(16, i requires 0 <= i < 16 => WordAt(mem, i))
  }

  lemma StoredWord(mem: seq<byte>, mem': seq<byte>, i: nat, w: bv32)
    requires |mem| == |mem'| == 64 && i < 16
    requires mem' == mem[..4 * i] + Little32(w) + mem[4 * i + 4..]
    ensures WordsOf(mem') == WordsOf(mem)[i := w]
  {
    hide Word, Little32;
    WordOfBytes(w);
    forall j: nat | j < 16 ensures WordsOf(mem')[j] == WordsOf(mem)[i := w][j] {
    }
  }

  /** Bytes stored at flipped addresses make big-endian words. */
  lemma BufferWords(mem: seq<byte>, block: seq<byte>)
    requires |mem| == |block| == 64 && forall o: nat :: o < 64 ==> mem[Flip3(o)] == block[o]
    ensures WordsOf(mem) == Words(block)
  {
    hide Word, Flip3;
    forall i: nat | i < 16 ensures WordsOf(mem)[i] == Words(block)[i] {
      Flip3Word(i);
      assert mem[Flip3(4 * i)] == block[4 * i] && mem[Flip3(4 * i + 1)] == block[4 * i + 1];
      assert mem[Flip3(4 * i + 2)] == block[4 * i + 2] && mem[Flip3(4 * i + 3)] == block[4 * i + 3];
    }
  }

  lemma Flip3Word(i: nat)
    ensures Flip3(4 * i) == 4 * i + 3 && Flip3(4 * i + 1) == 4 * i + 2
    ensures Flip3(4 * i + 2) == 4 * i + 1 && Flip3(4 * i + 3) == 4 * i
  {
  }

  // ---------------------------------------------------------------------------
  // The schedule in 16 words

  /** The ring of 16 words holds the schedule words of numbers `i` - 16 up to `i`. */
  ghost predicate Ring(buffer: seq<bv32>, m: seq<bv32>, i: nat)
    requires |m| == 16
  {
    && |buffer| == 16 && i >= 16
    && forall k: nat :: i - 16 <= k < i ==> buffer[k % 16] == W(m, k)
  }

  /** The places the source adds up are those of the words three, eight, fourteen and
      sixteen back. */
  lemma RingPlaces(i: nat)
    requires i >= 16
    ensures (i + 13) % 16 == (i - 3) % 16 && (i + 8) % 16 == (i - 8) % 16 && (i + 2) % 16 == (i - 14) % 16
    ensures i % 16 == (i - 16) % 16
  {
  }

  lemma ScheduleWord(buffer: seq<bv32>, m: seq<bv32>, i: nat)
    requires |m| == 16 && Ring(buffer, m, i)
    ensures Rotl(buffer[(i + 13) % 16] ^ buffer[(i + 8) % 16] ^ buffer[(i + 2) % 16] ^ buffer[i % 16], 1) == W(m, i)
  {
    hide Rotl;
    RingPlaces(i);
    assert buffer[(i - 3) % 16] == W(m, i - 3) && buffer[(i - 8) % 16] == W(m, i - 8);
    assert buffer[(i - 14) % 16] == W(m, i - 14) && buffer[(i - 16) % 16] == W(m, i - 16);
  }

  lemma RingNext(buffer: seq<bv32>, m: seq<bv32>, i: nat, w: bv32)
    requires |m| == 16 && Ring(buffer, m, i) && w == W(m, i)
    ensures Ring(buffer[i % 16 := w], m, i + 1)
  {
    hide Rotl;
    forall k: nat | i - 15 <= k < i ensures buffer[i % 16 := w][k % 16] == W(m, k) {
      Residues(i, k);
      assert buffer[k % 16] == W(m, k);
    }
  }

  lemma Residues(i: nat, k: nat)
    requires i - 16 < k < i
    ensures k % 16 != i % 16
  {
  }

  /** The first 16 words are the block itself; from then on the ring has word `i`. */
  lemma RingWord(buffer: seq<bv32>, m: seq<bv32>, i: nat)
    requires |m| == 16 && |buffer| == 16
    requires if i < 16 then buffer == m else Ring(buffer, m, i + 1)
    ensures buffer[i % 16] == W(m, i)
    ensures i == 15 ==> Ring(buffer, m, i + 1)
  {
  }

  lemma RingLength(buffer: seq<bv32>, m: seq<bv32>, i: nat)
    requires |m| == 16 && Ring(buffer, m, i)
    ensures |buffer| == 16 && i >= 16
  {
  }

  // ---------------------------------------------------------------------------
  // Data in full blocks

  function FullBytes(data: seq<byte>): (n: nat)
    ensures n <= |data| && |data| - n == |data| % 64
  {
    |data| / 64 * 64
  }

  lemma FullNext(n: nat)
    ensures n % 64 == 63 ==> (n + 1) / 64 * 64 == n / 64 * 64 + 64 && (n + 1) % 64 == 0
    ensures n % 64 != 63 ==> (n + 1) / 64 * 64 == n / 64 * 64 && (n + 1) % 64 == n % 64 + 1
  {
  }

  /** Appending a byte to the data hashed so far. */
  lemma AppendByte(h: Vars, data: seq<byte>, b: byte)
    ensures var n := FullBytes(data);
            if |data| % 64 == 63
            then FullBytes(data + [b]) == n + 64
                 && HashBlocks(h, data + [b]) == Compress(HashBlocks(h, data), Words(data[n..] + [b]))
            else FullBytes(data + [b]) == n && HashBlocks(h, data + [b]) == HashBlocks(h, data)
  {
    hide Compress, Words;
    var n := FullBytes(data);
    FullNext(|data|);
    OnlyFullBlocks(h, data);
    OnlyFullBlocks(h, data + [b]);
    assert (data + [b])[..n] == data[..n];
    if |data| % 64 == 63 {
      assert (data + [b])[n..n + 64] == data[n..] + [b];
      assert (data + [b])[..n + 64] == data + [b];
    }
  }

  lemma OnlyFullBlocks(h: Vars, data: seq<byte>)
    ensures HashBlocks(h, data) == HashBlocks(h, data[..FullBytes(data)])
  {
    hide Compress, Words;
    if |data| >= 64 {
      var full := data[..FullBytes(data)];
      var n := (|data| - 64) / 64 * 64;
      assert (|full| - 64) / 64 * 64 == n;
      assert full[..n] == data[..n] && full[n..n + 64] == data[n..n + 64];
    }
  }

  const WRAP: nat := 0x1_0000_0000

  lemma CountNext(n: nat)
    ensures (n % WRAP + 1) % WRAP == (n + 1) % WRAP
  {
  }

  class Sha1Info {
    const state: array<bv32>      // five words
    const buffer: array<byte>     // sixteen words of memory, the block as it fills
    var byteCount: nat            // modulo 2^32
    var bufferOffset: nat
    ghost var data: seq<byte>     // everything added so far

    ghost predicate Shaped()
      reads this
    {
      state.Length == 5 && buffer.Length == 64
    }

    ghost function Hash(): Vars
      requires Shaped()
      reads this, state
    {
      Vars(state[0], state[1], state[2], state[3], state[4])
    }

    /** The state is the hash of the full blocks, the buffer holds the rest. */
    ghost predicate Valid()
      reads this, state, buffer
    {
      && Shaped() && bufferOffset == |data| % 64
      && Hash() == HashBlocks(H0, data)
      && forall o: nat :: o < bufferOffset ==> buffer[Flip3(o)] == data[FullBytes(data) + o]
    }

    constructor ()
      ensures Valid() && data == [] && byteCount == 0 && fresh(state) && fresh(buffer)
    {
      state := new bv32[5];
      buffer := new byte[64];
      new;
      state[0], state[1], state[2], state[3], state[4] := 0x67452301, 0xefcdab89, 0x98badcfe, 0x10325476, 0xc3d2e1f0;
      byteCount, bufferOffset, data := 0, 0, [];
    }

    method StoreWord(i: nat, w: bv32)
      requires Shaped() && i < 16
      modifies buffer
      ensures WordsOf(buffer[..]) == WordsOf(old(buffer[..]))[i := w]
    {
      hide Word, Little32;
      var b := Little32(w);
      buffer[4 * i], buffer[4 * i + 1], buffer[4 * i + 2], buffer[4 * i + 3] := b[0], b[1], b[2], b[3];
      StoredWord(old(buffer[..]), buffer[..], i, w);
    }

    /** Word number `i` of the schedule, worked out in place. */
    method Schedule(i: nat, ghost m: seq<bv32>)
      requires Shaped() && |m| == 16 && Ring(WordsOf(buffer[..]), m, i)
      modifies buffer
      ensures Ring(WordsOf(buffer[..]), m, i + 1)
    {
      hide Rotl, Ring, WordAt;
      ghost var words := WordsOf(buffer[..]);
      RingLength(words, m, i);
      ScheduleWord(words, m, i);
      RingNext(words, m, i, W(m, i));
      var t := WordAt(buffer[..], (i + 13) % 16) ^ WordAt(buffer[..], (i + 8) % 16)
               ^ WordAt(buffer[..], (i + 2) % 16) ^ WordAt(buffer[..], i % 16);
      StoreWord(i % 16, Rotl(t, 1));
    }

    /** Hashes the block in the buffer. */
    method HashBlock()
      requires Shaped()
      modifies state, buffer
      ensures Hash() == Compress(old(Hash()), WordsOf(old(buffer[..])))
    {
      hide Rotl, F, K, Round, Ring, WordAt, Plus, SourceSum;
      ghost var m := WordsOf(buffer[..]);
      ghost var h := Hash();
      var a, b, c, d, e := state[0], state[1], state[2], state[3], state[4];
      var i: nat := 0;
      while i < 80
        invariant i <= 80 && Vars(a, b, c, d, e) == Rounds(h, m, i)
        invariant if i < 16 then WordsOf(buffer[..]) == m else Ring(WordsOf(buffer[..]), m, i)
        invariant Hash() == h
        modifies buffer
      {
        if i >= 16 {
          Schedule(i, m);
        }
        RingWord(WordsOf(buffer[..]), m, i);
        var f, k := Mix(i, b, c, d);
        RoundForm(Vars(a, b, c, d, e), i, W(m, i));
        var t := SourceSum(f, k, Rotl(a, 5), e, WordAt(buffer[..], i % 16));
        a, b, c, d, e := t, a, Rotl(b, 30), c, d;
        i := i + 1;
      }
      AddAll(a, b, c, d, e);
    }

    method AddAll(a: bv32, b: bv32, c: bv32, d: bv32, e: bv32)
      requires Shaped()
      modifies state
      ensures var h := old(Hash()); Hash() == Vars(Plus(a, h.a), Plus(b, h.b), Plus(c, h.c), Plus(d, h.d), Plus(e, h.e))
    {
      hide Plus;
      PlusCommutes(state[0], a);
      PlusCommutes(state[1], b);
      PlusCommutes(state[2], c);
      PlusCommutes(state[3], d);
      PlusCommutes(state[4], e);
      state[0] := Plus(state[0], a);
      state[1] := Plus(state[1], b);
      state[2] := Plus(state[2], c);
      state[3] := Plus(state[3], d);
      state[4] := Plus(state[4], e);
    }

    /** Adds a byte to the block. */
    method AddUncounted(b: byte)
      requires Valid()
      modifies this`bufferOffset, this`data, state, buffer
      ensures Valid() && data == old(data) + [b]
    {
      hide Compress, Words, WordsOf, FlippedAddress;
      AppendByte(H0, data, b);
      ghost var n := FullBytes(data);
      buffer[FlippedAddress(bufferOffset)] := b;
      bufferOffset := bufferOffset + 1;
      if bufferOffset == 64 {
        BufferWords(buffer[..], data[n..] + [b]);
        HashBlock();
        bufferOffset := 0;
      }
      data := data + [b];
    }

    /** Adds data. */
    method Write(more: seq<byte>)
      requires Valid() && Counting()
      modifies this`byteCount, this`bufferOffset, this`data, state, buffer
      ensures Valid() && Counting() && data == old(data) + more
    {
      hide Compress, Words, Flip3;
      var i := 0;
      while i < |more|
        invariant i <= |more| && Valid() && Counting() && data == old(data) + more[..i]
      {
        CountNext(|data|);
        byteCount := (byteCount + 1) % WRAP;
        AddUncounted(more[i]);
        i := i + 1;
      }
    }

    /** The byte count is the length of the data, in 32 bits. */
    ghost predicate Counting()
      reads this
    {
      byteCount == |data| % WRAP
    }

    /** Adds several bytes of padding. */
    method AddAllUncounted(more: seq<byte>)
      requires Valid()
      modifies this`bufferOffset, this`data, state, buffer
      ensures Valid() && data == old(data) + more
    {
      hide Compress, Words, Flip3;
      var i := 0;
      while i < |more|
        invariant i <= |more| && Valid() && data == old(data) + more[..i]
      {
        AddUncounted(more[i]);
        i := i + 1;
      }
    }

    /** Completes the last block. */
    method PadData()
      requires Valid() && Counting()
      modifies this`bufferOffset, this`data, state, buffer
      ensures Valid() && data == PadTo(old(data), |old(data)| % WRAP)
    {
      hide Compress, Words, Flip3, ByteOf;
      ghost var message := data;
      AddUncounted(0x80);
      var zeros: seq<byte> := [];
      while bufferOffset != 56
        invariant Valid() && |zeros| <= Zeros(|message|) && data == message + [0x80] + zeros
        invariant zeros == seq(|zeros|, i => 0)
        decreases Zeros(|message|) - |zeros|
      {
        ZerosLeft(|message|, |zeros|);
        AddUncounted(0);
        zeros := zeros + [0];
      }
      ZerosLeft(|message|, |zeros|);
      var n := byteCount;
      AddAllUncounted([0, 0, 0, ByteOf(n / 0x2000_0000), ByteOf(n / 0x20_0000), ByteOf(n / 0x2000), ByteOf(n / 0x20), ByteOf(n * 8)]);
      BitLength(n);
    }

    /** The digest, as the bytes of the state in memory after its words are swapped. */
    method Result() returns (digest: seq<byte>)
      requires Valid() && Counting()
      modifies this`bufferOffset, this`data, state, buffer
      ensures digest == HashBytes(HashBlocks(H0, PadTo(old(data), |old(data)| % WRAP)))
      ensures |old(data)| < 0x1_0000_0000 ==> digest == Digest(old(data))
    {
      hide PadTo, HashBytes, Compress, Words, Flip3;
      PadData();
      digest := TakeDigest();
    }

    /** The bytes of the state in memory after its words are swapped. */
    method TakeDigest() returns (digest: seq<byte>)
      requires Shaped()
      modifies state
      ensures digest == HashBytes(old(Hash()))
    {
      hide Little32, Big32, Swap;
      var d0 := TakeWord(0, []);
      assert d0 == Big32(old(state[0]));
      var d1 := TakeWord(1, d0);
      var d2 := TakeWord(2, d1);
      var d3 := TakeWord(3, d2);
      digest := TakeWord(4, d3);
    }

    /** Swaps word `i` of the state and takes its bytes from memory. */
    method TakeWord(i: nat, before: seq<byte>) returns (digest: seq<byte>)
      requires Shaped() && i < 5
      modifies state
      ensures digest == before + Big32(old(state[i]))
      ensures forall j :: 0 <= j < 5 && j != i ==> state[j] == old(state[j])
    {
      hide Little32, Big32, Swap;
      SwappedBytes(state[i]);
      state[i] := Swap(state[i]);
      digest := before + Little32(state[i]);
    }
  }

  /** Zero bytes are added until the offset is 56. */
  lemma ZerosLeft(n: nat, z: nat)
    requires z <= Zeros(n)
    ensures (n + 1 + z) % 64 == 56 <==> z == Zeros(n)
  {
  }

  lemma BitsOfBytes(n: nat)
    requires n < WRAP
    ensures 8 * n / 0x100_0000_0000_0000 == 0 && 8 * n / 0x1_0000_0000_0000 == 0 && 8 * n / 0x100_0000_0000 == 0
    ensures 8 * n / 0x1_0000_0000 == n / 0x2000_0000 && 8 * n / 0x100_0000 == n / 0x20_0000
    ensures 8 * n / 0x1_0000 == n / 0x2000 && 8 * n / 0x100 == n / 0x20
  {
  }

  lemma BitLength(n: nat)
    requires n < WRAP
    ensures Big64(8 * n) == [0, 0, 0, ByteOf(n / 0x2000_0000), ByteOf(n / 0x20_0000), ByteOf(n / 0x2000), ByteOf(n / 0x20), ByteOf(n * 8)]
  {
    hide ByteOf;
    BitsOfBytes(n);
    ZeroByte();
  }

  lemma ZeroByte()
    ensures ByteOf(0) == 0
  {
  }

  function Concat(pieces: seq<seq<byte>>): seq<byte>
  {
    if pieces == [] then [] else Concat(pieces[..|pieces| - 1]) + pieces[|pieces| - 1]
  }

  /** However a message is cut into writes, the digest is that of FIPS 180-4. */
  method HashPieces(pieces: seq<seq<byte>>) returns (digest: seq<byte>)
    requires |Concat(pieces)| < WRAP
    ensures digest == Digest(Concat(pieces))
  {
    hide HashBytes, Compress, Words, Flip3;
    var s := new Sha1Info();
    var i := 0;
    while i < |pieces|
      invariant i <= |pieces| && s.Valid() && s.Counting() && s.data == Concat(pieces[..i])
      invariant fresh(s) && fresh(s.state) && fresh(s.buffer)
    {
      s.Write(pieces[i]);
      assert pieces[..i + 1][..i] == pieces[..i];
      i := i + 1;
    }
    assert pieces[..|pieces|] == pieces;
    DigestOf(s.data);
    digest := s.Result();
  }

  lemma DigestOf(message: seq<byte>)
    requires |message| < WRAP
    ensures HashBytes(HashBlocks(H0, PadTo(message, |message| % WRAP))) == Digest(message)
  {
    hide HashBytes, PadTo, Compress, Words;
    SmallRemainder(|message|);
  }

  lemma SmallRemainder(n: nat)
    requires n < WRAP
    ensures n % WRAP == n
  {
  }
}

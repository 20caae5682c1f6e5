/** Base64 over a 32-bit accumulator that overflows, and the decoder that undoes it.
    The encoding is that of section 4 of RFC 4648. */
module Base64 {
  import opened Geometry

  type octet = n: int | 0 <= n < 256

  const PAD: octet := 61
  const WRAP: nat := 0x1_0000_0000

  /** The character of a six-bit number. */
  function EncTab(n: nat): octet
    requires n < 64
  {
    if n < 26 then 65 + n else if n < 52 then 97 + (n - 26) else if n < 62 then 48 + (n - 52) else if n == 62 then 43 else 47
  }

  /** The number of a character; 255 if it has none. */
  function DecTab(c: octet): nat
  {
    if 65 <= c <= 90 then c - 65
    else if 97 <= c <= 122 then c - 97 + 26
    else if 48 <= c <= 57 then c - 48 + 52
    else if c == 43 then 62
    else if c == 47 then 63
    else if c == PAD then 0
    else 255
  }

  /** The alphabet of RFC 4648 (table 1). */
  const UPPER: string := "ABCDEFGHIJKLMNOPQRSTUVWXYZ"
  const LOWER: string := "abcdefghijklmnopqrstuvwxyz"
  const ALPHABET: string := UPPER + LOWER + "0123456789+/"

  /** The tables are the alphabet and its inverse: a character outside it stops the decoder,
      and so does the padding. */
  lemma TablesAreAlphabet(c: octet)
    ensures |ALPHABET| == 64 && forall n: nat :: n < 64 ==> EncTab(n) == ALPHABET[n] as int
    ensures c != '=' as int ==> forall n: nat :: n < 64 ==> (DecTab(c) == n <==> ALPHABET[n] as int == c)
    ensures c != '=' as int ==> (DecTab(c) == 255 <==> forall n: nat :: n < 64 ==> ALPHABET[n] as int != c)
    ensures PAD == '=' as int
  {
    forall n: nat | n < 64 ensures EncTab(n) == ALPHABET[n] as int {
      if n < 26 {
        assert ALPHABET[n] == UPPER[n];
      } else if n < 52 {
        assert ALPHABET[n] == LOWER[n - 26];
      } else {
        assert ALPHABET[n] == "0123456789+/"[n - 52];
      }
    }
    if DecTab(c) < 64 {
      assert EncTab(DecTab(c)) == c || c == PAD;
    }
  }

  predicate IsSpace(c: octet)
  {
    c == 32 || 9 <= c <= 13
  }

  // ---------------------------------------------------------------------------
  // The encoding, three octets at a time

  function Group(a: octet, b: octet, c: octet): seq<octet>
  {
    [EncTab(a / 4), EncTab(a % 4 * 16 + b / 16), EncTab(b % 16 * 4 + c / 64), EncTab(c % 64)]
  }

  function Groups(x: seq<octet>): (r: seq<octet>)
    requires |x| % 3 == 0
    ensures |r| == |x| / 3 * 4
  {
    if x == [] then []
    else
      var n := |x| - 3;
      Groups(x[..n]) + Group(x[n], x[n + 1], x[n + 2])
  }

  function LastGroup(x: seq<octet>): seq<octet>
    requires |x| < 3
  {
    if |x| == 0 then []
    else if |x| == 1 then [EncTab(x[0] / 4), EncTab(x[0] % 4 * 16), PAD, PAD]
    else [EncTab(x[0] / 4), EncTab(x[0] % 4 * 16 + x[1] / 16), EncTab(x[1] % 16 * 4), PAD]
  }

  function Whole(n: nat): (m: nat)
    ensures m <= n && n - m == n % 3 && m % 3 == 0
  {
    n / 3 * 3
  }

  function Encoded(x: seq<octet>): (r: seq<octet>)
    ensures |r| == (|x| + 2) / 3 * 4
  {
    Groups(x[..Whole(|x|)]) + LastGroup(x[Whole(|x|)..])
  }

  // ---------------------------------------------------------------------------
  // The decoding

  /** The numbers of the characters up to the first that stops the decoder. */
  function Sextets(text: seq<octet>): (q: seq<nat>)
    ensures Numbers(q)
  {
    if text == [] then []
    else if IsSpace(text[0]) then Sextets(text[1..])
    else if text[0] == PAD || DecTab(text[0]) == 255 then []
    else [DecTab(text[0])] + Sextets(text[1..])
  }

  predicate Numbers(q: seq<nat>)
  {
    forall i :: 0 <= i < |q| ==> q[i] < 64
  }

  /** The octet that number `s` completes after the numbers `q`: the first number of
      each four completes none. */
  function Completed(q: seq<nat>, s: nat): seq<octet>
    requires Numbers(q) && s < 64
  {
    if |q| % 4 == 0 then []
    else if |q| % 4 == 1 then [q[|q| - 1] * 4 + s / 16]
    else if |q| % 4 == 2 then [q[|q| - 1] % 16 * 16 + s / 4]
    else [q[|q| - 1] % 4 * 64 + s]
  }

  /** The octets that lie wholly within a run of six-bit numbers. */
  function Octets(q: seq<nat>): seq<octet>
    requires Numbers(q)
  {
    if q == [] then [] else Octets(q[..|q| - 1]) + Completed(q[..|q| - 1], q[|q| - 1])
  }

  function Decoded(text: seq<octet>): seq<octet>
  {
    Octets(Sextets(text))
  }

  // ---------------------------------------------------------------------------
  // Round trip

  lemma EncDec(n: nat)
    requires n < 64
    ensures DecTab(EncTab(n)) == n && !IsSpace(EncTab(n)) && EncTab(n) != PAD
  {
  }

  /** Characters of numbers at the front of a text. */
  lemma SextetsOfChars(a: nat, b: nat, text: seq<octet>)
    requires a < 64 && b < 64
    ensures Sextets([EncTab(a), EncTab(b)] + text) == [a, b] + Sextets(text)
  {
    EncDec(a);
    EncDec(b);
    var t := [EncTab(a), EncTab(b)] + text;
    assert t[1..] == [EncTab(b)] + text && t[1..][1..] == text;
  }

  lemma GroupBits(a: octet, b: octet, c: octet)
    ensures var s0, s1, s2, s3 := a / 4, a % 4 * 16 + b / 16, b % 16 * 4 + c / 64, c % 64;
            && s0 < 64 && s1 < 64 && s2 < 64 && s3 < 64
            && s0 * 4 + s1 / 16 == a && s1 % 16 * 16 + s2 / 4 == b && s2 % 4 * 64 + s3 == c
  {
  }

  lemma {:induction false} OctetsLength(q: seq<nat>)
    requires Numbers(q)
    ensures |Octets(q)| == |q| * 6 / 8
  {
    hide Completed;
    if q != [] {
      var n := |q| - 1;
      OctetsLength(q[..n]);
      CompletedLength(q[..n], q[n]);
      LengthNext(n);
    }
  }

  lemma CompletedLength(q: seq<nat>, s: nat)
    requires Numbers(q) && s < 64
    ensures |Completed(q, s)| == if |q| % 4 == 0 then 0 else 1
  {
  }

  lemma LengthNext(n: nat)
    ensures (n + 1) * 6 / 8 == n * 6 / 8 + if n % 4 == 0 then 0 else 1
  {
  }

  lemma OctetsNext(q: seq<nat>, s: nat)
    requires Numbers(q) && s < 64
    ensures Numbers(q + [s]) && Octets(q + [s]) == Octets(q) + Completed(q, s)
  {
    hide Completed;
    assert (q + [s])[..|q|] == q;
  }

  /** The octets of two, three and four numbers. */
  lemma OctetsOfGroup(s0: nat, s1: nat, s2: nat, s3: nat)
    requires s0 < 64 && s1 < 64 && s2 < 64 && s3 < 64
    ensures Octets([s0, s1]) == [s0 * 4 + s1 / 16]
    ensures Octets([s0, s1, s2]) == [s0 * 4 + s1 / 16, s1 % 16 * 16 + s2 / 4]
    ensures Octets([s0, s1, s2, s3]) == [s0 * 4 + s1 / 16, s1 % 16 * 16 + s2 / 4, s2 % 4 * 64 + s3]
  {
    hide Completed;
    CompletedOfGroup(s0, s1, s2, s3);
    OctetsNext([], s0);
    OctetsNext([s0], s1);
    OctetsNext([s0, s1], s2);
    OctetsNext([s0, s1, s2], s3);
    assert [] + [s0] == [s0] && [s0] + [s1] == [s0, s1];
    assert [s0, s1] + [s2] == [s0, s1, s2] && [s0, s1, s2] + [s3] == [s0, s1, s2, s3];
  }

  lemma CompletedOfGroup(s0: nat, s1: nat, s2: nat, s3: nat)
    requires s0 < 64 && s1 < 64 && s2 < 64 && s3 < 64
    ensures Completed([], s0) == [] && Completed([s0], s1) == [s0 * 4 + s1 / 16]
    ensures Completed([s0, s1], s2) == [s1 % 16 * 16 + s2 / 4] && Completed([s0, s1, s2], s3) == [s2 % 4 * 64 + s3]
  {
  }

  /** Four numbers in front make three octets in front. */
  lemma {:induction false} OctetsAfterGroup(g: seq<nat>, q: seq<nat>)
    requires Numbers(g) && Numbers(q) && |g| == 4
    ensures Numbers(g + q) && Octets(g + q) == Octets(g) + Octets(q)
  {
    hide Completed;
    if q == [] {
      assert g + q == g;
    } else {
      var n := |q| - 1;
      OctetsAfterGroup(g, q[..n]);
      OctetsNext(g + q[..n], q[n]);
      OctetsNext(q[..n], q[n]);
      assert g + q == (g + q[..n]) + [q[n]] && q == q[..n] + [q[n]];
      SameCompleted(g, q[..n], q[n]);
    }
  }

  lemma SameCompleted(g: seq<nat>, q: seq<nat>, s: nat)
    requires Numbers(g) && Numbers(q) && s < 64 && |g| == 4
    ensures Numbers(g + q) && Completed(g + q, s) == Completed(q, s)
  {
  }

  lemma GroupDecoded(a: octet, b: octet, c: octet, text: seq<octet>)
    ensures Decoded(Group(a, b, c) + text) == [a, b, c] + Decoded(text)
  {
    hide EncTab, DecTab, Completed;
    var s0, s1, s2, s3 := a / 4, a % 4 * 16 + b / 16, b % 16 * 4 + c / 64, c % 64;
    GroupBits(a, b, c);
    assert Group(a, b, c) + text == [EncTab(s0), EncTab(s1)] + ([EncTab(s2), EncTab(s3)] + text);
    SextetsOfChars(s0, s1, [EncTab(s2), EncTab(s3)] + text);
    SextetsOfChars(s2, s3, text);
    assert Sextets(Group(a, b, c) + text) == [s0, s1, s2, s3] + Sextets(text);
    OctetsAfterGroup([s0, s1, s2, s3], Sextets(text));
    OctetsOfGroup(s0, s1, s2, s3);
  }

  lemma {:induction false} GroupsDecoded(x: seq<octet>, text: seq<octet>)
    requires |x| % 3 == 0
    ensures Decoded(Groups(x) + text) == x + Decoded(text)
  {
    hide Decoded, Group;
    if x == [] {
      assert Groups(x) + text == text;
    } else {
      var n := |x| - 3;
      var g := Group(x[n], x[n + 1], x[n + 2]);
      assert Groups(x) + text == Groups(x[..n]) + (g + text);
      GroupsDecoded(x[..n], g + text);
      GroupDecoded(x[n], x[n + 1], x[n + 2], text);
      assert x == x[..n] + [x[n], x[n + 1], x[n + 2]];
    }
  }

  lemma OneDecoded(a: octet)
    ensures Decoded(LastGroup([a])) == [a]
  {
    hide EncTab, DecTab, Completed;
    var s0, s1 := a / 4, a % 4 * 16;
    SextetsOfChars(s0, s1, [PAD, PAD]);
    assert LastGroup([a]) == [EncTab(s0), EncTab(s1)] + [PAD, PAD];
    assert Sextets(LastGroup([a])) == [s0, s1];
    OctetsOfGroup(s0, s1, 0, 0);
  }

  lemma LastChar(s: nat)
    requires s < 64
    ensures Sextets([EncTab(s), PAD]) == [s]
  {
    EncDec(s);
    assert [EncTab(s), PAD][1..] == [PAD];
  }

  lemma TwoDecoded(a: octet, b: octet)
    ensures Decoded(LastGroup([a, b])) == [a, b]
  {
    hide EncTab, DecTab, Completed;
    GroupBits(a, b, 0);
    var s0, s1, s2 := a / 4, a % 4 * 16 + b / 16, b % 16 * 4;
    LastChar(s2);
    SextetsOfChars(s0, s1, [EncTab(s2), PAD]);
    assert LastGroup([a, b]) == [EncTab(s0), EncTab(s1)] + [EncTab(s2), PAD];
    assert Sextets(LastGroup([a, b])) == [s0, s1, s2];
    OctetsOfGroup(s0, s1, s2, 0);
  }

  lemma LastDecoded(x: seq<octet>)
    requires |x| < 3
    ensures Decoded(LastGroup(x)) == x
  {
    hide Decoded, LastGroup;
    if |x| == 0 {
      NoneDecoded();
    } else if |x| == 1 {
      OneDecoded(x[0]);
      assert x == [x[0]];
    } else {
      TwoDecoded(x[0], x[1]);
      assert x == [x[0], x[1]];
    }
  }

  lemma NoneDecoded()
    ensures Decoded(LastGroup([])) == []
  {
  }

  /** Decoding undoes encoding. */
  lemma RoundTrip(x: seq<octet>)
    ensures Decoded(Encoded(x)) == x
  {
    var n := Whole(|x|);
    GroupsDecoded(x[..n], LastGroup(x[n..]));
    LastDecoded(x[n..]);
  }

  // ---------------------------------------------------------------------------
  // The encoder

  /** Bits still in the accumulator after `n` octets. */
  function Left(n: nat): nat
  {
    if n % 3 == 0 then 0 else if n % 3 == 1 then 2 else 4
  }

  /** Characters for whole six-bit numbers in `x`. */
  function Chars(x: seq<octet>): seq<octet>
  {
    var n := Whole(|x|);
    Groups(x[..n]) + (if |x| - n == 0 then []
                      else if |x| - n == 1 then [EncTab(x[n] / 4)]
                      else [EncTab(x[n] / 4), EncTab(x[n] % 4 * 16 + x[n + 1] / 16)])
  }

  /** What the accumulator holds of `x`. */
  function Rest(x: seq<octet>): nat
  {
    if |x| % 3 == 0 then 0 else if |x| % 3 == 1 then x[|x| - 1] % 4 else x[|x| - 1] % 16
  }

  /** One more octet gives one character, or two and an empty accumulator. */
  lemma CharsNext(x: seq<octet>, c: octet)
    ensures |x| % 3 == 0 ==> Chars(x + [c]) == Chars(x) + [EncTab(c / 4)]
    ensures |x| % 3 == 1 ==> Chars(x + [c]) == Chars(x) + [EncTab(Rest(x) * 16 + c / 16)]
    ensures |x| % 3 == 2 ==> Chars(x + [c]) == Chars(x) + [EncTab(Rest(x) * 4 + c / 64), EncTab(c % 64)]
  {
    hide EncTab;
    var n := Whole(|x|);
    if |x| % 3 == 2 {
      assert (x + [c])[..n + 3] == x + [c] && x[..n] == (x + [c])[..n];
    } else {
      assert (x + [c])[..n] == x[..n];
    }
  }

  /** All characters: those of whole numbers, one of the bits left over, and padding. */
  lemma CharsToEncoded(x: seq<octet>)
    ensures |x| % 3 == 0 ==> Encoded(x) == Chars(x)
    ensures |x| % 3 == 1 ==> Encoded(x) == Chars(x) + [EncTab(Rest(x) * 16), PAD, PAD]
    ensures |x| % 3 == 2 ==> Encoded(x) == Chars(x) + [EncTab(Rest(x) * 4), PAD]
  {
    hide EncTab;
    var n := Whole(|x|);
  }

  lemma CharsCount(x: seq<octet>)
    ensures |Chars(x)| == |x| / 3 * 4 + |x| % 3
  {
  }

  /** What the overflowing accumulator holds: only its low bits matter. */
  lemma Shifted(v: nat, ch: octet, w: nat)
    requires w == (v * 256 + ch) % WRAP
    ensures w % 4 == ch % 4 && w / 4 % 64 == ch / 4
    ensures w % 16 == ch % 16 && w / 16 % 64 == v % 4 * 16 + ch / 16
    ensures w % 64 == ch % 64 && w / 64 % 64 == v % 16 * 4 + ch / 64
  {
    var q := (v * 256 + ch) / WRAP;
    assert w == v * 256 + ch - q * WRAP;
    LowBits0(w, v - q * 0x100_0000, ch);
    LowBits2(w, v / 4 - q * 0x40_0000, v % 4, ch);
    LowBits4(w, v / 16 - q * 0x10_0000, v % 16, ch);
  }

  lemma LowBits0(w: nat, k: int, ch: octet)
    requires w == k * 256 + ch
    ensures w % 4 == ch % 4 && w / 4 % 64 == ch / 4
  {
    DivUnique(w, 4, k * 64 + (ch / 4), ch % 4);
    DivUnique(k * 64 + (ch / 4), 64, k, ch / 4);
  }

  lemma LowBits2(w: nat, k: int, r: nat, ch: octet)
    requires r < 4 && w == k * 1024 + r * 256 + ch
    ensures w % 16 == ch % 16 && w / 16 % 64 == r * 16 + ch / 16
  {
    DivUnique(w, 16, k * 64 + (r * 16 + ch / 16), ch % 16);
    DivUnique(k * 64 + (r * 16 + ch / 16), 64, k, r * 16 + ch / 16);
  }

  lemma LowBits4(w: nat, k: int, r: nat, ch: octet)
    requires r < 16 && w == k * 4096 + r * 256 + ch
    ensures w % 64 == ch % 64 && w / 64 % 64 == r * 4 + ch / 64
  {
    DivUnique(w, 64, k * 64 + (r * 4 + ch / 64), ch % 64);
    DivUnique(k * 64 + (r * 4 + ch / 64), 64, k, r * 4 + ch / 64);
  }

  /** The number of bits left over decides the shift. */
  function ShiftRight(v: nat, rem: nat): nat
    requires rem <= 6 && rem % 2 == 0
  {
    if rem == 0 then v else if rem == 2 then v / 4 else if rem == 4 then v / 16 else v / 64
  }

  /** Takes one octet into the accumulator and puts out the characters it completes. */
  method EncodeOctet(x: seq<octet>, ch: octet, v0: nat, rem0: nat, io0: nat, out: array<octet>)
    returns (ok: bool, v: nat, rem: nat, io: nat)
    requires io0 == |Chars(x)| <= out.Length && out[..io0] == Chars(x) && rem0 == Left(|x|)
    requires v0 < WRAP && (rem0 == 2 ==> v0 % 4 == Rest(x)) && (rem0 == 4 ==> v0 % 16 == Rest(x))
    modifies out
    ensures ok <==> |Chars(x + [ch])| <= out.Length
    ensures ok ==> io == |Chars(x + [ch])| && out[..io] == Chars(x + [ch]) && rem == Left(|x| + 1)
    ensures ok ==> v < WRAP && (rem == 2 ==> v % 4 == ch % 4) && (rem == 4 ==> v % 16 == ch % 16)
  {
    hide EncTab, Chars, Rest;
    v, rem, io := (v0 * 256 + ch) % WRAP, rem0 + 8, io0;
    Shifted(v0, ch, v);
    CharsNext(x, ch);
    CharsCount(x);
    CharsCount(x + [ch]);
    ok := true;
    while rem >= 6
      invariant rem in {0, 2, 4, 6, 8, 10, 12} && (rem0 + 8 - rem) % 6 == 0 && rem <= rem0 + 8
      invariant io == io0 + (rem0 + 8 - rem) / 6 && io <= out.Length && ok
      invariant out[..io] == Chars(x + [ch])[..io]
    {
      rem := rem - 6;
      if io >= out.Length {
        return false, v, rem, io;
      }
      out[io] := EncTab(ShiftRight(v, rem) % 64);
      io := io + 1;
    }
  }

  /** Encodes into a buffer, with a terminator.  It fails exactly when the buffer has
      no room for all characters and the terminator. */
  method Encode(x: seq<octet>, out: array<octet>) returns (r: int)
    modifies out
    ensures r == -1 <==> out.Length <= (|x| + 2) / 3 * 4
    ensures r != -1 ==> r == |Encoded(x)| < out.Length && out[..r] == Encoded(x) && out[r] == 0
  {
    hide EncTab, Chars, Rest, Encoded, Left;
    var v: nat, rem: nat, io: nat, ii := 0, 0, 0, 0;
    NoChars();
    while ii < |x|
      invariant ii <= |x| && io == |Chars(x[..ii])| <= out.Length && out[..io] == Chars(x[..ii]) && rem == Left(ii)
      invariant v < WRAP && (rem == 2 ==> v % 4 == Rest(x[..ii])) && (rem == 4 ==> v % 16 == Rest(x[..ii]))
    {
      var ok;
      ok, v, rem, io := EncodeOctet(x[..ii], x[ii], v, rem, io, out);
      assert x[..ii] + [x[ii]] == x[..ii + 1];
      RestIs(x[..ii + 1]);
      if !ok {
        CharsShort(x, ii + 1);
        return -1;
      }
      ii := ii + 1;
    }
    assert x[..ii] == x;
    r := Finish(x, v, rem, io, out);
  }

  lemma NoChars()
    ensures Chars([]) == [] && Left(0) == 0
  {
  }

  lemma RestIs(x: seq<octet>)
    requires |x| > 0
    ensures Left(|x|) == 2 ==> Rest(x) == x[|x| - 1] % 4
    ensures Left(|x|) == 4 ==> Rest(x) == x[|x| - 1] % 16
  {
  }

  lemma CharsShort(x: seq<octet>, n: nat)
    requires n <= |x|
    ensures |Chars(x[..n])| <= (|x| + 2) / 3 * 4
  {
    CharsCount(x[..n]);
  }

  lemma FinishShift(v: nat, rem: nat, rest: nat)
    requires v < WRAP && (rem == 2 ==> v % 4 == rest) && (rem == 4 ==> v % 16 == rest)
    ensures rem == 2 ==> v * 16 % WRAP % 64 == rest * 16
    ensures rem == 4 ==> v * 4 % WRAP % 64 == rest * 4
  {
    if rem == 2 {
      ShiftedLow(v * 16, v / 4, rest * 16);
    } else if rem == 4 {
      ShiftedLow(v * 4, v / 16, rest * 4);
    }
  }

  lemma ShiftedLow(n: nat, k: nat, r: nat)
    requires n == k * 64 + r && r < 64
    ensures n % WRAP % 64 == r
  {
    var q := n / WRAP;
    assert n % WRAP == n - q * WRAP;
    DivUnique(n % WRAP, 64, k - q * 0x400_0000, r);
  }

  /** Puts out the last bits, the padding and the terminator. */
  method Finish(x: seq<octet>, v0: nat, rem: nat, io0: nat, out: array<octet>) returns (r: int)
    requires io0 == |Chars(x)| <= out.Length && out[..io0] == Chars(x) && rem == Left(|x|)
    requires v0 < WRAP && (rem == 2 ==> v0 % 4 == Rest(x)) && (rem == 4 ==> v0 % 16 == Rest(x))
    modifies out
    ensures r == -1 <==> out.Length <= (|x| + 2) / 3 * 4
    ensures r != -1 ==> r == |Encoded(x)| < out.Length && out[..r] == Encoded(x) && out[r] == 0
  {
    hide EncTab, Chars, Rest, Encoded;
    var v, io := v0, io0;
    CharsToEncoded(x);
    CharsCount(x);
    FinishShift(v, rem, Rest(x));
    if rem != 0 {
      v := (if rem == 2 then v * 16 else v * 4) % WRAP;
      if io >= out.Length {
        return -1;
      }
      out[io] := EncTab(v % 64);
      io := io + 1;
    }
    r := PadOut(Encoded(x), io, out);
  }

  /** Puts out padding up to a multiple of four characters, and the terminator. */
  method PadOut(ghost e: seq<octet>, io0: nat, out: array<octet>) returns (r: int)
    requires io0 <= |e| < io0 + 4 && |e| % 4 == 0
    requires io0 <= out.Length && out[..io0] == e[..io0]
    requires forall i :: io0 <= i < |e| ==> e[i] == PAD
    modifies out
    ensures r == -1 <==> out.Length <= |e|
    ensures r != -1 ==> r == |e| < out.Length && out[..r] == e && out[r] == 0
  {
    var io := io0;
    while io % 4 != 0
      invariant io0 <= io <= |e| && io <= out.Length && out[..io] == e[..io]
      decreases |e| - io
    {
      PadLeft(io, |e|);
      if io >= out.Length {
        return -1;
      }
      out[io] := PAD;
      io := io + 1;
    }
    PadLeft(io, |e|);
    if io >= out.Length {
      return -1;
    }
    out[io] := 0;
    return io;
  }

  lemma PadLeft(io: nat, n: nat)
    requires io <= n < io + 4 && n % 4 == 0
    ensures io % 4 != 0 <==> io < n
  {
  }

  // ---------------------------------------------------------------------------
  // The decoder

  lemma Joined(v: nat, s: nat, w: nat)
    requires s < 64 && w == (v * 64 + s) % WRAP
    ensures w % 64 == s && w % 16 == s % 16 && w % 4 == s % 4
    ensures w / 16 % 256 == v % 64 * 4 + s / 16
    ensures w / 4 % 256 == v % 16 * 16 + s / 4
    ensures w % 256 == v % 4 * 64 + s
  {
    var q := (v * 64 + s) / WRAP;
    assert w == v * 64 + s - q * WRAP;
    JoinedLow(w, v - q * 0x400_0000, s);
    JoinedTop(w, v, q, s);
    JoinedHigh(w, 16, v / 64 - q * 0x10_0000, v % 64 * 4 + s / 16, s % 16);
    JoinedHigh(w, 4, v / 16 - q * 0x40_0000, v % 16 * 16 + s / 4, s % 4);
  }

  lemma JoinedLow(w: nat, k: int, s: nat)
    requires s < 64 && w == k * 64 + s
    ensures w % 64 == s && w % 16 == s % 16 && w % 4 == s % 4
  {
    DivUnique(w, 64, k, s);
    DivUnique(w, 16, k * 4 + s / 16, s % 16);
    DivUnique(w, 4, k * 16 + s / 4, s % 4);
  }

  lemma JoinedTop(w: nat, v: nat, q: nat, s: nat)
    requires s < 64 && w == v * 64 + s - q * WRAP
    ensures w % 256 == v % 4 * 64 + s
  {
    DivUnique(w, 256, v / 4 - q * 0x100_0000, v % 4 * 64 + s);
  }

  lemma JoinedHigh(w: nat, d: nat, k: int, hi: nat, lo: nat)
    requires d in {4, 16} && hi < 256 && lo < d && w == (k * 256 + hi) * d + lo
    ensures w / d % 256 == hi
  {
    DivUnique(w, d, k * 256 + hi, lo);
    DivUnique(k * 256 + hi, 256, k, hi);
  }

  /** What the accumulator holds of the numbers so far. */
  ghost predicate Pending(q: seq<nat>, v: nat, rem: nat)
  {
    && Numbers(q) && v < WRAP
    && (|q| % 4 == 0 ==> rem == 0)
    && (|q| % 4 == 1 ==> rem == 6 && v % 64 == q[|q| - 1])
    && (|q| % 4 == 2 ==> rem == 4 && v % 16 == q[|q| - 1] % 16)
    && (|q| % 4 == 3 ==> rem == 2 && v % 4 == q[|q| - 1] % 4)
  }

  /** The octet on top of `rem` bits of the accumulator. */
  function TopOctet(v: nat, rem: nat): octet
    requires rem in {0, 2, 4}
  {
    (if rem == 0 then v else if rem == 2 then v / 4 else v / 16) % 256
  }

  /** The accumulator after a number, and the octet on top of it. */
  lemma PendingNext(q: seq<nat>, s: nat, v: nat, rem: nat, w: nat)
    requires Pending(q, v, rem) && s < 64 && w == (v * 64 + s) % WRAP
    ensures rem == 0 ==> Completed(q, s) == [] && Pending(q + [s], w, 6)
    ensures rem != 0 ==> rem in {2, 4, 6} && Completed(q, s) == [TopOctet(w, rem - 2)] && Pending(q + [s], w, rem - 2)
  {
    Joined(v, s, w);
    NextOfFour(|q|);
    assert (q + [s])[|q|] == s;
  }

  lemma NextOfFour(n: nat)
    ensures (n + 1) % 4 == if n % 4 == 3 then 0 else n % 4 + 1
  {
  }

  /** Takes a number into the accumulator and puts out the octet it completes. */
  method DecodeNumber(ghost q: seq<nat>, s: nat, v0: nat, rem0: nat, io0: nat, out: array<octet>)
    returns (ok: bool, v: nat, rem: nat, io: nat)
    requires s < 64 && Numbers(q) && Pending(q, v0, rem0) && io0 == |Octets(q)| <= out.Length && out[..io0] == Octets(q)
    modifies out
    ensures Numbers(q + [s])
    ensures ok <==> |Octets(q + [s])| <= out.Length
    ensures ok ==> Pending(q + [s], v, rem) && io == |Octets(q + [s])| && out[..io] == Octets(q + [s])
  {
    hide Pending, Completed, TopOctet;
    v, rem, io := (v0 * 64 + s) % WRAP, rem0 + 6, io0;
    PendingNext(q, s, v0, rem0, v);
    OctetsNext(q, s);
    ok := true;
    if rem >= 8 {
      rem := rem - 8;
      if io >= out.Length {
        return false, v, rem, io;
      }
      out[io] := TopOctet(v, rem);
      io := io + 1;
    }
  }

  /** What the decoder does with the next character. */
  datatype Step = Skip | Stop | Take

  function StepAt(c: octet): Step
  {
    if IsSpace(c) then Skip else if c == PAD || DecTab(c) == 255 then Stop else Take
  }

  lemma SextetsStep(text: seq<octet>, ii: nat)
    requires ii < |text|
    ensures StepAt(text[ii]) == Skip ==> Sextets(text[ii..]) == Sextets(text[ii + 1..])
    ensures StepAt(text[ii]) == Stop ==> Sextets(text[ii..]) == []
    ensures StepAt(text[ii]) == Take ==>
              DecTab(text[ii]) < 64 && Sextets(text[ii..]) == [DecTab(text[ii])] + Sextets(text[ii + 1..])
  {
    assert text[ii..][1..] == text[ii + 1..];
  }

  /** Decodes into a buffer.  It fails exactly when the buffer has no room for the octets. */
  method Decode(text: seq<octet>, out: array<octet>) returns (r: int)
    modifies out
    ensures r == -1 <==> out.Length < |Decoded(text)|
    ensures r != -1 ==> r == |Decoded(text)| && out[..r] == Decoded(text)
  {
    hide DecTab, Pending, Completed, StepAt, Numbers;
    var v: nat, rem: nat, io: nat, ii := 0, 0, 0, 0;
    ghost var q: seq<nat> := [];
    NothingPending();
    assert text[0..] == text;
    while ii < |text|
      invariant ii <= |text| && Numbers(q) && Pending(q, v, rem)
      invariant io == |Octets(q)| <= out.Length && out[..io] == Octets(q)
      invariant Sextets(text) == q + Sextets(text[ii..])
    {
      SextetsStep(text, ii);
      var step := StepAt(text[ii]);
      if step == Stop {
        break;
      }
      if step == Take {
        var ok;
        ok, v, rem, io := DecodeNumber(q, DecTab(text[ii]), v, rem, io, out);
        q := q + [DecTab(text[ii])];
        assert Sextets(text) == q + Sextets(text[ii + 1..]);
        if !ok {
          MoreOctets(q, Sextets(text[ii + 1..]));
          return -1;
        }
      }
      ii := ii + 1;
    }
    assert Sextets(text) == q;
    LessThanAnOctet(q, v, rem);
    return io;
  }

  lemma NothingPending()
    ensures Numbers([]) && Pending([], 0, 0) && Octets([]) == []
  {
  }

  /** The test for another octet after the loop never succeeds. */
  lemma LessThanAnOctet(q: seq<nat>, v: nat, rem: nat)
    requires Pending(q, v, rem)
    ensures rem < 8
  {
  }

  lemma MoreOctets(a: seq<nat>, b: seq<nat>)
    requires Numbers(a) && Numbers(b)
    ensures |Octets(a)| <= |Octets(a + b)|
  {
    OctetsLength(a);
    OctetsLength(a + b);
  }

  /** With room for the characters and their terminator, encoding and then decoding
      what was written gives the octets back. */
  method EncodeDecode(x: seq<octet>) returns (y: seq<octet>)
    ensures y == x
  {
    hide Encoded, Decoded;
    var text := new octet[(|x| + 2) / 3 * 4 + 1];
    var n := Encode(x, text);
    var back := new octet[|x|];
    RoundTrip(x);
    var m := Decode(text[..n], back);
    y := back[..m];
  }
}

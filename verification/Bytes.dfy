/** Bytes and the numbers they stand for. */
module Bytes {

  type byte = bv8

  /** The low byte of a number. */
  function ByteOf(n: nat): byte { (n % 256) as byte }

  function Num(b: byte): nat { b as nat }

  lemma ByteValue(n: nat)
    ensures Num(ByteOf(n)) == n % 256
  {
    SmallByte(n % 256);
  }

  lemma SmallByte(m: nat)
    requires m < 256
    ensures (m as byte) as nat == m
  {
    if m < 128 {
      if m < 64 { } else { }
    } else {
      if m < 192 { } else { }
    }
  }

  /** The string in a field, up to its terminator. */
  function CString(field: seq<byte>): seq<byte>
  {
    if field == [] || field[0] == 0 then [] else [field[0]] + CString(field[1..])
  }

  lemma {:induction false} CStringOf(name: seq<byte>, rest: seq<byte>)
    requires 0 !in name
    ensures CString(name + [0] + rest) == name
  {
    var field := name + [0] + rest;
    if name != [] {
      CStringOf(name[1..], rest);
      assert field[1..] == name[1..] + [0] + rest;
    }
  }

  function Pow256(k: nat): (p: nat)
    ensures p > 0
  {
    if k == 0 then 1 else 256 * Pow256(k - 1)
  }

  /** The `k` low bytes of a number, least significant first. */
  function Little(n: nat, k: nat): (b: seq<byte>)
    ensures |b| == k
  {
    if k == 0 then [] else [ByteOf(n)] + Little(n / 256, k - 1)
  }

  function Value(b: seq<byte>): nat
  {
    if b == [] then 0 else Num(b[0]) + 256 * Value(b[1..])
  }

  lemma {:induction false} LittleValue(n: nat, k: nat)
    requires n < Pow256(k)
    ensures Value(Little(n, k)) == n
  {
    hide ByteOf, Num;
    if k > 0 {
      ByteValue(n);
      LittleValue(n / 256, k - 1);
      assert Little(n, k)[1..] == Little(n / 256, k - 1);
    }
  }

  lemma SliceSlice(s: seq<byte>, p: nat, n: nat, o: nat, len: nat)
    requires p + n <= |s| && o + len <= n
    ensures s[p..p + n][o..o + len] == s[p + o..p + o + len]
  {
    var a, b := s[p..p + n][o..o + len], s[p + o..p + o + len];
    forall i | 0 <= i < len ensures a[i] == b[i] {
      assert a[i] == s[p..p + n][o + i];
    }
    assert |a| == len == |b|;
  }
}

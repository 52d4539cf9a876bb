/** Bytes and big-endian integers. */
module Bytes {
  type byte = b: int | 0 <= b < 256

  function Pow256(w: nat): (p: nat)
    ensures p >= 1
  {
    if w == 0 then 1 else 256 * Pow256(w - 1)
  }

  lemma EightBytes()
    ensures Pow256(4) == 0x1_0000_0000 && Pow256(8) == 0x1_0000_0000_0000_0000
  {
    assert Pow256(2) == 0x1_0000 by { assert Pow256(1) == 256; }
    assert Pow256(4) == 0x1_0000_0000 by { assert Pow256(3) == 0x100_0000; }
    assert Pow256(6) == 0x1_0000_0000_0000 by { assert Pow256(5) == 0x100_0000_0000; }
    assert Pow256(8) == 0x1_0000_0000_0000_0000 by { assert Pow256(7) == 0x100_0000_0000_0000; }
  }

  /** The w low bytes of n, most significant first. */
  function ToBytes(n: nat, w: nat): (s: seq<byte>)
    ensures |s| == w
  {
    if w == 0 then [] else ToBytes(n / 256, w - 1) + [n % 256]
  }

  function FromBytes(s: seq<byte>): (n: nat)
  {
    if s == [] then 0 else FromBytes(s[..|s| - 1]) * 256 + s[|s| - 1]
  }

  lemma {:induction false} FromToBytes(n: nat, w: nat)
    requires n < Pow256(w)
    ensures FromBytes(ToBytes(n, w)) == n
  {
    if w > 0 {
      var s := ToBytes(n, w);
      assert s[..w - 1] == ToBytes(n / 256, w - 1);
      FromToBytes(n / 256, w - 1);
    }
  }

  lemma {:induction false} ToFromBytes(s: seq<byte>)
    ensures FromBytes(s) < Pow256(|s|)
    ensures ToBytes(FromBytes(s), |s|) == s
  {
    if s != [] {
      var front, last := s[..|s| - 1], s[|s| - 1];
      var n := FromBytes(front);
      ToFromBytes(front);
      Digits(n, last);
      assert FromBytes(s) == n * 256 + last;
      assert ToBytes(n * 256 + last, |s|) == ToBytes(n, |s| - 1) + [last];
      assert s == front + [last];
    }
  }

  lemma Digits(n: nat, last: byte)
    ensures (n * 256 + last) / 256 == n && (n * 256 + last) % 256 == last
  {
  }

  /** Each byte by its place: the most significant one comes first. */
  lemma {:induction false} ByteAt(n: nat, w: nat, i: nat)
    requires i < w
    ensures ToBytes(n, w)[i] == n / Pow256(w - 1 - i) % 256
    decreases w
  {
    if i < w - 1 {
      ByteAt(n / 256, w - 1, i);
      DividedTwice(n, Pow256(w - 2 - i));
      assert Pow256(w - 1 - i) == 256 * Pow256(w - 2 - i);
    } else {
      assert Pow256(0) == 1;
    }
  }

  lemma DividedTwice(n: nat, p: nat)
    requires p > 0
    ensures n / 256 / p == n / (256 * p)
  {
    var q, r := n / 256 / p, n / 256 % p;
    assert n / 256 == p * q + r && n == 256 * (n / 256) + n % 256;
    assert n == 256 * (p * q + r) + n % 256 == 256 * p * q + (256 * r + n % 256);
    Quotient(n, 256 * p, q, 256 * r + n % 256);
  }

  lemma Quotient(n: nat, d: nat, q: nat, r: nat)
    requires d > 0 && n == d * q + r && r < d
    ensures n / d == q
  {
    var k := n / d - q;
    assert d * k == r - n % d by {
      assert n == d * (n / d) + n % d;
      assert d * (n / d) == d * q + d * k;
    }
    Multiple(d, k);
  }

  lemma Multiple(d: int, k: int)
    requires d > 0
    ensures k >= 1 ==> d * k >= d
    ensures k <= -1 ==> d * k <= -d
  {
  }

  /** The shifts of the four-byte form. */
  lemma FourBytes(n: nat)
    requires n < 0x1_0000_0000
    ensures ToBytes(n, 4) == [n / 0x100_0000 % 256, n / 0x1_0000 % 256, n / 0x100 % 256, n % 256]
  {
    assert n / 256 / 256 == n / 0x1_0000 && n / 0x1_0000 / 256 == n / 0x100_0000;
    assert ToBytes(n / 0x100_0000, 1) == [n / 0x100_0000 % 256] by {
      assert ToBytes(n / 0x100_0000 / 256, 0) == [];
    }
    assert ToBytes(n / 0x1_0000, 2) == [n / 0x100_0000 % 256, n / 0x1_0000 % 256];
    assert ToBytes(n / 0x100, 3) == [n / 0x100_0000 % 256, n / 0x1_0000 % 256, n / 0x100 % 256];
  }

  // ---- overwriting part of a buffer ----

  function Patched(s: seq<byte>, at: nat, data: seq<byte>): (r: seq<byte>)
    requires at + |data| <= |s|
    ensures |r| == |s|
  {
    s[..at] + data + s[at + |data|..]
  }

  lemma PatchAt(s: seq<byte>, at: nat, data: seq<byte>)
    requires at + |data| <= |s|
    ensures Patched(s, at, data)[at..at + |data|] == data
  {
  }

  lemma PatchLeft(s: seq<byte>, at: nat, data: seq<byte>, i: nat, j: nat)
    requires at + |data| <= |s| && i <= j <= at
    ensures Patched(s, at, data)[i..j] == s[i..j]
  {
  }

  lemma PatchRight(s: seq<byte>, at: nat, data: seq<byte>, i: nat, j: nat)
    requires at + |data| <= i <= j <= |s|
    ensures Patched(s, at, data)[i..j] == s[i..j]
  {
  }

  /** Two patches side by side are one. */
  lemma PatchNext(s: seq<byte>, at: nat, x: seq<byte>, y: seq<byte>)
    requires at + |x| + |y| <= |s|
    ensures Patched(Patched(s, at, x), at + |x|, y) == Patched(s, at, x + y)
    ensures Patched(Patched(s, at + |x|, y), at, x) == Patched(s, at, x + y)
  {
    var p, q := Patched(Patched(s, at, x), at + |x|, y), Patched(Patched(s, at + |x|, y), at, x);
    var r := Patched(s, at, x + y);
    forall i | 0 <= i < |s| ensures p[i] == r[i] && q[i] == r[i] {
      PatchIndex(s, at, x + y, i);
      PatchIndex(s, at, x, i);
      PatchIndex(Patched(s, at, x), at + |x|, y, i);
      PatchIndex(s, at + |x|, y, i);
      PatchIndex(Patched(s, at + |x|, y), at, x, i);
    }
  }

  lemma PatchIndex(s: seq<byte>, at: nat, data: seq<byte>, i: nat)
    requires at + |data| <= |s| && i < |s|
    ensures Patched(s, at, data)[i] == if at <= i < at + |data| then data[i - at] else s[i]
  {
  }

  /** Writing what is already there changes nothing. */
  lemma PatchSame(s: seq<byte>, at: nat, n: nat)
    requires at + n <= |s|
    ensures Patched(s, at, s[at..at + n]) == s
  {
  }
}

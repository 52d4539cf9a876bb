/** Reading and writing one code point at a time, as the string blueprint does (section 3 of RFC 3629). */
module Utf8 {
  import opened Bytes

  const REPLACEMENT: nat := 0xFFFD

  predicate Scalar(r: nat) {
    r < 0xD800 || 0xE000 <= r < 0x11_0000
  }

  predicate Continues(b: byte) {
    0x80 <= b < 0xC0
  }

  /** The six payload bits of a continuation byte. */
  function Low(b: byte): nat
    requires Continues(b)
  {
    b as int - 0x80
  }

  function Encode(r: nat): (s: seq<byte>)
    requires Scalar(r)
    ensures 1 <= |s| <= 4
  {
    if r < 0x80 then [r]
    else if r < 0x800 then [0xC0 + r / 64, 0x80 + r % 64]
    else if r < 0x1_0000 then [0xE0 + r / 4096, 0x80 + r / 64 % 64, 0x80 + r % 64]
    else [0xF0 + r / 0x4_0000, 0x80 + r / 4096 % 64, 0x80 + r / 64 % 64, 0x80 + r % 64]
  }

  predicate StartsTwo(s: seq<byte>) {
    |s| >= 2 && 0xC2 <= s[0] < 0xE0 && Continues(s[1])
  }

  predicate StartsThree(s: seq<byte>) {
    && |s| >= 3 && 0xE0 <= s[0] < 0xF0 && Continues(s[1]) && Continues(s[2])
    && (s[0] == 0xE0 ==> s[1] >= 0xA0) && (s[0] == 0xED ==> s[1] < 0xA0)
  }

  predicate StartsFour(s: seq<byte>) {
    && |s| >= 4 && 0xF0 <= s[0] < 0xF5 && Continues(s[1]) && Continues(s[2]) && Continues(s[3])
    && (s[0] == 0xF0 ==> s[1] >= 0x90) && (s[0] == 0xF4 ==> s[1] < 0x90)
  }

  /** The code point at the start of s and its width; a byte that starts none reads as the replacement
      character, with width 1. */
  function ReadRune(s: seq<byte>): (r: (nat, nat))
    requires s != []
    ensures Scalar(r.0) && 1 <= r.1 <= |s|
  {
    if s[0] < 0x80 then (s[0], 1)
    else if StartsTwo(s) then ((s[0] as int - 0xC0) * 64 + Low(s[1]), 2)
    else if StartsThree(s) then ((s[0] as int - 0xE0) * 4096 + Low(s[1]) * 64 + Low(s[2]), 3)
    else if StartsFour(s) then
      ((s[0] as int - 0xF0) * 0x4_0000 + Low(s[1]) * 4096 + Low(s[2]) * 64 + Low(s[3]), 4)
    else (REPLACEMENT, 1)
  }

  /** s starts with the encoding of the code point that is read from it. */
  predicate WellFormed(s: seq<byte>)
    requires s != []
  {
    Encode(ReadRune(s).0) <= s
  }

  lemma ReadEncoded(r: nat, rest: seq<byte>)
    requires Scalar(r)
    ensures ReadRune(Encode(r) + rest) == (r, |Encode(r)|)
  {
    var e := Encode(r);
    var s := e + rest;
    assert forall i :: 0 <= i < |e| ==> s[i] == e[i];
    if r < 0x80 {
    } else if r < 0x800 {
      assert StartsTwo(s);
    } else if r < 0x1_0000 {
      SplitThree(r);
      assert StartsThree(s);
    } else {
      SplitFour(r);
      assert StartsFour(s);
    }
  }

  lemma SplitThree(r: nat)
    ensures r == r / 4096 * 4096 + r / 64 % 64 * 64 + r % 64
  {
    assert r / 64 / 64 == r / 4096;
  }

  lemma SplitFour(r: nat)
    ensures r == r / 0x4_0000 * 0x4_0000 + r / 4096 % 64 * 4096 + r / 64 % 64 * 64 + r % 64
  {
    assert r / 64 / 64 == r / 4096 && r / 4096 / 64 == r / 0x4_0000;
  }

  /** A code point is well formed exactly when writing it again takes the width that was read: a stray byte,
      one byte wide, is written as three. */
  lemma WidthTells(s: seq<byte>)
    requires s != []
    ensures WellFormed(s) <==> |Encode(ReadRune(s).0)| == ReadRune(s).1
    ensures WellFormed(s) ==> Encode(ReadRune(s).0) == s[..ReadRune(s).1]
  {
    hide Encode, StartsTwo, StartsThree, StartsFour;
    var (r, w) := ReadRune(s);
    if s[0] < 0x80 {
      EncodeOne(s);
    } else if StartsTwo(s) {
      EncodeTwo(s);
    } else if StartsThree(s) {
      EncodeThree(s);
    } else if StartsFour(s) {
      EncodeFour(s);
    } else {
      EncodeReplacement(s);
    }
  }

  /** A byte that starts no code point is read alone, and written as three. */
  lemma MalformedRead(s: seq<byte>)
    requires s != [] && !WellFormed(s)
    ensures ReadRune(s) == (REPLACEMENT, 1) && |Encode(ReadRune(s).0)| == 3
  {
    hide Encode, StartsTwo, StartsThree, StartsFour;
    if s[0] < 0x80 {
      EncodeOne(s);
    } else if StartsTwo(s) {
      EncodeTwo(s);
    } else if StartsThree(s) {
      EncodeThree(s);
    } else if StartsFour(s) {
      EncodeFour(s);
    } else {
      EncodeReplacement(s);
    }
  }

  /** How many bytes a code point takes, what each of them may be, and the payload bits that they carry. */
  lemma EncodedBytes(r: nat)
    requires Scalar(r)
    ensures var e := Encode(r);
            && |e| == (if r < 0x80 then 1 else if r < 0x800 then 2 else if r < 0x1_0000 then 3 else 4)
            && (forall i :: 1 <= i < |e| ==> 0x80 <= e[i] < 0xC0)
            && (|e| == 1 ==> r == e[0])
            && (|e| == 2 ==> 0xC0 <= e[0] < 0xE0 && r == (e[0] as int - 0xC0) * 64 + (e[1] as int - 0x80))
            && (|e| == 3 ==>
                  && 0xE0 <= e[0] < 0xF0
                  && r == (e[0] as int - 0xE0) * 4096 + (e[1] as int - 0x80) * 64 + (e[2] as int - 0x80))
            && (|e| == 4 ==>
                  && 0xF0 <= e[0] < 0xF8
                  && r == (e[0] as int - 0xF0) * 0x4_0000 + (e[1] as int - 0x80) * 4096 + (e[2] as int - 0x80) * 64
                          + (e[3] as int - 0x80))
  {
    SplitThree(r);
    SplitFour(r);
  }

  /** What is read is the code point whose encoding starts s; where there is none, the replacement character, one byte
      wide. */
  lemma ReadExactly(s: seq<byte>)
    requires s != []
    ensures forall r: nat :: Scalar(r) && Encode(r) <= s ==> ReadRune(s) == (r, |Encode(r)|)
    ensures (forall r: nat :: Scalar(r) ==> !(Encode(r) <= s)) ==> ReadRune(s) == (REPLACEMENT, 1)
  {
    hide Encode, ReadRune;
    forall r: nat | Scalar(r) && Encode(r) <= s ensures ReadRune(s) == (r, |Encode(r)|) {
      assert s == Encode(r) + s[|Encode(r)|..];
      ReadEncoded(r, s[|Encode(r)|..]);
    }
    if WellFormed(s) {
      assert Encode(ReadRune(s).0) <= s;
    } else {
      MalformedRead(s);
    }
  }

  lemma EncodeOne(s: seq<byte>)
    requires s != [] && s[0] < 0x80
    ensures Encode(s[0]) == s[..1]
  {
  }

  lemma EncodeTwo(s: seq<byte>)
    requires StartsTwo(s)
    ensures Encode((s[0] as int - 0xC0) * 64 + Low(s[1])) == s[..2]
  {
    var r := (s[0] as int - 0xC0) * 64 + Low(s[1]);
    assert r / 64 == s[0] as int - 0xC0 && r % 64 == Low(s[1]);
  }

  lemma EncodeThree(s: seq<byte>)
    requires StartsThree(s)
    ensures Scalar((s[0] as int - 0xE0) * 4096 + Low(s[1]) * 64 + Low(s[2]))
    ensures Encode((s[0] as int - 0xE0) * 4096 + Low(s[1]) * 64 + Low(s[2])) == s[..3]
  {
    JoinThree(s[0] as int - 0xE0, Low(s[1]), Low(s[2]));
  }

  lemma EncodeFour(s: seq<byte>)
    requires StartsFour(s)
    ensures Scalar((s[0] as int - 0xF0) * 0x4_0000 + Low(s[1]) * 4096 + Low(s[2]) * 64 + Low(s[3]))
    ensures Encode((s[0] as int - 0xF0) * 0x4_0000 + Low(s[1]) * 4096 + Low(s[2]) * 64 + Low(s[3])) == s[..4]
  {
    JoinFour(s[0] as int - 0xF0, Low(s[1]), Low(s[2]), Low(s[3]));
  }

  lemma EncodeReplacement(s: seq<byte>)
    requires !StartsThree(s)
    ensures |Encode(REPLACEMENT)| == 3 && !(Encode(REPLACEMENT) <= s)
  {
    var e := Encode(REPLACEMENT);
    assert e == [0xEF, 0xBF, 0xBD];
    assert |s| >= 3 ==> s[0] != e[0] || s[1] != e[1] || s[2] != e[2];
  }

  lemma JoinThree(x: nat, y: nat, z: nat)
    requires y < 64 && z < 64
    ensures var r := x * 4096 + y * 64 + z;
            r / 4096 == x && r / 64 % 64 == y && r % 64 == z
  {
    var r := x * 4096 + y * 64 + z;
    assert r / 64 == x * 64 + y;
  }

  lemma JoinFour(w: nat, x: nat, y: nat, z: nat)
    requires x < 64 && y < 64 && z < 64
    ensures var r := w * 0x4_0000 + x * 4096 + y * 64 + z;
            r / 0x4_0000 == w && r / 4096 % 64 == x && r / 64 % 64 == y && r % 64 == z
  {
    var r := w * 0x4_0000 + x * 4096 + y * 64 + z;
    assert r / 64 == w * 4096 + x * 64 + y;
    assert r / 4096 == w * 64 + x;
  }
}

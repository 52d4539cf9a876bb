/** What the string blueprint writes of a string: whole code points, as long as they fit. */
module Strings {
  import opened Bytes
  import opened Utf8

  /** The bytes written of s, after `written` of them, into a field of the given length. */
  function WriteRunes(s: seq<byte>, written: nat, length: nat): seq<byte>
    decreases |s|
  {
    if s == [] then []
    else
      var (r, width) := ReadRune(s);
      if written + width > length then []
      else Encode(r) + WriteRunes(s[width..], written + |Encode(r)|, length)
  }

  /** Every code point that is read before the field is full is well formed. */
  predicate Faithful(s: seq<byte>, written: nat, length: nat)
    decreases |s|
  {
    s == [] ||
    (var width := ReadRune(s).1;
     written + width > length || (WellFormed(s) && Faithful(s[width..], written + width, length)))
  }

  /** What is written is a prefix of the string exactly when no malformed byte is read. */
  lemma {:induction false} FaithfulIsPrefix(s: seq<byte>, written: nat, length: nat)
    ensures Faithful(s, written, length) <==> WriteRunes(s, written, length) <= s
    decreases |s|
  {
    hide Encode, ReadRune;
    if s != [] && written + ReadRune(s).1 <= length {
      var (r, width) := ReadRune(s);
      WidthTells(s);
      if WellFormed(s) {
        FaithfulIsPrefix(s[width..], written + width, length);
        PrefixAfter(s, width, WriteRunes(s[width..], written + width, length));
      } else {
        var rest := WriteRunes(s[width..], written + |Encode(r)|, length);
        NotPrefix(Encode(r), rest, s);
      }
    }
  }

  lemma NotPrefix(x: seq<byte>, rest: seq<byte>, s: seq<byte>)
    requires !(x <= s)
    ensures !(x + rest <= s)
  {
  }

  lemma PrefixAfter(s: seq<byte>, n: nat, rest: seq<byte>)
    requires n <= |s|
    ensures s[..n] + rest <= s <==> rest <= s[n..]
  {
    var t := s[..n] + rest;
    if rest <= s[n..] {
      assert t == s[..n + |rest|];
    }
    if t <= s {
      assert rest == t[n..];
    }
  }

  /** Some malformed byte is read while fewer than three bytes of the field are left: the room of one byte is asked for,
      and the three of the replacement character are written. */
  predicate Overruns(s: seq<byte>, written: nat, length: nat)
    decreases |s|
  {
    s != [] &&
    (var width := ReadRune(s).1;
     && written + width <= length
     && if WellFormed(s) then Overruns(s[width..], written + width, length)
        else written + 3 > length || Overruns(s[width..], written + 3, length))
  }

  /** What is written stays within the field exactly then not. */
  lemma {:induction false} OverrunsExactly(s: seq<byte>, written: nat, length: nat)
    requires written <= length
    ensures written + |WriteRunes(s, written, length)| <= length <==> !Overruns(s, written, length)
    decreases |s|
  {
    hide Encode, ReadRune, WellFormed;
    if s != [] && written + ReadRune(s).1 <= length {
      var (r, width) := ReadRune(s);
      WidthTells(s);
      if WellFormed(s) {
        OverrunsExactly(s[width..], written + width, length);
      } else {
        MalformedRead(s);
        if written + 3 <= length {
          OverrunsExactly(s[width..], written + 3, length);
        }
      }
    }
  }

  /** A string without malformed bytes fits its field. */
  lemma {:induction false} FaithfulFits(s: seq<byte>, written: nat, length: nat)
    requires Faithful(s, written, length)
    ensures !Overruns(s, written, length)
    decreases |s|
  {
    if s != [] && written + ReadRune(s).1 <= length {
      var width := ReadRune(s).1;
      FaithfulFits(s[width..], written + width, length);
    }
  }

  /** One stray byte is written as three: that overruns a field of length 1, and fits one of length 3. */
  lemma StrayByte()
    ensures WriteRunes([0x80], 0, 1) == [0xEF, 0xBF, 0xBD]
    ensures !Faithful([0x80], 0, 1) && Overruns([0x80], 0, 1)
    ensures !Faithful([0x80], 0, 3) && !Overruns([0x80], 0, 3)
  {
    var s: seq<byte> := [0x80];
    assert ReadRune(s) == (REPLACEMENT, 1);
    assert WriteRunes(s[1..], 3, 1) == [];
    WidthTells(s);
  }

  // ---- valid strings ----

  ghost function EncodeAll(rs: seq<nat>): seq<byte>
    requires forall i :: 0 <= i < |rs| ==> Scalar(rs[i])
  {
    if rs == [] then [] else Encode(rs[0]) + EncodeAll(rs[1..])
  }

  /** The code points of the longest prefix that still fits. */
  ghost function Fitting(rs: seq<nat>, written: nat, length: nat): (k: nat)
    requires forall i :: 0 <= i < |rs| ==> Scalar(rs[i])
    ensures k <= |rs|
  {
    if rs == [] || written + |Encode(rs[0])| > length then 0
    else 1 + Fitting(rs[1..], written + |Encode(rs[0])|, length)
  }

  lemma {:induction false} ValidFaithful(rs: seq<nat>, written: nat, length: nat)
    requires forall i :: 0 <= i < |rs| ==> Scalar(rs[i])
    ensures Faithful(EncodeAll(rs), written, length)
    ensures WriteRunes(EncodeAll(rs), written, length) == EncodeAll(rs[..Fitting(rs, written, length)])
    decreases |rs|
  {
    hide Encode, ReadRune;
    if rs != [] {
      var e, rest := Encode(rs[0]), EncodeAll(rs[1..]);
      ReadEncoded(rs[0], rest);
      assert (e + rest)[|e|..] == rest;
      assert e <= e + rest;
      ValidFaithful(rs[1..], written + |e|, length);
      var k := Fitting(rs, written, length);
      if k > 0 {
        assert rs[..k][0] == rs[0] && rs[..k][1..] == rs[1..][..k - 1];
      }
    }
  }

  lemma {:induction false} FittingLongest(rs: seq<nat>, written: nat, length: nat, n: nat)
    requires forall i :: 0 <= i < |rs| ==> Scalar(rs[i])
    requires written <= length && n <= |rs|
    ensures written + |EncodeAll(rs[..n])| <= length <==> n <= Fitting(rs, written, length)
    decreases |rs|
  {
    if n > 0 {
      assert rs[..n][0] == rs[0] && rs[..n][1..] == rs[1..][..n - 1];
      if written + |Encode(rs[0])| <= length {
        FittingLongest(rs[1..], written + |Encode(rs[0])|, length, n - 1);
      }
    }
  }

  /** Of a valid string the longest prefix of whole code points that fits is written. */
  lemma LongestPrefix(rs: seq<nat>, length: nat, n: nat)
    requires forall i :: 0 <= i < |rs| ==> Scalar(rs[i])
    requires n <= |rs|
    ensures var k := Fitting(rs, 0, length);
            && WriteRunes(EncodeAll(rs), 0, length) == EncodeAll(rs[..k])
            && (|EncodeAll(rs[..n])| <= length <==> n <= k)
  {
    ValidFaithful(rs, 0, length);
    FittingLongest(rs, 0, length, n);
  }

  /** Writing again what was read back changes nothing. */
  lemma {:induction false} WriteAgain(s: seq<byte>, written: nat, length: nat)
    requires Faithful(s, written, length)
    ensures var t := WriteRunes(s, written, length);
            Faithful(t, written, length) && WriteRunes(t, written, length) == t
    decreases |s|
  {
    hide Encode, ReadRune;
    if s != [] && written + ReadRune(s).1 <= length {
      var (r, width) := ReadRune(s);
      WidthTells(s);
      var rest := WriteRunes(s[width..], written + width, length);
      WriteAgain(s[width..], written + width, length);
      ReadEncoded(r, rest);
      var t := Encode(r) + rest;
      assert WriteRunes(s, written, length) == t;
      assert t[width..] == rest;
      assert Encode(r) <= t;
      assert WellFormed(t);
    }
  }

  // ---- any string ----

  /** What is read of s from its start to its end. */
  ghost function Reads(s: seq<byte>): (rs: seq<(nat, nat)>)
    ensures forall i :: 0 <= i < |rs| ==> Scalar(rs[i].0)
    decreases |s|
  {
    if s == [] then []
    else
      var r := ReadRune(s);
      [r] + Reads(s[r.1..])
  }

  ghost function CodePoints(rs: seq<(nat, nat)>): (r: seq<nat>)
    ensures |r| == |rs| && forall i :: 0 <= i < |rs| ==> r[i] == rs[i].0
  {
    seq(|rs|, i requires 0 <= i < |rs| => rs[i].0)
  }

  /** The first k of them are written, whatever they are: up to the first whose width in the string exceeds what is left
      of the field. */
  lemma {:induction false} WritesReads(s: seq<byte>, written: nat, length: nat) returns (k: nat)
    ensures k <= |Reads(s)|
    ensures var rs := Reads(s);
            && WriteRunes(s, written, length) == EncodeAll(CodePoints(rs[..k]))
            && (forall j :: 0 <= j < k ==> written + |EncodeAll(CodePoints(rs[..j]))| + rs[j].1 <= length)
            && (k < |rs| ==> written + |EncodeAll(CodePoints(rs[..k]))| + rs[k].1 > length)
    decreases |s|
  {
    hide Encode, ReadRune;
    var rs := Reads(s);
    k := 0;
    assert CodePoints(rs[..0]) == [];
    if s != [] && written + ReadRune(s).1 <= length {
      var (r, width) := ReadRune(s);
      var rest := Reads(s[width..]);
      var m := WritesReads(s[width..], written + |Encode(r)|, length);
      k := 1 + m;
      assert rs == [(r, width)] + rest;
      forall j | 0 <= j <= m
        ensures EncodeAll(CodePoints(rs[..j + 1])) == Encode(r) + EncodeAll(CodePoints(rest[..j]))
      {
        ReadsFirst(r, width, rest, j);
      }
      forall j | 0 <= j < k ensures written + |EncodeAll(CodePoints(rs[..j]))| + rs[j].1 <= length {
        if j > 0 {
          assert rs[j] == rest[j - 1];
          assert rs[..j] == rs[..j - 1 + 1];
        }
      }
    }
  }

  lemma ReadsFirst(r: nat, width: nat, rest: seq<(nat, nat)>, j: nat)
    requires Scalar(r) && j <= |rest| && forall i :: 0 <= i < |rest| ==> Scalar(rest[i].0)
    ensures var rs := [(r, width)] + rest;
            && (forall i :: 0 <= i < |rs| ==> Scalar(rs[i].0))
            && EncodeAll(CodePoints(rs[..j + 1])) == Encode(r) + EncodeAll(CodePoints(rest[..j]))
  {
    var rs := [(r, width)] + rest;
    var x, y := CodePoints(rs[..j + 1]), CodePoints(rest[..j]);
    assert x[0] == r && x[1..] == y;
  }
}

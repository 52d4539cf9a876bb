/** Reading back what was written. */
module RoundTrip {
  import opened Bytes
  import opened Strings
  import opened Blueprints

  lemma SignedRoundTrip(i: int, width: nat)
    requires IntWidth(width) && 0 <= 2 * i + Pow256(width) < 2 * Pow256(width)
    ensures var n := if i < 0 then i + Pow256(width) else i;
            && 0 <= n < Pow256(width)
            && (if 2 * n < Pow256(width) then n else n - Pow256(width)) == i
  {
    assert Pow256(width) == 256 * Pow256(width - 1);
  }

  lemma Halves(x: seq<byte>, y: seq<byte>)
    ensures (x + y)[..|x|] == x && (x + y)[|x|..] == y
  {
  }

  lemma ScalarRoundTrip(bp: Blueprint, v: Value, dest: seq<byte>)
    requires Sound(bp) && Typed(bp, v) && |dest| == Size(bp)
    requires bp.BoolBp? || bp.UintBp? || bp.IntBp? || bp.FloatBp? || bp.ComplexBp?
    ensures Readable(bp, To(bp, v, dest)) && From(bp, To(bp, v, dest)) == Cut(bp, v)
  {
    hide ToBytes, FromBytes;
    match bp
    case BoolBp =>
    case UintBp(width) => FromToBytes(v.n, width);
    case IntBp(width) =>
      SignedRoundTrip(v.i, width);
      FromToBytes(if v.i < 0 then v.i + Pow256(width) else v.i, width);
    case FloatBp(width) => FromToBytes(v.bits, width);
    case ComplexBp(width) =>
      FromToBytes(v.re, width / 2);
      FromToBytes(v.im, width / 2);
      Halves(ToBytes(v.re, width / 2), ToBytes(v.im, width / 2));
  }

  /** Whatever the window held before: the value comes back, cut to its layout. */
  lemma {:induction false} ToThenFrom(bp: Blueprint, v: Value, dest: seq<byte>)
    requires Sound(bp) && Typed(bp, v) && |dest| == Size(bp)
    ensures Readable(bp, To(bp, v, dest)) && From(bp, To(bp, v, dest)) == Cut(bp, v)
    decreases bp, 1
  {
    hide ToAll, ToFields, ToSlice, ToString, ReadableAll, ReadableFields, ReadableSlice, FromAll, FromFields, FromSlice,
         CutAll, CutFields, SoundFields, TypedFields, FieldsSize, FromBytes, ToBytes;
    match bp
    case ArrayBp(length, element) => AllRoundTrip(element, v.elements, dest);
    case SliceBp(length, element) => SliceRoundTrip(length, element, v.elements, dest);
    case StringBp(length) => StringRoundTrip(length, v.bytes, dest);
    case StructBp(_, zeros, fields, _) => FieldsRoundTrip(fields, zeros, v.fields, dest, zeros);
    case PointerBp(_, element) =>
      if v.PointerV? {
        ToThenFrom(element, v.target, dest[1..]);
        Halves([1], To(element, v.target, dest[1..]));
      }
    case TupleBp(first, second) => TupleRoundTrip(first, second, v, dest);
    case _ => ScalarRoundTrip(bp, v, dest);
  }

  lemma {:induction false} TupleRoundTrip(first: Blueprint, second: Blueprint, v: Value, dest: seq<byte>)
    requires var bp := TupleBp(first, second); Sound(bp) && Typed(bp, v) && |dest| == Size(bp)
    ensures var bp := TupleBp(first, second);
            Readable(bp, To(bp, v, dest)) && From(bp, To(bp, v, dest)) == Cut(bp, v)
    decreases TupleBp(first, second), 0
  {
    var n := Size(first);
    ToThenFrom(first, v.first, dest[..n]);
    ToThenFrom(second, v.second, dest[n..]);
    Halves(To(first, v.first, dest[..n]), To(second, v.second, dest[n..]));
  }

  lemma {:induction false} AllRoundTrip(element: Blueprint, vs: seq<Value>, dest: seq<byte>)
    requires Sound(element) && (forall i :: 0 <= i < |vs| ==> Typed(element, vs[i]))
    requires |dest| == Times(Size(element), |vs|)
    ensures var r := ToAll(element, vs, dest);
            ReadableAll(element, |vs|, r) && FromAll(element, |vs|, r) == CutAll(element, vs)
    decreases element, |vs| + 2
  {
    hide To, From, Readable, Cut, Typed, Sound;
    if vs != [] {
      var n := Size(element);
      ToThenFrom(element, vs[0], dest[..n]);
      AllRoundTrip(element, vs[1..], dest[n..]);
      Halves(To(element, vs[0], dest[..n]), ToAll(element, vs[1..], dest[n..]));
    }
  }

  lemma {:induction false} SliceRoundTrip(length: nat, element: Blueprint, vs: seq<Value>, dest: seq<byte>)
    requires Sound(element) && (forall i :: 0 <= i < |vs| ==> Typed(element, vs[i])) && length < UINT32_CAP
    requires |dest| == Times(Size(element), length) + 4
    ensures var r := ToSlice(length, element, vs, dest);
            && ReadableSlice(length, element, r)
            && FromSlice(length, element, r) == CutAll(element, vs[..Min(|vs|, length)])
    decreases element, |vs| + 3
  {
    hide To, From, Readable, Cut, Typed, Sound, ToBytes, FromBytes;
    var n := Min(|vs|, length);
    var end := SliceEnd(n, length, Size(element));
    AllRoundTrip(element, vs[..n], dest[4..end]);
    FromToBytes32(n);
    var x, y, z := ToBytes(n, 4), ToAll(element, vs[..n], dest[4..end]), dest[end..];
    Windows(x, y, z);
  }

  lemma FromToBytes32(n: nat)
    requires n < UINT32_CAP
    ensures FromBytes(ToBytes(n, 4)) == n
  {
    assert Pow256(4) == UINT32_CAP by {
      assert Pow256(1) == 256 && Pow256(2) == 0x1_0000 && Pow256(3) == 0x100_0000;
    }
    FromToBytes(n, 4);
  }

  lemma Windows(x: seq<byte>, y: seq<byte>, z: seq<byte>)
    ensures (x + y + z)[..|x|] == x && (x + y + z)[|x|..|x| + |y|] == y
  {
  }

  lemma StringRoundTrip(length: nat, s: seq<byte>, dest: seq<byte>)
    requires !Overruns(s, 0, length) && |dest| == length + 4 && length < UINT32_CAP
    ensures var r := ToString(length, s, dest);
            var n := FromBytes(r[..4]);
            n <= length && r[4..4 + n] == WriteRunes(s, 0, length)
  {
    var text := WriteRunes(s, 0, length);
    OverrunsExactly(s, 0, length);
    FromToBytes32(|text|);
    Windows(ToBytes(|text|, 4), text, dest[4 + |text|..]);
  }

  lemma {:induction false} FieldsRoundTrip(fields: seq<Field>, zeros: seq<Value>, vs: seq<Value>, dest: seq<byte>,
                                           into: seq<Value>)
    requires SoundFields(fields, zeros) && TypedFields(fields, vs) && |dest| == FieldsSize(fields)
    requires |into| == |zeros|
    ensures var r := ToFields(fields, zeros, vs, dest);
            && ReadableFields(fields, zeros, r)
            && FromFields(fields, zeros, r, into) == CutFields(fields, zeros, vs, into)
    decreases fields, 0
  {
    if fields != [] {
      match fields[0]
      case Field(bp, index) =>
        assert bp < fields[0];
        var n := Size(bp);
        ToThenFrom(bp, vs[index], dest[..n]);
        FieldsRoundTrip(fields[1..], zeros, vs, dest[n..], into[index := Cut(bp, vs[index])]);
        Halves(To(bp, vs[index], dest[..n]), ToFields(fields[1..], zeros, vs, dest[n..]));
    }
  }

  // ---- when nothing is lost ----

  /** Every slice and string of v is within its declared length, no string has malformed bytes, and every ignored
      field is zero. */
  ghost predicate Exact(bp: Blueprint, v: Value)
    requires Sound(bp) && Typed(bp, v)
    decreases bp, 0
  {
    match bp
    case ArrayBp(_, element) => forall i :: 0 <= i < |v.elements| ==> Exact(element, v.elements[i])
    case SliceBp(length, element) =>
      |v.elements| <= length && forall i :: 0 <= i < |v.elements| ==> Exact(element, v.elements[i])
    case StringBp(length) => |v.bytes| <= length && Faithful(v.bytes, 0, length)
    case StructBp(_, zeros, fields, _) =>
      && ExactFields(fields, zeros, v.fields)
      && forall i :: 0 <= i < |zeros| && !Listed(fields, i) ==> v.fields[i] == zeros[i]
    case PointerBp(_, element) => v.PointerV? ==> Exact(element, v.target)
    case TupleBp(first, second) => Exact(first, v.first) && Exact(second, v.second)
    case _ => true
  }

  ghost predicate ExactFields(fields: seq<Field>, zeros: seq<Value>, vs: seq<Value>)
    requires SoundFields(fields, zeros) && TypedFields(fields, vs)
    decreases fields, 0
  {
    fields == [] ||
    match fields[0]
    case Field(bp, index) =>
      assert bp < fields[0];
      Exact(bp, vs[index]) && ExactFields(fields[1..], zeros, vs)
  }

  ghost predicate Listed(fields: seq<Field>, i: nat) {
    exists k :: 0 <= k < |fields| && fields[k].index == i
  }

  /** A value comes back unchanged exactly when it fits. */
  lemma {:induction false} CutIsIdentity(bp: Blueprint, v: Value)
    requires Sound(bp) && Typed(bp, v)
    ensures Cut(bp, v) == v <==> Exact(bp, v)
    decreases bp, 0
  {
    match bp
    case ArrayBp(_, element) => CutAllIsIdentity(element, v.elements);
    case SliceBp(length, element) =>
      if |v.elements| <= length {
        assert v.elements[..Min(|v.elements|, length)] == v.elements;
        CutAllIsIdentity(element, v.elements);
      }
    case StringBp(length) => CutString(v.bytes, length);
    case StructBp(_, zeros, fields, _) => CutFieldsIsIdentity(fields, zeros, v.fields, zeros);
    case PointerBp(_, element) => if v.PointerV? { CutIsIdentity(element, v.target); }
    case TupleBp(first, second) =>
      CutIsIdentity(first, v.first);
      CutIsIdentity(second, v.second);
    case _ =>
  }

  lemma ConsEqual<T>(x: T, xs: seq<T>, s: seq<T>)
    requires s != []
    ensures [x] + xs == s <==> x == s[0] && xs == s[1..]
  {
    if x == s[0] && xs == s[1..] {
      assert s == [s[0]] + s[1..];
    }
    if [x] + xs == s {
      assert xs == ([x] + xs)[1..];
    }
  }

  lemma {:induction false} CutAllIsIdentity(element: Blueprint, vs: seq<Value>)
    requires Sound(element) && (forall i :: 0 <= i < |vs| ==> Typed(element, vs[i]))
    ensures CutAll(element, vs) == vs <==> forall i :: 0 <= i < |vs| ==> Exact(element, vs[i])
    decreases element, |vs| + 1
  {
    hide Cut, Exact, Typed, Sound;
    if vs != [] {
      CutIsIdentity(element, vs[0]);
      CutAllIsIdentity(element, vs[1..]);
      ConsEqual(Cut(element, vs[0]), CutAll(element, vs[1..]), vs);
      if forall i :: 0 <= i < |vs[1..]| ==> Exact(element, vs[1..][i]) {
        assert forall i :: 1 <= i < |vs| ==> vs[i] == vs[1..][i - 1];
      } else {
        var i :| 0 <= i < |vs[1..]| && !Exact(element, vs[1..][i]);
        assert vs[i + 1] == vs[1..][i];
      }
    }
  }

  lemma CutString(s: seq<byte>, length: nat)
    ensures WriteRunes(s, 0, length) == s <==> |s| <= length && Faithful(s, 0, length)
  {
    FaithfulIsPrefix(s, 0, length);
    if Faithful(s, 0, length) {
      AllWritten(s, 0, length);
    }
  }

  lemma {:induction false} AllWritten(s: seq<byte>, written: nat, length: nat)
    requires Faithful(s, written, length) && written <= length
    ensures WriteRunes(s, written, length) == s <==> written + |s| <= length
    decreases |s|
  {
    if s != [] && written + Utf8.ReadRune(s).1 <= length {
      var width := Utf8.ReadRune(s).1;
      Utf8.WidthTells(s);
      AllWritten(s[width..], written + width, length);
      assert s == s[..width] + s[width..];
    }
  }

  /** The fields that are read are cut; the others are those of into. */
  lemma {:induction false} CutFieldsAt(fields: seq<Field>, zeros: seq<Value>, vs: seq<Value>, into: seq<Value>, i: nat)
    requires SoundFields(fields, zeros) && TypedFields(fields, vs) && |into| == |zeros| && i < |zeros|
    ensures !Listed(fields, i) ==> CutFields(fields, zeros, vs, into)[i] == into[i]
    decreases |fields|
  {
    if fields != [] {
      var f := fields[0];
      CutFieldsAt(fields[1..], zeros, vs, into[f.index := Cut(f.blueprint, vs[f.index])], i);
      if !Listed(fields, i) {
        assert fields[0].index != i;
        forall k | 0 <= k < |fields[1..]| ensures fields[1..][k].index != i {
          assert fields[1..][k] == fields[k + 1];
        }
      }
    }
  }

  lemma {:induction false} CutFieldsIsIdentity(fields: seq<Field>, zeros: seq<Value>, vs: seq<Value>, into: seq<Value>)
    requires SoundFields(fields, zeros) && TypedFields(fields, vs) && |into| == |zeros| == |vs|
    ensures CutFields(fields, zeros, vs, into) == vs <==>
            ExactFields(fields, zeros, vs) && forall i :: 0 <= i < |zeros| && !Listed(fields, i) ==> vs[i] == into[i]
    decreases fields, 0
  {
    if fields == [] {
      assert forall i: nat :: !Listed(fields, i);
    } else {
      match fields[0]
      case Field(bp, index) =>
        assert bp < fields[0];
        CutIsIdentity(bp, vs[index]);
        var c, rest := Cut(bp, vs[index]), fields[1..];
        var into' := into[index := c];
        CutFieldsIsIdentity(rest, zeros, vs, into');
        ListedLater(fields, index);
        CutFieldsAt(rest, zeros, vs, into', index);
        assert forall i: nat :: Listed(fields, i) <==> i == index || Listed(rest, i) by {
          forall i: nat ensures Listed(fields, i) <==> i == index || Listed(rest, i) {
            ListedCons(fields, i);
          }
        }
    }
  }

  lemma ListedCons(fields: seq<Field>, i: nat)
    requires fields != []
    ensures Listed(fields, i) <==> fields[0].index == i || Listed(fields[1..], i)
  {
    if k :| 0 <= k < |fields[1..]| && fields[1..][k].index == i {
      assert fields[k + 1].index == i;
    }
    if k :| 1 <= k < |fields| && fields[k].index == i {
      assert fields[1..][k - 1].index == i;
    }
  }

  lemma ListedLater(fields: seq<Field>, index: nat)
    requires fields != [] && fields[0].index == index && forall i :: 1 <= i < |fields| ==> index < fields[i].index
    ensures !Listed(fields[1..], index)
  {
  }
}

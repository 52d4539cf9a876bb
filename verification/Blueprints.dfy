/** The fixed-width layout of values: what is written for a value, and what is read back. */
module Blueprints {
  import opened Bytes
  import opened Strings

  /** Floating-point numbers are their bit patterns. */
  datatype Value =
    | BoolV(b: bool)
    | UintV(n: nat)
    | IntV(i: int)
    | FloatV(bits: nat)
    | ComplexV(re: nat, im: nat)
    | ListV(elements: seq<Value>)
    | StringV(bytes: seq<byte>)
    | StructV(fields: seq<Value>)
    | NilV
    | PointerV(target: Value)
    | PairV(first: Value, second: Value)

  /** Widths count bytes. Of the Go type of a struct, the name and the zero values of all its fields matter. */
  datatype Blueprint =
    | BoolBp
    | UintBp(width: nat)
    | IntBp(width: nat)
    | FloatBp(width: nat)
    | ComplexBp(width: nat)
    | ArrayBp(length: nat, element: Blueprint)
    | SliceBp(length: nat, element: Blueprint)
    | StringBp(length: nat)
    | StructBp(name: string, zeros: seq<Value>, fields: seq<Field>, totalSize: nat)
    | PointerBp(childSize: nat, element: Blueprint)
    | TupleBp(first: Blueprint, second: Blueprint)

  datatype Field = Field(blueprint: Blueprint, index: nat)

  const UINT32_CAP: nat := 0x1_0000_0000

  /** size * n, by repeated addition as the offsets of elements grow. */
  function Times(size: nat, n: nat): nat {
    if n == 0 then 0 else size + Times(size, n - 1)
  }

  lemma {:induction false} TimesIsProduct(size: nat, n: nat)
    ensures Times(size, n) == size * n
  {
    if n > 0 {
      TimesIsProduct(size, n - 1);
    }
  }

  lemma {:induction false} TimesGrows(size: nat, n: nat, m: nat)
    requires n <= m
    ensures Times(size, n) <= Times(size, m)
    decreases m
  {
    if n < m {
      TimesGrows(size, n, m - 1);
    }
  }

  function Size(bp: Blueprint): nat {
    match bp
    case BoolBp => 1
    case UintBp(width) => width
    case IntBp(width) => width
    case FloatBp(width) => width
    case ComplexBp(width) => width
    case ArrayBp(length, element) => Times(Size(element), length)
    case SliceBp(length, element) => Times(Size(element), length) + 4
    case StringBp(length) => length + 4
    case StructBp(_, _, _, totalSize) => totalSize
    case PointerBp(childSize, _) => childSize + 1
    case TupleBp(first, second) => Size(first) + Size(second)
  }

  function FieldsSize(fields: seq<Field>): nat {
    if fields == [] then 0 else Size(fields[0].blueprint) + FieldsSize(fields[1..])
  }

  function Zero(bp: Blueprint): Value {
    match bp
    case BoolBp => BoolV(false)
    case UintBp(_) => UintV(0)
    case IntBp(_) => IntV(0)
    case FloatBp(_) => FloatV(0)
    case ComplexBp(_) => ComplexV(0, 0)
    case ArrayBp(length, element) => ListV(seq(length, _ => Zero(element)))
    case SliceBp(_, _) => ListV([])
    case StringBp(_) => StringV([])
    case StructBp(_, zeros, _, _) => StructV(zeros)
    case PointerBp(_, _) => NilV
    case TupleBp(first, second) => PairV(Zero(first), Zero(second))
  }

  predicate IntWidth(width: nat) {
    width == 1 || width == 2 || width == 4 || width == 8
  }

  /** A blueprint as handleType builds them: cached sizes agree, field indices ascend. */
  ghost predicate Sound(bp: Blueprint)
    decreases bp, 0
  {
    match bp
    case BoolBp => true
    case UintBp(width) => IntWidth(width)
    case IntBp(width) => IntWidth(width)
    case FloatBp(width) => width == 4 || width == 8
    case ComplexBp(width) => width == 8 || width == 16
    case ArrayBp(_, element) => Sound(element)
    case SliceBp(length, element) => length < UINT32_CAP && Sound(element)
    case StringBp(length) => length < UINT32_CAP
    case StructBp(_, zeros, fields, totalSize) => totalSize == FieldsSize(fields) && SoundFields(fields, zeros)
    case PointerBp(childSize, element) => childSize == Size(element) && Sound(element)
    case TupleBp(first, second) => Sound(first) && Sound(second)
  }

  ghost predicate SoundFields(fields: seq<Field>, zeros: seq<Value>)
    decreases fields, 0
  {
    fields == [] ||
    match fields[0]
    case Field(bp, index) =>
      assert bp < fields[0];
      && Sound(bp)
      && index < |zeros| && zeros[index] == Zero(bp)
      && (forall i :: 1 <= i < |fields| ==> index < fields[i].index)
      && SoundFields(fields[1..], zeros)
  }

  /** v is a value of the Go type that bp was made for. */
  ghost predicate Typed(bp: Blueprint, v: Value)
    decreases bp, 0
  {
    match bp
    case BoolBp => v.BoolV?
    case UintBp(width) => v.UintV? && v.n < Pow256(width)
    case IntBp(width) => v.IntV? && 0 <= 2 * v.i + Pow256(width) < 2 * Pow256(width)
    case FloatBp(width) => v.FloatV? && v.bits < Pow256(width)
    case ComplexBp(width) => v.ComplexV? && v.re < Pow256(width / 2) && v.im < Pow256(width / 2)
    case ArrayBp(length, element) =>
      v.ListV? && |v.elements| == length && forall i :: 0 <= i < length ==> Typed(element, v.elements[i])
    case SliceBp(_, element) => v.ListV? && forall i :: 0 <= i < |v.elements| ==> Typed(element, v.elements[i])
    case StringBp(length) => v.StringV? && !Overruns(v.bytes, 0, length)
    case StructBp(_, zeros, fields, _) => v.StructV? && |v.fields| == |zeros| && TypedFields(fields, v.fields)
    case PointerBp(_, element) => v.NilV? || (v.PointerV? && Typed(element, v.target))
    case TupleBp(first, second) => v.PairV? && Typed(first, v.first) && Typed(second, v.second)
  }

  ghost predicate TypedFields(fields: seq<Field>, vs: seq<Value>)
    decreases fields, 0
  {
    fields == [] ||
    match fields[0]
    case Field(bp, index) =>
      assert bp < fields[0];
      index < |vs| && Typed(bp, vs[index]) && TypedFields(fields[1..], vs)
  }

  function Min(x: nat, y: nat): nat {
    if x < y then x else y
  }

  // ---- writing ----

  /** The window dest after v has been written into it; bytes that are not needed stay. */
  ghost function To(bp: Blueprint, v: Value, dest: seq<byte>): (r: seq<byte>)
    requires Sound(bp) && Typed(bp, v) && |dest| == Size(bp)
    ensures |r| == |dest|
    decreases bp, 0
  {
    match bp
    case BoolBp => [if v.b then 1 else 0]
    case UintBp(width) => ToBytes(v.n, width)
    case IntBp(width) => ToBytes(if v.i < 0 then v.i + Pow256(width) else v.i, width)
    case FloatBp(width) => ToBytes(v.bits, width)
    case ComplexBp(width) => ToBytes(v.re, width / 2) + ToBytes(v.im, width / 2)
    case ArrayBp(length, element) => ToAll(element, v.elements, dest)
    case SliceBp(length, element) => ToSlice(length, element, v.elements, dest)
    case StringBp(length) => ToString(length, v.bytes, dest)
    case StructBp(_, zeros, fields, _) => ToFields(fields, zeros, v.fields, dest)
    case PointerBp(_, element) => if v.NilV? then [0] + dest[1..] else [1] + To(element, v.target, dest[1..])
    case TupleBp(first, second) =>
      To(first, v.first, dest[..Size(first)]) + To(second, v.second, dest[Size(first)..])
  }

  ghost function ToSlice(length: nat, element: Blueprint, vs: seq<Value>, dest: seq<byte>): (r: seq<byte>)
    requires Sound(element) && (forall i :: 0 <= i < |vs| ==> Typed(element, vs[i]))
    requires |dest| == Times(Size(element), length) + 4
    ensures |r| == |dest|
    decreases element, |vs| + 2
  {
    var n := Min(|vs|, length);
    var end := SliceEnd(n, length, Size(element));
    ToBytes(n, 4) + ToAll(element, vs[..n], dest[4..end]) + dest[end..]
  }

  ghost function ToString(length: nat, s: seq<byte>, dest: seq<byte>): (r: seq<byte>)
    requires !Overruns(s, 0, length) && |dest| == length + 4
    ensures |r| == |dest|
  {
    var text := WriteRunes(s, 0, length);
    OverrunsExactly(s, 0, length);
    ToBytes(|text|, 4) + text + dest[4 + |text|..]
  }

  /** Where the n-th element of a slice ends: within the window. */
  function SliceEnd(n: nat, length: nat, size: nat): (end: nat)
    requires n <= length
    ensures end == 4 + Times(size, n) <= Times(size, length) + 4
  {
    TimesGrows(size, n, length);
    4 + Times(size, n)
  }

  ghost function ToAll(element: Blueprint, vs: seq<Value>, dest: seq<byte>): (r: seq<byte>)
    requires Sound(element) && (forall i :: 0 <= i < |vs| ==> Typed(element, vs[i]))
    requires |dest| == Times(Size(element), |vs|)
    ensures |r| == |dest|
    decreases element, |vs| + 1
  {
    if vs == [] then []
    else
      var s := Size(element);
      To(element, vs[0], dest[..s]) + ToAll(element, vs[1..], dest[s..])
  }

  ghost function ToFields(fields: seq<Field>, zeros: seq<Value>, vs: seq<Value>, dest: seq<byte>): (r: seq<byte>)
    requires SoundFields(fields, zeros) && TypedFields(fields, vs) && |dest| == FieldsSize(fields)
    ensures |r| == |dest|
    decreases fields, 0
  {
    if fields == [] then []
    else
      match fields[0]
      case Field(bp, index) =>
        assert bp < fields[0];
        To(bp, vs[index], dest[..Size(bp)]) + ToFields(fields[1..], zeros, vs, dest[Size(bp)..])
  }

  // ---- reading ----

  /** The lengths found in s stay within those that bp declares. */
  ghost predicate Readable(bp: Blueprint, s: seq<byte>)
    requires Sound(bp) && |s| == Size(bp)
    decreases bp, 0
  {
    match bp
    case ArrayBp(length, element) => ReadableAll(element, length, s)
    case SliceBp(length, element) => ReadableSlice(length, element, s)
    case StringBp(length) => FromBytes(s[..4]) <= length
    case StructBp(_, zeros, fields, _) => ReadableFields(fields, zeros, s)
    case PointerBp(_, element) => s[0] == 0 || Readable(element, s[1..])
    case TupleBp(first, second) => Readable(first, s[..Size(first)]) && Readable(second, s[Size(first)..])
    case _ => true
  }

  ghost predicate ReadableSlice(length: nat, element: Blueprint, s: seq<byte>)
    requires Sound(element) && |s| == Times(Size(element), length) + 4
    decreases element, length + 2
  {
    var n := FromBytes(s[..4]);
    n <= length && ReadableAll(element, n, s[4..SliceEnd(n, length, Size(element))])
  }

  ghost predicate ReadableAll(element: Blueprint, n: nat, s: seq<byte>)
    requires Sound(element) && |s| == Times(Size(element), n)
    decreases element, n + 1
  {
    n == 0 ||
    (Readable(element, s[..Size(element)]) && ReadableAll(element, n - 1, s[Size(element)..]))
  }

  ghost predicate ReadableFields(fields: seq<Field>, zeros: seq<Value>, s: seq<byte>)
    requires SoundFields(fields, zeros) && |s| == FieldsSize(fields)
    decreases fields, 0
  {
    fields == [] ||
    match fields[0]
    case Field(bp, _) =>
      assert bp < fields[0];
      Readable(bp, s[..Size(bp)]) && ReadableFields(fields[1..], zeros, s[Size(bp)..])
  }

  /** What is read from the window s into a zero value. */
  ghost function From(bp: Blueprint, s: seq<byte>): Value
    requires Sound(bp) && |s| == Size(bp) && Readable(bp, s)
    decreases bp, 0
  {
    match bp
    case BoolBp => BoolV(s[0] != 0)
    case UintBp(width) => UintV(FromBytes(s))
    case IntBp(width) =>
      var n := FromBytes(s);
      IntV(if 2 * n < Pow256(width) then n else n - Pow256(width))
    case FloatBp(width) => FloatV(FromBytes(s))
    case ComplexBp(width) => ComplexV(FromBytes(s[..width / 2]), FromBytes(s[width / 2..]))
    case ArrayBp(length, element) => ListV(FromAll(element, length, s))
    case SliceBp(length, element) => ListV(FromSlice(length, element, s))
    case StringBp(length) => StringV(s[4..4 + FromBytes(s[..4])])
    case StructBp(_, zeros, fields, _) => StructV(FromFields(fields, zeros, s, zeros))
    case PointerBp(_, element) => if s[0] == 0 then NilV else PointerV(From(element, s[1..]))
    case TupleBp(first, second) => PairV(From(first, s[..Size(first)]), From(second, s[Size(first)..]))
  }

  ghost function FromSlice(length: nat, element: Blueprint, s: seq<byte>): seq<Value>
    requires Sound(element) && |s| == Times(Size(element), length) + 4 && ReadableSlice(length, element, s)
    decreases element, length + 2
  {
    var n := FromBytes(s[..4]);
    assert ReadableAll(element, n, s[4..SliceEnd(n, length, Size(element))]);
    FromAll(element, n, s[4..SliceEnd(n, length, Size(element))])
  }

  ghost function FromAll(element: Blueprint, n: nat, s: seq<byte>): (vs: seq<Value>)
    requires Sound(element) && |s| == Times(Size(element), n) && ReadableAll(element, n, s)
    ensures |vs| == n
    decreases element, n + 1
  {
    if n == 0 then []
    else
      [From(element, s[..Size(element)])] + FromAll(element, n - 1, s[Size(element)..])
  }

  /** into with the fields that are read put in their places. */
  ghost function FromFields(fields: seq<Field>, zeros: seq<Value>, s: seq<byte>, into: seq<Value>): seq<Value>
    requires SoundFields(fields, zeros) && |s| == FieldsSize(fields) && ReadableFields(fields, zeros, s)
    requires |into| == |zeros|
    decreases fields, 0
  {
    if fields == [] then into
    else
      match fields[0]
      case Field(bp, index) =>
        assert bp < fields[0];
        FromFields(fields[1..], zeros, s[Size(bp)..], into[index := From(bp, s[..Size(bp)])])
  }

  // ---- what survives ----

  /** v with every slice and string cut to its declared length and ignored struct fields zeroed. */
  ghost function Cut(bp: Blueprint, v: Value): Value
    requires Sound(bp) && Typed(bp, v)
    decreases bp, 0
  {
    match bp
    case ArrayBp(_, element) => ListV(CutAll(element, v.elements))
    case SliceBp(length, element) => ListV(CutAll(element, v.elements[..Min(|v.elements|, length)]))
    case StringBp(length) => StringV(WriteRunes(v.bytes, 0, length))
    case StructBp(_, zeros, fields, _) => StructV(CutFields(fields, zeros, v.fields, zeros))
    case PointerBp(_, element) => if v.NilV? then NilV else PointerV(Cut(element, v.target))
    case TupleBp(first, second) => PairV(Cut(first, v.first), Cut(second, v.second))
    case _ => v
  }

  ghost function CutAll(element: Blueprint, vs: seq<Value>): (r: seq<Value>)
    requires Sound(element) && (forall i :: 0 <= i < |vs| ==> Typed(element, vs[i]))
    ensures |r| == |vs|
    decreases element, |vs| + 1
  {
    if vs == [] then [] else [Cut(element, vs[0])] + CutAll(element, vs[1..])
  }

  ghost function CutFields(fields: seq<Field>, zeros: seq<Value>, vs: seq<Value>, into: seq<Value>): (r: seq<Value>)
    requires SoundFields(fields, zeros) && TypedFields(fields, vs) && |into| == |zeros|
    ensures |r| == |into|
    decreases fields, 0
  {
    if fields == [] then into
    else
      match fields[0]
      case Field(bp, index) =>
        assert bp < fields[0];
        CutFields(fields[1..], zeros, vs, into[index := Cut(bp, vs[index])])
  }
}

/** The encoder and decoder themselves: they fill and read a window of a byte buffer. */
module Codec {
  import opened Bytes
  import opened Utf8
  import opened Strings
  import opened Blueprints
  import opened RoundTrip

  // ---- list lemmas ----

  lemma {:induction false} ToAllSnoc(element: Blueprint, vs: seq<Value>, v: Value, d: seq<byte>, e: seq<byte>)
    requires Sound(element) && (forall i :: 0 <= i < |vs| ==> Typed(element, vs[i])) && Typed(element, v)
    requires |d| == Times(Size(element), |vs|) && |e| == Size(element)
    ensures |d + e| == Times(Size(element), |vs + [v]|)
    ensures ToAll(element, vs + [v], d + e) == ToAll(element, vs, d) + To(element, v, e)
  {
    hide To, Typed, Sound, Size, ToAll, Times;
    var n := Size(element);
    TimesStep(n, |vs|);
    TimesNone(n);
    if vs == [] {
      assert vs + [v] == [v] && d + e == e && d == [];
      ToAllOne(element, v, e);
    } else {
      TimesStep(n, |vs| - 1);
      ConsCut(vs, v, d, e, n);
      ToAllCons(element, vs, d);
      ToAllCons(element, vs + [v], d + e);
      ToAllSnoc(element, vs[1..], v, d[n..], e);
      assert To(element, vs[0], d[..n]) + (ToAll(element, vs[1..], d[n..]) + To(element, v, e))
          == To(element, vs[0], d[..n]) + ToAll(element, vs[1..], d[n..]) + To(element, v, e);
    }
  }

  lemma ToAllCons(element: Blueprint, vs: seq<Value>, d: seq<byte>)
    requires Sound(element) && (forall i :: 0 <= i < |vs| ==> Typed(element, vs[i])) && vs != []
    requires |d| == Times(Size(element), |vs|)
    ensures Size(element) <= |d|
    ensures ToAll(element, vs, d)
         == To(element, vs[0], d[..Size(element)]) + ToAll(element, vs[1..], d[Size(element)..])
  {
    hide To, Typed, Sound, Size;
  }

  lemma ToAllOne(element: Blueprint, v: Value, e: seq<byte>)
    requires Sound(element) && Typed(element, v) && |e| == Size(element)
    ensures Times(Size(element), 1) == |e| && Times(Size(element), 0) == 0
    ensures ToAll(element, [v], e) == To(element, v, e) && ToAll(element, [], []) == []
  {
    hide To, Typed, Sound, Size;
    assert e[..|e|] == e && e[|e|..] == [];
    assert [v][1..] == [];
  }

  lemma TimesNone(n: nat)
    ensures Times(n, 0) == 0
  {
  }

  lemma ConsCut<T, U>(vs: seq<T>, v: T, d: seq<U>, e: seq<U>, n: nat)
    requires vs != [] && n <= |d|
    ensures (vs + [v])[0] == vs[0] && (vs + [v])[1..] == vs[1..] + [v]
    ensures (d + e)[..n] == d[..n] && (d + e)[n..] == d[n..] + e
  {
  }

  // ---- writing ----

  method WriteUint(value: nat, width: nat, dest: array<byte>, offset: nat)
    requires value < Pow256(width) && offset + width <= dest.Length
    modifies dest
    ensures dest[..] == Patched(old(dest[..]), offset, ToBytes(value, width))
  {
    hide Patched, ToBytes;
    ghost var s := dest[..];
    PatchSame(s, offset + width, 0);
    assert s[offset + width..offset + width] == [];
    var i, rest := width, value;
    ghost var tail: seq<byte> := [];
    while i > 0
      invariant 0 <= i <= width && |tail| == width - i
      invariant dest[..] == Patched(s, offset + i, tail)
      invariant ToBytes(rest, i) + tail == ToBytes(value, width)
    {
      i := i - 1;
      BytesStep(rest, i);
      PatchNext(s, offset + i, [rest % 256], tail);
      PatchOne(Patched(s, offset + i + 1, tail), offset + i, rest % 256);
      dest[offset + i] := rest % 256;
      tail := [rest % 256] + tail;
      rest := rest / 256;
    }
    BytesNone(rest);
    assert [] + tail == tail;
  }

  lemma BytesStep(n: nat, i: nat)
    ensures ToBytes(n, i + 1) == ToBytes(n / 256, i) + [n % 256]
  {
  }

  lemma BytesNone(n: nat)
    ensures ToBytes(n, 0) == []
  {
  }

  lemma PatchOne(s: seq<byte>, at: nat, b: byte)
    requires at < |s|
    ensures Patched(s, at, [b]) == s[at := b]
  {
  }

  method WriteTo(bp: Blueprint, v: Value, dest: array<byte>, offset: nat)
    requires Sound(bp) && Typed(bp, v) && offset + Size(bp) <= dest.Length
    modifies dest
    ensures dest[..] == Patched(old(dest[..]), offset, To(bp, v, old(dest[offset..offset + Size(bp)])))
    decreases bp, 1
  {
    hide To, ToAll, ToFields, ToSlice, ToString, Typed, TypedFields, Sound, SoundFields, Patched, Size, Times,
         FieldsSize;
    ToUnfolded(bp, v, dest[offset..offset + Size(bp)]);
    match bp
    case ArrayBp(length, element) => WriteAll(element, v.elements, dest, offset);
    case SliceBp(length, element) => WriteSlice(length, element, v.elements, dest, offset);
    case StringBp(length) => WriteString(length, v.bytes, dest, offset);
    case StructBp(_, zeros, fields, _) => WriteFields(fields, zeros, v.fields, dest, offset);
    case PointerBp(_, element) => WritePointer(element, v, dest, offset);
    case TupleBp(first, second) => WriteTuple(first, second, v, dest, offset);
    case _ => WriteScalar(bp, v, dest, offset);
  }

  lemma ToUnfolded(bp: Blueprint, v: Value, d: seq<byte>)
    requires Sound(bp) && Typed(bp, v) && |d| == Size(bp)
    ensures bp.ArrayBp? ==>
      && v.ListV? && |v.elements| == bp.length && Sound(bp.element)
      && (forall i :: 0 <= i < |v.elements| ==> Typed(bp.element, v.elements[i]))
      && Size(bp) == Times(Size(bp.element), bp.length)
      && To(bp, v, d) == ToAll(bp.element, v.elements, d)
    ensures bp.SliceBp? ==>
      && v.ListV? && Sound(bp.element) && bp.length < UINT32_CAP
      && (forall i :: 0 <= i < |v.elements| ==> Typed(bp.element, v.elements[i]))
      && Size(bp) == Times(Size(bp.element), bp.length) + 4
      && To(bp, v, d) == ToSlice(bp.length, bp.element, v.elements, d)
    ensures bp.StringBp? ==>
      && v.StringV? && !Overruns(v.bytes, 0, bp.length) && bp.length < UINT32_CAP && Size(bp) == bp.length + 4
      && To(bp, v, d) == ToString(bp.length, v.bytes, d)
    ensures bp.StructBp? ==>
      && v.StructV? && SoundFields(bp.fields, bp.zeros) && TypedFields(bp.fields, v.fields)
      && Size(bp) == FieldsSize(bp.fields)
      && To(bp, v, d) == ToFields(bp.fields, bp.zeros, v.fields, d)
    ensures bp.PointerBp? ==>
      && Sound(bp.element) && (v.NilV? || (v.PointerV? && Typed(bp.element, v.target)))
      && bp.childSize == Size(bp.element) && Size(bp) == 1 + Size(bp.element)
  {
  }

  method WriteScalar(bp: Blueprint, v: Value, dest: array<byte>, offset: nat)
    requires Sound(bp) && Typed(bp, v) && offset + Size(bp) <= dest.Length
    requires bp.BoolBp? || bp.UintBp? || bp.IntBp? || bp.FloatBp? || bp.ComplexBp?
    modifies dest
    ensures dest[..] == Patched(old(dest[..]), offset, To(bp, v, old(dest[offset..offset + Size(bp)])))
  {
    hide Patched, ToBytes, Typed, Sound, Pow256;
    ghost var s := dest[..];
    ScalarUnfolded(bp, v, dest[offset..offset + Size(bp)]);
    match bp
    case BoolBp =>
      PatchOne(s, offset, if v.b then 1 else 0);
      dest[offset] := 0;
      if v.b {
        dest[offset] := 1;
      }
    case UintBp(width) => WriteUint(v.n, width, dest, offset);
    case IntBp(width) => WriteUint(if v.i < 0 then v.i + Pow256(width) else v.i, width, dest, offset);
    case FloatBp(width) => WriteUint(v.bits, width, dest, offset);
    case ComplexBp(width) =>
      PatchNext(s, offset, ToBytes(v.re, width / 2), ToBytes(v.im, width / 2));
      WriteUint(v.re, width / 2, dest, offset);
      WriteUint(v.im, width / 2, dest, offset + width / 2);
  }

  lemma ScalarUnfolded(bp: Blueprint, v: Value, d: seq<byte>)
    requires Sound(bp) && Typed(bp, v) && |d| == Size(bp)
    ensures bp.BoolBp? ==> v.BoolV? && To(bp, v, d) == [if v.b then 1 else 0]
    ensures bp.UintBp? ==> v.UintV? && v.n < Pow256(bp.width) && To(bp, v, d) == ToBytes(v.n, bp.width)
    ensures bp.IntBp? ==>
      && v.IntV? && 0 <= (if v.i < 0 then v.i + Pow256(bp.width) else v.i) < Pow256(bp.width)
      && To(bp, v, d) == ToBytes(if v.i < 0 then v.i + Pow256(bp.width) else v.i, bp.width)
    ensures bp.FloatBp? ==> v.FloatV? && v.bits < Pow256(bp.width) && To(bp, v, d) == ToBytes(v.bits, bp.width)
    ensures bp.ComplexBp? ==>
      && v.ComplexV? && v.re < Pow256(bp.width / 2) && v.im < Pow256(bp.width / 2)
      && bp.width / 2 + bp.width / 2 == bp.width
      && To(bp, v, d) == ToBytes(v.re, bp.width / 2) + ToBytes(v.im, bp.width / 2)
  {
    hide Pow256, ToBytes;
    if bp.IntBp? {
      SignedRoundTrip(v.i, bp.width);
    }
  }

  method WritePointer(element: Blueprint, v: Value, dest: array<byte>, offset: nat)
    requires Sound(element) && (v.NilV? || (v.PointerV? && Typed(element, v.target)))
    requires offset + (Size(element) + 1) <= dest.Length
    modifies dest
    ensures var bp := PointerBp(Size(element), element);
            && Sound(bp) && Typed(bp, v) && Size(bp) == Size(element) + 1
            && dest[..] == Patched(old(dest[..]), offset, To(bp, v, old(dest[offset..offset + (Size(element) + 1)])))
    decreases PointerBp(Size(element), element), 0
  {
    hide Patched, Typed, Sound, To, Size;
    ghost var s, n := dest[..], Size(element);
    PointerUnfolded(element, v, s[offset..offset + (n + 1)]);
    Window(s, offset, 1, n);
    PatchOne(s, offset, if v.NilV? then 0 else 1);
    if v.NilV? {
      PatchNext(s, offset, [0], s[offset + 1..offset + 1 + n]);
      PatchRight(s, offset, [0], offset + 1, offset + 1 + n);
      PatchSame(Patched(s, offset, [0]), offset + 1, n);
      dest[offset] := 0;
    } else {
      PatchRight(s, offset, [1], offset + 1, offset + 1 + n);
      PatchNext(s, offset, [1], To(element, v.target, s[offset + 1..offset + 1 + n]));
      dest[offset] := 1;
      WriteTo(element, v.target, dest, offset + 1);
    }
  }

  lemma PointerUnfolded(element: Blueprint, v: Value, d: seq<byte>)
    requires Sound(element) && (v.NilV? || (v.PointerV? && Typed(element, v.target))) && |d| == Size(element) + 1
    ensures var bp := PointerBp(Size(element), element);
            && Sound(bp) && Typed(bp, v) && Size(bp) == Size(element) + 1
            && To(bp, v, d) == if v.NilV? then [0] + d[1..] else [1] + To(element, v.target, d[1..])
  {
  }

  method WriteTuple(first: Blueprint, second: Blueprint, v: Value, dest: array<byte>, offset: nat)
    requires var bp := TupleBp(first, second); Sound(bp) && Typed(bp, v) && offset + Size(bp) <= dest.Length
    modifies dest
    ensures var bp := TupleBp(first, second);
            dest[..] == Patched(old(dest[..]), offset, To(bp, v, old(dest[offset..offset + Size(bp)])))
    decreases TupleBp(first, second), 0
  {
    hide Patched, To, Typed, Sound, Size;
    TupleSize(first, second);
    TupleStep(first, second, v, dest[..], offset);
    WriteTo(first, v.first, dest, offset);
    WriteTo(second, v.second, dest, offset + Size(first));
  }

  lemma TupleStep(first: Blueprint, second: Blueprint, v: Value, s: seq<byte>, offset: nat)
    requires var bp := TupleBp(first, second); Sound(bp) && Typed(bp, v) && offset + Size(bp) <= |s|
    ensures v.PairV? && Sound(first) && Sound(second) && Typed(first, v.first) && Typed(second, v.second)
    ensures Size(TupleBp(first, second)) == Size(first) + Size(second)
    ensures var n, m := Size(first), Size(second);
            var t := Patched(s, offset, To(first, v.first, s[offset..offset + n]));
            Patched(t, offset + n, To(second, v.second, t[offset + n..offset + n + m]))
            == Patched(s, offset, To(TupleBp(first, second), v, s[offset..offset + (n + m)]))
  {
    hide Patched, Size, To, Typed, Sound;
    var n, m := Size(first), Size(second);
    TupleSize(first, second);
    TupleUnfolded(first, second, v, s[offset..offset + (n + m)]);
    Window(s, offset, n, m);
    var x := To(first, v.first, s[offset..offset + n]);
    var y := To(second, v.second, s[offset + n..offset + n + m]);
    PatchRight(s, offset, x, offset + n, offset + n + m);
    PatchNext(s, offset, x, y);
  }

  lemma Window(s: seq<byte>, at: nat, n: nat, m: nat)
    requires at + n + m <= |s|
    ensures var window := s[at..at + (n + m)]; window[..n] == s[at..at + n] && window[n..] == s[at + n..at + n + m]
  {
  }

  lemma TupleSize(first: Blueprint, second: Blueprint)
    ensures Size(TupleBp(first, second)) == Size(first) + Size(second)
  {
  }

  lemma TupleUnfolded(first: Blueprint, second: Blueprint, v: Value, d: seq<byte>)
    requires var bp := TupleBp(first, second); Sound(bp) && Typed(bp, v) && |d| == Size(bp)
    ensures v.PairV? && Sound(first) && Sound(second) && Typed(first, v.first) && Typed(second, v.second)
    ensures |d| == Size(first) + Size(second)
    ensures To(TupleBp(first, second), v, d)
            == To(first, v.first, d[..Size(first)]) + To(second, v.second, d[Size(first)..])
  {
  }

  method WriteAll(element: Blueprint, vs: seq<Value>, dest: array<byte>, start: nat)
    requires Sound(element) && (forall i :: 0 <= i < |vs| ==> Typed(element, vs[i]))
    requires start + Times(Size(element), |vs|) <= dest.Length
    modifies dest
    ensures dest[..] == Patched(old(dest[..]), start,
                                ToAll(element, vs, old(dest[start..start + Times(Size(element), |vs|)])))
    decreases element, |vs| + 2
  {
    hide To, ToAll, ToFields, ToSlice, ToString, Typed, TypedFields, Sound, SoundFields, Patched, Size, Times,
         FieldsSize;
    ghost var s, n := dest[..], Size(element);
    AllNone(element, s, start);
    assert vs[..0] == [];
    var offset := start;
    var i := 0;
    while i < |vs|
      invariant 0 <= i <= |vs| && offset == start + Times(n, i) <= dest.Length
      invariant dest[..] == Patched(s, start, ToAll(element, vs[..i], s[start..offset]))
    {
      TimesGrows(n, i + 1, |vs|);
      TimesStep(n, i);
      AllStep(element, vs, i, s, start, offset);
      WriteTo(element, vs[i], dest, offset);
      offset := offset + Size(element);
      i := i + 1;
    }
    assert vs[..|vs|] == vs;
  }

  lemma TimesStep(n: nat, i: nat)
    ensures Times(n, i + 1) == Times(n, i) + n
  {
  }

  lemma AllNone(element: Blueprint, s: seq<byte>, start: nat)
    requires Sound(element) && start <= |s|
    ensures Times(Size(element), 0) == 0 && ToAll(element, [], s[start..start]) == []
    ensures Patched(s, start, []) == s
  {
    PatchSame(s, start, 0);
  }

  lemma AllStep(element: Blueprint, vs: seq<Value>, i: nat, s: seq<byte>, start: nat, offset: nat)
    requires Sound(element) && (forall k :: 0 <= k < |vs| ==> Typed(element, vs[k])) && i < |vs|
    requires start <= offset == start + Times(Size(element), i) && offset + Size(element) <= |s|
    ensures offset + Size(element) - start == Times(Size(element), i + 1)
    ensures var n := Size(element);
            var t := Patched(s, start, ToAll(element, vs[..i], s[start..offset]));
            Patched(t, offset, To(element, vs[i], t[offset..offset + n]))
            == Patched(s, start, ToAll(element, vs[..i + 1], s[start..offset + n]))
  {
    hide To, Typed, Sound, Patched, Size, ToAll;
    var n := Size(element);
    var d, e := s[start..offset], s[offset..offset + n];
    assert s[start..offset + n] == d + e && vs[..i + 1] == vs[..i] + [vs[i]];
    var x := ToAll(element, vs[..i], d);
    PatchRight(s, start, x, offset, offset + n);
    ToAllSnoc(element, vs[..i], vs[i], d, e);
    PatchNext(s, start, x, To(element, vs[i], e));
  }

  method WriteSlice(length: nat, element: Blueprint, vs: seq<Value>, dest: array<byte>, start: nat)
    requires Sound(element) && (forall i :: 0 <= i < |vs| ==> Typed(element, vs[i])) && length < UINT32_CAP
    requires start + (Times(Size(element), length) + 4) <= dest.Length
    modifies dest
    ensures dest[..] == Patched(old(dest[..]), start,
                                ToSlice(length, element, vs,
                                        old(dest[start..start + (Times(Size(element), length) + 4)])))
    ensures var end := start + 4 + Times(Size(element), if |vs| < length then |vs| else length);
            end <= dest.Length && dest[end..] == old(dest[..])[end..]
    decreases element, |vs| + 3
  {
    hide To, Typed, Sound, Patched, Size, ToAll, Times;
    ghost var s := dest[..];
    var persistedLen := Min(|vs|, length);
    ghost var window := s[start..start + (Times(Size(element), length) + 4)];
    ghost var end := SliceEnd(persistedLen, length, Size(element));
    assert window[4..end] == s[start + 4..start + end];
    FrontLast(s, start, ToBytes(persistedLen, 4), ToAll(element, vs[..persistedLen], window[4..end]), window);
    WriteAll(element, vs[..persistedLen], dest, start + 4);
    Cap32(persistedLen);
    WriteUint(persistedLen, 4, dest, start);
    TailKept(s, start, ToBytes(persistedLen, 4) + ToAll(element, vs[..persistedLen], window[4..end]), window);
  }

  /** What is patched with itself behind x stays as it is. */
  lemma TailKept(s: seq<byte>, start: nat, x: seq<byte>, window: seq<byte>)
    requires start + |window| <= |s| && window == s[start..start + |window|] && |x| <= |window|
    ensures Patched(s, start, x + window[|x|..])[start + |x|..] == s[start + |x|..]
  {
    var r := Patched(s, start, x + window[|x|..]);
    forall i | start + |x| <= i < |s| ensures r[i] == s[i] {
      PatchIndex(s, start, x + window[|x|..], i);
    }
  }

  lemma Cap32(n: nat)
    requires n < UINT32_CAP
    ensures n < Pow256(4)
  {
    assert Pow256(1) == 256 && Pow256(2) == 0x1_0000 && Pow256(3) == 0x100_0000;
  }

  method WriteFields(fields: seq<Field>, zeros: seq<Value>, vs: seq<Value>, dest: array<byte>, start: nat)
    requires SoundFields(fields, zeros) && TypedFields(fields, vs) && start + FieldsSize(fields) <= dest.Length
    modifies dest
    ensures dest[..] == Patched(old(dest[..]), start,
                                ToFields(fields, zeros, vs, old(dest[start..start + FieldsSize(fields)])))
    decreases fields, 0
  {
    hide To, ToAll, ToFields, ToSlice, ToString, Typed, TypedFields, Sound, SoundFields, Patched, Size, Times,
         FieldsSize;
    ghost var s := dest[..];
    assert fields[0..] == fields;
    var offset := start;
    var i := 0;
    while i < |fields|
      invariant 0 <= i <= |fields| && start <= offset && offset + FieldsSize(fields[i..]) == start + FieldsSize(fields)
      invariant SoundFields(fields[i..], zeros) && TypedFields(fields[i..], vs)
      invariant |dest[..]| == |s| && dest[offset..] == s[offset..]
      invariant Patched(dest[..], offset, ToFields(fields[i..], zeros, vs, s[offset..offset + FieldsSize(fields[i..])]))
             == Patched(s, start, ToFields(fields, zeros, vs, s[start..start + FieldsSize(fields)]))
    {
      ghost var rest := fields[i..];
      ghost var t := dest[..];
      FieldsUnfolded(rest, zeros, vs, s[offset..offset + FieldsSize(rest)]);
      ghost var n, m := Size(rest[0].blueprint), FieldsSize(rest[1..]);
      Window(s, offset, n, m);
      WindowStep(s, t, offset, To(rest[0].blueprint, vs[rest[0].index], s[offset..offset + n]),
                 ToFields(rest[1..], zeros, vs, s[offset + n..offset + n + m]));
      FieldSmaller(fields, i);
      WriteTo(fields[i].blueprint, vs[fields[i].index], dest, offset);
      offset := offset + Size(fields[i].blueprint);
      i := i + 1;
      assert fields[i..] == rest[1..];
    }
    FieldsNone(zeros, vs, dest[..], offset);
    assert fields[i..] == [];
  }

  lemma FieldsNone(zeros: seq<Value>, vs: seq<Value>, s: seq<byte>, at: nat)
    requires at <= |s|
    ensures FieldsSize([]) == 0 && SoundFields([], zeros) && TypedFields([], vs) && ToFields([], zeros, vs, []) == []
    ensures Patched(s, at, []) == s
  {
    PatchSame(s, at, 0);
  }

  lemma FieldSmaller(fields: seq<Field>, i: nat)
    requires i < |fields|
    ensures fields[i].blueprint < fields[i]
  {
    match fields[i]
    case Field(bp, _) =>
  }

  /** Writing the first part of a window leaves the rest of it to write. */
  lemma WindowStep(s: seq<byte>, t: seq<byte>, at: nat, x: seq<byte>, y: seq<byte>)
    requires |t| == |s| && at + |x| + |y| <= |s| && t[at..] == s[at..]
    ensures |Patched(t, at, x)| == |s| && Patched(t, at, x)[at + |x|..] == s[at + |x|..]
    ensures Patched(Patched(t, at, x), at + |x|, y) == Patched(t, at, x + y)
    ensures t[at..at + |x|] == s[at..at + |x|]
  {
    hide Patched;
    PatchNext(t, at, x, y);
    PatchRight(t, at, x, at + |x|, |t|);
    Suffix(s, t, at, |x|);
    var t' := Patched(t, at, x);
    assert t'[at + |x|..] == t'[at + |x|..|t|] == t[at + |x|..|t|] == t[at + |x|..];
  }

  lemma Suffix(s: seq<byte>, t: seq<byte>, at: nat, n: nat)
    requires |t| == |s| && at + n <= |s| && t[at..] == s[at..]
    ensures t[at + n..] == s[at + n..] && t[at..at + n] == s[at..at + n]
  {
    assert t[at + n..] == t[at..][n..] && s[at + n..] == s[at..][n..];
    assert t[at..at + n] == t[at..][..n] && s[at..at + n] == s[at..][..n];
  }

  lemma FieldsUnfolded(fields: seq<Field>, zeros: seq<Value>, vs: seq<Value>, d: seq<byte>)
    requires fields != [] && SoundFields(fields, zeros) && TypedFields(fields, vs) && |d| == FieldsSize(fields)
    ensures var f := fields[0];
            var n := Size(f.blueprint);
            && Sound(f.blueprint) && f.index < |vs| && Typed(f.blueprint, vs[f.index])
            && SoundFields(fields[1..], zeros) && TypedFields(fields[1..], vs)
            && FieldsSize(fields) == n + FieldsSize(fields[1..])
            && ToFields(fields, zeros, vs, d)
               == To(f.blueprint, vs[f.index], d[..n]) + ToFields(fields[1..], zeros, vs, d[n..])
  {
  }

  method WriteString(length: nat, s: seq<byte>, dest: array<byte>, start: nat)
    requires !Overruns(s, 0, length) && length < UINT32_CAP && start + (length + 4) <= dest.Length
    modifies dest
    ensures dest[..] == Patched(old(dest[..]), start, ToString(length, s, old(dest[start..start + (length + 4)])))
    ensures var end := start + 4 + |WriteRunes(s, 0, length)|;
            end <= dest.Length && dest[end..] == old(dest[..])[end..]
  {
    hide Patched, ToBytes, ReadRune, Utf8.Encode, WriteRunes, Overruns;
    ghost var before := dest[..];
    ghost var text := WriteRunes(s, 0, length);
    PatchSame(before, start + 4, 0);
    assert before[start + 4..start + 4] == [];
    var written: nat, rest := 0, s;
    assert text[..0] == [];
    assert text == [] + text;
    assert dest[..] == Patched(before, start + 4, []);
    while rest != [] && written + ReadRune(rest).1 <= length
      invariant !Overruns(rest, written, length) && written <= length
      invariant |text| >= written && text == text[..written] + WriteRunes(rest, written, length)
      invariant dest[..] == Patched(before, start + 4, text[..written])
      decreases |rest|
    {
      var (r, width) := ReadRune(rest);
      RuneNext(rest, written, length);
      RuneStep(text, written, Utf8.Encode(r), WriteRunes(rest[width..], written + |Utf8.Encode(r)|, length));
      PatchNext(before, start + 4, text[..written], Utf8.Encode(r));
      WriteBytes(Utf8.Encode(r), dest, start + 4 + written);
      written := written + |Utf8.Encode(r)|;
      rest := rest[width..];
    }
    RunesDone(rest, written, length);
    assert text == text[..written];
    FrontLast(before, start, ToBytes(|text|, 4), text, before[start..start + (length + 4)]);
    Cap32(written);
    WriteUint(written, 4, dest, start);
    TailKept(before, start, ToBytes(|text|, 4) + text, before[start..start + (length + 4)]);
  }

  lemma RuneNext(s: seq<byte>, written: nat, length: nat)
    requires !Overruns(s, written, length) && s != [] && written + ReadRune(s).1 <= length
    ensures var (r, width) := ReadRune(s);
            && written + |Utf8.Encode(r)| <= length && !Overruns(s[width..], written + |Utf8.Encode(r)|, length)
            && WriteRunes(s, written, length)
               == Utf8.Encode(r) + WriteRunes(s[width..], written + |Utf8.Encode(r)|, length)
  {
    hide ReadRune, Utf8.Encode, WellFormed;
    WidthTells(s);
    if !WellFormed(s) {
      MalformedRead(s);
    }
  }

  lemma RunesDone(s: seq<byte>, written: nat, length: nat)
    requires s == [] || written + ReadRune(s).1 > length
    ensures WriteRunes(s, written, length) == []
  {
  }

  lemma RuneStep(text: seq<byte>, written: nat, e: seq<byte>, more: seq<byte>)
    requires written <= |text| && text == text[..written] + (e + more)
    ensures written + |e| <= |text| && text[..written + |e|] == text[..written] + e
    ensures text == text[..written + |e|] + more
  {
    assert text[written..] == e + more;
  }

  /** The front of a window, written after what follows it; the rest of the window stays. */
  lemma FrontLast(s: seq<byte>, start: nat, x: seq<byte>, y: seq<byte>, window: seq<byte>)
    requires start + |window| <= |s| && window == s[start..start + |window|] && |x| + |y| <= |window|
    ensures Patched(Patched(s, start + |x|, y), start, x) == Patched(s, start, x + y + window[|x| + |y|..])
  {
    hide Patched;
    var z := window[|x| + |y|..];
    PatchNext(s, start, x, y);
    PatchNext(s, start, x + y, z);
    PatchRight(s, start, x + y, start + |x| + |y|, start + |window|);
    assert z == s[start + |x| + |y|..start + |window|];
    PatchSame(Patched(s, start, x + y), start + |x| + |y|, |z|);
  }

  method WriteBytes(data: seq<byte>, dest: array<byte>, offset: nat)
    requires offset + |data| <= dest.Length
    modifies dest
    ensures dest[..] == Patched(old(dest[..]), offset, data)
  {
    var i := 0;
    while i < |data|
      invariant 0 <= i <= |data|
      invariant forall k :: 0 <= k < dest.Length ==>
        dest[k] == if offset <= k < offset + i then data[k - offset] else old(dest[k])
    {
      dest[offset + i] := data[i];
      i := i + 1;
    }
  }

  // ---- reading ----

  method ReadUint(src: array<byte>, offset: nat, width: nat) returns (n: nat)
    requires offset + width <= src.Length
    ensures n == FromBytes(src[offset..offset + width])
  {
    n := 0;
    var i := 0;
    while i < width
      invariant 0 <= i <= width && n == FromBytes(src[offset..offset + i])
    {
      var s := src[offset..offset + i + 1];
      assert s[..|s| - 1] == src[offset..offset + i];
      n := n * 256 + src[offset + i];
      i := i + 1;
    }
  }

  method ReadFrom(bp: Blueprint, src: array<byte>, offset: nat) returns (v: Value)
    requires Sound(bp) && offset + Size(bp) <= src.Length && Readable(bp, src[offset..offset + Size(bp)])
    ensures v == From(bp, src[offset..offset + Size(bp)])
    decreases bp, 1
  {
    hide From, FromAll, FromSlice, FromFields, Readable, ReadableAll, ReadableSlice, ReadableFields, Sound, SoundFields,
         Size, Times, FieldsSize;
    FromUnfolded(bp, src[offset..offset + Size(bp)]);
    match bp
    case ArrayBp(length, element) =>
      var vs := ReadAll(element, length, src, offset);
      v := ListV(vs);
    case SliceBp(length, element) => v := ReadSlice(length, element, src, offset);
    case StringBp(length) => v := ReadString(length, src, offset);
    case StructBp(_, zeros, fields, _) =>
      var vs := ReadFields(fields, zeros, src, offset);
      v := StructV(vs);
    case PointerBp(_, element) => v := ReadPointer(element, src, offset);
    case TupleBp(first, second) => v := ReadTuple(first, second, src, offset);
    case _ => v := ReadScalar(bp, src, offset);
  }

  lemma FromUnfolded(bp: Blueprint, s: seq<byte>)
    requires Sound(bp) && |s| == Size(bp) && Readable(bp, s)
    ensures bp.ArrayBp? ==>
      && Sound(bp.element) && Size(bp) == Times(Size(bp.element), bp.length)
      && ReadableAll(bp.element, bp.length, s)
      && From(bp, s) == ListV(FromAll(bp.element, bp.length, s))
    ensures bp.SliceBp? ==>
      && Sound(bp.element) && Size(bp) == Times(Size(bp.element), bp.length) + 4
      && ReadableSlice(bp.length, bp.element, s)
      && From(bp, s) == ListV(FromSlice(bp.length, bp.element, s))
    ensures bp.StringBp? ==>
      && Size(bp) == bp.length + 4 && FromBytes(s[..4]) <= bp.length
      && From(bp, s) == StringV(s[4..4 + FromBytes(s[..4])])
    ensures bp.StructBp? ==>
      && SoundFields(bp.fields, bp.zeros) && Size(bp) == FieldsSize(bp.fields)
      && ReadableFields(bp.fields, bp.zeros, s)
      && From(bp, s) == StructV(FromFields(bp.fields, bp.zeros, s, bp.zeros))
    ensures bp.PointerBp? ==>
      && Sound(bp.element) && bp.childSize == Size(bp.element) && Size(bp) == 1 + Size(bp.element)
      && (s[0] == 0 || Readable(bp.element, s[1..]))
      && From(bp, s) == if s[0] == 0 then NilV else PointerV(From(bp.element, s[1..]))
    ensures bp.TupleBp? ==>
      && Sound(bp.first) && Sound(bp.second) && Size(bp) == Size(bp.first) + Size(bp.second)
      && Readable(bp.first, s[..Size(bp.first)]) && Readable(bp.second, s[Size(bp.first)..])
      && From(bp, s) == PairV(From(bp.first, s[..Size(bp.first)]), From(bp.second, s[Size(bp.first)..]))
  {
  }

  method ReadScalar(bp: Blueprint, src: array<byte>, offset: nat) returns (v: Value)
    requires Sound(bp) && offset + Size(bp) <= src.Length && Readable(bp, src[offset..offset + Size(bp)])
    requires bp.BoolBp? || bp.UintBp? || bp.IntBp? || bp.FloatBp? || bp.ComplexBp?
    ensures v == From(bp, src[offset..offset + Size(bp)])
  {
    hide FromBytes;
    match bp
    case BoolBp => v := BoolV(src[offset] != 0);
    case UintBp(width) =>
      var n := ReadUint(src, offset, width);
      v := UintV(n);
    case IntBp(width) =>
      var n := ReadUint(src, offset, width);
      v := IntV(if 2 * n < Pow256(width) then n else n - Pow256(width));
    case FloatBp(width) =>
      var n := ReadUint(src, offset, width);
      v := FloatV(n);
    case ComplexBp(width) =>
      var half := width / 2;
      Window(src[..], offset, half, half);
      var re := ReadUint(src, offset, half);
      var im := ReadUint(src, offset + half, half);
      v := ComplexV(re, im);
  }

  method ReadPointer(element: Blueprint, src: array<byte>, offset: nat) returns (v: Value)
    requires Sound(element) && offset + 1 + Size(element) <= src.Length
    requires src[offset] != 0 ==> Readable(element, src[offset..offset + (1 + Size(element))][1..])
    ensures v == if src[offset] == 0 then NilV
                 else PointerV(From(element, src[offset..offset + (1 + Size(element))][1..]))
    decreases PointerBp(Size(element), element), 0
  {
    hide Sound, Readable, From, Size;
    Window(src[..], offset, 1, Size(element));
    if src[offset] == 0 {
      v := NilV;
    } else {
      var target := ReadFrom(element, src, offset + 1);
      v := PointerV(target);
    }
  }

  method ReadTuple(first: Blueprint, second: Blueprint, src: array<byte>, offset: nat) returns (v: Value)
    requires Sound(first) && Sound(second) && offset + (Size(first) + Size(second)) <= src.Length
    requires var s := src[offset..offset + (Size(first) + Size(second))];
             Readable(first, s[..Size(first)]) && Readable(second, s[Size(first)..])
    ensures var s := src[offset..offset + (Size(first) + Size(second))];
            v == PairV(From(first, s[..Size(first)]), From(second, s[Size(first)..]))
    decreases TupleBp(first, second), 0
  {
    hide Sound, Readable, From, Size;
    Window(src[..], offset, Size(first), Size(second));
    var x := ReadFrom(first, src, offset);
    var y := ReadFrom(second, src, offset + Size(first));
    v := PairV(x, y);
  }

  method ReadAll(element: Blueprint, n: nat, src: array<byte>, start: nat) returns (vs: seq<Value>)
    requires Sound(element) && start + Times(Size(element), n) <= src.Length
    requires ReadableAll(element, n, src[start..start + Times(Size(element), n)])
    ensures vs == FromAll(element, n, src[start..start + Times(Size(element), n)])
    decreases element, n + 2
  {
    hide Sound, Readable, ReadableAll, From, FromAll, Size, Times;
    ghost var size := Size(element);
    vs := [];
    var offset, i := start, 0;
    while i < n
      invariant 0 <= i <= n && start <= offset && offset + Times(size, n - i) == start + Times(size, n)
      invariant ReadableAll(element, n - i, src[offset..offset + Times(size, n - i)])
      invariant vs + FromAll(element, n - i, src[offset..offset + Times(size, n - i)])
             == FromAll(element, n, src[start..start + Times(size, n)])
    {
      TimesStep(size, n - i - 1);
      Window(src[..], offset, size, Times(size, n - i - 1));
      FromAllCons(element, n - i, src[offset..offset + Times(size, n - i)]);
      var v := ReadFrom(element, src, offset);
      vs := vs + [v];
      offset := offset + Size(element);
      i := i + 1;
    }
    TimesNone(size);
    FromAllNone(element, src[offset..offset]);
  }

  lemma FromAllCons(element: Blueprint, n: nat, s: seq<byte>)
    requires Sound(element) && n > 0 && |s| == Times(Size(element), n) && ReadableAll(element, n, s)
    ensures var size := Size(element);
            && size <= |s| && Times(size, n - 1) == |s| - size
            && Readable(element, s[..size]) && ReadableAll(element, n - 1, s[size..])
            && FromAll(element, n, s) == [From(element, s[..size])] + FromAll(element, n - 1, s[size..])
  {
    hide Sound, Readable, From, Size;
  }

  lemma FromAllNone(element: Blueprint, s: seq<byte>)
    requires Sound(element) && s == [] && Times(Size(element), 0) == 0
    ensures ReadableAll(element, 0, s) && FromAll(element, 0, s) == []
  {
    hide Sound, Readable, From, Size;
  }

  method ReadSlice(length: nat, element: Blueprint, src: array<byte>, start: nat) returns (v: Value)
    requires Sound(element) && start + (Times(Size(element), length) + 4) <= src.Length
    requires ReadableSlice(length, element, src[start..start + (Times(Size(element), length) + 4)])
    ensures v == ListV(FromSlice(length, element, src[start..start + (Times(Size(element), length) + 4)]))
    decreases element, length + 3
  {
    hide Sound, Readable, ReadableAll, From, FromAll, Size, Times, FromBytes;
    ghost var s := src[start..start + (Times(Size(element), length) + 4)];
    assert s[..4] == src[start..start + 4];
    var realLength := ReadUint(src, start, 4);
    ghost var end := SliceEnd(realLength, length, Size(element));
    assert s[4..end] == src[start + 4..start + end];
    var vs := ReadAll(element, realLength, src, start + 4);
    v := ListV(vs);
  }

  method ReadString(length: nat, src: array<byte>, start: nat) returns (v: Value)
    requires start + (length + 4) <= src.Length && FromBytes(src[start..start + (length + 4)][..4]) <= length
    ensures var s := src[start..start + (length + 4)]; v == StringV(s[4..4 + FromBytes(s[..4])])
  {
    hide FromBytes;
    ghost var s := src[start..start + (length + 4)];
    assert s[..4] == src[start..start + 4];
    var realLength := ReadUint(src, start, 4);
    assert s[4..4 + realLength] == src[start + 4..start + 4 + realLength];
    var text: seq<byte> := [];
    var i := 0;
    while i < realLength
      invariant 0 <= i <= realLength && text == src[start + 4..start + 4 + i]
    {
      text := text + [src[start + 4 + i]];
      i := i + 1;
    }
    v := StringV(text);
  }

  method ReadFields(fields: seq<Field>, zeros: seq<Value>, src: array<byte>, start: nat) returns (vs: seq<Value>)
    requires SoundFields(fields, zeros) && start + FieldsSize(fields) <= src.Length
    requires ReadableFields(fields, zeros, src[start..start + FieldsSize(fields)])
    ensures vs == FromFields(fields, zeros, src[start..start + FieldsSize(fields)], zeros)
    decreases fields, 0
  {
    hide Sound, SoundFields, Readable, ReadableFields, From, FromFields, Size, FieldsSize;
    vs := zeros;
    assert fields[0..] == fields;
    var offset, i := start, 0;
    while i < |fields|
      invariant 0 <= i <= |fields| && start <= offset && offset + FieldsSize(fields[i..]) == start + FieldsSize(fields)
      invariant SoundFields(fields[i..], zeros) && |vs| == |zeros|
      invariant ReadableFields(fields[i..], zeros, src[offset..offset + FieldsSize(fields[i..])])
      invariant FromFields(fields[i..], zeros, src[offset..offset + FieldsSize(fields[i..])], vs)
             == FromFields(fields, zeros, src[start..start + FieldsSize(fields)], zeros)
    {
      ghost var rest := fields[i..];
      var field := fields[i];
      FieldSmaller(fields, i);
      FromFieldsCons(rest, zeros, src[offset..offset + FieldsSize(rest)], vs);
      Window(src[..], offset, Size(field.blueprint), FieldsSize(rest[1..]));
      var v := ReadFrom(field.blueprint, src, offset);
      vs := vs[field.index := v];
      offset := offset + Size(field.blueprint);
      i := i + 1;
      assert fields[i..] == rest[1..];
    }
    assert fields[i..] == [];
    FromFieldsNone(zeros, src[offset..offset], vs);
  }

  lemma FromFieldsCons(fields: seq<Field>, zeros: seq<Value>, s: seq<byte>, into: seq<Value>)
    requires fields != [] && SoundFields(fields, zeros) && |s| == FieldsSize(fields) && ReadableFields(fields, zeros, s)
    requires |into| == |zeros|
    ensures var f := fields[0];
            var n := Size(f.blueprint);
            && Sound(f.blueprint) && f.index < |zeros| && SoundFields(fields[1..], zeros)
            && FieldsSize(fields) == n + FieldsSize(fields[1..])
            && Readable(f.blueprint, s[..n]) && ReadableFields(fields[1..], zeros, s[n..])
            && FromFields(fields, zeros, s, into)
               == FromFields(fields[1..], zeros, s[n..], into[f.index := From(f.blueprint, s[..n])])
  {
    hide Sound, Readable, From, Size;
  }

  lemma FromFieldsNone(zeros: seq<Value>, s: seq<byte>, into: seq<Value>)
    requires s == [] && |into| == |zeros|
    ensures FieldsSize([]) == 0 && SoundFields([], zeros) && ReadableFields([], zeros, s)
    ensures FromFields([], zeros, s, into) == into
  {
  }
}

/** Which bytes stand for which part of a value, and which bytes are left as they were. */
module Placements {
  import opened Bytes
  import opened Strings
  import opened Blueprints
  import opened RoundTrip
  import Codec

  // ---- sizes ----

  lemma Sizes(n: nat, x: Blueprint, y: Blueprint)
    ensures Size(BoolBp) == 1
    ensures Size(UintBp(n)) == Size(IntBp(n)) == Size(FloatBp(n)) == Size(ComplexBp(n)) == n
    ensures Size(ArrayBp(n, x)) == Size(x) * n
    ensures Size(SliceBp(n, x)) == 4 + Size(x) * n
    ensures Size(StringBp(n)) == 4 + n
    ensures Sound(PointerBp(n, x)) ==> Size(PointerBp(n, x)) == 1 + Size(x)
    ensures Size(TupleBp(x, y)) == Size(x) + Size(y)
  {
    TimesIsProduct(Size(x), n);
  }

  lemma StructSize(name: string, zeros: seq<Value>, fields: seq<Field>, n: nat)
    requires Sound(StructBp(name, zeros, fields, n))
    ensures Size(StructBp(name, zeros, fields, n)) == FieldStart(fields, |fields|)
  {
    FieldStartAll(fields);
  }

  /** Where the k-th field starts: behind the fields before it. */
  ghost function FieldStart(fields: seq<Field>, k: nat): nat
    requires k <= |fields|
  {
    if k == 0 then 0 else FieldStart(fields, k - 1) + Size(fields[k - 1].blueprint)
  }

  lemma {:induction false} FieldStartTail(fields: seq<Field>, k: nat)
    requires 0 < k <= |fields|
    ensures FieldStart(fields, k) == Size(fields[0].blueprint) + FieldStart(fields[1..], k - 1)
  {
    hide Size;
    if k > 1 {
      FieldStartTail(fields, k - 1);
    }
  }

  lemma {:induction false} FieldStartAll(fields: seq<Field>)
    ensures FieldStart(fields, |fields|) == FieldsSize(fields)
  {
    hide Size;
    if fields != [] {
      FieldStartTail(fields, |fields|);
      FieldStartAll(fields[1..]);
    }
  }

  lemma {:induction false} FieldStartGrows(fields: seq<Field>, k: nat, m: nat)
    requires k <= m <= |fields|
    ensures FieldStart(fields, k) <= FieldStart(fields, m)
    decreases m
  {
    if k < m {
      FieldStartGrows(fields, k, m - 1);
    }
  }

  // ---- lists of windows ----

  /** The k-th element is written in the k-th window. */
  lemma {:induction false} ElementAt(element: Blueprint, vs: seq<Value>, d: seq<byte>, k: nat)
    requires Sound(element) && (forall i :: 0 <= i < |vs| ==> Typed(element, vs[i])) && k < |vs|
    requires |d| == Times(Size(element), |vs|)
    ensures var n, at := Size(element), Times(Size(element), k);
            at + n <= |d| && ToAll(element, vs, d)[at..at + n] == To(element, vs[k], d[at..at + n])
    decreases k
  {
    hide To, ToAll, Typed, Sound, Size, Times;
    Codec.ToAllCons(element, vs, d);
    Codec.TimesStep(Size(element), |vs| - 1);
    Codec.TimesNone(Size(element));
    TimesGrows(Size(element), k + 1, |vs|);
    Codec.TimesStep(Size(element), k);
    var n := Size(element);
    var first, rest := To(element, vs[0], d[..n]), ToAll(element, vs[1..], d[n..]);
    if k == 0 {
      assert (first + rest)[0..n] == first && d[0..n] == d[..n];
    } else {
      ElementAt(element, vs[1..], d[n..], k - 1);
      Codec.TimesStep(n, k - 1);
      Behind(first, rest, Times(n, k - 1), n);
      Behind(d[..n], d[n..], Times(n, k - 1), n);
      assert d[..n] + d[n..] == d;
    }
  }

  lemma {:induction false} FieldAt(fields: seq<Field>, zeros: seq<Value>, vs: seq<Value>, d: seq<byte>, k: nat)
    requires SoundFields(fields, zeros) && TypedFields(fields, vs) && |d| == FieldsSize(fields) && k < |fields|
    ensures var bp, index := fields[k].blueprint, fields[k].index;
            var at, n := FieldStart(fields, k), Size(bp);
            && at + n <= |d| && index < |vs| && Sound(bp) && Typed(bp, vs[index])
            && ToFields(fields, zeros, vs, d)[at..at + n] == To(bp, vs[index], d[at..at + n])
    decreases k
  {
    hide To, ToFields, Typed, TypedFields, Sound, SoundFields, Size, FieldsSize;
    Codec.FieldsUnfolded(fields, zeros, vs, d);
    var n := Size(fields[0].blueprint);
    var x := To(fields[0].blueprint, vs[fields[0].index], d[..n]);
    var rest := ToFields(fields[1..], zeros, vs, d[n..]);
    if k == 0 {
      assert (x + rest)[0..n] == x && d[0..n] == d[..n];
    } else {
      FieldAt(fields[1..], zeros, vs, d[n..], k - 1);
      FieldStartTail(fields, k);
      Behind(x, rest, FieldStart(fields[1..], k - 1), Size(fields[k].blueprint));
      Behind(d[..n], d[n..], FieldStart(fields[1..], k - 1), Size(fields[k].blueprint));
      assert d[..n] + d[n..] == d;
    }
  }

  lemma Inside(s: seq<byte>, i: nat, j: nat, at: nat, n: nat)
    requires i <= j <= |s| && at + n <= j - i
    ensures s[i..j][at..at + n] == s[i + at..i + at + n]
  {
    var x, y := s[i..j][at..at + n], s[i + at..i + at + n];
    assert forall k :: 0 <= k < n ==> x[k] == s[i..j][at + k] == s[i + (at + k)] == y[k];
  }

  lemma Behind(x: seq<byte>, y: seq<byte>, at: nat, n: nat)
    requires at + n <= |y|
    ensures (x + y)[|x| + at..|x| + at + n] == y[at..at + n]
  {
  }

  // ---- which bytes are written ----

  /** Whether the i-th byte of the window is written for v: lengths, flags and contents are, the room behind the last
      element, behind the text and behind nil is not. */
  ghost predicate Writes(bp: Blueprint, v: Value, i: int)
    requires Typed(bp, v)
    decreases bp, 0
  {
    match bp
    case BoolBp => i == 0
    case UintBp(width) => 0 <= i < width
    case IntBp(width) => 0 <= i < width
    case FloatBp(width) => 0 <= i < width
    case ComplexBp(width) => 0 <= i < width
    case ArrayBp(_, element) => WritesAll(element, v.elements, i)
    case SliceBp(length, element) =>
      0 <= i < 4 || WritesAll(element, v.elements[..if |v.elements| < length then |v.elements| else length], i - 4)
    case StringBp(length) => 0 <= i < 4 + |WriteRunes(v.bytes, 0, length)|
    case StructBp(_, _, fields, _) => WritesFields(fields, v.fields, i)
    case PointerBp(_, element) => i == 0 || (v.PointerV? && Writes(element, v.target, i - 1))
    case TupleBp(first, second) => Writes(first, v.first, i) || Writes(second, v.second, i - Size(first))
  }

  ghost predicate WritesAll(element: Blueprint, vs: seq<Value>, i: int)
    requires forall k :: 0 <= k < |vs| ==> Typed(element, vs[k])
    decreases element, |vs| + 1
  {
    vs != [] && (Writes(element, vs[0], i) || WritesAll(element, vs[1..], i - Size(element)))
  }

  ghost predicate WritesFields(fields: seq<Field>, vs: seq<Value>, i: int)
    requires TypedFields(fields, vs)
    decreases fields, 0
  {
    fields != [] &&
    match fields[0]
    case Field(bp, index) =>
      assert bp < fields[0];
      Writes(bp, vs[index], i) || WritesFields(fields[1..], vs, i - Size(bp))
  }

  lemma {:induction false} WritesInside(bp: Blueprint, v: Value, i: int)
    requires Sound(bp) && Typed(bp, v) && Writes(bp, v, i)
    ensures 0 <= i < Size(bp)
    decreases bp, 0
  {
    match bp
    case ArrayBp(_, element) => WritesAllInside(element, v.elements, i);
    case SliceBp(length, element) =>
      if !(0 <= i < 4) {
        var n := if |v.elements| < length then |v.elements| else length;
        WritesAllInside(element, v.elements[..n], i - 4);
        TimesGrows(Size(element), n, length);
      }
    case StringBp(length) => OverrunsExactly(v.bytes, 0, length);
    case StructBp(_, zeros, fields, _) => WritesFieldsInside(fields, zeros, v.fields, i);
    case PointerBp(_, element) =>
      if i != 0 {
        WritesInside(element, v.target, i - 1);
      }
    case TupleBp(first, second) =>
      if Writes(first, v.first, i) {
        WritesInside(first, v.first, i);
      } else {
        WritesInside(second, v.second, i - Size(first));
      }
    case _ =>
  }

  lemma {:induction false} WritesAllInside(element: Blueprint, vs: seq<Value>, i: int)
    requires Sound(element) && (forall k :: 0 <= k < |vs| ==> Typed(element, vs[k])) && WritesAll(element, vs, i)
    ensures 0 <= i < Times(Size(element), |vs|)
    decreases element, |vs| + 1
  {
    hide Writes, Sound, Typed, Size;
    if Writes(element, vs[0], i) {
      WritesInside(element, vs[0], i);
    } else {
      WritesAllInside(element, vs[1..], i - Size(element));
    }
  }

  lemma {:induction false} WritesFieldsInside(fields: seq<Field>, zeros: seq<Value>, vs: seq<Value>, i: int)
    requires SoundFields(fields, zeros) && TypedFields(fields, vs) && WritesFields(fields, vs, i)
    ensures 0 <= i < FieldsSize(fields)
    decreases fields, 0
  {
    hide Writes, Sound, Typed, Size;
    match fields[0]
    case Field(bp, index) =>
      assert bp < fields[0];
      if Writes(bp, vs[index], i) {
        WritesInside(bp, vs[index], i);
      } else {
        WritesFieldsInside(fields[1..], zeros, vs, i - Size(bp));
      }
  }

  /** A byte that is written does not depend on what was there, and any other byte is what was there. */
  lemma {:induction false} WrittenOrKept(bp: Blueprint, v: Value, d: seq<byte>, e: seq<byte>, i: nat)
    requires Sound(bp) && Typed(bp, v) && |d| == |e| == Size(bp) && i < Size(bp)
    ensures To(bp, v, d)[i] == if Writes(bp, v, i) then To(bp, v, e)[i] else d[i]
    decreases bp, 1
  {
    hide To, ToAll, ToFields, ToSlice, ToString, Typed, TypedFields, Sound, SoundFields, Writes, WritesAll,
         WritesFields, Size, FieldsSize, Times;
    Codec.ToUnfolded(bp, v, d);
    Codec.ToUnfolded(bp, v, e);
    WritesUnfolded(bp, v, i);
    match bp
    case ArrayBp(_, element) => AllWrittenOrKept(element, v.elements, d, e, i);
    case SliceBp(length, element) => SliceWrittenOrKept(length, element, v.elements, d, e, i);
    case StringBp(length) => StringWrittenOrKept(length, v.bytes, d, e, i);
    case StructBp(_, zeros, fields, _) => FieldsWrittenOrKept(fields, zeros, v.fields, d, e, i);
    case PointerBp(_, element) =>
      Codec.PointerUnfolded(element, v, d);
      Codec.PointerUnfolded(element, v, e);
      if i > 0 && v.PointerV? {
        WrittenOrKept(element, v.target, d[1..], e[1..], i - 1);
      }
    case TupleBp(first, second) => TupleWrittenOrKept(first, second, v, d, e, i);
    case _ =>
      Codec.ScalarUnfolded(bp, v, d);
      Codec.ScalarUnfolded(bp, v, e);
      ScalarWritten(bp, v, i);
  }

  lemma WritesUnfolded(bp: Blueprint, v: Value, i: nat)
    requires Sound(bp) && Typed(bp, v)
    ensures bp.ArrayBp? ==> (Writes(bp, v, i) <==> WritesAll(bp.element, v.elements, i))
    ensures bp.StructBp? ==> (Writes(bp, v, i) <==> WritesFields(bp.fields, v.fields, i))
    ensures bp.StringBp? ==> (Writes(bp, v, i) <==> i < 4 + |WriteRunes(v.bytes, 0, bp.length)|)
    ensures bp.PointerBp? ==> (Writes(bp, v, i) <==> i == 0 || (v.PointerV? && Writes(bp.element, v.target, i - 1)))
  {
  }

  lemma ScalarWritten(bp: Blueprint, v: Value, i: nat)
    requires Sound(bp) && Typed(bp, v) && i < Size(bp)
    requires bp.BoolBp? || bp.UintBp? || bp.IntBp? || bp.FloatBp? || bp.ComplexBp?
    ensures Writes(bp, v, i)
  {
  }

  lemma StringWrittenOrKept(length: nat, s: seq<byte>, d: seq<byte>, e: seq<byte>, i: nat)
    requires !Overruns(s, 0, length) && |d| == |e| == length + 4 && i < |d|
    ensures ToString(length, s, d)[i]
         == if i < 4 + |WriteRunes(s, 0, length)| then ToString(length, s, e)[i] else d[i]
  {
    OverrunsExactly(s, 0, length);
  }

  lemma {:induction false} TupleWrittenOrKept(first: Blueprint, second: Blueprint, v: Value, d: seq<byte>, e: seq<byte>,
                                              i: nat)
    requires var bp := TupleBp(first, second);
             Sound(bp) && Typed(bp, v) && |d| == |e| == Size(bp) && i < Size(bp)
    ensures var bp := TupleBp(first, second);
            To(bp, v, d)[i] == if Writes(bp, v, i) then To(bp, v, e)[i] else d[i]
    decreases TupleBp(first, second), 0
  {
    hide To, Typed, Sound, Size, Writes;
    Codec.TupleUnfolded(first, second, v, d);
    Codec.TupleUnfolded(first, second, v, e);
    WritesTuple(first, second, v, i);
    var n := Size(first);
    if Writes(first, v.first, i) {
      WritesInside(first, v.first, i);
    }
    if Writes(second, v.second, i - n) {
      WritesInside(second, v.second, i - n);
    }
    if i < n {
      WrittenOrKept(first, v.first, d[..n], e[..n], i);
    } else {
      WrittenOrKept(second, v.second, d[n..], e[n..], i - n);
    }
  }

  lemma WritesTuple(first: Blueprint, second: Blueprint, v: Value, i: nat)
    requires Sound(TupleBp(first, second)) && Typed(TupleBp(first, second), v)
    ensures v.PairV? && Typed(first, v.first) && Typed(second, v.second)
    ensures Size(TupleBp(first, second)) == Size(first) + Size(second)
    ensures Writes(TupleBp(first, second), v, i)
            <==> Writes(first, v.first, i) || Writes(second, v.second, i - Size(first))
  {
    hide Size, WritesAll, WritesFields, WriteRunes, Times, Pow256;
    Codec.TupleSize(first, second);
  }

  lemma {:induction false} SliceWrittenOrKept(length: nat, element: Blueprint, vs: seq<Value>, d: seq<byte>,
                                              e: seq<byte>, i: nat)
    requires var bp, v := SliceBp(length, element), ListV(vs);
             Sound(bp) && Typed(bp, v) && |d| == |e| == Size(bp) && i < Size(bp)
    ensures var bp, v := SliceBp(length, element), ListV(vs);
            To(bp, v, d)[i] == if Writes(bp, v, i) then To(bp, v, e)[i] else d[i]
    decreases element, |vs| + 2
  {
    hide Writes, Sound, Typed, Size;
    SliceParts(length, element, vs, d, i);
    SliceParts(length, element, vs, e, i);
    var n := Min(|vs|, length);
    var end := SliceEnd(n, length, Size(element));
    if WritesAll(element, vs[..n], i - 4) {
      WritesAllInside(element, vs[..n], i - 4);
    }
    if 4 <= i < end {
      AllWrittenOrKept(element, vs[..n], d[4..end], e[4..end], i - 4);
    }
  }

  lemma SliceParts(length: nat, element: Blueprint, vs: seq<Value>, d: seq<byte>, i: nat)
    requires var bp, v := SliceBp(length, element), ListV(vs);
             Sound(bp) && Typed(bp, v) && |d| == Size(bp) && i < Size(bp)
    ensures Sound(element) && forall k :: 0 <= k < |vs| ==> Typed(element, vs[k])
    ensures var bp, v, n := SliceBp(length, element), ListV(vs), Min(|vs|, length);
            var end := SliceEnd(n, length, Size(element));
            && end <= |d| && end == 4 + Times(Size(element), n)
            && To(bp, v, d)[i] == (if i < 4 then ToBytes(n, 4)[i]
                                   else if i < end then ToAll(element, vs[..n], d[4..end])[i - 4] else d[i])
            && (Writes(bp, v, i) <==> i < 4 || WritesAll(element, vs[..n], i - 4))
  {
    hide ToAll, WritesAll, ToBytes;
  }

  lemma {:induction false} AllWrittenOrKept(element: Blueprint, vs: seq<Value>, d: seq<byte>, e: seq<byte>, i: nat)
    requires Sound(element) && (forall k :: 0 <= k < |vs| ==> Typed(element, vs[k]))
    requires |d| == |e| == Times(Size(element), |vs|) && i < |d|
    ensures ToAll(element, vs, d)[i] == if WritesAll(element, vs, i) then ToAll(element, vs, e)[i] else d[i]
    decreases element, |vs| + 1
  {
    hide To, ToAll, Typed, Sound, Size, Writes;
    Codec.ToAllCons(element, vs, d);
    Codec.ToAllCons(element, vs, e);
    var n := Size(element);
    if Writes(element, vs[0], i) {
      WritesInside(element, vs[0], i);
    }
    if WritesAll(element, vs[1..], i - n) {
      WritesAllInside(element, vs[1..], i - n);
    }
    if i < n {
      WrittenOrKept(element, vs[0], d[..n], e[..n], i);
    } else {
      AllWrittenOrKept(element, vs[1..], d[n..], e[n..], i - n);
    }
  }

  lemma {:induction false} FieldsWrittenOrKept(fields: seq<Field>, zeros: seq<Value>, vs: seq<Value>, d: seq<byte>,
                                               e: seq<byte>, i: nat)
    requires SoundFields(fields, zeros) && TypedFields(fields, vs) && |d| == |e| == FieldsSize(fields) && i < |d|
    ensures ToFields(fields, zeros, vs, d)[i]
         == if WritesFields(fields, vs, i) then ToFields(fields, zeros, vs, e)[i] else d[i]
    decreases fields, 0
  {
    hide To, ToFields, Typed, TypedFields, Sound, SoundFields, Size, FieldsSize, Writes, WritesFields;
    Codec.FieldsNone(zeros, vs, d, 0);
    assert fields != [];
    Codec.FieldsUnfolded(fields, zeros, vs, d);
    Codec.FieldsUnfolded(fields, zeros, vs, e);
    match fields[0]
    case Field(bp, index) =>
      assert bp < fields[0];
      var n, v, rest := Size(bp), vs[index], fields[1..];
      WritesFieldsParts(fields, zeros, vs, i);
      if Writes(bp, v, i) {
        WritesInside(bp, v, i);
      }
      if WritesFields(rest, vs, i - n) {
        WritesFieldsInside(rest, zeros, vs, i - n);
      }
      if i < n {
        WrittenOrKept(bp, v, d[..n], e[..n], i);
      } else {
        FieldsWrittenOrKept(rest, zeros, vs, d[n..], e[n..], i - n);
      }
  }

  lemma WritesFieldsParts(fields: seq<Field>, zeros: seq<Value>, vs: seq<Value>, i: int)
    requires SoundFields(fields, zeros) && TypedFields(fields, vs) && fields != []
    ensures var bp, index, rest := fields[0].blueprint, fields[0].index, fields[1..];
            && index < |vs| && Typed(bp, vs[index]) && TypedFields(rest, vs)
            && (WritesFields(fields, vs, i) <==> Writes(bp, vs[index], i) || WritesFields(rest, vs, i - Size(bp)))
  {
    hide Writes, Size;
  }

  // ---- what the bytes are ----

  /** The k-th of the bytes of n, the most significant one first. */
  ghost function Digit256(n: nat, width: nat, k: nat): byte
    requires k < width
  {
    n / Pow256(width - 1 - k) % 256
  }

  /** Booleans are one byte; numbers are big-endian, signed ones in two's complement. */
  lemma ScalarPlaced(bp: Blueprint, v: Value, d: seq<byte>, k: nat)
    requires Sound(bp) && Typed(bp, v) && |d| == Size(bp) && k < Size(bp)
    ensures bp.BoolBp? ==> To(bp, v, d) == if v.b then [1] else [0]
    ensures bp.UintBp? ==> To(bp, v, d)[k] == Digit256(v.n, bp.width, k)
    ensures bp.FloatBp? ==> To(bp, v, d)[k] == Digit256(v.bits, bp.width, k)
    ensures bp.IntBp? ==>
      var n := if v.i < 0 then v.i + Pow256(bp.width) else v.i;
      n >= 0 && To(bp, v, d)[k] == Digit256(n, bp.width, k)
  {
    hide To, Typed, Sound, ToBytes, Pow256;
    if bp.BoolBp? || bp.UintBp? || bp.IntBp? || bp.FloatBp? {
      Codec.ScalarUnfolded(bp, v, d);
      match bp
      case UintBp(width) => ByteAt(v.n, width, k);
      case IntBp(width) => ByteAt(if v.i < 0 then v.i + Pow256(width) else v.i, width, k);
      case FloatBp(width) => ByteAt(v.bits, width, k);
      case _ =>
    }
  }

  /** A complex number is its real part and its imaginary part. */
  lemma ComplexPlaced(width: nat, v: Value, d: seq<byte>, k: nat)
    requires var bp := ComplexBp(width); Sound(bp) && Typed(bp, v) && |d| == width && k < width
    ensures var half := width / 2;
            && width == half + half
            && To(ComplexBp(width), v, d)[k]
               == if k < half then Digit256(v.re, half, k) else Digit256(v.im, half, k - half)
  {
    hide To, Typed, Sound, ToBytes, Pow256;
    Codec.ScalarUnfolded(ComplexBp(width), v, d);
    if k < width / 2 {
      ByteAt(v.re, width / 2, k);
    } else {
      ByteAt(v.im, width / 2, k - width / 2);
    }
  }

  lemma ArrayPlaced(length: nat, element: Blueprint, vs: seq<Value>, d: seq<byte>, k: nat)
    requires var bp := ArrayBp(length, element); Sound(bp) && Typed(bp, ListV(vs)) && |d| == Size(bp) && k < length
    ensures var n, at := Size(element), Times(Size(element), k);
            && at + n <= |d| && Sound(element) && Typed(element, vs[k])
            && To(ArrayBp(length, element), ListV(vs), d)[at..at + n] == To(element, vs[k], d[at..at + n])
  {
    hide To, ToAll, Typed, Sound, Size;
    Codec.ToUnfolded(ArrayBp(length, element), ListV(vs), d);
    ElementAt(element, vs, d, k);
  }

  /** Four bytes say how many elements follow: all of them, or as many as there is room for. */
  lemma SlicePlaced(length: nat, element: Blueprint, vs: seq<Value>, d: seq<byte>, k: nat)
    requires var bp := SliceBp(length, element); Sound(bp) && Typed(bp, ListV(vs)) && |d| == Size(bp)
    ensures var r, count := To(SliceBp(length, element), ListV(vs), d), if |vs| < length then |vs| else length;
            var n, at := Size(element), 4 + Times(Size(element), k);
            && 4 <= |d| && (forall j: nat :: j < 4 ==> r[j] == Digit256(count, 4, j))
            && (k < count ==>
                  && at + n <= |d| && Sound(element) && Typed(element, vs[k])
                  && r[at..at + n] == To(element, vs[k], d[at..at + n]))
  {
    hide To, ToAll, Typed, Sound, Size, ToBytes, Pow256, Times;
    Codec.ToUnfolded(SliceBp(length, element), ListV(vs), d);
    var n, count := Size(element), Min(|vs|, length);
    var end := SliceEnd(count, length, n);
    var front, elements := ToBytes(count, 4), ToAll(element, vs[..count], d[4..end]);
    SliceDigits(count, elements + d[end..]);
    assert front + elements + d[end..] == front + (elements + d[end..]);
    if k < count {
      ElementAt(element, vs[..count], d[4..end], k);
      Sandwich(front, elements, d[end..], Times(n, k), n);
      Inside(d, 4, end, Times(n, k), n);
    }
  }

  lemma SliceDigits(count: nat, rest: seq<byte>)
    ensures forall j: nat :: j < 4 ==> (ToBytes(count, 4) + rest)[j] == Digit256(count, 4, j)
  {
    hide ToBytes, Pow256;
    forall j: nat | j < 4 ensures ToBytes(count, 4)[j] == Digit256(count, 4, j) {
      ByteAt(count, 4, j);
    }
  }

  lemma Sandwich(x: seq<byte>, y: seq<byte>, z: seq<byte>, at: nat, n: nat)
    requires at + n <= |y|
    ensures (x + y + z)[|x| + at..|x| + at + n] == y[at..at + n]
  {
  }

  /** Four bytes say how long the text is, and the text follows. */
  lemma StringPlaced(length: nat, s: seq<byte>, d: seq<byte>, j: nat)
    requires var bp := StringBp(length); Sound(bp) && Typed(bp, StringV(s)) && |d| == Size(bp) && j < 4
    ensures var r, text := To(StringBp(length), StringV(s), d), WriteRunes(s, 0, length);
            r[j] == Digit256(|text|, 4, j) && 4 + |text| <= |r| && r[4..4 + |text|] == text
  {
    hide ToBytes, Pow256, WriteRunes;
    OverrunsExactly(s, 0, length);
    ByteAt(|WriteRunes(s, 0, length)|, 4, j);
  }

  /** Each listed field stands behind the ones before it, and no other field is written. */
  lemma StructPlaced(name: string, zeros: seq<Value>, fields: seq<Field>, size: nat, vs: seq<Value>, d: seq<byte>,
                     k: nat)
    requires var bp := StructBp(name, zeros, fields, size); Sound(bp) && Typed(bp, StructV(vs)) && |d| == size
    requires k < |fields|
    ensures var field, at, n := fields[k], FieldStart(fields, k), Size(fields[k].blueprint);
            && at + n <= |d| && field.index < |vs| && Sound(field.blueprint) && Typed(field.blueprint, vs[field.index])
            && To(StructBp(name, zeros, fields, size), StructV(vs), d)[at..at + n]
               == To(field.blueprint, vs[field.index], d[at..at + n])
  {
    hide To, ToFields, Typed, TypedFields, SoundFields;
    StructSound(name, zeros, fields, size);
    Codec.ToUnfolded(StructBp(name, zeros, fields, size), StructV(vs), d);
    FieldAt(fields, zeros, vs, d, k);
  }

  lemma StructSound(name: string, zeros: seq<Value>, fields: seq<Field>, size: nat)
    requires Sound(StructBp(name, zeros, fields, size))
    ensures size == FieldsSize(fields) == Size(StructBp(name, zeros, fields, size)) && SoundFields(fields, zeros)
  {
    hide SoundFields;
  }

  /** Nil is a zero byte, and what is behind it stays; anything else follows a byte that is one. */
  lemma PointerPlaced(element: Blueprint, v: Value, d: seq<byte>)
    requires var bp := PointerBp(Size(element), element); Sound(bp) && Typed(bp, v) && |d| == Size(bp)
    ensures 1 <= |d| && Sound(element)
    ensures var r := To(PointerBp(Size(element), element), v, d);
            if v.NilV? then r == [0] + d[1..]
            else v.PointerV? && Typed(element, v.target) && r == [1] + To(element, v.target, d[1..])
  {
    hide To, Size;
    Codec.ToUnfolded(PointerBp(Size(element), element), v, d);
    Codec.PointerUnfolded(element, v, d);
  }

  lemma TuplePlaced(first: Blueprint, second: Blueprint, x: Value, y: Value, d: seq<byte>)
    requires var bp := TupleBp(first, second); Sound(bp) && Typed(bp, PairV(x, y)) && |d| == Size(bp)
    ensures var n := Size(first);
            && |d| == n + Size(second) && Sound(first) && Sound(second) && Typed(first, x) && Typed(second, y)
            && To(TupleBp(first, second), PairV(x, y), d)[..n] == To(first, x, d[..n])
            && To(TupleBp(first, second), PairV(x, y), d)[n..] == To(second, y, d[n..])
  {
    hide To, Size, Sound, Typed;
    Codec.TupleUnfolded(first, second, PairV(x, y), d);
  }

  /** Two elements in a slice with room for four, as the repository's own tests expect them. */
  lemma TwoOfFour()
    ensures var bp, v, d := SliceBp(4, UintBp(1)), ListV([UintV(1), UintV(2)]), [0, 0, 0, 0, 0, 0, 0, 0];
            Sound(bp) && Typed(bp, v) && Size(bp) == 8 && To(bp, v, d) == [0, 0, 0, 2, 1, 2, 0, 0]
  {
    hide To, ToAll, WriteRunes;
    var bp, x, y := UintBp(1), UintV(1), UintV(2);
    var d: seq<byte> := [0, 0, 0, 0, 0, 0, 0, 0];
    assert Pow256(1) == 256 by { assert Pow256(0) == 1; }
    assert Times(1, 1) == 1 && Times(1, 2) == 2 && Times(1, 3) == 3;
    Codec.ToUnfolded(SliceBp(4, bp), ListV([x, y]), d);
    FourBytes(2);
    assert [x, y][..2] == [x, y] && d[4..6] == [0, 0] && d[6..] == [0, 0];
    TwoBytes();
  }

  lemma TwoBytes()
    ensures var bp, x, y := UintBp(1), UintV(1), UintV(2);
            && Sound(bp) && Typed(bp, x) && Typed(bp, y) && Times(Size(bp), 2) == 2
            && ToAll(bp, [x, y], [0, 0]) == [1, 2]
  {
    hide To, ToAll;
    var bp, x, y := UintBp(1), UintV(1), UintV(2);
    assert Pow256(1) == 256 by { assert Pow256(0) == 1; }
    assert Times(1, 1) == 1 && Times(1, 2) == 2;
    Codec.ScalarUnfolded(bp, x, [0]);
    Codec.ScalarUnfolded(bp, y, [0]);
    assert ToBytes(1, 1) == [1] && ToBytes(2, 1) == [2] by { assert ToBytes(0, 0) == []; }
    Codec.ToAllSnoc(bp, [x], y, [0], [0]);
    Codec.ToAllOne(bp, x, [0]);
    assert [x] + [y] == [x, y] && [0] + [0] == [0 as byte, 0];
  }

  // ---- what is read ----

  /** Any byte but zero is true; signed numbers are in two's complement. */
  lemma ScalarRead(bp: Blueprint, s: seq<byte>)
    requires Sound(bp) && |s| == Size(bp) && Readable(bp, s)
    ensures bp.BoolBp? ==> From(bp, s) == BoolV(s[0] != 0)
    ensures bp.UintBp? ==> From(bp, s) == UintV(FromBytes(s))
    ensures bp.IntBp? ==>
      From(bp, s) == IntV(if s[0] < 0x80 then FromBytes(s) else FromBytes(s) - Pow256(bp.width))
    ensures bp.FloatBp? ==> From(bp, s) == FloatV(FromBytes(s))
    ensures bp.ComplexBp? ==>
      From(bp, s) == ComplexV(FromBytes(s[..bp.width / 2]), FromBytes(s[bp.width / 2..]))
  {
    hide FromBytes, Pow256;
    if bp.IntBp? {
      SignBit(s);
    }
  }

  /** The highest bit tells whether a number is in the upper half. */
  lemma {:induction false} SignBit(s: seq<byte>)
    requires s != []
    ensures s[0] < 0x80 <==> 2 * FromBytes(s) < Pow256(|s|)
    ensures FromBytes(s) < Pow256(|s|)
    decreases |s|
  {
    if |s| > 1 {
      SignBit(s[..|s| - 1]);
    } else {
      assert s[..0] == [] && Pow256(1) == 256 * Pow256(0);
    }
  }

  /** A zero byte is nil, whatever follows. */
  lemma PointerRead(element: Blueprint, s: seq<byte>)
    requires var bp := PointerBp(Size(element), element); Sound(bp) && |s| == Size(bp) && Readable(bp, s)
    ensures 1 <= |s| && Sound(element)
    ensures s[0] == 0 ==> From(PointerBp(Size(element), element), s) == NilV
    ensures s[0] != 0 ==>
      Readable(element, s[1..]) && From(PointerBp(Size(element), element), s) == PointerV(From(element, s[1..]))
  {
    hide From, Size, Readable;
    Codec.FromUnfolded(PointerBp(Size(element), element), s);
  }

  lemma {:induction false} ElementRead(element: Blueprint, n: nat, s: seq<byte>, k: nat)
    requires Sound(element) && |s| == Times(Size(element), n) && ReadableAll(element, n, s) && k < n
    ensures var size, at := Size(element), Times(Size(element), k);
            && at + size <= |s| && Readable(element, s[at..at + size])
            && FromAll(element, n, s)[k] == From(element, s[at..at + size])
    decreases k
  {
    hide From, FromAll, Readable, ReadableAll, Sound, Size, Times;
    var size := Size(element);
    Codec.FromAllCons(element, n, s);
    Codec.TimesStep(size, n - 1);
    Codec.TimesNone(size);
    if k == 0 {
      assert s[0..size] == s[..size];
    } else {
      ElementRead(element, n - 1, s[size..], k - 1);
      Codec.TimesStep(size, k - 1);
      Behind(s[..size], s[size..], Times(size, k - 1), size);
      assert s[..size] + s[size..] == s;
    }
  }

  /** As many elements as the first four bytes say, from where they were written. */
  lemma SliceRead(length: nat, element: Blueprint, s: seq<byte>, k: nat)
    requires var bp := SliceBp(length, element); Sound(bp) && |s| == Size(bp) && Readable(bp, s)
    ensures var r, size, at := From(SliceBp(length, element), s), Size(element), 4 + Times(Size(element), k);
            && 4 <= |s| && r.ListV? && |r.elements| == FromBytes(s[..4]) <= length && Sound(element)
            && (k < |r.elements| ==>
                  && at + size <= |s| && Readable(element, s[at..at + size])
                  && r.elements[k] == From(element, s[at..at + size]))
  {
    hide From, FromAll, Readable, ReadableAll, Sound, Size, FromBytes;
    Codec.FromUnfolded(SliceBp(length, element), s);
    var size, n := Size(element), FromBytes(s[..4]);
    var end := SliceEnd(n, length, size);
    if k < n {
      ElementRead(element, n, s[4..end], k);
      var at := Times(size, k);
      Inside(s, 4, end, at, size);
    }
  }

  lemma ArrayRead(length: nat, element: Blueprint, s: seq<byte>, k: nat)
    requires var bp := ArrayBp(length, element); Sound(bp) && |s| == Size(bp) && Readable(bp, s) && k < length
    ensures var r, size, at := From(ArrayBp(length, element), s), Size(element), Times(Size(element), k);
            && r.ListV? && |r.elements| == length && Sound(element)
            && at + size <= |s| && Readable(element, s[at..at + size])
            && r.elements[k] == From(element, s[at..at + size])
  {
    hide From, FromAll, Readable, ReadableAll, Sound, Size;
    Codec.FromUnfolded(ArrayBp(length, element), s);
    ElementRead(element, length, s, k);
  }

  lemma StringRead(length: nat, s: seq<byte>)
    requires |s| == length + 4 && Sound(StringBp(length)) && Readable(StringBp(length), s)
    ensures var n := FromBytes(s[..4]); n <= length && From(StringBp(length), s) == StringV(s[4..][..n])
  {
    hide FromBytes;
    var n := FromBytes(s[..4]);
    assert s[4..4 + n] == s[4..][..n];
  }

  lemma TupleRead(first: Blueprint, second: Blueprint, s: seq<byte>)
    requires var bp := TupleBp(first, second); Sound(bp) && |s| == Size(bp) && Readable(bp, s)
    ensures var n := Size(first);
            && n <= |s| && Sound(first) && Sound(second) && |s| == n + Size(second)
            && Readable(first, s[..n]) && Readable(second, s[n..])
            && From(TupleBp(first, second), s) == PairV(From(first, s[..n]), From(second, s[n..]))
  {
    hide From, Size, Readable, Sound;
    Codec.FromUnfolded(TupleBp(first, second), s);
  }

  lemma {:induction false} OthersKept(fields: seq<Field>, zeros: seq<Value>, s: seq<byte>, into: seq<Value>, i: nat)
    requires SoundFields(fields, zeros) && |s| == FieldsSize(fields) && ReadableFields(fields, zeros, s)
    requires |into| == |zeros| && i < |into| && !Listed(fields, i)
    ensures |FromFields(fields, zeros, s, into)| == |into| && FromFields(fields, zeros, s, into)[i] == into[i]
    decreases |fields|
  {
    hide From, Sound, Readable, Size, SoundFields, ReadableFields, FromFields, FieldsSize;
    if fields == [] {
      Codec.FieldsNone(zeros, zeros, s, 0);
      Codec.FromFieldsNone(zeros, s, into);
    } else {
      Codec.FromFieldsCons(fields, zeros, s, into);
      var f, n := fields[0], Size(fields[0].blueprint);
      assert f.index != i;
      forall k | 0 <= k < |fields[1..]| ensures fields[1..][k].index != i {
        assert fields[k + 1].index != i;
      }
      OthersKept(fields[1..], zeros, s[n..], into[f.index := From(f.blueprint, s[..n])], i);
    }
  }

  lemma {:induction false} FieldRead(fields: seq<Field>, zeros: seq<Value>, s: seq<byte>, into: seq<Value>, k: nat)
    requires SoundFields(fields, zeros) && |s| == FieldsSize(fields) && ReadableFields(fields, zeros, s)
    requires |into| == |zeros| && k < |fields|
    ensures var f, at, n := fields[k], FieldStart(fields, k), Size(fields[k].blueprint);
            && at + n <= |s| && f.index < |zeros| && Sound(f.blueprint) && Readable(f.blueprint, s[at..at + n])
            && |FromFields(fields, zeros, s, into)| == |into|
            && FromFields(fields, zeros, s, into)[f.index] == From(f.blueprint, s[at..at + n])
    decreases k
  {
    hide From, Sound, Readable, Size, SoundFields, ReadableFields, FromFields, FieldsSize;
    Codec.FromFieldsCons(fields, zeros, s, into);
    var first, n := fields[0], Size(fields[0].blueprint);
    var next := into[first.index := From(first.blueprint, s[..n])];
    if k == 0 {
      assert s[0..n] == s[..n];
      FirstAlone(fields, zeros);
      OthersKept(fields[1..], zeros, s[n..], next, first.index);
    } else {
      FieldRead(fields[1..], zeros, s[n..], next, k - 1);
      FieldStartTail(fields, k);
      Behind(s[..n], s[n..], FieldStart(fields[1..], k - 1), Size(fields[k].blueprint));
      assert s[..n] + s[n..] == s;
    }
  }

  lemma FirstAlone(fields: seq<Field>, zeros: seq<Value>)
    requires SoundFields(fields, zeros) && fields != []
    ensures !Listed(fields[1..], fields[0].index)
  {
    match fields[0]
    case Field(_, index) =>
      assert forall i :: 0 <= i < |fields[1..]| ==> fields[1..][i] == fields[i + 1];
  }

  /** Each listed field is read from its place, and every other field is zero. */
  lemma StructRead(name: string, zeros: seq<Value>, fields: seq<Field>, size: nat, s: seq<byte>, k: nat, i: nat)
    requires var bp := StructBp(name, zeros, fields, size); Sound(bp) && |s| == Size(bp) && Readable(bp, s)
    ensures var r := From(StructBp(name, zeros, fields, size), s);
            && r.StructV? && |r.fields| == |zeros|
            && (k < |fields| ==>
                  var f, at, n := fields[k], FieldStart(fields, k), Size(fields[k].blueprint);
                  && at + n <= |s| && f.index < |zeros| && Sound(f.blueprint) && Readable(f.blueprint, s[at..at + n])
                  && r.fields[f.index] == From(f.blueprint, s[at..at + n]))
            && (i < |zeros| && !Listed(fields, i) ==> r.fields[i] == zeros[i])
  {
    hide From, FromFields, Sound, SoundFields, Readable, ReadableFields, Size, FieldsSize, Listed;
    Codec.FromUnfolded(StructBp(name, zeros, fields, size), s);
    if k < |fields| {
      FieldRead(fields, zeros, s, zeros, k);
    }
    if i < |zeros| && !Listed(fields, i) {
      OthersKept(fields, zeros, s, zeros, i);
    }
    AllFieldsRead(fields, zeros, s, zeros);
  }

  lemma {:induction false} AllFieldsRead(fields: seq<Field>, zeros: seq<Value>, s: seq<byte>, into: seq<Value>)
    requires SoundFields(fields, zeros) && |s| == FieldsSize(fields) && ReadableFields(fields, zeros, s)
    requires |into| == |zeros|
    ensures |FromFields(fields, zeros, s, into)| == |into|
    decreases |fields|
  {
    hide From, Sound, Readable, Size, SoundFields, ReadableFields, FromFields, FieldsSize;
    if fields == [] {
      Codec.FieldsNone(zeros, zeros, s, 0);
      Codec.FromFieldsNone(zeros, s, into);
    } else {
      Codec.FromFieldsCons(fields, zeros, s, into);
      var f, n := fields[0], Size(fields[0].blueprint);
      AllFieldsRead(fields[1..], zeros, s[n..], into[f.index := From(f.blueprint, s[..n])]);
    }
  }
}

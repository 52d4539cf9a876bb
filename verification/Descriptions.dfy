/** The text that stands for a layout when its signature is computed. */
module Descriptions {
  import opened Blueprints

  function Digit(d: nat): char
    requires d < 10
  {
    "0123456789"[d]
  }

  function Decimal(n: nat): (s: string)
    ensures s != []
  {
    if n < 10 then [Digit(n)] else Decimal(n / 10) + [Digit(n % 10)]
  }

  function Tag(bp: Blueprint): string {
    match bp
    case BoolBp => "bool"
    case UintBp(_) => "uint("
    case IntBp(_) => "int("
    case FloatBp(_) => "float("
    case ComplexBp(_) => "complex("
    case ArrayBp(_, _) => "array(type="
    case SliceBp(_, _) => "slice(type="
    case StringBp(_) => "string("
    case StructBp(_, _, _, _) => "struct(type="
    case PointerBp(_, _) => "pointer("
    case TupleBp(_, _) => "tuple(first="
  }

  /** What follows the tag. */
  function Body(bp: Blueprint): string
    decreases bp, 0
  {
    match bp
    case BoolBp => ""
    case UintBp(width) => Decimal(8 * width) + ")"
    case IntBp(width) => Decimal(8 * width) + ")"
    case FloatBp(width) => Decimal(8 * width) + ")"
    case ComplexBp(width) => Decimal(8 * width) + ")"
    case ArrayBp(length, element) => Describe(element) + ("length=" + (Decimal(length) + ")"))
    case SliceBp(length, element) => Describe(element) + ("length=" + (Decimal(length) + ")"))
    case StringBp(length) => Decimal(length + 4) + ")"
    case StructBp(name, _, fields, _) => name + ("fields=[" + DescribeFields(fields))
    case PointerBp(_, element) => Describe(element) + ")"
    case TupleBp(first, second) => Describe(first) + (",second=" + (Describe(second) + ")"))
  }

  function Describe(bp: Blueprint): string
    decreases bp, 1
  {
    Tag(bp) + Body(bp)
  }

  /** The fields, separated by commas, and the closing brackets. */
  function DescribeFields(fields: seq<Field>): string
    decreases fields, 0
  {
    if fields == [] then "])"
    else
      match fields[0]
      case Field(bp, _) =>
        assert bp < fields[0];
        Describe(bp) + (if |fields| > 1 then "," else "") + DescribeFields(fields[1..])
  }

  // ---- the builder ----

  class Builder {
    var text: string

    constructor ()
      ensures text == ""
    {
      text := "";
    }

    method WriteString(s: string)
      modifies this
      ensures text == old(text) + s
    {
      text := text + s;
    }

    method WriteDescription(bp: Blueprint)
      modifies this
      ensures text == old(text) + Describe(bp)
      decreases bp, 2
    {
      hide Body, Tag;
      ghost var t := text;
      WriteString(Tag(bp));
      WriteBody(bp);
      Assoc(t, Tag(bp), Body(bp));
    }

    method WriteBody(bp: Blueprint)
      modifies this
      ensures text == old(text) + Body(bp)
      decreases bp, 1
    {
      hide Describe, DescribeFields, Decimal;
      ghost var t := text;
      match bp
      case BoolBp =>
      case UintBp(width) => WriteString(Decimal(8 * width) + ")");
      case IntBp(width) => WriteString(Decimal(8 * width) + ")");
      case FloatBp(width) => WriteString(Decimal(8 * width) + ")");
      case ComplexBp(width) => WriteString(Decimal(8 * width) + ")");
      case ArrayBp(length, element) => WriteSequence(element, length);
      case SliceBp(length, element) => WriteSequence(element, length);
      case StringBp(length) => WriteString(Decimal(Size(bp)) + ")");
      case StructBp(name, _, fields, _) =>
        WriteString(name);
        WriteString("fields=[");
        WriteFields(fields);
        Assoc(t, name, "fields=[" + DescribeFields(fields));
        Assoc(t + name, "fields=[", DescribeFields(fields));
      case PointerBp(_, element) =>
        WriteDescription(element);
        WriteString(")");
        Assoc(t, Describe(element), ")");
      case TupleBp(first, second) =>
        WriteDescription(first);
        WriteString(",second=");
        WriteDescription(second);
        WriteString(")");
        Assoc(t, Describe(first), ",second=" + (Describe(second) + ")"));
        Assoc(t + Describe(first), ",second=", Describe(second) + ")");
        Assoc(t + Describe(first) + ",second=", Describe(second), ")");
    }

    method WriteSequence(element: Blueprint, length: nat)
      modifies this
      ensures text == old(text) + (Describe(element) + ("length=" + (Decimal(length) + ")")))
      decreases element, 3
    {
      hide Describe, Decimal;
      ghost var t := text;
      WriteDescription(element);
      WriteString("length=" + (Decimal(length) + ")"));
      Assoc(t, Describe(element), "length=" + (Decimal(length) + ")"));
    }

    method WriteFields(fields: seq<Field>)
      modifies this
      ensures text == old(text) + DescribeFields(fields)
      decreases fields, 0
    {
      hide Describe;
      ghost var before := text;
      assert fields[0..] == fields;
      var i := 0;
      while i < |fields|
        invariant 0 <= i <= |fields|
        invariant text + (if 0 < i < |fields| then "," else "") + DescribeFields(fields[i..])
                  == before + DescribeFields(fields)
      {
        ghost var rest := fields[i..];
        if i > 0 {
          WriteString(",");
        }
        FieldInside(fields, i);
        WriteDescription(fields[i].blueprint);
        i := i + 1;
        assert fields[i..] == rest[1..];
      }
      assert fields[i..] == [];
      WriteString("])");
    }
  }

  lemma Assoc(x: string, y: string, z: string)
    ensures x + y + z == x + (y + z)
  {
  }

  lemma FieldInside(fields: seq<Field>, i: nat)
    requires i < |fields|
    ensures fields[i].blueprint < fields[i]
  {
    match fields[i]
    case Field(bp, _) =>
  }

  // ---- uniqueness ----

  /** The same layout: names, lengths, widths and order agree. Field indices and zero values do not matter. */
  ghost predicate SameLayout(x: Blueprint, y: Blueprint)
    decreases x, 0
  {
    match x
    case BoolBp => y.BoolBp?
    case UintBp(width) => y.UintBp? && y.width == width
    case IntBp(width) => y.IntBp? && y.width == width
    case FloatBp(width) => y.FloatBp? && y.width == width
    case ComplexBp(width) => y.ComplexBp? && y.width == width
    case ArrayBp(length, element) => y.ArrayBp? && y.length == length && SameLayout(element, y.element)
    case SliceBp(length, element) => y.SliceBp? && y.length == length && SameLayout(element, y.element)
    case StringBp(length) => y.StringBp? && y.length == length
    case StructBp(name, _, fields, _) => y.StructBp? && y.name == name && SameFields(fields, y.fields)
    case PointerBp(_, element) => y.PointerBp? && SameLayout(element, y.element)
    case TupleBp(first, second) => y.TupleBp? && SameLayout(first, y.first) && SameLayout(second, y.second)
  }

  ghost predicate SameFields(xs: seq<Field>, ys: seq<Field>)
    decreases xs, 0
  {
    && |xs| == |ys|
    && (xs == [] ||
        match xs[0]
        case Field(x, _) =>
          assert x < xs[0];
          SameLayout(x, ys[0].blueprint) && SameFields(xs[1..], ys[1..]))
  }

  /** No struct name contains an equals sign. */
  ghost predicate PlainNames(bp: Blueprint)
    decreases bp, 0
  {
    match bp
    case ArrayBp(_, element) => PlainNames(element)
    case SliceBp(_, element) => PlainNames(element)
    case StructBp(name, _, fields, _) => '=' !in name && PlainFields(fields)
    case PointerBp(_, element) => PlainNames(element)
    case TupleBp(first, second) => PlainNames(first) && PlainNames(second)
    case _ => true
  }

  ghost predicate PlainFields(fields: seq<Field>)
    decreases fields, 0
  {
    fields == [] ||
    match fields[0]
    case Field(bp, _) =>
      assert bp < fields[0];
      PlainNames(bp) && PlainFields(fields[1..])
  }

  lemma Cancel(p: string, x: string, y: string)
    requires p + x == p + y
    ensures x == y
  {
    assert x == (p + x)[|p|..] && y == (p + y)[|p|..];
  }

  lemma SamePrefix(p: string, q: string, x: string, y: string)
    requires p + x == q + y && |p| == |q|
    ensures p == q && x == y
  {
    assert p == (p + x)[..|p|] && q == (q + y)[..|q|];
    Cancel(p, x, y);
  }

  ghost predicate IsDigit(c: char) {
    c in "0123456789"
  }

  lemma {:induction false} DecimalDigits(n: nat)
    ensures forall i :: 0 <= i < |Decimal(n)| ==> IsDigit(Decimal(n)[i])
  {
    if n >= 10 {
      DecimalDigits(n / 10);
      assert IsDigit(Digit(n % 10));
    } else {
      assert IsDigit(Digit(n));
    }
  }

  lemma DigitInjective(c: nat, d: nat)
    requires c < 10 && d < 10 && Digit(c) == Digit(d)
    ensures c == d
  {
  }

  lemma {:induction false} DecimalInjective(m: nat, n: nat)
    requires Decimal(m) == Decimal(n)
    ensures m == n
  {
    if m < 10 && n < 10 {
      DigitInjective(m, n);
    } else if m >= 10 && n >= 10 {
      SamePrefix(Decimal(m / 10), Decimal(n / 10), [Digit(m % 10)], [Digit(n % 10)]);
      DigitInjective(m % 10, n % 10);
      DecimalInjective(m / 10, n / 10);
    }
  }

  /** A number ends where the first character that is no digit follows. */
  lemma DecimalPrefix(m: nat, n: nat, x: string, y: string)
    requires Decimal(m) + (")" + x) == Decimal(n) + (")" + y)
    ensures m == n && x == y
  {
    var p, q := Decimal(m), Decimal(n);
    DecimalDigits(m);
    DecimalDigits(n);
    FirstStop(p, ")" + x);
    FirstStop(q, ")" + y);
    SamePrefix(p, q, ")" + x, ")" + y);
    Cancel(")", x, y);
    DecimalInjective(m, n);
  }

  function Stop(s: string): nat {
    if s == [] || s[0] !in "0123456789" then 0 else 1 + Stop(s[1..])
  }

  lemma {:induction false} FirstStop(p: string, x: string)
    requires (forall i :: 0 <= i < |p| ==> IsDigit(p[i])) && x != [] && !IsDigit(x[0])
    ensures Stop(p + x) == |p|
  {
    if p == [] {
      assert p + x == x;
    } else {
      assert (p + x)[1..] == p[1..] + x;
      FirstStop(p[1..], x);
    }
  }

  function Equals(s: string): nat {
    if s == [] || s[0] == '=' then 0 else 1 + Equals(s[1..])
  }

  lemma {:induction false} FirstEquals(p: string, x: string)
    requires '=' !in p && x != [] && x[0] == '='
    ensures Equals(p + x) == |p|
  {
    if p == [] {
      assert p + x == x;
    } else {
      assert (p + x)[1..] == p[1..] + x;
      FirstEquals(p[1..], x);
    }
  }

  lemma NamePrefix(m: string, n: string, x: string, y: string)
    requires '=' !in m && '=' !in n && m + ("fields=[" + x) == n + ("fields=[" + y)
    ensures m == n && x == y
  {
    var p, q := m + "fields", n + "fields";
    assert m + ("fields=[" + x) == p + ("=[" + x) && n + ("fields=[" + y) == q + ("=[" + y);
    FirstEquals(p, "=[" + x);
    FirstEquals(q, "=[" + y);
    SamePrefix(p, q, "=[" + x, "=[" + y);
    Cancel("=[", x, y);
    SamePrefix(m, n, "fields", "fields");
  }

  lemma TagPrefix(x: Blueprint, y: Blueprint, r: string, s: string)
    requires Tag(x) + r == Tag(y) + s
    ensures Tag(x) == Tag(y) && r == s
  {
    var t := Tag(x) + r;
    assert forall i :: 0 <= i < |Tag(x)| ==> t[i] == Tag(x)[i];
    assert forall i :: 0 <= i < |Tag(y)| ==> t[i] == Tag(y)[i];
    assert t[0] == Tag(x)[0] == Tag(y)[0];
    assert t[1] == Tag(x)[1] == Tag(y)[1];
    assert t[3] == Tag(x)[3] == Tag(y)[3];
    Cancel(Tag(x), r, s);
  }

  /** Descriptions form a prefix code: the text says where it ends, and what it describes. */
  lemma {:induction false} PrefixCode(x: Blueprint, y: Blueprint, r: string, s: string)
    requires PlainNames(x) && PlainNames(y) && Describe(x) + r == Describe(y) + s
    ensures SameLayout(x, y) && r == s
    decreases x, 1
  {
    hide Decimal;
    Assoc(Tag(x), Body(x), r);
    Assoc(Tag(y), Body(y), s);
    TagPrefix(x, y, Body(x) + r, Body(y) + s);
    TagTells(x, y);
    match x
    case BoolBp => assert Body(x) + r == r && Body(y) + s == s;
    case ArrayBp(length, element) => SequencePrefix(element, y.element, length, y.length, r, s);
    case SliceBp(length, element) => SequencePrefix(element, y.element, length, y.length, r, s);
    case StringBp(length) => NumberPrefix(length + 4, y.length + 4, r, s);
    case StructBp(name, _, fields, _) =>
      Assoc(name, "fields=[" + DescribeFields(fields), r);
      Assoc(y.name, "fields=[" + DescribeFields(y.fields), s);
      Assoc("fields=[", DescribeFields(fields), r);
      Assoc("fields=[", DescribeFields(y.fields), s);
      NamePrefix(name, y.name, DescribeFields(fields) + r, DescribeFields(y.fields) + s);
      FieldsPrefix(fields, y.fields, r, s);
    case PointerBp(_, element) =>
      Assoc(Describe(element), ")", r);
      Assoc(Describe(y.element), ")", s);
      PrefixCode(element, y.element, ")" + r, ")" + s);
      Cancel(")", r, s);
    case TupleBp(first, second) => TuplePrefix(first, second, y.first, y.second, r, s);
    case _ => WidthPrefix(x, y, r, s);
  }

  lemma TagTells(x: Blueprint, y: Blueprint)
    requires Tag(x) == Tag(y)
    ensures x.BoolBp? == y.BoolBp? && x.UintBp? == y.UintBp? && x.IntBp? == y.IntBp? && x.FloatBp? == y.FloatBp?
    ensures x.ComplexBp? == y.ComplexBp? && x.ArrayBp? == y.ArrayBp? && x.SliceBp? == y.SliceBp?
    ensures x.StringBp? == y.StringBp? && x.StructBp? == y.StructBp? && x.PointerBp? == y.PointerBp?
    ensures x.TupleBp? == y.TupleBp?
  {
    var s, t := Tag(x), Tag(y);
    assert |s| == |t| && s[0] == t[0] && s[1] == t[1] && s[3] == t[3];
  }

  lemma NumberPrefix(m: nat, n: nat, r: string, s: string)
    requires Decimal(m) + ")" + r == Decimal(n) + ")" + s
    ensures m == n && r == s
  {
    hide Decimal;
    Assoc(Decimal(m), ")", r);
    Assoc(Decimal(n), ")", s);
    DecimalPrefix(m, n, r, s);
  }

  lemma WidthPrefix(x: Blueprint, y: Blueprint, r: string, s: string)
    requires x.UintBp? || x.IntBp? || x.FloatBp? || x.ComplexBp?
    requires Tag(x) == Tag(y) && Body(x) + r == Body(y) + s
    ensures SameLayout(x, y) && r == s
  {
    hide Decimal;
    TagTells(x, y);
    NumberPrefix(8 * x.width, 8 * y.width, r, s);
  }

  lemma {:induction false} SequencePrefix(x: Blueprint, y: Blueprint, m: nat, n: nat, r: string, s: string)
    requires PlainNames(x) && PlainNames(y)
    requires Describe(x) + ("length=" + (Decimal(m) + ")")) + r == Describe(y) + ("length=" + (Decimal(n) + ")")) + s
    ensures SameLayout(x, y) && m == n && r == s
    decreases x, 2
  {
    hide Decimal, Describe;
    var p, q := Decimal(m) + ")", Decimal(n) + ")";
    Assoc(Describe(x), "length=" + p, r);
    Assoc(Describe(y), "length=" + q, s);
    PrefixCode(x, y, "length=" + p + r, "length=" + q + s);
    Assoc("length=", p, r);
    Assoc("length=", q, s);
    Cancel("length=", p + r, q + s);
    NumberPrefix(m, n, r, s);
  }

  lemma {:induction false} TuplePrefix(x: Blueprint, x': Blueprint, y: Blueprint, y': Blueprint, r: string, s: string)
    requires PlainNames(x) && PlainNames(x') && PlainNames(y) && PlainNames(y')
    requires Describe(x) + (",second=" + (Describe(x') + ")")) + r
             == Describe(y) + (",second=" + (Describe(y') + ")")) + s
    ensures SameLayout(x, y) && SameLayout(x', y') && r == s
    decreases TupleBp(x, x'), 0
  {
    hide Describe;
    var p, q := Describe(x') + ")", Describe(y') + ")";
    Assoc(Describe(x), ",second=" + p, r);
    Assoc(Describe(y), ",second=" + q, s);
    PrefixCode(x, y, ",second=" + p + r, ",second=" + q + s);
    Assoc(",second=", p, r);
    Assoc(",second=", q, s);
    Cancel(",second=", p + r, q + s);
    Assoc(Describe(x'), ")", r);
    Assoc(Describe(y'), ")", s);
    PrefixCode(x', y', ")" + r, ")" + s);
    Cancel(")", r, s);
  }

  lemma {:induction false} FieldsPrefix(xs: seq<Field>, ys: seq<Field>, r: string, s: string)
    requires PlainFields(xs) && PlainFields(ys) && DescribeFields(xs) + r == DescribeFields(ys) + s
    ensures SameFields(xs, ys) && r == s
    decreases xs, 0
  {
    hide Describe;
    FieldsStart(xs, r);
    FieldsStart(ys, s);
    if xs == [] {
      Cancel("])", r, s);
    } else {
      match xs[0]
      case Field(x, _) =>
        assert x < xs[0];
        var y := ys[0].blueprint;
        var p, q := if |xs| > 1 then "," else "", if |ys| > 1 then "," else "";
        var d, e := DescribeFields(xs[1..]), DescribeFields(ys[1..]);
        Four(Describe(x), p, d, r);
        Four(Describe(y), q, e, s);
        PrefixCode(x, y, p + (d + r), q + (e + s));
        FieldsStart(xs[1..], r);
        FieldsStart(ys[1..], s);
        SeparatorTells(p, q, d + r, e + s, |xs| > 1, |ys| > 1);
        FieldsPrefix(xs[1..], ys[1..], r, s);
    }
  }

  lemma Four(w: string, x: string, y: string, z: string)
    ensures w + x + y + z == w + (x + (y + z))
  {
  }

  /** A bracket stands first exactly when no field does. */
  lemma FieldsStart(fields: seq<Field>, r: string)
    ensures DescribeFields(fields) + r != []
    ensures fields == [] <==> (DescribeFields(fields) + r)[0] == ']'
    ensures (DescribeFields(fields) + r)[0] != ','
  {
    if fields != [] {
      var f := fields[0].blueprint;
      var t := Describe(f) + (if |fields| > 1 then "," else "") + DescribeFields(fields[1..]);
      assert DescribeFields(fields) == t;
      TagStart(f);
      assert t[0] == Describe(f)[0];
    }
  }

  lemma TagStart(bp: Blueprint)
    ensures Describe(bp) != [] && Describe(bp)[0] == Tag(bp)[0] && Tag(bp)[0] != ']' && Tag(bp)[0] != ','
  {
  }

  lemma SeparatorTells(p: string, q: string, x: string, y: string, more: bool, more': bool)
    requires p == (if more then "," else "") && q == (if more' then "," else "") && p + x == q + y
    requires x != [] && y != [] && x[0] != ',' && y[0] != ','
    ensures p == q && x == y
  {
    assert (p + x)[0] == if more then ',' else x[0];
    assert (q + y)[0] == if more' then ',' else y[0];
    Cancel(p, x, y);
  }

  // ---- the other direction ----

  lemma {:induction false} SameDescription(x: Blueprint, y: Blueprint)
    requires SameLayout(x, y)
    ensures Describe(x) == Describe(y)
    decreases x, 0
  {
    hide Decimal;
    match x
    case ArrayBp(_, element) => SameDescription(element, y.element);
    case SliceBp(_, element) => SameDescription(element, y.element);
    case StructBp(_, _, fields, _) => SameFieldDescription(fields, y.fields);
    case PointerBp(_, element) => SameDescription(element, y.element);
    case TupleBp(first, second) =>
      SameDescription(first, y.first);
      SameDescription(second, y.second);
    case _ =>
  }

  lemma {:induction false} SameFieldDescription(xs: seq<Field>, ys: seq<Field>)
    requires SameFields(xs, ys)
    ensures DescribeFields(xs) == DescribeFields(ys)
    decreases xs, 0
  {
    hide Describe;
    if xs != [] {
      match xs[0]
      case Field(x, _) =>
        assert x < xs[0];
        SameDescription(x, ys[0].blueprint);
        SameFieldDescription(xs[1..], ys[1..]);
    }
  }

  /** Two layouts are described alike exactly when they are alike. */
  lemma DescribeIsUnique(x: Blueprint, y: Blueprint)
    requires PlainNames(x) && PlainNames(y)
    ensures Describe(x) == Describe(y) <==> SameLayout(x, y)
  {
    if Describe(x) == Describe(y) {
      PrefixCode(x, y, "", "");
    }
    if SameLayout(x, y) {
      SameDescription(x, y);
    }
  }

  /** Layouts that are alike take the same room. */
  lemma {:induction false} SameLayoutSize(x: Blueprint, y: Blueprint)
    requires Sound(x) && Sound(y) && SameLayout(x, y)
    ensures Size(x) == Size(y)
    decreases x, 0
  {
    match x
    case ArrayBp(_, element) => SameLayoutSize(element, y.element);
    case SliceBp(_, element) => SameLayoutSize(element, y.element);
    case StructBp(_, zeros, fields, _) => SameFieldsSize(fields, y.fields, zeros, y.zeros);
    case PointerBp(_, element) => SameLayoutSize(element, y.element);
    case TupleBp(first, second) =>
      SameLayoutSize(first, y.first);
      SameLayoutSize(second, y.second);
    case _ =>
  }

  lemma {:induction false} SameFieldsSize(xs: seq<Field>, ys: seq<Field>, zeros: seq<Value>, zeros': seq<Value>)
    requires SoundFields(xs, zeros) && SoundFields(ys, zeros') && SameFields(xs, ys)
    ensures FieldsSize(xs) == FieldsSize(ys)
    decreases xs, 0
  {
    if xs != [] {
      match xs[0]
      case Field(x, _) =>
        assert x < xs[0];
        SameLayoutSize(x, ys[0].blueprint);
        SameFieldsSize(xs[1..], ys[1..], zeros, zeros');
    }
  }

  // ---- the texts, letter by letter ----

  ghost function Commas(texts: seq<string>): string {
    if texts == [] then "" else if |texts| == 1 then texts[0] else texts[0] + "," + Commas(texts[1..])
  }

  ghost function FieldTexts(fields: seq<Field>): seq<string> {
    seq(|fields|, i requires 0 <= i < |fields| => Describe(fields[i].blueprint))
  }

  lemma {:induction false} FieldsText(fields: seq<Field>)
    ensures DescribeFields(fields) == Commas(FieldTexts(fields)) + "])"
  {
    hide Describe;
    if fields != [] {
      match fields[0]
      case Field(bp, _) =>
        FieldsText(fields[1..]);
        assert FieldTexts(fields)[0] == Describe(bp) && FieldTexts(fields)[1..] == FieldTexts(fields[1..]);
        if |fields| == 1 {
          assert DescribeFields(fields[1..]) == "])";
          assert Describe(bp) + "" + "])" == Describe(bp) + "])";
        }
    }
  }

  /** What the descriptions of values without parts are made of. */
  lemma ScalarTexts(n: nat)
    ensures Describe(BoolBp) == "bool"
    ensures Describe(UintBp(n)) == "uint(" + Decimal(8 * n) + ")"
    ensures Describe(IntBp(n)) == "int(" + Decimal(8 * n) + ")"
    ensures Describe(FloatBp(n)) == "float(" + Decimal(8 * n) + ")"
    ensures Describe(ComplexBp(n)) == "complex(" + Decimal(8 * n) + ")"
    ensures Describe(StringBp(n)) == "string(" + Decimal(4 + n) + ")"
  {
    hide Decimal;
    var d := Decimal(8 * n);
    Assoc("uint(", d, ")");
    Assoc("int(", d, ")");
    Assoc("float(", d, ")");
    Assoc("complex(", d, ")");
    Assoc("string(", Decimal(4 + n), ")");
  }

  /** And those of values with parts. */
  lemma SequenceTexts(n: nat, x: Blueprint)
    ensures Describe(ArrayBp(n, x)) == "array(type=" + Describe(x) + "length=" + Decimal(n) + ")"
    ensures Describe(SliceBp(n, x)) == "slice(type=" + Describe(x) + "length=" + Decimal(n) + ")"
  {
    hide Decimal;
    FourParts("array(type=", Describe(x), "length=", Decimal(n) + ")");
    FourParts("slice(type=", Describe(x), "length=", Decimal(n) + ")");
    Assoc("array(type=" + Describe(x) + "length=", Decimal(n), ")");
    Assoc("slice(type=" + Describe(x) + "length=", Decimal(n), ")");
  }

  lemma StructText(name: string, fields: seq<Field>, zeros: seq<Value>, size: nat)
    ensures Describe(StructBp(name, zeros, fields, size))
         == "struct(type=" + name + "fields=[" + Commas(FieldTexts(fields)) + "])"
  {
    hide DescribeFields;
    FieldsText(fields);
    FourParts("struct(type=", name, "fields=[", DescribeFields(fields));
    Assoc("struct(type=" + name + "fields=[", Commas(FieldTexts(fields)), "])");
  }

  lemma PairTexts(n: nat, x: Blueprint, y: Blueprint)
    ensures Describe(PointerBp(n, x)) == "pointer(" + Describe(x) + ")"
    ensures Describe(TupleBp(x, y)) == "tuple(first=" + Describe(x) + ",second=" + Describe(y) + ")"
  {
    Assoc("pointer(", Describe(x), ")");
    FourParts("tuple(first=", Describe(x), ",second=", Describe(y) + ")");
    Assoc("tuple(first=" + Describe(x) + ",second=", Describe(y), ")");
  }

  lemma FourParts(w: string, x: string, y: string, z: string)
    ensures w + (x + (y + z)) == w + x + y + z
  {
  }

  // ---- numbers ----

  /** The number that a row of digits spells out. */
  ghost function Spelled(s: string): int {
    if s == [] then 0 else 10 * Spelled(s[..|s| - 1]) + (s[|s| - 1] as int - '0' as int)
  }

  /** The decimal of n has the value n; it is made of digits, and starts with 0 for zero alone. */
  lemma {:induction false} DecimalSpells(n: nat)
    ensures Spelled(Decimal(n)) == n
    ensures forall i :: 0 <= i < |Decimal(n)| ==> '0' <= Decimal(n)[i] <= '9'
    ensures n > 0 ==> Decimal(n)[0] != '0'
    ensures n == 0 ==> Decimal(n) == "0"
  {
    var s := Decimal(n);
    if n >= 10 {
      DecimalSpells(n / 10);
      assert s[..|s| - 1] == Decimal(n / 10);
    } else {
      assert s == [Digit(n)] && s[..0] == [];
    }
  }

  /** The numbers as the code spells them. */
  lemma NumberTexts()
    ensures Describe(UintBp(1)) == "uint(8)" && Describe(UintBp(2)) == "uint(16)"
    ensures Describe(UintBp(4)) == "uint(32)" && Describe(UintBp(8)) == "uint(64)"
    ensures Describe(IntBp(1)) == "int(8)" && Describe(IntBp(2)) == "int(16)"
    ensures Describe(IntBp(4)) == "int(32)" && Describe(IntBp(8)) == "int(64)"
    ensures Describe(FloatBp(4)) == "float(32)" && Describe(FloatBp(8)) == "float(64)"
    ensures Describe(ComplexBp(8)) == "complex(64)" && Describe(ComplexBp(16)) == "complex(128)"
  {
    hide Decimal, Describe;
    WidthDecimals();
    ScalarTexts(1);
    ScalarTexts(2);
    ScalarTexts(4);
    ScalarTexts(8);
    ScalarTexts(16);
  }

  lemma WidthDecimals()
    ensures Decimal(8) == "8" && Decimal(16) == "16" && Decimal(32) == "32" && Decimal(64) == "64"
    ensures Decimal(128) == "128"
  {
    assert Decimal(1) == "1" && Decimal(3) == "3" && Decimal(6) == "6" && Decimal(12) == "12";
  }
}

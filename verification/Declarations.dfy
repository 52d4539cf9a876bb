/** What the walk over types promises in terms of the declarations alone: which types are refused and with which error,
    which values the blueprint of a type takes, which lengths it carries, and which value is its zero. */
module Declarations {
  import opened Bytes
  import opened Strings
  import opened Blueprints
  import opened Introspection

  // ---- the fields of a walked struct ----

  ghost function FieldWalk(table: Table, seen: set<string>, decl: FieldDecl): Result<Blueprint>
    requires decl.tag.Sizes?
  {
    Walk(table, seen, decl.typ, decl.tag.length, decl.tag.elementLength)
  }

  /** The fields that are not ignored, in order and under their indices, and a zero value for every field. */
  ghost predicate Lists(table: Table, seen: set<string>, decls: seq<FieldDecl>, index: nat, r: Fields) {
    && |r.zeros| == |decls|
    && Ascending(r.fields)
    && (forall k :: 0 <= k < |r.fields| ==> ListsAt(table, seen, decls, index, r.fields[k]))
    && (forall i :: 0 <= i < |decls| ==> Listing(table, seen, decls[i], index + i, r.fields, r.zeros[i]))
  }

  ghost predicate Ascending(fields: seq<Field>) {
    forall k, m :: 0 <= k < m < |fields| ==> fields[k].index < fields[m].index
  }

  ghost predicate ListsAt(table: Table, seen: set<string>, decls: seq<FieldDecl>, index: nat, field: Field) {
    && index <= field.index < index + |decls|
    && decls[field.index - index].tag.Sizes?
    && FieldWalk(table, seen, decls[field.index - index]) == Ok(field.blueprint)
  }

  ghost predicate Listing(table: Table, seen: set<string>, decl: FieldDecl, i: nat, fields: seq<Field>, zero: Value) {
    match decl.tag
    case InvalidTag => false
    case Ignored(z) => zero == z
    case Sizes(_, _) =>
      && FieldWalk(table, seen, decl).Ok? && zero == Zero(FieldWalk(table, seen, decl).value)
      && exists k :: 0 <= k < |fields| && fields[k].index == i
  }

  lemma {:induction false} FieldsListed(table: Table, seen: set<string>, decls: seq<FieldDecl>, index: nat)
    requires WalkFields(table, seen, decls, index).Ok?
    ensures Lists(table, seen, decls, index, WalkFields(table, seen, decls, index).value)
    decreases |decls|
  {
    hide Walk, WalkFields, Zero;
    WalkFieldsStep(table, seen, decls, index);
    if decls != [] {
      var r, rest := WalkFields(table, seen, decls, index).value, WalkFields(table, seen, decls[1..], index + 1).value;
      FieldsListed(table, seen, decls[1..], index + 1);
      ListsMore(table, seen, decls, index, r, rest);
    }
  }

  ghost predicate Adds(table: Table, seen: set<string>, decl: FieldDecl, index: nat, r: Fields, rest: Fields) {
    match decl.tag
    case InvalidTag => false
    case Ignored(zero) => r == Fields(rest.fields, [zero] + rest.zeros)
    case Sizes(_, _) =>
      var walked := FieldWalk(table, seen, decl);
      walked.Ok? && r == Fields([Field(walked.value, index)] + rest.fields, [Zero(walked.value)] + rest.zeros)
  }

  lemma ListsMore(table: Table, seen: set<string>, decls: seq<FieldDecl>, index: nat, r: Fields, rest: Fields)
    requires decls != [] && Lists(table, seen, decls[1..], index + 1, rest)
    requires Adds(table, seen, decls[0], index, r, rest)
    ensures Lists(table, seen, decls, index, r)
  {
    hide ListsAt, Listing, FieldWalk, Zero, Ascending;
    AllListed(table, seen, decls, index, r, rest);
    AscendingMore(r.fields, rest.fields, index);
    AllListing(table, seen, decls, index, r, rest);
  }

  lemma AllListed(table: Table, seen: set<string>, decls: seq<FieldDecl>, index: nat, r: Fields, rest: Fields)
    requires decls != [] && Adds(table, seen, decls[0], index, r, rest)
    requires forall k :: 0 <= k < |rest.fields| ==> ListsAt(table, seen, decls[1..], index + 1, rest.fields[k])
    ensures forall k :: 0 <= k < |r.fields| ==> ListsAt(table, seen, decls, index, r.fields[k])
    ensures forall k :: 0 <= k < |rest.fields| ==> index < rest.fields[k].index
  {
    hide ListsAt, FieldWalk, Zero;
    var more := if decls[0].tag.Sizes? then 1 else 0;
    forall k | 0 <= k < |rest.fields|
      ensures index < rest.fields[k].index && ListsAt(table, seen, decls, index, rest.fields[k])
    {
      ListsAtLater(table, seen, decls, index, rest.fields[k]);
    }
    if more == 1 {
      ListsAtFirst(table, seen, decls, index, r.fields[0]);
    }
    assert forall k :: more <= k < |r.fields| ==> r.fields[k] == rest.fields[k - more];
  }

  lemma AllListing(table: Table, seen: set<string>, decls: seq<FieldDecl>, index: nat, r: Fields, rest: Fields)
    requires decls != [] && Adds(table, seen, decls[0], index, r, rest) && |rest.zeros| == |decls| - 1
    requires forall i :: 0 <= i < |decls[1..]| ==>
      Listing(table, seen, decls[1..][i], index + 1 + i, rest.fields, rest.zeros[i])
    ensures |r.zeros| == |decls|
    ensures forall i :: 0 <= i < |decls| ==> Listing(table, seen, decls[i], index + i, r.fields, r.zeros[i])
  {
    hide Listing, FieldWalk, Zero;
    var more := if decls[0].tag.Sizes? then 1 else 0;
    ListingFirst(table, seen, decls, index, r, rest);
    forall i | 0 < i < |decls| ensures Listing(table, seen, decls[i], index + i, r.fields, r.zeros[i]) {
      assert decls[i] == decls[1..][i - 1] && r.zeros[i] == rest.zeros[i - 1];
      assert Listing(table, seen, decls[1..][i - 1], index + 1 + (i - 1), rest.fields, rest.zeros[i - 1]);
      ListingLater(table, seen, decls[i], index + i, r.fields, rest.fields, more, r.zeros[i]);
    }
  }

  lemma AscendingMore(fields: seq<Field>, rest: seq<Field>, index: nat)
    requires Ascending(rest) && forall k :: 0 <= k < |rest| ==> index < rest[k].index
    requires fields == rest || (fields != [] && fields[0].index == index && fields[1..] == rest)
    ensures Ascending(fields)
  {
    if fields != rest {
      assert forall k :: 0 < k < |fields| ==> fields[k] == rest[k - 1];
    }
  }

  lemma ListsAtLater(table: Table, seen: set<string>, decls: seq<FieldDecl>, index: nat, field: Field)
    requires decls != [] && ListsAt(table, seen, decls[1..], index + 1, field)
    ensures ListsAt(table, seen, decls, index, field) && index < field.index
  {
    hide FieldWalk;
    assert decls[1..][field.index - (index + 1)] == decls[field.index - index];
  }

  lemma ListsAtFirst(table: Table, seen: set<string>, decls: seq<FieldDecl>, index: nat, field: Field)
    requires decls != [] && decls[0].tag.Sizes? && field.index == index
    requires FieldWalk(table, seen, decls[0]) == Ok(field.blueprint)
    ensures ListsAt(table, seen, decls, index, field)
  {
    hide FieldWalk;
  }

  lemma ListingFirst(table: Table, seen: set<string>, decls: seq<FieldDecl>, index: nat, r: Fields, rest: Fields)
    requires decls != [] && Adds(table, seen, decls[0], index, r, rest)
    ensures Listing(table, seen, decls[0], index, r.fields, r.zeros[0])
  {
    hide FieldWalk, Zero;
    if decls[0].tag.Sizes? {
      assert r.fields[0].index == index;
    }
  }

  lemma ListingLater(table: Table, seen: set<string>, decl: FieldDecl, i: nat, fields: seq<Field>, rest: seq<Field>,
                     more: nat, zero: Value)
    requires Listing(table, seen, decl, i, rest, zero)
    requires |fields| == |rest| + more && forall k :: 0 <= k < |rest| ==> fields[k + more] == rest[k]
    ensures Listing(table, seen, decl, i, fields, zero)
  {
    hide FieldWalk, Zero;
    if decl.tag.Sizes? {
      var k :| 0 <= k < |rest| && rest[k].index == i;
      assert fields[k + more].index == i;
    }
  }

  lemma StructWalked(table: Table, seen: set<string>, name: string)
    requires Walk(table, seen, StructT(name), 0, 0).Ok?
    ensures name in table && name !in seen
    ensures var bp := Walk(table, seen, StructT(name), 0, 0).value;
            && bp.StructBp? && bp.name == name
            && Lists(table, seen + {name}, table[name], 0, Fields(bp.fields, bp.zeros))
  {
    hide WalkFields, Lists;
    FieldsListed(table, seen + {name}, table[name], 0);
  }

  // ---- the values of a type ----

  /** How many numbers there are in so many bytes. */
  function Range(width: nat): nat {
    if width == 1 then 0x100
    else if width == 2 then 0x1_0000
    else if width == 4 then 0x1_0000_0000
    else if width == 8 then 0x1_0000_0000_0000_0000
    else 0
  }

  ghost predicate Unsigned(v: Value, width: nat) {
    v.UintV? && v.n < Range(width)
  }

  ghost predicate Signed(v: Value, width: nat) {
    v.IntV? && -(Range(width) / 2) <= v.i < Range(width) / 2
  }

  /** v is a value of the Go type t, and no string in it overruns the length that is declared for it. */
  ghost predicate ValueOf(table: Table, seen: set<string>, t: Type, length: uint32, elementLength: uint32, v: Value)
    decreases table.Keys - seen, t, 1
  {
    match t
    case BoolT => v.BoolV?
    case IntT => Signed(v, 8)
    case UintT => Unsigned(v, 8)
    case SizedIntT(width) => Signed(v, width)
    case SizedUintT(width) => Unsigned(v, width)
    case FloatT(width) => v.FloatV? && v.bits < Range(width)
    case ComplexT(width) => v.ComplexV? && v.re < Range(width / 2) && v.im < Range(width / 2)
    case PointerT(elem) => v.NilV? || (v.PointerV? && ValueOf(table, seen, elem, length, elementLength, v.target))
    case ArrayT(n, elem) =>
      && v.ListV? && |v.elements| == n
      && forall i :: 0 <= i < n ==> ValueOf(table, seen, elem, elementLength, 0, v.elements[i])
    case SliceT(elem) =>
      v.ListV? && forall i :: 0 <= i < |v.elements| ==> ValueOf(table, seen, elem, elementLength, 0, v.elements[i])
    case StringT => v.StringV? && !Overruns(v.bytes, 0, length)
    case StructT(name) =>
      && name in table && name !in seen && v.StructV? && |v.fields| == |table[name]|
      && forall i :: 0 <= i < |v.fields| ==> FieldValue(table, seen, name, table[name][i], v.fields[i])
    case OtherT => false
  }

  /** Of an ignored field any value will do. */
  ghost predicate FieldValue(table: Table, seen: set<string>, name: string, decl: FieldDecl, v: Value)
    requires name in table && name !in seen
    decreases table.Keys - seen, StructT(name), 0
  {
    decl.tag.Sizes? ==> ValueOf(table, seen + {name}, decl.typ, decl.tag.length, decl.tag.elementLength, v)
  }

  lemma Ranges()
    ensures Pow256(1) == Range(1) && Pow256(2) == Range(2) && Pow256(4) == Range(4) && Pow256(8) == Range(8)
  {
    EightBytes();
    assert Pow256(1) == 256 * Pow256(0);
    assert Pow256(2) == 256 * Pow256(1);
  }

  lemma {:induction false} TypedFieldsAll(fields: seq<Field>, vs: seq<Value>)
    ensures TypedFields(fields, vs)
            <==> forall k :: 0 <= k < |fields| ==>
                   fields[k].index < |vs| && Typed(fields[k].blueprint, vs[fields[k].index])
    decreases |fields|
  {
    hide Typed;
    if fields != [] {
      var rest := fields[1..];
      TypedFieldsAll(rest, vs);
      assert forall k :: 0 <= k < |rest| ==> rest[k] == fields[k + 1];
      assert forall k :: 1 <= k < |fields| ==> fields[k] == rest[k - 1];
    }
  }

  lemma ScalarTyped(table: Table, seen: set<string>, t: Type, length: uint32, elementLength: uint32, v: Value)
    requires Widths(t) && Walk(table, seen, t, length, elementLength).Ok?
    requires !t.PointerT? && !t.ArrayT? && !t.SliceT? && !t.StructT?
    ensures Typed(Walk(table, seen, t, length, elementLength).value, v)
            <==> ValueOf(table, seen, t, length, elementLength, v)
  {
    hide Pow256, Overruns;
    Ranges();
  }

  lemma PointerTyped(table: Table, seen: set<string>, elem: Type, length: uint32, elementLength: uint32, v: Value)
    requires Walk(table, seen, PointerT(elem), length, elementLength).Ok?
    ensures Walk(table, seen, elem, length, elementLength).Ok?
    ensures Typed(Walk(table, seen, PointerT(elem), length, elementLength).value, v)
            <==> v.NilV? || (v.PointerV? && Typed(Walk(table, seen, elem, length, elementLength).value, v.target))
    ensures ValueOf(table, seen, PointerT(elem), length, elementLength, v)
            <==> v.NilV? || (v.PointerV? && ValueOf(table, seen, elem, length, elementLength, v.target))
  {
  }

  /** The length of an array belongs to its type; a slice may have any. */
  lemma ListTyped(table: Table, seen: set<string>, t: Type, length: uint32, elementLength: uint32, v: Value)
    requires (t.ArrayT? || t.SliceT?) && Walk(table, seen, t, length, elementLength).Ok?
    ensures Walk(table, seen, t.elem, elementLength, 0).Ok?
    ensures Typed(Walk(table, seen, t, length, elementLength).value, v)
            <==> && v.ListV? && (t.ArrayT? ==> |v.elements| == t.length)
                 && forall i :: 0 <= i < |v.elements| ==>
                      Typed(Walk(table, seen, t.elem, elementLength, 0).value, v.elements[i])
    ensures ValueOf(table, seen, t, length, elementLength, v)
            <==> && v.ListV? && (t.ArrayT? ==> |v.elements| == t.length)
                 && forall i :: 0 <= i < |v.elements| ==>
                      ValueOf(table, seen, t.elem, elementLength, 0, v.elements[i])
  {
  }

  lemma StructValue(table: Table, seen: set<string>, name: string, length: uint32, elementLength: uint32, v: Value)
    requires Walk(table, seen, StructT(name), length, elementLength).Ok?
    ensures name in table && name !in seen
    ensures Walk(table, seen, StructT(name), length, elementLength) == Walk(table, seen, StructT(name), 0, 0)
    ensures var bp := Walk(table, seen, StructT(name), 0, 0).value;
            && bp.StructBp?
            && (Typed(bp, v) <==> v.StructV? && |v.fields| == |bp.zeros| && TypedFields(bp.fields, v.fields))
    ensures ValueOf(table, seen, StructT(name), length, elementLength, v)
            <==> && v.StructV? && |v.fields| == |table[name]|
                 && forall i :: 0 <= i < |v.fields| ==> FieldValue(table, seen, name, table[name][i], v.fields[i])
  {
    hide WalkFields, TypedFields, FieldValue;
  }

  /** The blueprint of a type takes exactly the values of that type. */
  lemma {:induction false} TypedExactly(table: Table, seen: set<string>, t: Type, length: uint32, elementLength: uint32,
                                        v: Value)
    requires WellFormed(table) && Widths(t) && Walk(table, seen, t, length, elementLength).Ok?
    ensures Typed(Walk(table, seen, t, length, elementLength).value, v)
            <==> ValueOf(table, seen, t, length, elementLength, v)
    decreases table.Keys - seen, t, 1
  {
    hide WellFormed, Walk, Typed, TypedFields, ValueOf, FieldValue;
    match t
    case PointerT(elem) =>
      PointerTyped(table, seen, elem, length, elementLength, v);
      if v.PointerV? {
        TypedExactly(table, seen, elem, length, elementLength, v.target);
      }
    case ArrayT(_, elem) =>
      ListTyped(table, seen, t, length, elementLength, v);
      ElementsTyped(table, seen, elem, elementLength, v);
    case SliceT(elem) =>
      ListTyped(table, seen, t, length, elementLength, v);
      ElementsTyped(table, seen, elem, elementLength, v);
    case StructT(name) =>
      StructValue(table, seen, name, length, elementLength, v);
      if v.StructV? {
        StructTyped(table, seen, name, v.fields);
      }
    case _ => ScalarTyped(table, seen, t, length, elementLength, v);
  }

  lemma {:induction false} ElementsTyped(table: Table, seen: set<string>, elem: Type, length: uint32, v: Value)
    requires WellFormed(table) && Widths(elem) && Walk(table, seen, elem, length, 0).Ok?
    ensures v.ListV? ==> forall i :: 0 <= i < |v.elements| ==>
      (Typed(Walk(table, seen, elem, length, 0).value, v.elements[i])
       <==> ValueOf(table, seen, elem, length, 0, v.elements[i]))
    decreases table.Keys - seen, elem, 2
  {
    hide WellFormed, Walk, Typed, ValueOf;
    if v.ListV? {
      forall i | 0 <= i < |v.elements|
        ensures Typed(Walk(table, seen, elem, length, 0).value, v.elements[i])
                <==> ValueOf(table, seen, elem, length, 0, v.elements[i])
      {
        TypedExactly(table, seen, elem, length, 0, v.elements[i]);
      }
    }
  }

  lemma {:induction false} StructTyped(table: Table, seen: set<string>, name: string, vs: seq<Value>)
    requires WellFormed(table) && Walk(table, seen, StructT(name), 0, 0).Ok?
    ensures name in table && name !in seen
    ensures var bp := Walk(table, seen, StructT(name), 0, 0).value;
            && bp.StructBp? && |bp.zeros| == |table[name]|
            && (|vs| == |bp.zeros| ==>
                  (TypedFields(bp.fields, vs)
                   <==> forall i :: 0 <= i < |vs| ==> FieldValue(table, seen, name, table[name][i], vs[i])))
    decreases table.Keys - seen, StructT(name), 0
  {
    hide Walk, WellFormed, Typed, ValueOf, TypedFields;
    StructWalked(table, seen, name);
    DeclaredWidths(table, name);
    var bp, decls, more := Walk(table, seen, StructT(name), 0, 0).value, table[name], seen + {name};
    if |vs| == |bp.zeros| {
      TypedFieldsAll(bp.fields, vs);
      forall i | 0 <= i < |vs| && decls[i].tag.Sizes?
        ensures FieldWalk(table, more, decls[i]).Ok?
        ensures Typed(FieldWalk(table, more, decls[i]).value, vs[i])
                <==> FieldValue(table, seen, name, decls[i], vs[i])
      {
        assert Listing(table, more, decls[i], 0 + i, bp.fields, bp.zeros[i]);
        TypedExactly(table, more, decls[i].typ, decls[i].tag.length, decls[i].tag.elementLength, vs[i]);
      }
      FieldsMatch(table, seen, name, bp, vs);
    }
  }

  /** What holds for every listed field holds for every declaration that is not ignored, and the other way round. */
  lemma FieldsMatch(table: Table, seen: set<string>, name: string, bp: Blueprint, vs: seq<Value>)
    requires name in table && name !in seen && bp.StructBp? && |vs| == |table[name]|
    requires Lists(table, seen + {name}, table[name], 0, Fields(bp.fields, bp.zeros))
    requires forall i :: 0 <= i < |vs| && table[name][i].tag.Sizes? ==>
      && FieldWalk(table, seen + {name}, table[name][i]).Ok?
      && (Typed(FieldWalk(table, seen + {name}, table[name][i]).value, vs[i])
          <==> FieldValue(table, seen, name, table[name][i], vs[i]))
    ensures (forall k :: 0 <= k < |bp.fields| ==>
               bp.fields[k].index < |vs| && Typed(bp.fields[k].blueprint, vs[bp.fields[k].index]))
            <==> forall i :: 0 <= i < |vs| ==> FieldValue(table, seen, name, table[name][i], vs[i])
  {
    hide FieldWalk, Typed, ValueOf;
    var decls, more := table[name], seen + {name};
    forall k | 0 <= k < |bp.fields| ensures bp.fields[k].index < |vs| && decls[bp.fields[k].index].tag.Sizes?
      && FieldWalk(table, more, decls[bp.fields[k].index]) == Ok(bp.fields[k].blueprint)
    {
      assert ListsAt(table, more, decls, 0, bp.fields[k]);
    }
    forall i | 0 <= i < |vs| && decls[i].tag.Sizes?
      ensures exists k :: 0 <= k < |bp.fields| && bp.fields[k].index == i
    {
      assert Listing(table, more, decls[i], 0 + i, bp.fields, bp.zeros[i]);
    }
  }

  // ---- the lengths that a blueprint carries ----

  /** Every kind of type has its kind of blueprint, with the length of an array from the type, and that of a slice or
      string from the tag: elements take the second length of the tag for their own. */
  ghost predicate Carries(table: Table, seen: set<string>, t: Type, length: uint32, elementLength: uint32,
                          bp: Blueprint)
    decreases table.Keys - seen, t, 1
  {
    match t
    case BoolT => bp == BoolBp
    case IntT => bp == IntBp(8)
    case UintT => bp == UintBp(8)
    case SizedIntT(width) => bp == IntBp(width)
    case SizedUintT(width) => bp == UintBp(width)
    case FloatT(width) => bp == FloatBp(width)
    case ComplexT(width) => bp == ComplexBp(width)
    case PointerT(elem) => bp.PointerBp? && Carries(table, seen, elem, length, elementLength, bp.element)
    case ArrayT(n, elem) => bp.ArrayBp? && bp.length == n && Carries(table, seen, elem, elementLength, 0, bp.element)
    case SliceT(elem) =>
      bp.SliceBp? && bp.length == length > 0 && Carries(table, seen, elem, elementLength, 0, bp.element)
    case StringT => bp.StringBp? && bp.length == length > 0
    case StructT(name) =>
      && name in table && name !in seen && bp.StructBp? && bp.name == name && Ascending(bp.fields)
      && (forall k :: 0 <= k < |bp.fields| ==> FieldCarried(table, seen, name, bp.fields[k]))
      && (forall i :: 0 <= i < |table[name]| && table[name][i].tag.Sizes? ==> HasIndex(bp.fields, i))
    case OtherT => false
  }

  ghost predicate FieldCarried(table: Table, seen: set<string>, name: string, field: Field)
    requires name in table && name !in seen
    decreases table.Keys - seen, StructT(name), 0
  {
    && field.index < |table[name]| && table[name][field.index].tag.Sizes?
    && var decl := table[name][field.index];
       Carries(table, seen + {name}, decl.typ, decl.tag.length, decl.tag.elementLength, field.blueprint)
  }

  ghost predicate HasIndex(fields: seq<Field>, i: nat) {
    exists k :: 0 <= k < |fields| && fields[k].index == i
  }

  lemma {:induction false} WalkCarries(table: Table, seen: set<string>, t: Type, length: uint32, elementLength: uint32)
    requires Walk(table, seen, t, length, elementLength).Ok?
    ensures Carries(table, seen, t, length, elementLength, Walk(table, seen, t, length, elementLength).value)
    decreases table.Keys - seen, t, 1
  {
    hide WalkFields, FieldCarried, HasIndex, Ascending, Size, Zero;
    match t
    case PointerT(elem) => WalkCarries(table, seen, elem, length, elementLength);
    case ArrayT(_, elem) => WalkCarries(table, seen, elem, elementLength, 0);
    case SliceT(elem) => WalkCarries(table, seen, elem, elementLength, 0);
    case StructT(name) =>
      StructCarries(table, seen, name);
      StructAlike(table, seen, name, length, elementLength);
    case _ =>
  }

  /** The lengths of a tag mean nothing to a struct. */
  lemma StructAlike(table: Table, seen: set<string>, name: string, length: uint32, elementLength: uint32)
    ensures Walk(table, seen, StructT(name), length, elementLength) == Walk(table, seen, StructT(name), 0, 0)
  {
    hide WalkFields;
  }

  lemma {:induction false} StructCarries(table: Table, seen: set<string>, name: string)
    requires Walk(table, seen, StructT(name), 0, 0).Ok?
    ensures name in table && name !in seen
    ensures var bp := Walk(table, seen, StructT(name), 0, 0).value;
            && bp.StructBp? && bp.name == name && Ascending(bp.fields)
            && (forall k :: 0 <= k < |bp.fields| ==> FieldCarried(table, seen, name, bp.fields[k]))
            && (forall i :: 0 <= i < |table[name]| && table[name][i].tag.Sizes? ==> HasIndex(bp.fields, i))
    decreases table.Keys - seen, StructT(name), 0
  {
    hide Walk, Carries, Ascending;
    StructWalked(table, seen, name);
    var bp, decls, more := Walk(table, seen, StructT(name), 0, 0).value, table[name], seen + {name};
    forall k | 0 <= k < |bp.fields| ensures FieldCarried(table, seen, name, bp.fields[k]) {
      assert ListsAt(table, more, decls, 0, bp.fields[k]);
      var decl := decls[bp.fields[k].index];
      WalkCarries(table, more, decl.typ, decl.tag.length, decl.tag.elementLength);
    }
    forall i | 0 <= i < |decls| && decls[i].tag.Sizes? ensures HasIndex(bp.fields, i) {
      assert Listing(table, more, decls[i], 0 + i, bp.fields, bp.zeros[i]);
    }
  }

  // ---- the zero value of a type ----

  ghost predicate ZeroOf(table: Table, seen: set<string>, t: Type, v: Value)
    decreases table.Keys - seen, t, 1
  {
    match t
    case BoolT => v == BoolV(false)
    case IntT => v == IntV(0)
    case UintT => v == UintV(0)
    case SizedIntT(_) => v == IntV(0)
    case SizedUintT(_) => v == UintV(0)
    case FloatT(_) => v == FloatV(0)
    case ComplexT(_) => v == ComplexV(0, 0)
    case PointerT(_) => v == NilV
    case ArrayT(n, elem) =>
      v.ListV? && |v.elements| == n && forall i :: 0 <= i < n ==> ZeroOf(table, seen, elem, v.elements[i])
    case SliceT(_) => v == ListV([])
    case StringT => v == StringV([])
    case StructT(name) =>
      && name in table && name !in seen && v.StructV? && |v.fields| == |table[name]|
      && forall i :: 0 <= i < |v.fields| ==> FieldZero(table, seen, name, table[name][i], v.fields[i])
    case OtherT => false
  }

  ghost predicate FieldZero(table: Table, seen: set<string>, name: string, decl: FieldDecl, v: Value)
    requires name in table && name !in seen
    decreases table.Keys - seen, StructT(name), 0
  {
    if decl.tag.Ignored? then v == decl.tag.zero else ZeroOf(table, seen + {name}, decl.typ, v)
  }

  lemma {:induction false} WalkZero(table: Table, seen: set<string>, t: Type, length: uint32, elementLength: uint32)
    requires Walk(table, seen, t, length, elementLength).Ok?
    ensures ZeroOf(table, seen, t, Zero(Walk(table, seen, t, length, elementLength).value))
    decreases table.Keys - seen, t, 1
  {
    hide WalkFields, FieldZero;
    match t
    case ArrayT(_, elem) => WalkZero(table, seen, elem, elementLength, 0);
    case StructT(name) =>
      StructZero(table, seen, name);
      StructAlike(table, seen, name, length, elementLength);
    case _ =>
  }

  lemma {:induction false} StructZero(table: Table, seen: set<string>, name: string)
    requires Walk(table, seen, StructT(name), 0, 0).Ok?
    ensures name in table && name !in seen
    ensures var bp := Walk(table, seen, StructT(name), 0, 0).value;
            && bp.StructBp? && |bp.zeros| == |table[name]|
            && forall i :: 0 <= i < |bp.zeros| ==> FieldZero(table, seen, name, table[name][i], bp.zeros[i])
    decreases table.Keys - seen, StructT(name), 0
  {
    hide Walk, ZeroOf, Zero, Ascending;
    StructWalked(table, seen, name);
    var bp, decls, more := Walk(table, seen, StructT(name), 0, 0).value, table[name], seen + {name};
    forall i | 0 <= i < |decls| ensures FieldZero(table, seen, name, decls[i], bp.zeros[i]) {
      assert Listing(table, more, decls[i], 0 + i, bp.fields, bp.zeros[i]);
      if decls[i].tag.Sizes? {
        WalkZero(table, more, decls[i].typ, decls[i].tag.length, decls[i].tag.elementLength);
      }
    }
  }

  // ---- what is refused, and with which error ----

  /** On the way through pointers, arrays and slices a slice or string is met for which no length is left. */
  ghost predicate LacksLength(t: Type, length: uint32, elementLength: uint32) {
    match t
    case PointerT(elem) => LacksLength(elem, length, elementLength)
    case ArrayT(_, elem) => LacksLength(elem, elementLength, 0)
    case SliceT(elem) => length == 0 || LacksLength(elem, elementLength, 0)
    case StringT => length == 0
    case _ => false
  }

  /** Where that way ends. */
  ghost function End(t: Type): Type {
    match t
    case PointerT(elem) => End(elem)
    case ArrayT(_, elem) => End(elem)
    case SliceT(elem) => End(elem)
    case _ => t
  }

  /** A missing length is met on the way; otherwise the end decides: an unsupported kind, an undeclared struct and a
      struct in progress are refused, a struct fails with the error of its fields, and all else is accepted. */
  lemma {:induction false} RefusedWith(table: Table, seen: set<string>, t: Type, length: uint32, elementLength: uint32)
    ensures var r := Walk(table, seen, t, length, elementLength);
            if LacksLength(t, length, elementLength) then r == Err(LengthMustBeSet)
            else
              match End(t)
              case OtherT => r == Err(UnsupportedType)
              case StructT(name) =>
                if name in seen then r == Err(RecursiveStructDefinition)
                else if name !in table then r == Err(UnsupportedType)
                else
                  var walked := WalkFields(table, seen + {name}, table[name], 0);
                  if walked.Err? then r == Err(walked.error) else r.Ok?
              case _ => r.Ok?
    decreases t
  {
    hide WalkFields;
    match t
    case PointerT(elem) => RefusedWith(table, seen, elem, length, elementLength);
    case ArrayT(_, elem) => RefusedWith(table, seen, elem, elementLength, 0);
    case SliceT(elem) =>
      if length > 0 {
        RefusedWith(table, seen, elem, elementLength, 0);
      }
    case _ =>
  }

  ghost predicate Passes(table: Table, seen: set<string>, decl: FieldDecl) {
    decl.tag.Ignored? || (decl.tag.Sizes? && FieldWalk(table, seen, decl).Ok?)
  }

  /** The error of the fields is that of the first one that does not pass. */
  lemma {:induction false} FirstFailure(table: Table, seen: set<string>, decls: seq<FieldDecl>, index: nat)
      returns (i: nat)
    requires WalkFields(table, seen, decls, index).Err?
    ensures i < |decls| && (forall j :: 0 <= j < i ==> Passes(table, seen, decls[j])) && !Passes(table, seen, decls[i])
    ensures var error := WalkFields(table, seen, decls, index).error;
            if decls[i].tag.InvalidTag? then error == InvalidAnnotation
            else decls[i].tag.Sizes? && FieldWalk(table, seen, decls[i]) == Err(error)
    decreases |decls|
  {
    hide Walk, Zero;
    if Passes(table, seen, decls[0]) {
      var m := FirstFailure(table, seen, decls[1..], index + 1);
      i := m + 1;
      assert forall j :: 0 < j < i ==> decls[j] == decls[1..][j - 1];
    } else {
      i := 0;
    }
  }

  /** And fields that all pass are accepted. */
  lemma {:induction false} AllPass(table: Table, seen: set<string>, decls: seq<FieldDecl>, index: nat)
    requires forall i :: 0 <= i < |decls| ==> Passes(table, seen, decls[i])
    ensures WalkFields(table, seen, decls, index).Ok?
    decreases |decls|
  {
    hide Walk, Zero;
    if decls != [] {
      assert Passes(table, seen, decls[0]);
      assert forall j :: 0 <= j < |decls[1..]| ==> decls[1..][j] == decls[j + 1];
      AllPass(table, seen, decls[1..], index + 1);
    }
  }

  // ---- what is accepted ----

  ghost predicate PlainStruct(table: Table, name: string) {
    name in table && forall i :: 0 <= i < |table[name]| ==> PlainDecl(table, table[name][i])
  }

  lemma {:induction false} AcceptedIsPlain(table: Table, seen: set<string>, t: Type, length: uint32,
                                           elementLength: uint32)
    requires Walk(table, seen, t, length, elementLength).Ok?
    ensures Plain(table, t, length, elementLength)
    decreases t
  {
    hide WalkFields;
    match t
    case PointerT(elem) => AcceptedIsPlain(table, seen, elem, length, elementLength);
    case ArrayT(_, elem) => AcceptedIsPlain(table, seen, elem, elementLength, 0);
    case SliceT(elem) => AcceptedIsPlain(table, seen, elem, elementLength, 0);
    case _ =>
  }

  lemma AcceptedStruct(table: Table, seen: set<string>, name: string)
    requires Walk(table, seen, StructT(name), 0, 0).Ok?
    ensures PlainStruct(table, name)
  {
    hide Walk, Lists, Plain;
    StructWalked(table, seen, name);
    var bp, decls, more := Walk(table, seen, StructT(name), 0, 0).value, table[name], seen + {name};
    forall i | 0 <= i < |decls| ensures PlainDecl(table, decls[i]) {
      assert Lists(table, more, decls, 0, Fields(bp.fields, bp.zeros));
      ListsPlain(table, more, decls, Fields(bp.fields, bp.zeros), i);
    }
  }

  lemma ListsPlain(table: Table, seen: set<string>, decls: seq<FieldDecl>, r: Fields, i: nat)
    requires Lists(table, seen, decls, 0, r) && i < |decls|
    ensures PlainDecl(table, decls[i])
  {
    hide Walk, Plain;
    assert Listing(table, seen, decls[i], 0 + i, r.fields, r.zeros[i]);
    if decls[i].tag.Sizes? {
      AcceptedIsPlain(table, seen, decls[i].typ, decls[i].tag.length, decls[i].tag.elementLength);
    }
  }

  /** Along a path every struct is accepted. */
  lemma {:induction false} AlongPath(table: Table, seen: set<string>, names: seq<string>, i: nat)
    requires Path(table, names) && i < |names| && Walk(table, seen, StructT(names[0]), 0, 0).Ok?
    ensures PlainStruct(table, names[i])
    decreases i
  {
    hide Walk, Needs, PlainStruct;
    if i == 0 {
      AcceptedStruct(table, seen, names[0]);
    } else {
      assert Needs(table, names[0], names[0 + 1]);
      WalkNeeded(table, seen, names[0], names[1]);
      var rest := names[1..];
      forall k | 0 <= k < |rest| - 1 ensures Needs(table, rest[k], rest[k + 1]) {
        assert Needs(table, names[k + 1], names[k + 1 + 1]);
      }
      AlongPath(table, seen + {names[0]}, rest, i - 1);
    }
  }

  /** names leads to a struct that comes twice, or to one that is not plain. */
  ghost predicate Faulty(table: Table, names: seq<string>) {
    names != [] && Path(table, names) && (Repeats(names) || !PlainStruct(table, names[|names| - 1]))
  }

  /** Whatever is refused although it is plain itself leads to such a struct. */
  lemma {:induction false} FaultIn(table: Table, stack: seq<string>, seen: set<string>, t: Type, length: uint32,
                                   elementLength: uint32) returns (names: seq<string>)
    requires (forall x :: x in seen <==> x in stack) && Path(table, stack)
    requires stack != [] ==> forall m :: Names(t, m) ==> Needs(table, stack[|stack| - 1], m)
    requires Walk(table, seen, t, length, elementLength).Err? && Plain(table, t, length, elementLength)
    ensures Faulty(table, names)
    ensures if stack == [] then Names(t, names[0]) else names[0] == stack[0]
    decreases table.Keys - seen, t, 1
  {
    hide Needs, WalkFields, PlainStruct;
    assert t.PointerT? || t.ArrayT? || t.SliceT? ==> forall m :: Names(t.elem, m) ==> Names(t, m);
    match t
    case PointerT(elem) => names := FaultIn(table, stack, seen, elem, length, elementLength);
    case ArrayT(_, elem) => names := FaultIn(table, stack, seen, elem, elementLength, 0);
    case SliceT(elem) => names := FaultIn(table, stack, seen, elem, elementLength, 0);
    case StructT(name) =>
      assert Names(t, name);
      names := stack + [name];
      if name in seen {
        var j :| 0 <= j < |stack| && stack[j] == name;
        assert names[j] == names[|stack|];
      } else if PlainStruct(table, name) {
        FieldsLead(table, name);
        PlainDeclared(table, name);
        names := FaultInFields(table, names, seen + {name}, table[name], 0);
      }
    case _ =>
  }

  lemma PlainDeclared(table: Table, name: string)
    requires PlainStruct(table, name)
    ensures name in table && forall i :: 0 <= i < |table[name]| ==> PlainDecl(table, table[name][i])
  {
  }

  lemma {:induction false} FaultInFields(table: Table, stack: seq<string>, seen: set<string>, decls: seq<FieldDecl>,
                                         index: nat) returns (names: seq<string>)
    requires (forall x :: x in seen <==> x in stack) && Path(table, stack) && stack != []
    requires forall i, m :: 0 <= i < |decls| && Leads(decls[i], m) ==> Needs(table, stack[|stack| - 1], m)
    requires WalkFields(table, seen, decls, index).Err? && forall i :: 0 <= i < |decls| ==> PlainDecl(table, decls[i])
    ensures Faulty(table, names) && names[0] == stack[0]
    decreases table.Keys - seen, decls, 0
  {
    hide Needs, Walk, Path, Plain, Faulty;
    assert PlainDecl(table, decls[0]);
    match decls[0]
    case FieldDecl(typ, tag) =>
      assert typ < decls[0];
      if tag.Sizes? && Walk(table, seen, typ, tag.length, tag.elementLength).Err? {
        assert forall m :: Names(typ, m) ==> Leads(decls[0], m);
        names := FaultIn(table, stack, seen, typ, tag.length, tag.elementLength);
      } else {
        assert forall i :: 0 <= i < |decls[1..]| ==> decls[1..][i] == decls[i + 1];
        names := FaultInFields(table, stack, seen, decls[1..], index + 1);
      }
  }

  /** A type is accepted if and only if all its lengths are set and all its kinds supported, and so for every struct
      that its fields lead to, and no such way comes to a struct twice. */
  lemma AcceptedExactly(table: Table, t: Type, length: uint32, elementLength: uint32)
    ensures Walk(table, {}, t, length, elementLength).Ok?
            <==> Plain(table, t, length, elementLength)
                 && forall names :: names != [] && Names(t, names[0]) ==> !Faulty(table, names)
  {
    hide Walk, Plain, PlainStruct, Path, Faulty;
    if Walk(table, {}, t, length, elementLength).Ok? {
      AcceptedIsPlain(table, {}, t, length, elementLength);
      forall names | names != [] && Names(t, names[0]) ensures !Faulty(table, names) {
        NoFault(table, t, length, elementLength, names);
      }
    } else if Plain(table, t, length, elementLength) {
      PathNone(table);
      var names := FaultIn(table, [], {}, t, length, elementLength);
      FaultyParts(table, names);
    }
  }

  lemma FaultyParts(table: Table, names: seq<string>)
    requires Faulty(table, names)
    ensures names != [] && Path(table, names) && (Repeats(names) || !PlainStruct(table, names[|names| - 1]))
  {
  }

  lemma NoFault(table: Table, t: Type, length: uint32, elementLength: uint32, names: seq<string>)
    requires Walk(table, {}, t, length, elementLength).Ok? && names != [] && Names(t, names[0])
    ensures !Faulty(table, names)
  {
    hide Walk, PlainStruct, Path;
    if Path(table, names) {
      WalkNamed(table, {}, t, length, elementLength, names[0]);
      AlongPath(table, {}, names, |names| - 1);
      forall i, j | 0 <= i < j < |names| ensures names[i] != names[j] {
        PathRepeats(table, {}, names, i, j);
      }
    }
  }
}

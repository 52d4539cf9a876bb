/** From types to blueprints: the recursive walk over a type, with its set of structs in progress and its cache. */
module Introspection {
  import opened Blueprints

  type uint32 = n: nat | n < UINT32_CAP

  /** A Go type; structs are named and declared in a table. Widths count bytes, on a 64-bit system. */
  datatype Type =
    | BoolT
    | IntT
    | UintT
    | SizedIntT(width: nat)
    | SizedUintT(width: nat)
    | FloatT(width: nat)
    | ComplexT(width: nat)
    | PointerT(elem: Type)
    | ArrayT(length: nat, elem: Type)
    | SliceT(elem: Type)
    | StringT
    | StructT(name: string)
    | OtherT

  /** What the tag of a struct field says. For an ignored field only the zero value of its type matters. */
  datatype Tag =
    | Sizes(length: uint32, elementLength: uint32)
    | Ignored(zero: Value)
    | InvalidTag

  datatype FieldDecl = FieldDecl(typ: Type, tag: Tag)

  type Table = map<string, seq<FieldDecl>>

  datatype Error = UnsupportedType | LengthMustBeSet | InvalidAnnotation | RecursiveStructDefinition

  datatype Result<T> = Ok(value: T) | Err(error: Error)

  datatype Fields = Fields(fields: seq<Field>, zeros: seq<Value>)

  /** The sizes that Go has. */
  predicate Widths(t: Type) {
    match t
    case SizedIntT(width) => IntWidth(width)
    case SizedUintT(width) => IntWidth(width)
    case FloatT(width) => width == 4 || width == 8
    case ComplexT(width) => width == 8 || width == 16
    case PointerT(elem) => Widths(elem)
    case ArrayT(_, elem) => Widths(elem)
    case SliceT(elem) => Widths(elem)
    case _ => true
  }

  predicate WellFormed(table: Table) {
    forall name :: name in table ==> forall i :: 0 <= i < |table[name]| ==> Widths(table[name][i].typ)
  }

  // ---- the walk without a cache ----

  function Walk(table: Table, seen: set<string>, t: Type, length: uint32, elementLength: uint32): Result<Blueprint>
    decreases table.Keys - seen, t, 1
  {
    match t
    case BoolT => Ok(BoolBp)
    case IntT => Ok(IntBp(8))
    case UintT => Ok(UintBp(8))
    case SizedIntT(width) => Ok(IntBp(width))
    case SizedUintT(width) => Ok(UintBp(width))
    case FloatT(width) => Ok(FloatBp(width))
    case ComplexT(width) => Ok(ComplexBp(width))
    case PointerT(elem) =>
      var inner := Walk(table, seen, elem, length, elementLength);
      if inner.Err? then inner else Ok(PointerBp(Size(inner.value), inner.value))
    case ArrayT(n, elem) =>
      var inner := Walk(table, seen, elem, elementLength, 0);
      if inner.Err? then inner else Ok(ArrayBp(n, inner.value))
    case SliceT(elem) =>
      if length == 0 then Err(LengthMustBeSet)
      else
        var inner := Walk(table, seen, elem, elementLength, 0);
        if inner.Err? then inner else Ok(SliceBp(length, inner.value))
    case StringT => if length == 0 then Err(LengthMustBeSet) else Ok(StringBp(length))
    case StructT(name) =>
      if name in seen then Err(RecursiveStructDefinition)
      else if name !in table then Err(UnsupportedType)
      else StructOf(name, WalkFields(table, seen + {name}, table[name], 0))
    case OtherT => Err(UnsupportedType)
  }

  function StructOf(name: string, walked: Result<Fields>): Result<Blueprint> {
    if walked.Err? then Err(walked.error)
    else Ok(StructBp(name, walked.value.zeros, walked.value.fields, FieldsSize(walked.value.fields)))
  }

  function WalkFields(table: Table, seen: set<string>, decls: seq<FieldDecl>, index: nat): Result<Fields>
    decreases table.Keys - seen, decls, 0
  {
    if decls == [] then Ok(Fields([], []))
    else
      match decls[0]
      case FieldDecl(typ, tag) =>
        assert typ < decls[0];
        match tag
        case InvalidTag => Err(InvalidAnnotation)
        case Ignored(zero) => Joined([], [zero], WalkFields(table, seen, decls[1..], index + 1))
        case Sizes(length, elementLength) =>
          var walked := Walk(table, seen, typ, length, elementLength);
          if walked.Err? then Err(walked.error)
          else
            Joined([Field(walked.value, index)], [Zero(walked.value)], WalkFields(table, seen, decls[1..], index + 1))
  }

  function Joined(fields: seq<Field>, zeros: seq<Value>, rest: Result<Fields>): Result<Fields> {
    if rest.Err? then rest else Ok(Fields(fields + rest.value.fields, zeros + rest.value.zeros))
  }

  // ---- blueprints from the walk are sound ----

  lemma {:induction false} WalkIsSound(table: Table, seen: set<string>, t: Type, length: uint32, elementLength: uint32)
    requires WellFormed(table) && Widths(t) && Walk(table, seen, t, length, elementLength).Ok?
    ensures Sound(Walk(table, seen, t, length, elementLength).value)
    decreases table.Keys - seen, t, 1
  {
    hide WellFormed, WalkFields, SoundFields, FieldsSize;
    match t
    case PointerT(elem) => WalkIsSound(table, seen, elem, length, elementLength);
    case ArrayT(_, elem) => WalkIsSound(table, seen, elem, elementLength, 0);
    case SliceT(elem) => WalkIsSound(table, seen, elem, elementLength, 0);
    case StructT(name) =>
      DeclaredWidths(table, name);
      WalkFieldsSound(table, seen + {name}, table[name], []);
      var r := WalkFields(table, seen + {name}, table[name], 0).value;
      assert [] + r.zeros == r.zeros;
    case _ =>
  }

  lemma DeclaredWidths(table: Table, name: string)
    requires WellFormed(table) && name in table
    ensures forall i :: 0 <= i < |table[name]| ==> Widths(table[name][i].typ)
  {
  }

  lemma SoundCons(f: Field, rest: seq<Field>, zeros: seq<Value>)
    requires Sound(f.blueprint) && f.index < |zeros| && zeros[f.index] == Zero(f.blueprint) && SoundFields(rest, zeros)
    requires forall i :: 0 <= i < |rest| ==> f.index < rest[i].index
    ensures SoundFields([f] + rest, zeros)
  {
    var fields := [f] + rest;
    assert fields[1..] == rest;
    match f
    case Field(bp, index) =>
      assert forall i :: 1 <= i < |fields| ==> fields[i] == rest[i - 1];
  }

  lemma {:induction false} WalkFieldsSound(table: Table, seen: set<string>, decls: seq<FieldDecl>, before: seq<Value>)
    requires WellFormed(table) && (forall i :: 0 <= i < |decls| ==> Widths(decls[i].typ))
    requires WalkFields(table, seen, decls, |before|).Ok?
    ensures var r := WalkFields(table, seen, decls, |before|).value;
            && SoundFields(r.fields, before + r.zeros) && |r.zeros| == |decls|
            && forall i :: 0 <= i < |r.fields| ==> |before| <= r.fields[i].index
    decreases table.Keys - seen, decls, 0
  {
    hide WellFormed, Walk, WalkFields, Sound, SoundFields, Zero, Widths;
    WalkFieldsStep(table, seen, decls, |before|);
    if decls == [] {
      NoneSound(before + []);
    } else {
      match decls[0]
      case FieldDecl(typ, tag) =>
        assert typ < decls[0];
        assert Widths(decls[0].typ);
        var zero :=
          if tag.Ignored? then tag.zero else Zero(Walk(table, seen, typ, tag.length, tag.elementLength).value);
        WalkFieldsSound(table, seen, decls[1..], before + [zero]);
        var rest := WalkFields(table, seen, decls[1..], |before| + 1).value;
        assert before + [zero] + rest.zeros == before + ([zero] + rest.zeros);
        if tag.Sizes? {
          WalkIsSound(table, seen, typ, tag.length, tag.elementLength);
          var f := Field(Walk(table, seen, typ, tag.length, tag.elementLength).value, |before|);
          SoundCons(f, rest.fields, before + [zero] + rest.zeros);
        }
    }
  }

  lemma WalkFieldsStep(table: Table, seen: set<string>, decls: seq<FieldDecl>, index: nat)
    requires WalkFields(table, seen, decls, index).Ok?
    ensures var r := WalkFields(table, seen, decls, index).value;
      if decls == [] then r == Fields([], [])
      else
        var tag, typ, rest := decls[0].tag, decls[0].typ, WalkFields(table, seen, decls[1..], index + 1);
        && !tag.InvalidTag? && rest.Ok?
        && (tag.Ignored? ==> r == Fields(rest.value.fields, [tag.zero] + rest.value.zeros))
        && (tag.Sizes? ==>
              var walked := Walk(table, seen, typ, tag.length, tag.elementLength);
              walked.Ok? && r == Fields([Field(walked.value, index)] + rest.value.fields,
                                        [Zero(walked.value)] + rest.value.zeros))
  {
    hide Walk, Zero;
    if decls != [] && decls[0].tag.Ignored? {
      var rest := WalkFields(table, seen, decls[1..], index + 1);
      assert [] + rest.value.fields == rest.value.fields;
    }
  }

  lemma NoneSound(zeros: seq<Value>)
    ensures SoundFields([], zeros)
  {
  }

  // ---- structs that lead back to themselves ----

  /** t is the struct, or leads to it through pointers, arrays and slices. */
  ghost predicate Names(t: Type, name: string) {
    match t
    case PointerT(elem) => Names(elem, name)
    case ArrayT(_, elem) => Names(elem, name)
    case SliceT(elem) => Names(elem, name)
    case StructT(n) => n == name
    case _ => false
  }

  /** A field of m that is not ignored leads to n. */
  ghost predicate Needs(table: Table, m: string, n: string) {
    m in table && exists i :: 0 <= i < |table[m]| && Leads(table[m][i], n)
  }

  ghost predicate Leads(decl: FieldDecl, n: string) {
    decl.tag.Sizes? && Names(decl.typ, n)
  }

  ghost predicate Path(table: Table, names: seq<string>) {
    forall i :: 0 <= i < |names| - 1 ==> Needs(table, names[i], names[i + 1])
  }

  ghost predicate Repeats(names: seq<string>) {
    exists i, j :: 0 <= i < j < |names| && names[i] == names[j]
  }

  lemma {:induction false} WalkNamed(table: Table, seen: set<string>, t: Type, length: uint32, elementLength: uint32,
                                     name: string)
    requires Walk(table, seen, t, length, elementLength).Ok? && Names(t, name)
    ensures name !in seen && Walk(table, seen, StructT(name), 0, 0).Ok?
    decreases t
  {
    match t
    case PointerT(elem) => WalkNamed(table, seen, elem, length, elementLength, name);
    case ArrayT(_, elem) => WalkNamed(table, seen, elem, elementLength, 0, name);
    case SliceT(elem) => WalkNamed(table, seen, elem, elementLength, 0, name);
    case _ =>
  }

  lemma {:induction false} WalkField(table: Table, seen: set<string>, decls: seq<FieldDecl>, index: nat, i: nat)
    requires WalkFields(table, seen, decls, index).Ok? && i < |decls| && decls[i].tag.Sizes?
    ensures Walk(table, seen, decls[i].typ, decls[i].tag.length, decls[i].tag.elementLength).Ok?
    decreases |decls|
  {
    hide Walk, WalkFields;
    WalkFieldsStep(table, seen, decls, index);
    if i > 0 {
      WalkField(table, seen, decls[1..], index + 1, i - 1);
    }
  }

  lemma WalkNeeded(table: Table, seen: set<string>, m: string, n: string)
    requires Walk(table, seen, StructT(m), 0, 0).Ok? && Needs(table, m, n)
    ensures Walk(table, seen + {m}, StructT(n), 0, 0).Ok? && n !in seen + {m}
  {
    var i :| 0 <= i < |table[m]| && Leads(table[m][i], n);
    var decl := table[m][i];
    WalkField(table, seen + {m}, table[m], 0, i);
    WalkNamed(table, seen + {m}, decl.typ, decl.tag.length, decl.tag.elementLength, n);
  }

  lemma {:induction false} WalkPath(table: Table, seen: set<string>, names: seq<string>, i: nat)
    requires Path(table, names) && i < |names| && Walk(table, seen, StructT(names[0]), 0, 0).Ok?
    ensures names[i] !in seen && (i > 0 ==> names[i] != names[0])
    decreases i
  {
    hide Walk, Needs;
    if i > 0 {
      assert Needs(table, names[0], names[0 + 1]);
      WalkNeeded(table, seen, names[0], names[1]);
      var rest := names[1..];
      forall k | 0 <= k < |rest| - 1 ensures Needs(table, rest[k], rest[k + 1]) {
        assert Needs(table, names[k + 1], names[k + 1 + 1]);
      }
      WalkPath(table, seen + {names[0]}, rest, i - 1);
    } else {
      StructUnseen(table, seen, names[0]);
    }
  }

  lemma StructUnseen(table: Table, seen: set<string>, name: string)
    requires Walk(table, seen, StructT(name), 0, 0).Ok?
    ensures name !in seen
  {
  }

  lemma {:induction false} PathRepeats(table: Table, seen: set<string>, names: seq<string>, i: nat, j: nat)
    requires Path(table, names) && i < j < |names| && Walk(table, seen, StructT(names[0]), 0, 0).Ok?
    ensures names[i] != names[j]
    decreases i
  {
    hide Walk, Needs;
    if i == 0 {
      WalkPath(table, seen, names, j);
    } else {
      assert Needs(table, names[0], names[0 + 1]);
      WalkNeeded(table, seen, names[0], names[1]);
      var rest := names[1..];
      forall k | 0 <= k < |rest| - 1 ensures Needs(table, rest[k], rest[k + 1]) {
        assert Needs(table, names[k + 1], names[k + 1 + 1]);
      }
      PathRepeats(table, seen + {names[0]}, rest, i - 1, j - 1);
    }
  }

  /** Where a refusal for recursion comes from: a path over fields that meets a struct twice. */
  lemma {:induction false} RepetitionIn(table: Table, stack: seq<string>, seen: set<string>, t: Type, length: uint32,
                                        elementLength: uint32) returns (names: seq<string>)
    requires (forall x :: x in seen <==> x in stack) && Path(table, stack)
    requires stack != [] ==> forall m :: Names(t, m) ==> Needs(table, stack[|stack| - 1], m)
    requires Walk(table, seen, t, length, elementLength) == Err(RecursiveStructDefinition)
    ensures Path(table, names) && Repeats(names)
    ensures if stack == [] then Names(t, names[0]) else names[0] == stack[0]
    decreases table.Keys - seen, t, 1
  {
    hide Needs, WalkFields;
    assert t.PointerT? || t.ArrayT? || t.SliceT? ==> forall m :: Names(t.elem, m) ==> Names(t, m);
    match t
    case PointerT(elem) => names := RepetitionIn(table, stack, seen, elem, length, elementLength);
    case ArrayT(_, elem) => names := RepetitionIn(table, stack, seen, elem, elementLength, 0);
    case SliceT(elem) => names := RepetitionIn(table, stack, seen, elem, elementLength, 0);
    case StructT(name) =>
      assert Names(t, name);
      names := stack + [name];
      if name in seen {
        var j :| 0 <= j < |stack| && stack[j] == name;
        assert names[j] == names[|stack|];
      } else {
        FieldsLead(table, name);
        names := RepetitionInFields(table, names, seen + {name}, table[name], 0);
      }
    case _ =>
  }

  lemma FieldsLead(table: Table, name: string)
    requires name in table
    ensures forall i, m :: 0 <= i < |table[name]| && Leads(table[name][i], m) ==> Needs(table, name, m)
  {
  }

  lemma {:induction false} RepetitionInFields(table: Table, stack: seq<string>, seen: set<string>,
                                              decls: seq<FieldDecl>,
                                              index: nat) returns (names: seq<string>)
    requires (forall x :: x in seen <==> x in stack) && Path(table, stack) && stack != []
    requires forall i, m :: 0 <= i < |decls| && Leads(decls[i], m) ==> Needs(table, stack[|stack| - 1], m)
    requires WalkFields(table, seen, decls, index) == Err(RecursiveStructDefinition)
    ensures Path(table, names) && Repeats(names) && names[0] == stack[0]
    decreases table.Keys - seen, decls, 0
  {
    hide Needs, Walk, Path;
    match decls[0]
    case FieldDecl(typ, tag) =>
      assert typ < decls[0];
      if tag.Sizes? && Walk(table, seen, typ, tag.length, tag.elementLength).Err? {
        assert forall m :: Names(typ, m) ==> Leads(decls[0], m);
        names := RepetitionIn(table, stack, seen, typ, tag.length, tag.elementLength);
      } else {
        assert forall i :: 0 <= i < |decls[1..]| ==> decls[1..][i] == decls[i + 1];
        names := RepetitionInFields(table, stack, seen, decls[1..], index + 1);
      }
  }

  /** A struct from which fields lead twice to the same struct, itself or another, is refused; and a struct is
      refused for recursion only then. */
  lemma RecursionIsRefused(table: Table, name: string)
    ensures (exists names :: Path(table, names) && Repeats(names) && names[0] == name)
            ==> Walk(table, {}, StructT(name), 0, 0).Err?
    ensures Walk(table, {}, StructT(name), 0, 0) == Err(RecursiveStructDefinition) ==>
      exists names :: Path(table, names) && Repeats(names) && names[0] == name
  {
    hide Walk, Path;
    if names :| Path(table, names) && Repeats(names) && names[0] == name {
      var i, j :| 0 <= i < j < |names| && names[i] == names[j];
      if Walk(table, {}, StructT(name), 0, 0).Ok? {
        PathRepeats(table, {}, names, i, j);
      }
    }
    if Walk(table, {}, StructT(name), 0, 0) == Err(RecursiveStructDefinition) {
      PathNone(table);
      var names := RepetitionIn(table, [], {}, StructT(name), 0, 0);
    }
  }

  // ---- nothing else goes wrong ----

  /** Lengths are set, structs declared and kinds supported, as far as t goes without entering a struct. */
  ghost predicate Plain(table: Table, t: Type, length: uint32, elementLength: uint32) {
    match t
    case PointerT(elem) => Plain(table, elem, length, elementLength)
    case ArrayT(_, elem) => Plain(table, elem, elementLength, 0)
    case SliceT(elem) => length > 0 && Plain(table, elem, elementLength, 0)
    case StringT => length > 0
    case StructT(name) => name in table
    case OtherT => false
    case _ => true
  }

  ghost predicate PlainDecl(table: Table, decl: FieldDecl) {
    !decl.tag.InvalidTag? && (decl.tag.Sizes? ==> Plain(table, decl.typ, decl.tag.length, decl.tag.elementLength))
  }

  ghost predicate PlainTable(table: Table) {
    forall name :: name in table ==> forall i :: 0 <= i < |table[name]| ==> PlainDecl(table, table[name][i])
  }

  lemma {:induction false} OnlyRecursion(table: Table, seen: set<string>, t: Type, length: uint32,
                                         elementLength: uint32)
    requires PlainTable(table) && Plain(table, t, length, elementLength)
    ensures var r := Walk(table, seen, t, length, elementLength); r.Err? ==> r.error == RecursiveStructDefinition
    decreases table.Keys - seen, t, 1
  {
    hide PlainTable, WalkFields;
    match t
    case PointerT(elem) => OnlyRecursion(table, seen, elem, length, elementLength);
    case ArrayT(_, elem) => OnlyRecursion(table, seen, elem, elementLength, 0);
    case SliceT(elem) => OnlyRecursion(table, seen, elem, elementLength, 0);
    case StructT(name) =>
      if name !in seen {
        PlainDecls(table, name);
        OnlyRecursionInFields(table, seen + {name}, table[name], 0);
      }
    case _ =>
  }

  lemma PlainDecls(table: Table, name: string)
    requires PlainTable(table) && name in table
    ensures forall i :: 0 <= i < |table[name]| ==> PlainDecl(table, table[name][i])
  {
  }

  lemma {:induction false} OnlyRecursionInFields(table: Table, seen: set<string>, decls: seq<FieldDecl>, index: nat)
    requires PlainTable(table) && forall i :: 0 <= i < |decls| ==> PlainDecl(table, decls[i])
    ensures var r := WalkFields(table, seen, decls, index); r.Err? ==> r.error == RecursiveStructDefinition
    decreases table.Keys - seen, decls, 0
  {
    hide PlainTable, Walk, Plain;
    if decls != [] {
      match decls[0]
      case FieldDecl(typ, tag) =>
        assert typ < decls[0];
        assert PlainDecl(table, decls[0]);
        if tag.Sizes? {
          OnlyRecursion(table, seen, typ, tag.length, tag.elementLength);
        }
        OnlyRecursionInFields(table, seen, decls[1..], index + 1);
    }
  }

  /** Where nothing else is wrong with the declarations, a struct is refused exactly when fields lead from it twice
      to the same struct. */
  lemma RefusedExactly(table: Table, name: string)
    requires PlainTable(table) && name in table
    ensures Walk(table, {}, StructT(name), 0, 0).Err? <==>
            exists names :: Path(table, names) && Repeats(names) && names[0] == name
  {
    hide Walk, Path, PlainTable;
    RecursionIsRefused(table, name);
    OnlyRecursion(table, {}, StructT(name), 0, 0);
  }

  lemma PathNone(table: Table)
    ensures Path(table, [])
  {
  }

  // ---- the walk with its cache ----

  /** Whatever structs are in progress, as long as they are none of the known ones, the walk gives bp. */
  ghost predicate Robust(table: Table, known: set<string>, t: Type, length: uint32, elementLength: uint32,
                         bp: Blueprint) {
    forall seen: set<string> | seen !! known :: Walk(table, seen, t, length, elementLength) == Ok(bp)
  }

  ghost predicate RobustFields(table: Table, known: set<string>, decls: seq<FieldDecl>, index: nat, r: Fields) {
    forall seen: set<string> | seen !! known :: WalkFields(table, seen, decls, index) == Ok(r)
  }

  ghost predicate CacheSound(table: Table, cache: map<string, Blueprint>) {
    forall name :: name in cache ==> Robust(table, cache.Keys, StructT(name), 0, 0, cache[name])
  }

  /** Seen from any such walk, the fields before i give fields and zeros, and those from i on are still to do. */
  ghost predicate Reduced(table: Table, known: set<string>, decls: seq<FieldDecl>, i: nat, fields: seq<Field>,
                          zeros: seq<Value>)
    requires i <= |decls|
  {
    forall seen: set<string> | seen !! known ::
      WalkFields(table, seen, decls, 0) == Joined(fields, zeros, WalkFields(table, seen, decls[i..], i))
  }

  lemma RobustStruct(table: Table, known: set<string>, name: string, length: uint32, elementLength: uint32,
                     bp: Blueprint)
    requires Robust(table, known, StructT(name), 0, 0, bp)
    ensures Robust(table, known, StructT(name), length, elementLength, bp)
  {
    forall seen: set<string> | seen !! known ensures Walk(table, seen, StructT(name), length, elementLength) == Ok(bp) {
      assert Walk(table, seen, StructT(name), 0, 0) == Ok(bp);
    }
  }

  lemma CacheGrows(table: Table, known: set<string>, more: set<string>, t: Type, length: uint32,
                   elementLength: uint32, bp: Blueprint)
    requires Robust(table, known, t, length, elementLength, bp) && known <= more
    ensures Robust(table, more, t, length, elementLength, bp)
  {
  }

  /** A struct whose fields need only known structs may become known. */
  lemma CacheStores(table: Table, cache: map<string, Blueprint>, name: string, r: Fields)
    requires CacheSound(table, cache) && name in table && name !in cache
             && RobustFields(table, cache.Keys, table[name], 0, r)
    ensures var bp := StructOf(name, Ok(r)).value;
            && Robust(table, cache[name := bp].Keys, StructT(name), 0, 0, bp)
            && CacheSound(table, cache[name := bp])
  {
    hide WalkFields;
    var bp := StructOf(name, Ok(r)).value;
    var more := cache[name := bp];
    forall seen: set<string> | seen !! more.Keys ensures Walk(table, seen, StructT(name), 0, 0) == Ok(bp) {
      assert name in more;
      assert WalkFields(table, seen + {name}, table[name], 0) == Ok(r);
    }
    forall n | n in more ensures Robust(table, more.Keys, StructT(n), 0, 0, more[n]) {
      if n != name {
        CacheGrows(table, cache.Keys, more.Keys, StructT(n), 0, 0, cache[n]);
      }
    }
  }

  lemma ReducedNone(table: Table, known: set<string>, decls: seq<FieldDecl>)
    ensures Reduced(table, known, decls, 0, [], [])
  {
    hide WalkFields;
    assert decls[0..] == decls;
    forall seen: set<string> | seen !! known
      ensures WalkFields(table, seen, decls, 0) == Joined([], [], WalkFields(table, seen, decls, 0))
    {
      var r := WalkFields(table, seen, decls, 0);
      if r.Ok? {
        assert [] + r.value.fields == r.value.fields && [] + r.value.zeros == r.value.zeros;
      }
    }
  }

  lemma ReducedDone(table: Table, known: set<string>, decls: seq<FieldDecl>, fields: seq<Field>, zeros: seq<Value>)
    requires Reduced(table, known, decls, |decls|, fields, zeros)
    ensures RobustFields(table, known, decls, 0, Fields(fields, zeros))
  {
    assert decls[|decls|..] == [];
    assert fields + [] == fields && zeros + [] == zeros;
  }

  lemma JoinedTwice(f: seq<Field>, z: seq<Value>, g: seq<Field>, y: seq<Value>, rest: Result<Fields>)
    ensures Joined(f, z, Joined(g, y, rest)) == Joined(f + g, z + y, rest)
  {
    if rest.Ok? {
      assert f + (g + rest.value.fields) == f + g + rest.value.fields;
      assert z + (y + rest.value.zeros) == z + y + rest.value.zeros;
    }
  }

  lemma ReducedIgnored(table: Table, known: set<string>, decls: seq<FieldDecl>, i: nat, fields: seq<Field>,
                       zeros: seq<Value>)
    requires i < |decls| && decls[i].tag.Ignored? && Reduced(table, known, decls, i, fields, zeros)
    ensures Reduced(table, known, decls, i + 1, fields, zeros + [decls[i].tag.zero])
  {
    hide Walk, Joined;
    assert decls[i..][1..] == decls[i + 1..] && decls[i..][0] == decls[i];
    assert fields + [] == fields;
    forall seen: set<string> | seen !! known
      ensures WalkFields(table, seen, decls, 0)
           == Joined(fields, zeros + [decls[i].tag.zero], WalkFields(table, seen, decls[i + 1..], i + 1))
    {
      JoinedTwice(fields, zeros, [], [decls[i].tag.zero], WalkFields(table, seen, decls[i + 1..], i + 1));
    }
  }

  lemma ReducedWalked(table: Table, known: set<string>, decls: seq<FieldDecl>, i: nat, fields: seq<Field>,
                      zeros: seq<Value>,
                      bp: Blueprint)
    requires i < |decls| && decls[i].tag.Sizes? && Reduced(table, known, decls, i, fields, zeros)
    requires Robust(table, known, decls[i].typ, decls[i].tag.length, decls[i].tag.elementLength, bp)
    ensures Reduced(table, known, decls, i + 1, fields + [Field(bp, i)], zeros + [Zero(bp)])
  {
    hide Walk, Joined, Zero;
    assert decls[i..][1..] == decls[i + 1..] && decls[i..][0] == decls[i];
    forall seen: set<string> | seen !! known
      ensures WalkFields(table, seen, decls, 0)
           == Joined(fields + [Field(bp, i)], zeros + [Zero(bp)], WalkFields(table, seen, decls[i + 1..], i + 1))
    {
      assert Walk(table, seen, decls[i].typ, decls[i].tag.length, decls[i].tag.elementLength) == Ok(bp);
      JoinedTwice(fields, zeros, [Field(bp, i)], [Zero(bp)], WalkFields(table, seen, decls[i + 1..], i + 1));
    }
  }

  lemma ReducedGrows(table: Table, known: set<string>, more: set<string>, decls: seq<FieldDecl>, i: nat,
                     fields: seq<Field>,
                     zeros: seq<Value>)
    requires i <= |decls| && Reduced(table, known, decls, i, fields, zeros) && known <= more
    ensures Reduced(table, more, decls, i, fields, zeros)
  {
  }

  /** The first error among the fields is the answer. */
  lemma ReducedFails(table: Table, known: set<string>, decls: seq<FieldDecl>, i: nat, fields: seq<Field>,
                     zeros: seq<Value>,
                     seen: set<string>, error: Error)
    requires i < |decls| && Reduced(table, known, decls, i, fields, zeros) && seen !! known
    requires if decls[i].tag.Sizes?
             then Walk(table, seen, decls[i].typ, decls[i].tag.length, decls[i].tag.elementLength) == Err(error)
             else decls[i].tag.InvalidTag? && error == InvalidAnnotation
    ensures WalkFields(table, seen, decls, 0) == Err(error)
  {
    hide Walk;
    assert decls[i..][0] == decls[i];
    assert WalkFields(table, seen, decls[i..], i) == Err(error);
  }

  class Introspector {
    const table: Table
    /** The cache: fully walked structs. */
    var parsedStructs: map<string, Blueprint>
    /** The structs in progress. */
    var seenStructTypes: set<string>

    ghost predicate Valid()
      reads this
    {
      CacheSound(table, parsedStructs) && seenStructTypes !! parsedStructs.Keys
    }

    constructor (table: Table)
      ensures Valid() && this.table == table && parsedStructs == map[] && seenStructTypes == {}
    {
      this.table := table;
      parsedStructs := map[];
      seenStructTypes := {};
    }

    /** The same answer as the walk without a cache; what is in the cache stays there. */
    method HandleType(t: Type, length: uint32, elementLength: uint32) returns (r: Result<Blueprint>)
      requires Valid()
      modifies this
      ensures Valid() && seenStructTypes == old(seenStructTypes)
      ensures r == Walk(table, old(seenStructTypes), t, length, elementLength)
      ensures r.Ok? ==> Robust(table, parsedStructs.Keys, t, length, elementLength, r.value)
      ensures old(parsedStructs.Keys) <= parsedStructs.Keys
      ensures forall name :: name in old(parsedStructs) ==> parsedStructs[name] == old(parsedStructs)[name]
      decreases table.Keys - seenStructTypes, t, 1
    {
      match t
      case BoolT => r := Ok(BoolBp);
      case IntT => r := Ok(IntBp(8));
      case UintT => r := Ok(UintBp(8));
      case SizedIntT(width) => r := Ok(IntBp(width));
      case SizedUintT(width) => r := Ok(UintBp(width));
      case FloatT(width) => r := Ok(FloatBp(width));
      case ComplexT(width) => r := Ok(ComplexBp(width));
      case PointerT(elem) =>
        r := HandleType(elem, length, elementLength);
        if r.Ok? {
          r := Ok(PointerBp(Size(r.value), r.value));
        }
      case ArrayT(n, elem) =>
        r := HandleType(elem, elementLength, 0);
        if r.Ok? {
          r := Ok(ArrayBp(n, r.value));
        }
      case SliceT(elem) =>
        if length == 0 {
          return Err(LengthMustBeSet);
        }
        r := HandleType(elem, elementLength, 0);
        if r.Ok? {
          r := Ok(SliceBp(length, r.value));
        }
      case StringT => r := if length == 0 then Err(LengthMustBeSet) else Ok(StringBp(length));
      case StructT(name) => r := HandleStruct(name, length, elementLength);
      case OtherT => r := Err(UnsupportedType);
    }

    method HandleStruct(name: string, length: uint32, elementLength: uint32) returns (r: Result<Blueprint>)
      requires Valid()
      modifies this
      ensures Valid() && seenStructTypes == old(seenStructTypes)
      ensures r == Walk(table, old(seenStructTypes), StructT(name), length, elementLength)
      ensures r.Ok? ==> Robust(table, parsedStructs.Keys, StructT(name), length, elementLength, r.value)
      ensures old(parsedStructs.Keys) <= parsedStructs.Keys
      ensures forall n :: n in old(parsedStructs) ==> parsedStructs[n] == old(parsedStructs)[n]
      decreases table.Keys - seenStructTypes, StructT(name), 0
    {
      hide WalkFields, RobustFields;
      ghost var seen := seenStructTypes;
      if name in seenStructTypes {
        return Err(RecursiveStructDefinition);
      }
      if name in parsedStructs {
        RobustStruct(table, parsedStructs.Keys, name, length, elementLength, parsedStructs[name]);
        return Ok(parsedStructs[name]);
      }
      if name !in table {
        return Err(UnsupportedType);
      }
      seenStructTypes := seenStructTypes + {name};
      var fields := HandleFields(table[name]);
      assert name !in parsedStructs;
      seenStructTypes := seenStructTypes - {name};
      assert seenStructTypes == seen;
      if fields.Err? {
        return Err(fields.error);
      }
      r := StructOf(name, fields);
      CacheStores(table, parsedStructs, name, fields.value);
      parsedStructs := parsedStructs[name := r.value];
      RobustStruct(table, parsedStructs.Keys, name, length, elementLength, r.value);
    }

    method HandleFields(decls: seq<FieldDecl>) returns (r: Result<Fields>)
      requires Valid()
      modifies this
      ensures Valid() && seenStructTypes == old(seenStructTypes)
      ensures r == WalkFields(table, old(seenStructTypes), decls, 0)
      ensures r.Ok? ==> RobustFields(table, parsedStructs.Keys, decls, 0, r.value)
      ensures old(parsedStructs.Keys) <= parsedStructs.Keys
      ensures forall n :: n in old(parsedStructs) ==> parsedStructs[n] == old(parsedStructs)[n]
      decreases table.Keys - seenStructTypes, decls, 0
    {
      hide Walk, WalkFields, Robust, Reduced, CacheSound, Zero;
      var fields: seq<Field>, zeros: seq<Value> := [], [];
      ReducedNone(table, parsedStructs.Keys, decls);
      var i := 0;
      while i < |decls|
        invariant 0 <= i <= |decls|
        invariant Valid() && seenStructTypes == old(seenStructTypes)
        invariant old(parsedStructs.Keys) <= parsedStructs.Keys
        invariant forall n :: n in old(parsedStructs) ==> parsedStructs[n] == old(parsedStructs)[n]
        invariant Reduced(table, parsedStructs.Keys, decls, i, fields, zeros)
      {
        ghost var known := parsedStructs.Keys;
        match decls[i] {
          case FieldDecl(typ, InvalidTag) =>
            ReducedFails(table, known, decls, i, fields, zeros, seenStructTypes, InvalidAnnotation);
            return Err(InvalidAnnotation);
          case FieldDecl(typ, Ignored(zero)) =>
            ReducedIgnored(table, known, decls, i, fields, zeros);
            zeros := zeros + [zero];
          case FieldDecl(typ, Sizes(length, elementLength)) =>
            assert typ < decls[i];
            var walked := HandleType(typ, length, elementLength);
            ReducedGrows(table, known, parsedStructs.Keys, decls, i, fields, zeros);
            if walked.Err? {
              ReducedFails(table, parsedStructs.Keys, decls, i, fields, zeros, seenStructTypes, walked.error);
              return Err(walked.error);
            }
            ReducedWalked(table, parsedStructs.Keys, decls, i, fields, zeros, walked.value);
            fields := fields + [Field(walked.value, i)];
            zeros := zeros + [Zero(walked.value)];
        }
        i := i + 1;
      }
      r := Ok(Fields(fields, zeros));
      ReducedDone(table, parsedStructs.Keys, decls, fields, zeros);
      FieldsNow(table, parsedStructs.Keys, decls, r.value, seenStructTypes);
    }
  }

  lemma FieldsNow(table: Table, known: set<string>, decls: seq<FieldDecl>, r: Fields, seen: set<string>)
    requires RobustFields(table, known, decls, 0, r) && seen !! known
    ensures WalkFields(table, seen, decls, 0) == Ok(r)
  {
  }

  /** A serializer's blueprint, whatever was walked before: the walk's answer, and sound. */
  method Create(introspector: Introspector, t: Type, length: uint32, elementLength: uint32)
      returns (r: Result<Blueprint>)
    requires introspector.Valid() && introspector.seenStructTypes == {}
    modifies introspector
    ensures introspector.Valid() && introspector.seenStructTypes == {}
    ensures r == Walk(introspector.table, {}, t, length, elementLength)
    ensures WellFormed(introspector.table) && Widths(t) && r.Ok? ==> Sound(r.value)
  {
    hide Walk, CacheSound, WellFormed, Widths, Sound;
    r := introspector.HandleType(t, length, elementLength);
    if WellFormed(introspector.table) && Widths(t) && r.Ok? {
      WalkIsSound(introspector.table, {}, t, length, elementLength);
    }
  }
}

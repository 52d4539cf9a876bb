/** Pointer, array and slice types that have names, and may lead back to themselves. */
module NamedTypes {
  import opened Blueprints
  import opened Introspection

  datatype Kind =
    | PointerK(elem: string)
    | ArrayK(length: nat, elem: string)
    | SliceK(elem: string)
    | LeafK(typ: Type)

  type Kinds = map<string, Kind>

  ghost predicate Declared(kinds: Kinds) {
    forall name :: name in kinds && !kinds[name].LeafK? ==> kinds[name].elem in kinds
  }

  datatype Outcome = Back(r: Result<Blueprint>) | Running

  /** The walk from a named type, cut off after so many nested calls. Structs and what they hold are left to Walk. */
  function Handle(table: Table, seen: set<string>, kinds: Kinds, name: string, length: uint32, elementLength: uint32,
                  calls: nat): Outcome
    requires Declared(kinds) && name in kinds
    decreases calls
  {
    if calls == 0 then Running
    else
      match kinds[name]
      case LeafK(typ) => Back(Walk(table, seen, typ, length, elementLength))
      case PointerK(elem) =>
        var inner := Handle(table, seen, kinds, elem, length, elementLength, calls - 1);
        if inner.Running? || inner.r.Err? then inner else Back(Ok(PointerBp(Size(inner.r.value), inner.r.value)))
      case ArrayK(n, elem) =>
        var inner := Handle(table, seen, kinds, elem, elementLength, 0, calls - 1);
        if inner.Running? || inner.r.Err? then inner else Back(Ok(ArrayBp(n, inner.r.value)))
      case SliceK(elem) =>
        if length == 0 then Back(Err(LengthMustBeSet))
        else
          var inner := Handle(table, seen, kinds, elem, elementLength, 0, calls - 1);
          if inner.Running? || inner.r.Err? then inner else Back(Ok(SliceBp(length, inner.r.value)))
  }

  // ---- where the walk goes ----

  datatype Visit = Visit(name: string, length: uint32, elementLength: uint32)

  /** The nested call, if there is one. */
  ghost predicate Calls(kinds: Kinds, v: Visit) {
    v.name in kinds && !kinds[v.name].LeafK? && (kinds[v.name].SliceK? ==> v.length > 0)
  }

  ghost function Callee(kinds: Kinds, v: Visit): Visit
    requires Calls(kinds, v)
  {
    var elem := kinds[v.name].elem;
    if kinds[v.name].PointerK? then Visit(elem, v.length, v.elementLength) else Visit(elem, v.elementLength, 0)
  }

  /** Visits of nested calls. */
  ghost predicate Nested(kinds: Kinds, vs: seq<Visit>) {
    forall i :: 0 <= i < |vs| - 1 ==> Calls(kinds, vs[i]) && vs[i + 1] == Callee(kinds, vs[i])
  }

  /** Nested calls that come back to a type through pointers and arrays alone. */
  ghost predicate Loops(kinds: Kinds, vs: seq<Visit>, i: nat, j: nat) {
    && Nested(kinds, vs) && i < j < |vs| && vs[i].name == vs[j].name
    && forall k :: i <= k < j ==> !kinds[vs[k].name].SliceK?
  }

  /** The walk from v never comes back. */
  ghost predicate Endless(table: Table, seen: set<string>, kinds: Kinds, v: Visit)
    requires Declared(kinds) && v.name in kinds
  {
    forall calls: nat :: Handle(table, seen, kinds, v.name, v.length, v.elementLength, calls).Running?
  }

  /** The first visits, as many as there are up to the given number of calls. */
  ghost function Trail(kinds: Kinds, v: Visit, calls: nat): (vs: seq<Visit>)
    ensures vs != [] && vs[0] == v && Nested(kinds, vs) && |vs| <= calls + 1
    decreases calls
  {
    if calls == 0 || !Calls(kinds, v) then [v]
    else
      var rest := Trail(kinds, Callee(kinds, v), calls - 1);
      assert forall i :: 0 < i <= |rest| ==> ([v] + rest)[i] == rest[i - 1];
      [v] + rest
  }

  lemma {:induction false} RunningIsTrail(table: Table, seen: set<string>, kinds: Kinds, v: Visit, calls: nat)
    requires Declared(kinds) && v.name in kinds
    ensures Handle(table, seen, kinds, v.name, v.length, v.elementLength, calls).Running?
            <==> |Trail(kinds, v, calls)| == calls + 1
    decreases calls
  {
    hide Walk, Nested;
    if calls > 0 && Calls(kinds, v) {
      RunningIsTrail(table, seen, kinds, Callee(kinds, v), calls - 1);
    }
  }

  // ---- a loop is never left ----

  lemma {:induction false} Around(kinds: Kinds, vs: seq<Visit>, i: nat, j: nat, k: nat, v: Visit, calls: nat)
    requires Loops(kinds, vs, i, j) && i <= k < j && v.name == vs[k].name
    ensures |Trail(kinds, v, calls)| == calls + 1
    decreases calls
  {
    if calls > 0 {
      assert Calls(kinds, vs[k]) && vs[k + 1] == Callee(kinds, vs[k]);
      Around(kinds, vs, i, j, if k + 1 == j then i else k + 1, Callee(kinds, v), calls - 1);
    }
  }

  lemma {:induction false} UpToLoop(kinds: Kinds, vs: seq<Visit>, i: nat, j: nat, m: nat, calls: nat)
    requires Loops(kinds, vs, i, j) && m <= i
    ensures |Trail(kinds, vs[m], calls)| == calls + 1
    decreases calls
  {
    if m == i {
      Around(kinds, vs, i, j, i, vs[i], calls);
    } else if calls > 0 {
      assert Calls(kinds, vs[m]) && vs[m + 1] == Callee(kinds, vs[m]);
      UpToLoop(kinds, vs, i, j, m + 1, calls - 1);
    }
  }

  // ---- without a loop the walk comes back ----

  /** How many slices the two lengths still let pass. */
  ghost function Passes(v: Visit): nat {
    if v.elementLength > 0 then 2 else if v.length > 0 then 1 else 0
  }

  lemma {:induction false} PassesShrink(kinds: Kinds, vs: seq<Visit>, k: nat)
    requires Nested(kinds, vs) && k + 1 < |vs|
    ensures Passes(vs[k + 1]) <= Passes(vs[0])
    ensures kinds[vs[k].name].SliceK? ==> Passes(vs[k + 1]) < Passes(vs[0])
    decreases k
  {
    assert Calls(kinds, vs[k]) && vs[k + 1] == Callee(kinds, vs[k]);
    if k > 0 {
      PassesShrink(kinds, vs, k - 1);
    }
  }

  /** Among more names than there are, one comes twice. */
  lemma {:induction false} NameTwice(names: seq<string>, all: set<string>) returns (i: nat, j: nat)
    requires (forall k :: 0 <= k < |names| ==> names[k] in all) && |names| > |all|
    ensures i < j < |names| && names[i] == names[j]
    decreases |names|
  {
    var n := |names| - 1;
    if k :| 0 <= k < n && names[k] == names[n] {
      return k, n;
    }
    i, j := NameTwice(names[..n], all - {names[n]});
  }

  /** Enough nested calls have a loop among them: slices are passed twice at most, and then a name comes twice. */
  lemma {:induction false} FindLoop(kinds: Kinds, vs: seq<Visit>) returns (i: nat, j: nat)
    requires vs != [] && Nested(kinds, vs) && |vs| > (Passes(vs[0]) + 1) * (|kinds.Keys| + 1)
    ensures Loops(kinds, vs, i, j)
    decreases |vs|
  {
    var n := |kinds.Keys|;
    assert |vs| > n + 1 by { Room(Passes(vs[0]), n); }
    forall k | 0 <= k <= n ensures vs[k].name in kinds {
      assert Calls(kinds, vs[k]);
    }
    if k :| 0 <= k <= n && kinds[vs[k].name].SliceK? {
      PassesShrink(kinds, vs, k);
      var rest := vs[k + 1..];
      assert Nested(kinds, rest) by {
        forall m | 0 <= m < |rest| - 1 ensures Calls(kinds, rest[m]) && rest[m + 1] == Callee(kinds, rest[m]) {
          assert Calls(kinds, vs[k + 1 + m]) && vs[k + 1 + m + 1] == Callee(kinds, vs[k + 1 + m]);
        }
      }
      Enough(Passes(rest[0]), Passes(vs[0]), n);
      var x, y := FindLoop(kinds, rest);
      i, j := k + 1 + x, k + 1 + y;
      forall m | i <= m < j ensures !kinds[vs[m].name].SliceK? {
        assert vs[m] == rest[m - k - 1];
      }
    } else {
      var names := seq(n + 1, k requires 0 <= k < n + 1 => vs[k].name);
      i, j := NameTwice(names, kinds.Keys);
    }
  }

  lemma Room(p: nat, n: nat)
    ensures (p + 1) * (n + 1) >= n + 1
  {
  }

  lemma Enough(p: nat, q: nat, n: nat)
    requires p < q
    ensures (q + 1) * (n + 1) >= (p + 1) * (n + 1) + n + 1
  {
    assert (q + 1) * (n + 1) == (p + 1) * (n + 1) + (q - p) * (n + 1);
    Room(q - p - 1, n);
  }

  /** The walk never comes back if and only if nested calls lead from a type back to it through pointers and arrays. */
  lemma NeverBack(table: Table, seen: set<string>, kinds: Kinds, v: Visit)
    requires Declared(kinds) && v.name in kinds
    ensures Endless(table, seen, kinds, v)
            <==> exists vs, i: nat, j: nat :: vs != [] && vs[0] == v && Loops(kinds, vs, i, j)
  {
    hide Handle, Loops, Trail;
    if vs, i: nat, j: nat :| vs != [] && vs[0] == v && Loops(kinds, vs, i, j) {
      forall calls: nat
        ensures Handle(table, seen, kinds, v.name, v.length, v.elementLength, calls).Running?
      {
        UpToLoop(kinds, vs, i, j, 0, calls);
        RunningIsTrail(table, seen, kinds, v, calls);
      }
    }
    if Endless(table, seen, kinds, v) {
      var calls := (Passes(v) + 1) * (|kinds.Keys| + 1);
      RunningIsTrail(table, seen, kinds, v, calls);
      var vs := Trail(kinds, v, calls);
      var i, j := FindLoop(kinds, vs);
    }
  }

  // ---- where it does come back ----

  /** The type without names, as deep as the walk goes. */
  function Unrolled(kinds: Kinds, name: string, calls: nat): Type
    requires Declared(kinds) && name in kinds
    decreases calls
  {
    if calls == 0 then OtherT
    else
      match kinds[name]
      case LeafK(typ) => typ
      case PointerK(elem) => PointerT(Unrolled(kinds, elem, calls - 1))
      case ArrayK(n, elem) => ArrayT(n, Unrolled(kinds, elem, calls - 1))
      case SliceK(elem) => SliceT(Unrolled(kinds, elem, calls - 1))
  }

  /** Its answer is then the one for the type without names. */
  lemma {:induction false} BackAsUnrolled(table: Table, seen: set<string>, kinds: Kinds, name: string, length: uint32,
                                          elementLength: uint32, calls: nat)
    requires Declared(kinds) && name in kinds
    ensures var outcome := Handle(table, seen, kinds, name, length, elementLength, calls);
            outcome.Back? ==> outcome.r == Walk(table, seen, Unrolled(kinds, name, calls), length, elementLength)
    decreases calls
  {
    if calls > 0 {
      match kinds[name]
      case LeafK(_) =>
      case PointerK(elem) => BackAsUnrolled(table, seen, kinds, elem, length, elementLength, calls - 1);
      case ArrayK(_, elem) => BackAsUnrolled(table, seen, kinds, elem, elementLength, 0, calls - 1);
      case SliceK(elem) => BackAsUnrolled(table, seen, kinds, elem, elementLength, 0, calls - 1);
    }
  }

  /** A pointer type that points to itself. */
  lemma PointerToItself(table: Table, length: uint32, elementLength: uint32)
    ensures var kinds := map["P" := PointerK("P")];
            Declared(kinds) && Endless(table, {}, kinds, Visit("P", length, elementLength))
  {
    var kinds, v := map["P" := PointerK("P")], Visit("P", length, elementLength);
    var vs := [v, v];
    assert Calls(kinds, vs[0]) && Loops(kinds, vs, 0, 1);
    NeverBack(table, {}, kinds, v);
  }
}

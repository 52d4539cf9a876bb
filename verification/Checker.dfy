/** The node-by-node check that the repository's tests make of a tree, against the order of the tree as a whole. */
module Checker {
  import opened Shapes
  import opened Entries
  import opened Search

  datatype Bound = Open | At(key: Key)

  ghost predicate Inside(key: Key, low: Bound, high: Bound) {
    (low.At? ==> low.key < key) && (high.At? ==> key < high.key)
  }

  ghost predicate AllInside<V>(s: seq<Entry<V>>, low: Bound, high: Bound) {
    forall i :: 0 <= i < |s| ==> Inside(s[i].key, low, high)
  }

  /** The bounds of child i, between values i - 1 and i. */
  ghost function Left<V>(vs: seq<Entry<V>>, i: nat, low: Bound): Bound
    requires i <= |vs|
  {
    if i == 0 then low else At(vs[i - 1].key)
  }

  ghost function Right<V>(vs: seq<Entry<V>>, i: nat, high: Bound): Bound
    requires i <= |vs|
  {
    if i == |vs| then high else At(vs[i].key)
  }

  /** Children lie between their neighbouring values, the outer ones within the bounds of the node. */
  ghost predicate Checked<V>(t: Shape<Entry<V>>, h: nat, isRoot: bool, a: nat, b: nat, low: Bound, high: Bound)
    decreases t
  {
    && (if t.kids == [] then h == 1 else h > 1 && |t.kids| == |t.values| + 1)
    && |t.values| < b && (isRoot || a <= |t.values| + 1)
    && Sorted(t.values) && AllInside(t.values, low, high)
    && forall i :: 0 <= i < |t.kids| ==>
         Checked(t.kids[i], h - 1, false, a, b, Left(t.values, i, low), Right(t.values, i, high))
  }

  lemma Apart<V>(x: seq<Entry<V>>, m: Entry<V>, y: seq<Entry<V>>, low: Bound, high: Bound)
    requires Sorted(x + [m] + y) && AllInside(x + [m] + y, low, high)
    ensures Sorted(x) && AllInside(x, low, At(m.key)) && Inside(m.key, low, high)
    ensures Sorted(y) && AllInside(y, At(m.key), high)
  {
    hide Sorted;
    var s := x + [m] + y;
    SortedMiddle(x, m, y);
    SortedParts(x, y);
    assert s[|x|] == m;
    assert forall i :: 0 <= i < |x| ==> s[i] == x[i];
    assert forall i :: 0 <= i < |y| ==> s[|x| + 1 + i] == y[i];
  }

  lemma Together<V>(x: seq<Entry<V>>, m: Entry<V>, y: seq<Entry<V>>, low: Bound, high: Bound)
    requires Sorted(x) && AllInside(x, low, At(m.key)) && Inside(m.key, low, high)
    requires Sorted(y) && AllInside(y, At(m.key), high)
    ensures Sorted(x + [m] + y) && AllInside(x + [m] + y, low, high)
  {
    var s := x + [m] + y;
    forall i | 0 <= i < |s|
      ensures Inside(s[i].key, low, high)
      ensures if i < |x| then s[i].key < m.key else if i == |x| then s[i] == m else m.key < s[i].key
    {
      assert s[i] == if i < |x| then x[i] else if i == |x| then m else y[i - |x| - 1];
    }
    forall i, j | 0 <= i < j < |s| ensures s[i].key < s[j].key {
      if j < |x| {
        assert s[i] == x[i] && s[j] == x[j];
      } else if i > |x| {
        assert s[i] == y[i - |x| - 1] && s[j] == y[j - |x| - 1];
      }
    }
  }

  lemma AroundOne<V>(x: seq<Entry<V>>, m: Entry<V>, y: seq<Entry<V>>, low: Bound, high: Bound)
    ensures Sorted(x + [m] + y) && AllInside(x + [m] + y, low, high) <==>
            && Sorted(x) && AllInside(x, low, At(m.key)) && Inside(m.key, low, high)
            && Sorted(y) && AllInside(y, At(m.key), high)
  {
    hide Sorted, AllInside, Inside;
    if Sorted(x + [m] + y) && AllInside(x + [m] + y, low, high) {
      Apart(x, m, y, low, high);
    } else if
      && Sorted(x) && AllInside(x, low, At(m.key)) && Inside(m.key, low, high)
      && Sorted(y) && AllInside(y, At(m.key), high)
    {
      Together(x, m, y, low, high);
    }
  }

  /** Between the neighbours: the order of all children and values is that of the interleaved entries. */
  ghost predicate KidsOrdered<V>(vs: seq<Entry<V>>, ks: seq<Shape<Entry<V>>>, low: Bound, high: Bound)
    requires |ks| == |vs| + 1
  {
    && Sorted(vs) && AllInside(vs, low, high)
    && forall i :: 0 <= i < |ks| ==> KidOrdered(vs, ks, i, low, high)
  }

  ghost predicate KidOrdered<V>(vs: seq<Entry<V>>, ks: seq<Shape<Entry<V>>>, i: nat, low: Bound, high: Bound)
    requires |ks| == |vs| + 1 && i < |ks|
  {
    Sorted(InOrder(ks[i])) && AllInside(InOrder(ks[i]), Left(vs, i, low), Right(vs, i, high))
  }

  lemma {:induction false} WeaveOrdered<V>(vs: seq<Entry<V>>, ks: seq<Shape<Entry<V>>>, low: Bound, high: Bound)
    requires |ks| == |vs| + 1
    ensures KidsOrdered(vs, ks, low, high) <==> Sorted(Weave(vs, ks)) && AllInside(Weave(vs, ks), low, high)
  {
    hide InOrder, Sorted, AllInside;
    if vs == [] {
      assert KidsOrdered(vs, ks, low, high) <==> KidOrdered(vs, ks, 0, low, high) by { EmptySorted<V>(vs, low, high); }
    } else {
      var m, vr, kr := vs[0], vs[1..], ks[1..];
      WeaveOrdered(vr, kr, At(m.key), high);
      AroundOne(InOrder(ks[0]), m, Weave(vr, kr), low, high);
      KidsStep(vs, ks, low, high);
    }
  }

  lemma EmptySorted<V>(s: seq<Entry<V>>, low: Bound, high: Bound)
    requires s == []
    ensures Sorted(s) && AllInside(s, low, high)
  {
  }

  lemma KidsStep<V>(vs: seq<Entry<V>>, ks: seq<Shape<Entry<V>>>, low: Bound, high: Bound)
    requires |ks| == |vs| + 1 && vs != []
    ensures KidsOrdered(vs, ks, low, high) <==>
            && Sorted(InOrder(ks[0])) && AllInside(InOrder(ks[0]), low, At(vs[0].key)) && Inside(vs[0].key, low, high)
            && KidsOrdered(vs[1..], ks[1..], At(vs[0].key), high)
  {
    hide InOrder;
    var m, vr, kr := vs[0], vs[1..], ks[1..];
    AroundOne([], m, vr, low, high);
    assert [] + [m] + vr == vs;
    forall i | 0 <= i < |kr| ensures KidOrdered(vr, kr, i, At(m.key), high) <==> KidOrdered(vs, ks, i + 1, low, high) {
    }
    assert KidOrdered(vs, ks, 0, low, high) <==> Sorted(InOrder(ks[0])) && AllInside(InOrder(ks[0]), low, At(m.key));
    if forall i :: 0 <= i < |kr| ==> KidOrdered(vr, kr, i, At(m.key), high) {
      assert forall i :: 1 <= i < |ks| ==> KidOrdered(vs, ks, i, low, high) by {
        forall i | 1 <= i < |ks| ensures KidOrdered(vs, ks, i, low, high) {
          assert KidOrdered(vr, kr, i - 1, At(m.key), high);
        }
      }
    }
  }

  ghost predicate KidChecked<V>(t: Shape<Entry<V>>, i: nat, h: nat, a: nat, b: nat, low: Bound, high: Bound)
    requires i < |t.kids| && |t.kids| == |t.values| + 1 && h > 0
  {
    Checked(t.kids[i], h - 1, false, a, b, Left(t.values, i, low), Right(t.values, i, high))
  }

  lemma CheckedKids<V>(t: Shape<Entry<V>>, h: nat, isRoot: bool, a: nat, b: nat, low: Bound, high: Bound)
    requires t.kids != [] && h > 1 && |t.kids| == |t.values| + 1
    ensures Checked(t, h, isRoot, a, b, low, high) <==>
            && |t.values| < b && (isRoot || a <= |t.values| + 1) && Sorted(t.values) && AllInside(t.values, low, high)
            && forall i :: 0 <= i < |t.kids| ==> KidChecked(t, i, h, a, b, low, high)
  {
    hide Sorted, AllInside;
    if forall i :: 0 <= i < |t.kids| ==> KidChecked(t, i, h, a, b, low, high) {
      forall i | 0 <= i < |t.kids|
        ensures Checked(t.kids[i], h - 1, false, a, b, Left(t.values, i, low), Right(t.values, i, high))
      {
        assert KidChecked(t, i, h, a, b, low, high);
      }
    }
  }

  lemma AllChecked<V>(t: Shape<Entry<V>>, h: nat, a: nat, b: nat, low: Bound, high: Bound)
    requires t.kids != [] && h > 1 && |t.kids| == |t.values| + 1
    requires forall i :: 0 <= i < |t.kids| ==>
      (KidChecked(t, i, h, a, b, low, high) <==>
       && Uniform(t.kids[i], h - 1) && Bounded(t.kids[i], a, b) && a <= |t.kids[i].values| + 1
       && KidOrdered(t.values, t.kids, i, low, high))
    ensures (|t.values| < b && forall i :: 0 <= i < |t.kids| ==> KidChecked(t, i, h, a, b, low, high)) <==>
            && Uniform(t, h) && Bounded(t, a, b)
            && forall i :: 0 <= i < |t.kids| ==> KidOrdered(t.values, t.kids, i, low, high)
  {
    hide KidChecked, KidOrdered;
  }

  /** The check from node to node accepts exactly the trees that are balanced, within bounds, and in order as a
      whole. */
  lemma {:induction false} CheckedIsOrdered<V>(t: Shape<Entry<V>>, h: nat, isRoot: bool, a: nat, b: nat, low: Bound,
                                               high: Bound)
    ensures Checked(t, h, isRoot, a, b, low, high) <==>
            && Uniform(t, h) && Bounded(t, a, b) && (isRoot || a <= |t.values| + 1)
            && Sorted(InOrder(t)) && AllInside(InOrder(t), low, high)
    decreases t
  {
    hide Sorted, AllInside;
    if t.kids != [] && h > 1 && |t.kids| == |t.values| + 1 {
      forall i | 0 <= i < |t.kids|
        ensures KidChecked(t, i, h, a, b, low, high) <==>
                && Uniform(t.kids[i], h - 1) && Bounded(t.kids[i], a, b) && a <= |t.kids[i].values| + 1
                && KidOrdered(t.values, t.kids, i, low, high)
      {
        CheckedIsOrdered(t.kids[i], h - 1, false, a, b, Left(t.values, i, low), Right(t.values, i, high));
      }
      assert InOrder(t) == Weave(t.values, t.kids);
      WeaveOrdered(t.values, t.kids, low, high);
      AllChecked(t, h, a, b, low, high);
      CheckedKids(t, h, isRoot, a, b, low, high);
    }
  }

  /** Every stored tree passes. */
  lemma StoredTreePasses<V>(nodes: Store<Entry<V>>, h: nat, a: nat, b: nat)
    requires TreeStored(nodes, h, a, b)
    ensures Checked(Unfold(nodes, 0, h), h, true, a, b, Open, Open)
  {
    CheckedIsOrdered(Unfold(nodes, 0, h), h, true, a, b, Open, Open);
  }
}

/** The path from the root to a node, as the ids on the path stack stand for it. */
module Frames {
  import opened Shapes

  /** An inner node with one child taken out: its subtrees left and right of the gap. */
  datatype Frame<E> = Frame(id: nat, values: seq<E>, left: seq<Shape<E>>, right: seq<Shape<E>>)

  /** Outermost frame first. */
  type Path<E> = seq<Frame<E>>

  ghost predicate Sound<E>(f: Frame<E>) {
    |f.left| + |f.right| == |f.values|
  }

  ghost predicate SoundPath<E>(fs: Path<E>) {
    forall i :: 0 <= i < |fs| ==> Sound(fs[i])
  }

  /** t seen from its p-th child. */
  ghost function Step<E>(t: Shape<E>, p: nat): Frame<E>
    requires p < |t.kids|
  {
    Frame(t.id, t.values, t.kids[..p], t.kids[p + 1..])
  }

  ghost function Fill<E>(f: Frame<E>, t: Shape<E>): Shape<E> {
    Shape(f.id, f.values, f.left + [t] + f.right)
  }

  ghost function Plug<E>(fs: Path<E>, t: Shape<E>): Shape<E> {
    if fs == [] then t else Plug(fs[..|fs| - 1], Fill(fs[|fs| - 1], t))
  }

  /** The stored node of a frame whose gap refers to the node called hole. */
  ghost function FrameNode<E>(f: Frame<E>, hole: nat): Node<E> {
    Node(f.id, f.values, Ids(f.left) + [hole] + Ids(f.right), false)
  }

  /** The stored nodes outside the gap. */
  ghost function PathBag<E>(fs: Path<E>, hole: nat): multiset<Node<E>> {
    if fs == [] then multiset{}
    else
      var f := fs[|fs| - 1];
      PathBag(fs[..|fs| - 1], f.id) + multiset{FrameNode(f, hole)} + Bags(f.left) + Bags(f.right)
  }

  /** The entries left of the gap. */
  ghost function Before<E>(fs: Path<E>): seq<E>
    requires SoundPath(fs)
  {
    if fs == [] then []
    else
      var f := fs[|fs| - 1];
      Before(fs[..|fs| - 1]) + LeftWeave(f.values[..|f.left|], f.left)
  }

  /** The entries right of the gap. */
  ghost function After<E>(fs: Path<E>): seq<E>
    requires SoundPath(fs)
  {
    if fs == [] then []
    else
      var f := fs[|fs| - 1];
      RightWeave(f.values[|f.left|..], f.right) + After(fs[..|fs| - 1])
  }

  ghost function PathIds<E>(fs: Path<E>): seq<nat> {
    seq(|fs|, i requires 0 <= i < |fs| => fs[i].id)
  }

  /** A frame, everything in it within bounds, whose gap takes a tree of height h. */
  ghost predicate FrameFits<E>(f: Frame<E>, h: nat, a: nat, b: nat) {
    && Sound(f)
    && |f.values| < b
    && (forall i :: 0 <= i < |f.left| ==> KidFits(f.left[i], h, a, b))
    && (forall i :: 0 <= i < |f.right| ==> KidFits(f.right[i], h, a, b))
  }

  ghost predicate KidFits<E>(t: Shape<E>, h: nat, a: nat, b: nat) {
    Uniform(t, h) && Bounded(t, a, b) && a <= |t.values| + 1
  }

  /** The innermost gap takes a tree of height h; only the outermost frame may have fewer than a - 1 values. */
  ghost predicate PathFits<E>(fs: Path<E>, h: nat, a: nat, b: nat) {
    forall i :: 0 <= i < |fs| ==>
      && FrameFits(fs[i], h + |fs| - 1 - i, a, b)
      && (i > 0 ==> a <= |fs[i].values| + 1)
  }

  /** A whole tree as Insert and Delete keep it. */
  ghost predicate Proper<E>(t: Shape<E>, h: nat, a: nat, b: nat) {
    && Uniform(t, h)
    && Bounded(t, a, b)
    && (h > 1 ==> |t.values| > 0)
  }

  // ---- filling the gap ----

  lemma IdsOfOne<E>(l: seq<Shape<E>>, x: Shape<E>, r: seq<Shape<E>>)
    ensures Ids(l + [x] + r) == Ids(l) + [x.id] + Ids(r)
  {
  }

  lemma IdsOfPair<E>(l: seq<Shape<E>>, x: Shape<E>, y: Shape<E>, r: seq<Shape<E>>)
    ensures Ids(l + [x, y] + r) == Ids(l) + [x.id, y.id] + Ids(r)
  {
  }

  lemma {:induction false} PlugIdOnly<E>(fs: Path<E>, t: Shape<E>, u: Shape<E>)
    requires t.id == u.id
    ensures Plug(fs, t).id == Plug(fs, u).id
  {
    if fs != [] {
      PlugIdOnly(fs[..|fs| - 1], Fill(fs[|fs| - 1], t), Fill(fs[|fs| - 1], u));
    }
  }

  lemma {:induction false} PlugFirst<E>(fs: Path<E>, t: Shape<E>)
    requires fs != []
    ensures Plug(fs, t).id == fs[0].id
  {
    if |fs| > 1 {
      PlugFirst(fs[..|fs| - 1], Fill(fs[|fs| - 1], t));
    }
  }

  lemma PlugNone<E>(t: Shape<E>)
    ensures Plug([], t) == t
  {
  }

  lemma PlugLast<E>(gs: Path<E>, f: Frame<E>, t: Shape<E>)
    ensures Plug(gs + [f], t) == Plug(gs, Fill(f, t))
  {
    var fs := gs + [f];
    assert fs[..|fs| - 1] == gs;
  }

  lemma {:induction false} PlugBag<E>(fs: Path<E>, t: Shape<E>)
    ensures Bag(Plug(fs, t)) == PathBag(fs, t.id) + Bag(t)
  {
    if fs != [] {
      var f := fs[|fs| - 1];
      PlugBag(fs[..|fs| - 1], Fill(f, t));
      BagOfOne(f.left, t, f.right);
      IdsOfOne(f.left, t, f.right);
    }
  }

  lemma {:induction false} PlugInOrder<E>(fs: Path<E>, t: Shape<E>)
    requires SoundPath(fs)
    ensures InOrder(Plug(fs, t)) == Before(fs) + InOrder(t) + After(fs)
  {
    if fs != [] {
      var f, gs := fs[|fs| - 1], fs[..|fs| - 1];
      var vl, vr := f.values[..|f.left|], f.values[|f.left|..];
      PlugInOrder(gs, Fill(f, t));
      WeaveAround(vl, f.left, t, vr, f.right);
      assert f.values == vl + vr;
      AssocAround(Before(gs), LeftWeave(vl, f.left), InOrder(t), RightWeave(vr, f.right), After(gs));
    }
  }

  lemma AssocAround<E>(v: seq<E>, w: seq<E>, x: seq<E>, y: seq<E>, z: seq<E>)
    ensures v + (w + x + y) + z == (v + w) + x + (y + z)
  {
  }

  lemma {:induction false} PlugFits<E>(fs: Path<E>, t: Shape<E>, h: nat, a: nat, b: nat)
    requires PathFits(fs, h, a, b) && Uniform(t, h) && Bounded(t, a, b)
    requires fs != [] ==> a <= |t.values| + 1 && |fs[0].values| > 0
    requires fs == [] && h > 1 ==> |t.values| > 0
    requires a >= 2
    ensures Proper(Plug(fs, t), h + |fs|, a, b)
  {
    if fs != [] {
      var f, gs := fs[|fs| - 1], fs[..|fs| - 1];
      FillFits(f, t, h, a, b);
      assert PathFits(gs, h + 1, a, b);
      PlugFits(gs, Fill(f, t), h + 1, a, b);
    }
  }

  lemma FillFits<E>(f: Frame<E>, t: Shape<E>, h: nat, a: nat, b: nat)
    requires FrameFits(f, h, a, b) && KidFits(t, h, a, b)
    ensures Uniform(Fill(f, t), h + 1) && Bounded(Fill(f, t), a, b)
  {
    var u := Fill(f, t);
    forall i | 0 <= i < |u.kids| ensures KidFits(u.kids[i], h, a, b) {
    }
  }

  lemma StepFits<E>(t: Shape<E>, p: nat, h: nat, a: nat, b: nat)
    requires Uniform(t, h) && Bounded(t, a, b) && p < |t.kids|
    ensures h > 1
    ensures FrameFits(Step(t, p), h - 1, a, b)
    ensures KidFits(t.kids[p], h - 1, a, b)
  {
  }

  /** Going down to the p-th child changes neither the tree nor what is stored. */
  lemma Descend<E>(fs: Path<E>, t: Shape<E>, p: nat, h: nat, a: nat, b: nat)
    requires PathFits(fs, h, a, b) && Uniform(t, h) && Bounded(t, a, b) && p < |t.kids|
    requires fs != [] ==> a <= |t.values| + 1
    ensures h > 1
    ensures PathFits(fs + [Step(t, p)], h - 1, a, b) && KidFits(t.kids[p], h - 1, a, b)
    ensures Plug(fs + [Step(t, p)], t.kids[p]) == Plug(fs, t)
    ensures FrameNode(Step(t, p), t.kids[p].id) == View(t)
  {
    StepFits(t, p, h, a, b);
    var gs := fs + [Step(t, p)];
    assert gs[..|gs| - 1] == fs;
    assert t.kids == t.kids[..p] + [t.kids[p]] + t.kids[p + 1..];
    IdsOfOne(t.kids[..p], t.kids[p], t.kids[p + 1..]);
    assert Fill(Step(t, p), t.kids[p]) == t;
  }

  lemma LastFrame<E>(gs: Path<E>, f: Frame<E>, h: nat, a: nat, b: nat)
    requires PathFits(gs + [f], h, a, b)
    ensures FrameFits(f, h, a, b) && PathFits(gs, h + 1, a, b) && SoundPath(gs)
    ensures gs != [] ==> a <= |f.values| + 1 && (gs + [f])[0] == gs[0]
    ensures gs == [] ==> (gs + [f])[0] == f
  {
    var fs := gs + [f];
    assert fs[|gs|] == f;
    assert forall i :: 0 <= i < |gs| ==> gs[i] == fs[i];
  }

  lemma SoundPathFits<E>(fs: Path<E>, h: nat, a: nat, b: nat)
    requires PathFits(fs, h, a, b)
    ensures SoundPath(fs)
  {
  }

  /** A stored node does not share its id with the root of a tree stored beside it. */
  lemma SiblingIds<E>(nodes: Store<E>, n: Node<E>, ts: seq<Shape<E>>)
    requires Keyed(nodes) && multiset{n} + Bags(ts) <= multiset(nodes.Values)
    ensures n.id !in Ids(ts)
  {
    forall i | 0 <= i < |ts| ensures ts[i].id != n.id {
      BagOfKid(ts, i);
      assert View(ts[i]) in Bags(ts);
      DistinctIds(nodes, n, View(ts[i]));
    }
  }

  lemma DistinctIds<E>(nodes: Store<E>, m: Node<E>, n: Node<E>)
    requires Keyed(nodes) && multiset{m, n} <= multiset(nodes.Values)
    ensures m.id != n.id
  {
    var two := multiset{m, n};
    assert two[m] > 0 && two[n] > 0;
    assert m == n ==> two[m] == 2;
    assert m in nodes.Values && n in nodes.Values;
  }
}

/** How many nodes a tree of so many entries takes: a node below the root holds at least a - 1 of them. */
module Occupancy {
  import opened Shapes
  import opened Frames
  import opened Entries
  import opened Splits

  /** n nodes of a - 1 values hold that many entries. */
  ghost predicate Suffices(n: nat, a: nat, entries: nat) {
    entries <= n * (a - 1)
  }

  ghost function InOrderAll<E>(ts: seq<Shape<E>>): nat {
    if ts == [] then 0 else |InOrder(ts[0])| + InOrderAll(ts[1..])
  }

  lemma {:induction false} WeaveLength<E>(vs: seq<E>, ks: seq<Shape<E>>)
    requires |ks| == |vs| + 1
    ensures |Weave(vs, ks)| == |vs| + InOrderAll(ks)
  {
    if vs != [] {
      WeaveLength(vs[1..], ks[1..]);
    } else {
      assert ks[1..] == [];
    }
  }

  lemma {:induction false} LeftWeaveLength<E>(vs: seq<E>, ks: seq<Shape<E>>)
    requires |ks| == |vs|
    ensures |LeftWeave(vs, ks)| == |vs| + InOrderAll(ks)
  {
    if vs != [] {
      LeftWeaveLength(vs[1..], ks[1..]);
    }
  }

  lemma {:induction false} RightWeaveLength<E>(vs: seq<E>, ks: seq<Shape<E>>)
    requires |ks| == |vs|
    ensures |RightWeave(vs, ks)| == |vs| + InOrderAll(ks)
  {
    if vs != [] {
      RightWeaveLength(vs[1..], ks[1..]);
    }
  }

  lemma Distribute(c: nat, x: nat, y: nat)
    ensures c * (x + y) == c * x + c * y
  {
  }

  /** A tree below the root holds a - 1 entries for each of its nodes, and a node on each of its levels. */
  lemma {:induction false} Filled<E>(t: Shape<E>, h: nat, a: nat, b: nat)
    requires KidFits(t, h, a, b) && a > 0
    ensures (a - 1) * |Bag(t)| <= |InOrder(t)| && h <= |Bag(t)|
    decreases h, 0
  {
    if h > 1 {
      FilledAll(t.kids, h - 1, a, b);
      WeaveLength(t.values, t.kids);
      Distribute(a - 1, 1, |Bags(t.kids)|);
    }
  }

  lemma {:induction false} FilledAll<E>(ts: seq<Shape<E>>, h: nat, a: nat, b: nat)
    requires a > 0 && forall i :: 0 <= i < |ts| ==> KidFits(ts[i], h, a, b)
    ensures (a - 1) * |Bags(ts)| <= InOrderAll(ts) && (ts != [] ==> h <= |Bags(ts)|)
    decreases h, |ts| + 1
  {
    hide KidFits, InOrder, Bag;
    if ts != [] {
      Filled(ts[0], h, a, b);
      FilledAll(ts[1..], h, a, b);
      Distribute(a - 1, |Bag(ts[0])|, |Bags(ts[1..])|);
    }
  }

  /** What a frame and its subtrees hold, without the path above. */
  lemma FrameFilled<E>(f: Frame<E>, id: nat, h: nat, a: nat, b: nat)
    requires FrameFits(f, h, a, b) && a > 0
    ensures |f.values| + (a - 1) * |multiset{FrameNode(f, id)} + Bags(f.left) + Bags(f.right)| - (a - 1)
         <= |LeftWeave(f.values[..|f.left|], f.left)| + |RightWeave(f.values[|f.left|..], f.right)|
  {
    hide KidFits, Bags, InOrder, LeftWeave, RightWeave;
    FilledAll(f.left, h, a, b);
    FilledAll(f.right, h, a, b);
    LeftWeaveLength(f.values[..|f.left|], f.left);
    RightWeaveLength(f.values[|f.left|..], f.right);
    Distribute(a - 1, |Bags(f.left)|, |Bags(f.right)|);
    Distribute(a - 1, 1, |Bags(f.left)| + |Bags(f.right)|);
  }

  /** Only the outermost frame may hold fewer than a - 1 values. */
  lemma {:induction false} PathFilled<E>(fs: Path<E>, id: nat, h: nat, a: nat, b: nat)
    requires PathFits(fs, h, a, b) && SoundPath(fs) && a > 1 && (fs != [] ==> |fs[0].values| > 0)
    ensures (a - 1) * |PathBag(fs, id)| <= |Before(fs)| + |After(fs)| + if fs == [] then 0 else a - 2
    decreases |fs|
  {
    hide FrameFits, FrameNode, LeftWeave, RightWeave, Bags, PathFits, PathBag, Before, After;
    PathStep(fs, id);
    if fs != [] {
      var gs, f := fs[..|fs| - 1], fs[|fs| - 1];
      OuterFits(fs, h, a, b);
      FrameFilled(f, id, h, a, b);
      PathFilled(gs, f.id, h + 1, a, b);
      Distribute(a - 1, |PathBag(gs, f.id)|, |multiset{FrameNode(f, id)} + Bags(f.left) + Bags(f.right)|);
    }
  }

  lemma PathStep<E>(fs: Path<E>, id: nat)
    requires SoundPath(fs)
    ensures fs == [] ==> |PathBag(fs, id)| == 0
    ensures fs != [] ==>
      var gs, f := fs[..|fs| - 1], fs[|fs| - 1];
      && |PathBag(fs, id)| == |PathBag(gs, f.id)| + |multiset{FrameNode(f, id)} + Bags(f.left) + Bags(f.right)|
      && |Before(fs)| + |After(fs)|
         == |Before(gs)| + |After(gs)| + |LeftWeave(f.values[..|f.left|], f.left)|
            + |RightWeave(f.values[|f.left|..], f.right)|
  {
    hide FrameNode, LeftWeave, RightWeave, Bags;
  }

  lemma OuterFits<E>(fs: Path<E>, h: nat, a: nat, b: nat)
    requires PathFits(fs, h, a, b) && fs != []
    ensures PathFits(fs[..|fs| - 1], h + 1, a, b) && FrameFits(fs[|fs| - 1], h, a, b)
    ensures |fs| > 1 ==> a <= |fs[|fs| - 1].values| + 1
  {
    hide FrameFits;
  }

  lemma {:induction false} KeysAndValues<E>(nodes: Store<E>)
    requires Keyed(nodes)
    ensures |nodes.Keys| == |multiset(nodes.Values)|
    decreases nodes.Keys
  {
    if nodes != map[] {
      var id :| id in nodes;
      var rest := nodes - {id};
      assert nodes.Keys == rest.Keys + {id};
      assert nodes.Values == rest.Values + {nodes[id]};
      KeysAndValues(rest);
    }
  }

  lemma SmallerFactor(c: nat, x: nat, y: nat)
    requires c * x < c * y
    ensures x < y
  {
  }

  /** Before a split there are fewer nodes than any number that suffices for the entries; before the root is split,
      fewer by two. */
  lemma NodesFit<V>(nodes: Store<Entry<V>>, fs: Path<Entry<V>>, cur: Shape<Entry<V>>, h: nat, a: nat, b: nat,
                    s: seq<Entry<V>>, n: nat)
    requires Splitting(nodes, fs, cur, h, a, b, s) && |cur.values| == b && Suffices(n, a, |s|)
    ensures |nodes.Keys| < n
    ensures fs == [] ==> |nodes.Keys| + 1 < n && h + 1 < n
  {
    hide PathFits, SoundPath, PathBag, Bags, Before, After, Sorted, InOrder, KidFits;
    var c, kids := a - 1, Bags(cur.kids);
    KeysAndValues(nodes);
    PathFilled(fs, cur.id, h, a, b);
    WideFilled(cur, h, a, b);
    Distribute(c, |PathBag(fs, cur.id)| + 1, |kids|);
    Distribute(c, |PathBag(fs, cur.id)|, 1);
    assert |nodes.Keys| == |PathBag(fs, cur.id)| + 1 + |kids|;
    SmallerFactor(c, |nodes.Keys|, n);
    if fs == [] {
      assert PathBag(fs, cur.id) == multiset{} by { NoPath(cur.id, fs); }
      Distribute(c, |nodes.Keys|, 1);
      SmallerFactor(c, |nodes.Keys| + 1, n);
    }
  }

  lemma NoPath<E>(id: nat, fs: Path<E>)
    requires fs == []
    ensures PathBag(fs, id) == multiset{}
  {
  }

  lemma WideFilled<E>(cur: Shape<E>, h: nat, a: nat, b: nat)
    requires Wide(cur, h, a, b) && a > 0
    ensures (a - 1) * |Bags(cur.kids)| + |cur.values| <= |InOrder(cur)| && h <= |Bags(cur.kids)| + 1
  {
    hide KidFits, Bags;
    if h > 1 {
      FilledAll(cur.kids, h - 1, a, b);
      WeaveLength(cur.values, cur.kids);
    } else {
      assert |Bags(cur.kids)| == 0 by { NoKids(cur); }
    }
  }

  lemma NoKids<E>(t: Shape<E>)
    requires t.kids == []
    ensures Bags(t.kids) == multiset{}
  {
  }

  // ---- whole trees ----

  lemma {:induction false} Crowded<E>(t: Shape<E>, h: nat, a: nat, b: nat)
    requires Uniform(t, h) && Bounded(t, a, b) && b > 0
    ensures |InOrder(t)| <= (b - 1) * |Bag(t)|
    decreases h, 0
  {
    if h > 1 {
      CrowdedAll(t.kids, h - 1, a, b);
      WeaveLength(t.values, t.kids);
      Distribute(b - 1, 1, |Bags(t.kids)|);
    }
  }

  lemma {:induction false} CrowdedAll<E>(ts: seq<Shape<E>>, h: nat, a: nat, b: nat)
    requires b > 0 && forall i :: 0 <= i < |ts| ==> Uniform(ts[i], h) && Bounded(ts[i], a, b)
    ensures InOrderAll(ts) <= (b - 1) * |Bags(ts)|
    decreases h, |ts| + 1
  {
    hide Uniform, Bounded, InOrder, Bag;
    if ts != [] {
      Crowded(ts[0], h, a, b);
      CrowdedAll(ts[1..], h, a, b);
      Distribute(b - 1, |Bag(ts[0])|, |Bags(ts[1..])|);
    }
  }

  /** n nodes hold that many entries, with at most b - 1 in each, and at least a - 1 in each but one. */
  ghost predicate Dense(n: nat, a: nat, b: nat, entries: nat) {
    entries <= (b - 1) * n && (n > 1 ==> (a - 1) * (n - 1) < entries)
  }

  /** How many nodes a whole tree takes for its entries, between the fullest and the emptiest. */
  lemma NodeCount<E>(nodes: Store<E>, t: Shape<E>, h: nat, a: nat, b: nat)
    requires Holds(nodes, t) && Proper(t, h, a, b) && a > 1 && b > 0
    ensures Dense(|nodes.Keys|, a, b, |InOrder(t)|)
  {
    KeysAndValues(nodes);
    Crowded(t, h, a, b);
    if h > 1 {
      FilledAll(t.kids, h - 1, a, b);
      WeaveLength(t.values, t.kids);
    } else {
      NoKids(t);
    }
  }
}

/** What going down the tree after a key knows about the rest of the tree. */
module Search {
  import opened Shapes
  import opened Frames
  import opened Entries

  /** The store holds one search tree of depth h, rooted at id 0, with every node within bounds. */
  ghost predicate TreeStored<V>(nodes: Store<Entry<V>>, h: nat, a: nat, b: nat) {
    var t := Unfold(nodes, 0, h);
    Holds(nodes, t) && Proper(t, h, a, b) && Sorted(InOrder(t))
  }

  lemma Conclude<V>(nodes: Store<Entry<V>>, t: Shape<Entry<V>>, h: nat, a: nat, b: nat)
    requires Holds(nodes, t) && t.id == 0 && Proper(t, h, a, b) && Sorted(InOrder(t))
    ensures TreeStored(nodes, h, a, b) && Unfold(nodes, 0, h) == t
  {
    UnfoldStored(nodes, t, h);
  }

  /** The node at which the search for key stops: the one that holds it, or the leaf where it would go. */
  ghost function Stop<V>(t: Shape<Entry<V>>, key: Key): Shape<Entry<V>> {
    if HasKey(t.values, key) || Rank(t.values, key) >= |t.kids| then t
    else Stop(t.kids[Rank(t.values, key)], key)
  }

  ghost predicate HasKey<V>(s: seq<Entry<V>>, key: Key) {
    exists i :: 0 <= i < |s| && s[i].key == key
  }

  /** How many leading entries lie below key. */
  ghost function Rank<V>(s: seq<Entry<V>>, key: Key): (r: nat)
    ensures r <= |s|
  {
    if s == [] || s[0].key >= key then 0 else 1 + Rank(s[1..], key)
  }

  lemma {:induction false} RankIs<V>(s: seq<Entry<V>>, key: Key, p: nat)
    requires p <= |s| && Below(s[..p], key) && (p < |s| ==> key <= s[p].key)
    ensures Rank(s, key) == p
  {
    if p > 0 {
      assert s[0] == s[..p][0];
      assert s[1..][..p - 1] == s[..p][1..];
      RankIs(s[1..], key, p - 1);
    }
  }

  /** The search for key in t0 has come to cur, which lies below the path fs. */
  ghost predicate At<V>(t0: Shape<Entry<V>>, fs: Path<Entry<V>>, cur: Shape<Entry<V>>, h: nat, a: nat, b: nat,
                        key: Key) {
    && Placed(fs, cur, h, a, b)
    && Plug(fs, cur) == t0
    && Below(Before(fs), key)
    && Above(After(fs), key)
    && Stop(cur, key) == Stop(t0, key)
  }

  ghost predicate Placed<E>(fs: Path<E>, cur: Shape<E>, h: nat, a: nat, b: nat) {
    && a >= 2
    && SoundPath(fs) && PathFits(fs, h, a, b)
    && Uniform(cur, h) && Bounded(cur, a, b)
    && (fs == [] && h > 1 ==> |cur.values| > 0)
    && (fs != [] ==> a <= |cur.values| + 1 && |fs[0].values| > 0)
  }

  lemma AtRoot<V>(nodes: Store<Entry<V>>, h: nat, a: nat, b: nat, key: Key)
    requires TreeStored(nodes, h, a, b) && a >= 2
    ensures var t0 := Unfold(nodes, 0, h);
            At(t0, [], t0, h, a, b, key) && Sorted(InOrder(t0)) && Holds(nodes, t0) && t0.id == 0
  {
  }

  lemma {:induction false} LeftWeaveBelow<V>(vs: seq<Entry<V>>, ks: seq<Shape<Entry<V>>>, key: Key)
    requires |vs| == |ks| && Sorted(LeftWeave(vs, ks)) && Below(vs, key)
    ensures Below(LeftWeave(vs, ks), key)
  {
    if ks != [] {
      var x, y := InOrder(ks[0]) + [vs[0]], LeftWeave(vs[1..], ks[1..]);
      SortedParts(x, y);
      LeftWeaveBelow(vs[1..], ks[1..], key);
      assert forall i :: 0 <= i < |x| - 1 ==> x[i].key < x[|x| - 1].key;
    }
  }

  lemma {:induction false} RightWeaveAbove<V>(vs: seq<Entry<V>>, ks: seq<Shape<Entry<V>>>, key: Key)
    requires |vs| == |ks| && Sorted(RightWeave(vs, ks)) && Above(vs, key)
    ensures Above(RightWeave(vs, ks), key)
  {
    if ks != [] {
      var s := RightWeave(vs, ks);
      assert s[0] == vs[0];
      assert forall i :: 0 < i < |s| ==> s[0].key < s[i].key;
    }
  }

  /** The values of a node stand in the same order as in its subtree. */
  lemma {:induction false} WeaveSorted<V>(vs: seq<Entry<V>>, ks: seq<Shape<Entry<V>>>)
    requires ks == [] || |ks| == |vs| + 1
    requires Sorted(Weave(vs, ks))
    ensures Sorted(vs)
    ensures forall low: Key :: Above(Weave(vs, ks), low) ==> Above(vs, low)
  {
    if ks != [] && vs != [] {
      var x, y := InOrder(ks[0]) + [vs[0]], Weave(vs[1..], ks[1..]);
      SortedParts(x, y);
      assert x[|x| - 1] == vs[0];
      assert Above(y, vs[0].key);
      WeaveSorted(vs[1..], ks[1..]);
      forall low: Key | Above(Weave(vs, ks), low) ensures Above(vs, low) {
        assert Weave(vs, ks)[|x| - 1] == vs[0];
      }
    }
  }

  lemma SortedAt<V>(fs: Path<Entry<V>>, cur: Shape<Entry<V>>)
    requires SoundPath(fs) && Sorted(Before(fs) + InOrder(cur) + After(fs))
    ensures Sorted(Before(fs)) && Sorted(InOrder(cur)) && Sorted(After(fs))
  {
    SortedParts(Before(fs) + InOrder(cur), After(fs));
    SortedParts(Before(fs), InOrder(cur));
  }

  /** The node the search has come to is stored, and its values are sorted. */
  lemma AtNode<V>(nodes: Store<Entry<V>>, t0: Shape<Entry<V>>, fs: Path<Entry<V>>, cur: Shape<Entry<V>>,
                  h: nat, a: nat, b: nat, key: Key)
    requires At(t0, fs, cur, h, a, b, key) && Sorted(InOrder(t0)) && Holds(nodes, t0)
    ensures cur.id in nodes && nodes[cur.id] == View(cur)
    ensures Sorted(InOrder(cur)) && Sorted(cur.values) && h > 0
    ensures cur.kids == [] || |cur.kids| == |cur.values| + 1
  {
    PlugBag(fs, cur);
    assert View(cur) in Bag(t0);
    StoredOnce(nodes, View(cur));
    PlugInOrder(fs, cur);
    SortedAt(fs, cur);
    WeaveSorted(cur.values, cur.kids);
  }

  /** One step down: to the child between the neighbours of key. */
  lemma AtChild<V>(t0: Shape<Entry<V>>, fs: Path<Entry<V>>, cur: Shape<Entry<V>>, p: nat,
                   h: nat, a: nat, b: nat, key: Key)
    requires At(t0, fs, cur, h, a, b, key) && Sorted(InOrder(t0)) && cur.kids != []
    requires p <= |cur.values| && Below(cur.values[..p], key) && Above(cur.values[p..], key)
    ensures h > 1 && p < |cur.kids|
    ensures At(t0, fs + [Step(cur, p)], cur.kids[p], h - 1, a, b, key)
    ensures |View(cur).children| == |cur.kids| && View(cur).children[p] == cur.kids[p].id
  {
    DownFits(fs, cur, p, h, a, b);
    DownOrder(t0, fs, cur, p, h, a, b, key);
    RankIs(cur.values, key, p);
    forall i | 0 <= i < |cur.values| ensures cur.values[i].key != key {
      if i < p {
        assert cur.values[i] == cur.values[..p][i];
      } else {
        assert cur.values[i] == cur.values[p..][i - p];
      }
    }
  }

  lemma DownFits<E>(fs: Path<E>, cur: Shape<E>, p: nat, h: nat, a: nat, b: nat)
    requires Placed(fs, cur, h, a, b) && p < |cur.kids|
    ensures h > 1 && Placed(fs + [Step(cur, p)], cur.kids[p], h - 1, a, b)
    ensures Plug(fs + [Step(cur, p)], cur.kids[p]) == Plug(fs, cur)
    ensures FrameNode(Step(cur, p), cur.kids[p].id) == View(cur)
  {
    Descend(fs, cur, p, h, a, b);
    SoundPathFits(fs + [Step(cur, p)], h - 1, a, b);
  }

  lemma DownSides<E>(fs: Path<E>, f: Frame<E>)
    requires SoundPath(fs) && Sound(f)
    ensures SoundPath(fs + [f])
    ensures Before(fs + [f]) == Before(fs) + LeftWeave(f.values[..|f.left|], f.left)
    ensures After(fs + [f]) == RightWeave(f.values[|f.left|..], f.right) + After(fs)
  {
    var gs := fs + [f];
    assert gs[..|gs| - 1] == fs;
  }

  lemma DownOrder<V>(t0: Shape<Entry<V>>, fs: Path<Entry<V>>, cur: Shape<Entry<V>>, p: nat,
                     h: nat, a: nat, b: nat, key: Key)
    requires At(t0, fs, cur, h, a, b, key) && Sorted(InOrder(t0)) && p < |cur.kids|
    requires p <= |cur.values| && Below(cur.values[..p], key) && Above(cur.values[p..], key)
    ensures var gs := fs + [Step(cur, p)];
            SoundPath(gs) && Below(Before(gs), key) && Above(After(gs), key)
  {
    var gs := fs + [Step(cur, p)];
    DownFits(fs, cur, p, h, a, b);
    DownSides(fs, Step(cur, p));
    PlugInOrder(gs, cur.kids[p]);
    SortedAt(gs, cur.kids[p]);
    var l, r := LeftWeave(cur.values[..p], cur.kids[..p]), RightWeave(cur.values[p..], cur.kids[p + 1..]);
    SortedParts(Before(fs), l);
    SortedParts(r, After(fs));
    LeftWeaveBelow(cur.values[..p], cur.kids[..p], key);
    RightWeaveAbove(cur.values[p..], cur.kids[p + 1..], key);
  }

  lemma StopsAt<V>(t: Shape<Entry<V>>, p: nat, key: Key)
    requires (p < |t.values| && t.values[p].key == key) || t.kids == []
    ensures Stop(t, key) == t
  {
  }
}

/** The downward half of Delete: taking the key, or the entry before it, out of a leaf. */
module Deletes {
  import opened Shapes
  import opened Frames
  import opened Entries
  import opened Search
  import opened Slices
  import opened Splits
  import opened Balances

  /** One entry of the path stack: a visited node and its position among the children of its parent. */
  datatype DeleteStep = DeleteStep(visitedNode: nat, positionInParent: nat)

  ghost function PositionAfter<E>(fs: Path<E>): nat {
    if fs == [] then 0 else |fs[|fs| - 1].left|
  }

  /** The path stack once the node called id, below the path fs, has been pushed. */
  ghost function Steps<E>(fs: Path<E>, id: nat): seq<DeleteStep> {
    (if fs == [] then [] else Steps(fs[..|fs| - 1], fs[|fs| - 1].id)) + [DeleteStep(id, PositionAfter(fs))]
  }

  lemma StepsDown<E>(fs: Path<E>, t: Shape<E>, p: nat)
    requires p < |t.kids|
    ensures Steps(fs + [Step(t, p)], t.kids[p].id) == Steps(fs, t.id) + [DeleteStep(t.kids[p].id, p)]
  {
    var gs := fs + [Step(t, p)];
    assert gs[..|gs| - 1] == fs;
  }

  lemma StepsUp<E>(gs: Path<E>, f: Frame<E>, id: nat)
    ensures Steps(gs + [f], id) == Steps(gs, f.id) + [DeleteStep(id, |f.left|)]
  {
    var fs := gs + [f];
    assert fs[..|fs| - 1] == gs;
  }

  /** Drops the entry just before the one with the given key. */
  ghost function DropBefore<V>(s: seq<Entry<V>>, key: Key): seq<Entry<V>> {
    if |s| < 2 then s
    else if s[1].key == key then s[1..]
    else [s[0]] + DropBefore(s[1..], key)
  }

  /** What Delete makes of the entries s: the write of the predecessor into an inner node may be lost. */
  ghost function Deleted<V>(s: seq<Entry<V>>, key: Key, inPlace: bool): seq<Entry<V>> {
    if inPlace || !HasKey(s, key) then Drop(s, key) else DropBefore(s, key)
  }

  lemma {:induction false} DropBeforeKeeps<V>(s: seq<Entry<V>>, key: Key)
    requires Sorted(s) && HasKey(s, key)
    ensures HasKey(DropBefore(s, key), key)
  {
    var i :| 0 <= i < |s| && s[i].key == key;
    if |s| >= 2 && s[1].key == key {
      assert s[1..][0].key == key;
    } else if |s| >= 2 && i > 0 {
      assert s[1..][i - 1].key == key;
      DropBeforeKeeps(s[1..], key);
      var t := DropBefore(s[1..], key);
      var k :| 0 <= k < |t| && t[k].key == key;
      assert ([s[0]] + t)[k + 1].key == key;
    } else if |s| >= 2 {
      assert ([s[0]] + DropBefore(s[1..], key))[0].key == key;
    }
  }

  /** Delete removes the key exactly when nothing is lost; otherwise the key stays. */
  lemma DeletedIsRemoval<V>(s: seq<Entry<V>>, key: Key, inPlace: bool)
    requires Sorted(s)
    ensures Content(Deleted(s, key, inPlace)) == Content(s) - {key} <==> inPlace || key !in Content(s)
  {
    ContentKeys(s);
    DropSorted(s, key);
    if !inPlace && HasKey(s, key) {
      DropBeforeKeeps(s, key);
      ContentKeys(DropBefore(s, key));
    }
  }

  /** Otherwise it is the entry before that goes. */
  lemma {:induction false} DeletedInstead<V>(s: seq<Entry<V>>, key: Key, i: nat)
    requires Sorted(s) && 0 < i < |s| && s[i].key == key
    ensures Content(DropBefore(s, key)) == Content(s) - {s[i - 1].key}
  {
    TailSorted(s);
    if i == 1 {
      ContentKeys(s[1..]);
      assert s[0].key !in Content(s[1..]);
    } else {
      assert s[1..][i - 1] == s[i] && s[1..][i - 2] == s[i - 1];
      DeletedInstead(s[1..], key, i - 1);
      assert ([s[0]] + DropBefore(s[1..], key))[1..] == DropBefore(s[1..], key);
    }
  }

  /** The greatest key below the given one. */
  ghost predicate Predecessor<V>(m: map<Key, V>, key: Key, p: Key) {
    p in m && p < key && forall k :: k in m && k < key ==> k <= p
  }

  ghost predicate Preceded<V>(s: seq<Entry<V>>, key: Key) {
    exists i :: 0 < i < |s| && s[i].key == key
  }

  /** The entry before the key is that of its predecessor. */
  lemma PredecessorDropped<V>(s: seq<Entry<V>>, key: Key) returns (p: Key)
    requires Sorted(s) && Preceded(s, key)
    ensures Predecessor(Content(s), key, p) && Content(DropBefore(s, key)) == Content(s) - {p}
  {
    var i :| 0 < i < |s| && s[i].key == key;
    p := s[i - 1].key;
    DeletedInstead(s, key, i);
    ContentKeys(s);
    forall k | k in Content(s) && k < key ensures k <= p {
      var j :| 0 <= j < |s| && s[j].key == k;
      assert j <= i - 1;
    }
  }

  /** A key in an inner node has entries before it. */
  lemma InnerPreceded<V>(t0: Shape<Entry<V>>, fs: Path<Entry<V>>, cur: Shape<Entry<V>>, p: nat, h: nat, a: nat,
                         b: nat, key: Key)
    requires At(t0, fs, cur, h, a, b, key) && p < |cur.values| && cur.values[p].key == key && cur.kids != []
    ensures Preceded(InOrder(t0), key)
  {
    DownFits(fs, cur, p, h, a, b);
    var l, k := LeftWeave(cur.values[..p], cur.kids[..p]), cur.kids[p];
    var r := RightWeave(cur.values[p..], cur.kids[p + 1..]);
    assert cur.values == cur.values[..p] + cur.values[p..];
    assert cur.kids == cur.kids[..p] + [k] + cur.kids[p + 1..];
    WeaveAround(cur.values[..p], cur.kids[..p], k, cur.values[p..], cur.kids[p + 1..]);
    WeaveNonempty(k.values, k.kids);
    PlugInOrder(fs, cur);
    var s := InOrder(t0);
    assert s == Before(fs) + (l + InOrder(k) + r) + After(fs);
    var i := |Before(fs)| + |l| + |InOrder(k)|;
    assert r[0] == cur.values[p];
    assert s[i] == r[0];
  }

  lemma {:induction false} WeaveNonempty<E>(vs: seq<E>, ks: seq<Shape<E>>)
    requires vs != []
    ensures Weave(vs, ks) != []
  {
  }

  lemma {:induction false} DropBeforeAt<V>(x: seq<Entry<V>>, p: Entry<V>, o: Entry<V>, y: seq<Entry<V>>)
    requires Below(x, o.key) && p.key < o.key
    ensures DropBefore(x + [p] + [o] + y, o.key) == x + [o] + y
  {
    var s := x + [p] + [o] + y;
    if x == [] {
      assert s[1..] == [o] + y;
    } else {
      assert s[1..] == x[1..] + [p] + [o] + y;
      assert s[1] == if |x| > 1 then x[1] else p;
      DropBeforeAt(x[1..], p, o, y);
    }
  }

  // ---- a leaf loses an entry ----

  lemma PendingFrom<E>(nodes: Store<E>, fs: Path<E>, cur: Shape<E>, c: Shape<E>)
    requires Holds(nodes, Plug(fs, cur)) && c.id == cur.id && c.kids == cur.kids
    ensures Pending(nodes, fs, c) && nodes[cur.id] == View(cur)
  {
    hide Bags, PathBag, Plug;
    PlugBag(fs, cur);
    assert View(cur) in multiset(nodes.Values);
    StoredOnce(nodes, View(cur));
  }

  lemma LeafStored<V>(nodes: Store<Entry<V>>, fs: Path<Entry<V>>, cur: Shape<Entry<V>>, c: Shape<Entry<V>>)
    requires Holds(nodes, Plug(fs, cur)) && c.id == cur.id && c.kids == cur.kids
    ensures Holds(nodes[cur.id := View(c)], Plug(fs, c))
  {
    hide Plug;
    PendingFrom(nodes, fs, cur, c);
    SettledStored(nodes, fs, c);
  }

  lemma ThinLeaf<E>(fs: Path<E>, cur: Shape<E>, values: seq<E>, h: nat, a: nat, b: nat)
    requires Placed(fs, cur, h, a, b) && cur.kids == [] && |values| + 1 == |cur.values| && 2 * a - 1 <= b
    ensures ThinFits(fs, cur.(values := values), h, a, b)
  {
  }

  /** The key was in a leaf. */
  lemma LeafPopped<V>(nodes: Store<Entry<V>>, t0: Shape<Entry<V>>, fs: Path<Entry<V>>, cur: Shape<Entry<V>>, p: nat,
                      h: nat, a: nat, b: nat, key: Key)
    requires At(t0, fs, cur, h, a, b, key) && Sorted(InOrder(t0)) && Holds(nodes, t0) && 2 * a - 1 <= b
    requires cur.kids == [] && p < |cur.values| && cur.values[p].key == key
    ensures var c := cur.(values := Removed(cur.values, p));
            && Balancing(nodes[cur.id := View(c)], fs, c, h, a, b, Drop(InOrder(t0), key))
            && Plug(fs, c).id == t0.id
    ensures Stop(t0, key) == cur
  {
    StopsAt(cur, p, key);
    var c := cur.(values := Removed(cur.values, p));
    LeafStored(nodes, fs, cur, c);
    ThinLeaf(fs, cur, c.values, h, a, b);
    LeafReads(fs, cur, p, InOrder(t0));
    PlugIdOnly(fs, cur, c);
  }

  lemma LeafReads<V>(fs: Path<Entry<V>>, cur: Shape<Entry<V>>, p: nat, s: seq<Entry<V>>)
    requires SoundPath(fs) && Sorted(s) && s == InOrder(Plug(fs, cur))
    requires cur.kids == [] && p < |cur.values|
    ensures Reads(fs, cur.(values := Removed(cur.values, p)), Drop(s, cur.values[p].key))
  {
    hide Before, After, Sorted, Drop, Content, SoundPath, Plug;
    var vl, m, vr := cur.values[..p], cur.values[p], cur.values[p + 1..];
    PlugInOrder(fs, cur);
    LeafInOrder(cur);
    LeafInOrder(cur.(values := vl + vr));
    assert cur.values == vl + [m] + vr;
    DropMiddle(Before(fs), vl, m, vr, After(fs));
    DropSorted(s, m.key);
  }

  lemma LeafInOrder<E>(t: Shape<E>)
    requires t.kids == []
    ensures InOrder(t) == t.values
  {
  }

  // ---- an inner node gets a new separator ----

  ghost function HoleOf<E>(tail: Path<E>, hole: nat): nat {
    if tail == [] then hole else tail[0].id
  }

  ghost predicate Rightmost<E>(tail: Path<E>) {
    forall i :: 0 <= i < |tail| ==> tail[i].right == []
  }

  /** The frame with another value right of its gap. */
  ghost function Reseparated<E>(f: Frame<E>, e: E): Frame<E>
    requires |f.left| < |f.values|
  {
    f.(values := f.values[|f.left| := e])
  }

  lemma TailParts<E>(fs: Path<E>, f: Frame<E>, tail: Path<E>)
    requires tail != []
    ensures (fs + [f] + tail)[..|fs| + |tail|] == fs + [f] + tail[..|tail| - 1]
    ensures (fs + [f] + tail)[|fs| + |tail|] == tail[|tail| - 1]
  {
  }

  lemma {:induction false} PathBagReseparated<E>(fs: Path<E>, f: Frame<E>, e: E, tail: Path<E>, hole: nat)
    requires |f.left| < |f.values|
    ensures FrameNode(f, HoleOf(tail, hole)) in PathBag(fs + [f] + tail, hole)
    ensures PathBag(fs + [Reseparated(f, e)] + tail, hole)
         == PathBag(fs + [f] + tail, hole) - multiset{FrameNode(f, HoleOf(tail, hole))}
            + multiset{FrameNode(Reseparated(f, e), HoleOf(tail, hole))}
  {
    hide Bags, PathBag, FrameNode;
    var g := Reseparated(f, e);
    if tail == [] {
      assert fs + [f] + tail == fs + [f] && fs + [g] + tail == fs + [g];
      PathBagLast(fs, f, hole);
      PathBagLast(fs, g, hole);
    } else {
      var init, last := tail[..|tail| - 1], tail[|tail| - 1];
      PathBagReseparated(fs, f, e, init, last.id);
      assert HoleOf(init, last.id) == HoleOf(tail, hole);
      PathBagLast(fs + [f] + init, last, hole);
      PathBagLast(fs + [g] + init, last, hole);
      assert fs + [f] + tail == (fs + [f] + init) + [last] && fs + [g] + tail == (fs + [g] + init) + [last];
      ReplaceInSum(PathBag(fs + [f] + init, last.id), FrameNode(f, HoleOf(tail, hole)),
                   FrameNode(g, HoleOf(tail, hole)),
                   multiset{FrameNode(last, hole)} + Bags(last.left) + Bags(last.right));
    }
  }

  lemma PathBagLast<E>(fs: Path<E>, f: Frame<E>, hole: nat)
    ensures PathBag(fs + [f], hole)
         == PathBag(fs, f.id) + (multiset{FrameNode(f, hole)} + Bags(f.left) + Bags(f.right))
  {
    assert (fs + [f])[..|fs|] == fs;
  }

  lemma ReplaceInSum<N>(m: multiset<N>, p: N, q: N, rest: multiset<N>)
    requires p in m
    ensures p in m + rest && m - multiset{p} + multiset{q} + rest == m + rest - multiset{p} + multiset{q}
  {
  }

  lemma {:induction false} BeforeReseparated<E>(fs: Path<E>, f: Frame<E>, e: E, tail: Path<E>)
    requires SoundPath(fs + [f] + tail) && |f.left| < |f.values|
    ensures SoundPath(fs + [Reseparated(f, e)] + tail)
    ensures Before(fs + [Reseparated(f, e)] + tail) == Before(fs + [f] + tail)
  {
    var g := Reseparated(f, e);
    if tail == [] {
      assert fs + [f] + tail == fs + [f] && fs + [g] + tail == fs + [g];
      assert (fs + [f])[..|fs|] == fs && (fs + [g])[..|fs|] == fs;
      assert (fs + [f])[|fs|] == f && (fs + [g])[|fs|] == g;
      assert g.values[..|g.left|] == f.values[..|f.left|];
      assert Sound(f) && Sound(g);
    } else {
      TailParts(fs, f, tail);
      TailParts(fs, g, tail);
      BeforeReseparated(fs, f, e, tail[..|tail| - 1]);
    }
  }

  lemma {:induction false} AfterRightmost<E>(fs: Path<E>, f: Frame<E>, tail: Path<E>)
    requires SoundPath(fs + [f] + tail) && Rightmost(tail)
    ensures SoundPath(fs + [f]) && After(fs + [f] + tail) == After(fs + [f])
  {
    if tail == [] {
      assert fs + [f] + tail == fs + [f];
    } else {
      TailParts(fs, f, tail);
      AfterRightmost(fs, f, tail[..|tail| - 1]);
    }
  }

  /** Everything right of the gap but the separator next to it. */
  ghost function Beyond<E>(fs: Path<E>, f: Frame<E>): seq<E>
    requires SoundPath(fs) && Sound(f) && f.right != []
  {
    InOrder(f.right[0]) + RightWeave(f.values[|f.left| + 1..], f.right[1..]) + After(fs)
  }

  lemma AfterFrame<E>(fs: Path<E>, f: Frame<E>)
    requires SoundPath(fs) && Sound(f) && f.right != []
    ensures SoundPath(fs + [f]) && After(fs + [f]) == [f.values[|f.left|]] + Beyond(fs, f)
  {
    DownSides(fs, f);
    var vr := f.values[|f.left|..];
    assert vr[1..] == f.values[|f.left| + 1..];
    assert RightWeave(vr, f.right) == [vr[0]] + InOrder(f.right[0]) + RightWeave(vr[1..], f.right[1..]);
  }

  lemma PathFitsReseparated<E>(fs: Path<E>, f: Frame<E>, e: E, tail: Path<E>, h: nat, a: nat, b: nat)
    requires PathFits(fs + [f] + tail, h, a, b) && |f.left| < |f.values|
    ensures PathFits(fs + [Reseparated(f, e)] + tail, h, a, b)
    ensures |(fs + [Reseparated(f, e)] + tail)[0].values| == |(fs + [f] + tail)[0].values|
  {
    var g := Reseparated(f, e);
    var ps, qs := fs + [f] + tail, fs + [g] + tail;
    forall i | 0 <= i < |qs|
      ensures FrameFits(qs[i], h + |qs| - 1 - i, a, b) && (i > 0 ==> a <= |qs[i].values| + 1)
    {
      assert FrameFits(ps[i], h + |ps| - 1 - i, a, b);
      assert i == |fs| ==> qs[i] == g && ps[i] == f;
      assert i != |fs| ==> qs[i] == ps[i];
    }
  }

  lemma {:induction false} StepsReseparated<E>(fs: Path<E>, f: Frame<E>, e: E, tail: Path<E>, id: nat)
    requires |f.left| < |f.values|
    ensures Steps(fs + [Reseparated(f, e)] + tail, id) == Steps(fs + [f] + tail, id)
  {
    var g := Reseparated(f, e);
    if tail == [] {
      assert fs + [f] + tail == fs + [f] && fs + [g] + tail == fs + [g];
      StepsUp(fs, f, id);
      StepsUp(fs, g, id);
    } else {
      var init, last := tail[..|tail| - 1], tail[|tail| - 1];
      assert fs + [f] + tail == (fs + [f] + init) + [last] && fs + [g] + tail == (fs + [g] + init) + [last];
      StepsReseparated(fs, f, e, init, last.id);
      StepsUp(fs + [f] + init, last, id);
      StepsUp(fs + [g] + init, last, id);
    }
  }

  lemma SeparatorStored<E>(nodes: Store<E>, fs: Path<E>, f: Frame<E>, e: E, tail: Path<E>, c: Shape<E>)
    requires Holds(nodes, Plug(fs + [f] + tail, c)) && |f.left| < |f.values|
    ensures f.id in nodes && nodes[f.id].values == f.values
    ensures Holds(nodes[f.id := nodes[f.id].(values := f.values[|f.left| := e])],
                  Plug(fs + [Reseparated(f, e)] + tail, c))
  {
    hide Bags, Bag, PathBag, Plug;
    var g, hole := Reseparated(f, e), HoleOf(tail, c.id);
    PlugBag(fs + [f] + tail, c);
    PlugBag(fs + [g] + tail, c);
    PathBagReseparated(fs, f, e, tail, c.id);
    assert FrameNode(f, hole) in multiset(nodes.Values);
    StoredOnce(nodes, FrameNode(f, hole));
    ValuesAfterWrite(nodes, FrameNode(g, hole));
    ReplaceInSum(PathBag(fs + [f] + tail, c.id), FrameNode(f, hole), FrameNode(g, hole), Bag(c));
  }

  /** The entries around a separator and the last entry of the rightmost leaf on its left. */
  lemma SeparatorReads<V>(fs: Path<Entry<V>>, f: Frame<Entry<V>>, tail: Path<Entry<V>>, leaf: Shape<Entry<V>>,
                          s: seq<Entry<V>>)
    requires SoundPath(fs + [f] + tail) && Rightmost(tail) && f.right != [] && |f.left| < |f.values|
    requires leaf.kids == [] && leaf.values != []
    requires Sorted(s) && s == InOrder(Plug(fs + [f] + tail, leaf))
    ensures Sound(f) && SoundPath(fs)
    ensures var w, pred, sep := leaf.values[..|leaf.values| - 1], leaf.values[|leaf.values| - 1], f.values[|f.left|];
            var x, y := Before(fs + [f] + tail) + w, Beyond(fs, f);
            && s == x + [pred] + [sep] + y
            && After(fs + [f] + tail) == [sep] + y
            && Drop(s, sep.key) == x + [pred] + y
            && DropBefore(s, sep.key) == x + [sep] + y
            && Sorted(x + [pred] + y) && Sorted(x + [sep] + y)
  {
    hide Before, After, Drop, DropBefore, Plug, InOrder, Content;
    var ps := fs + [f] + tail;
    var w, pred, sep := leaf.values[..|leaf.values| - 1], leaf.values[|leaf.values| - 1], f.values[|f.left|];
    FrameSound(fs, f, tail);
    PlugInOrder(ps, leaf);
    LeafInOrder(leaf);
    AfterRightmost(fs, f, tail);
    AfterFrame(fs, f);
    var x, y := Before(ps) + w, Beyond(fs, f);
    assert leaf.values == w + [pred];
    assert s == x + [pred] + [sep] + y;
    TwoInMiddle(x, pred, sep, y);
  }

  lemma FrameSound<E>(fs: Path<E>, f: Frame<E>, tail: Path<E>)
    requires SoundPath(fs + [f] + tail)
    ensures Sound(f) && SoundPath(fs)
  {
    var ps := fs + [f] + tail;
    assert ps[|fs|] == f;
    assert forall i :: 0 <= i < |fs| ==> ps[i] == fs[i];
  }

  lemma TwoInMiddle<V>(x: seq<Entry<V>>, p: Entry<V>, o: Entry<V>, y: seq<Entry<V>>)
    requires Sorted(x + [p] + [o] + y)
    ensures Drop(x + [p] + [o] + y, o.key) == x + [p] + y
    ensures DropBefore(x + [p] + [o] + y, o.key) == x + [o] + y
    ensures Sorted(x + [p] + y) && Sorted(x + [o] + y)
  {
    hide Drop, DropBefore, Sorted;
    SortedMiddle(x + [p], o, y);
    DropAt(x + [p], o, y);
    assert x + [p] + [o] + y == x + [p] + ([o] + y);
    SortedMiddle(x, p, [o] + y);
    assert x + ([o] + y) == x + [o] + y;
    assert p.key < o.key by {
      assert (x + [p])[|x|] == p;
    }
    assert Below(x, o.key) by {
      assert forall i :: 0 <= i < |x| ==> (x + [p])[i] == x[i];
    }
    DropBeforeAt(x, p, o, y);
  }

  /** The key was in an inner node, and the entry before it has left its leaf. */
  lemma PredecessorTaken<V>(nodes: Store<Entry<V>>, fs: Path<Entry<V>>, f: Frame<Entry<V>>, tail: Path<Entry<V>>,
                            leaf: Shape<Entry<V>>, h: nat, a: nat, b: nat)
    requires Placed(fs + [f] + tail, leaf, h, a, b) && 2 * a - 1 <= b
    requires Rightmost(tail) && f.right != [] && leaf.kids == [] && leaf.values != [] && |f.left| < |f.values|
    requires Sorted(InOrder(Plug(fs + [f] + tail, leaf))) && Holds(nodes, Plug(fs + [f] + tail, leaf))
    ensures var c := leaf.(values := leaf.values[..|leaf.values| - 1]);
            var pred, sep := leaf.values[|leaf.values| - 1], f.values[|f.left|];
            var s := InOrder(Plug(fs + [f] + tail, leaf));
            var n1 := nodes[leaf.id := View(c)];
            && f.id in n1 && n1[f.id].values == f.values
            && Balancing(n1, fs + [f] + tail, c, h, a, b, DropBefore(s, sep.key))
            && Balancing(n1[f.id := n1[f.id].(values := f.values[|f.left| := pred])],
                         fs + [Reseparated(f, pred)] + tail, c, h, a, b, Drop(s, sep.key))
  {
    hide Bags, Bag, PathBag, Plug, InOrder, Before, After, Drop, DropBefore, Sorted, Uniform, Bounded, Beyond, Holds;
    var ps, s := fs + [f] + tail, InOrder(Plug(fs + [f] + tail, leaf));
    var c := leaf.(values := leaf.values[..|leaf.values| - 1]);
    var pred := leaf.values[|leaf.values| - 1];
    var g := Reseparated(f, pred);
    var qs := fs + [g] + tail;
    LeafStored(nodes, ps, leaf, c);
    SeparatorStored(nodes[leaf.id := View(c)], fs, f, pred, tail, c);
    ThinLeaf(ps, leaf, c.values, h, a, b);
    PathFitsReseparated(fs, f, pred, tail, h, a, b);
    assert ThinFits(qs, c, h, a, b);
    PredecessorReads(fs, f, tail, leaf, s);
  }

  lemma PredecessorReads<V>(fs: Path<Entry<V>>, f: Frame<Entry<V>>, tail: Path<Entry<V>>, leaf: Shape<Entry<V>>,
                            s: seq<Entry<V>>)
    requires SoundPath(fs + [f] + tail) && Rightmost(tail) && f.right != [] && |f.left| < |f.values|
    requires leaf.kids == [] && leaf.values != []
    requires Sorted(s) && s == InOrder(Plug(fs + [f] + tail, leaf))
    ensures var c := leaf.(values := leaf.values[..|leaf.values| - 1]);
            && Reads(fs + [f] + tail, c, DropBefore(s, f.values[|f.left|].key))
            && Reads(fs + [Reseparated(f, leaf.values[|leaf.values| - 1])] + tail, c, Drop(s, f.values[|f.left|].key))
  {
    hide Before, After, Drop, DropBefore, Sorted, Plug, Beyond, SoundPath;
    var c := leaf.(values := leaf.values[..|leaf.values| - 1]);
    var pred, sep := leaf.values[|leaf.values| - 1], f.values[|f.left|];
    var g := Reseparated(f, pred);
    var ps, qs := fs + [f] + tail, fs + [g] + tail;
    SeparatorReads(fs, f, tail, leaf, s);
    BeforeReseparated(fs, f, pred, tail);
    AfterRightmost(fs, g, tail);
    AfterFrame(fs, g);
    assert Beyond(fs, g) == Beyond(fs, f) by {
      BeyondReseparated(fs, f, pred);
    }
    LeafInOrder(c);
    assert Before(ps) + c.values + ([sep] + Beyond(fs, f)) == Before(ps) + c.values + [sep] + Beyond(fs, f);
    assert Before(ps) + c.values + ([pred] + Beyond(fs, f)) == Before(ps) + c.values + [pred] + Beyond(fs, f);
  }

  lemma BeyondReseparated<E>(fs: Path<E>, f: Frame<E>, e: E)
    requires SoundPath(fs) && Sound(f) && f.right != [] && |f.left| < |f.values|
    ensures Beyond(fs, Reseparated(f, e)) == Beyond(fs, f)
  {
    assert Reseparated(f, e).values[|f.left| + 1..] == f.values[|f.left| + 1..];
  }

  // ---- the way down ----

  lemma FirstStep<E>(t: Shape<E>)
    ensures Steps<E>([], t.id) == [DeleteStep(t.id, 0)]
  {
  }

  lemma RightmostNone<E>()
    ensures Rightmost<E>([])
  {
  }

  lemma PlacedNode<E>(nodes: Store<E>, fs: Path<E>, t: Shape<E>, h: nat, a: nat, b: nat)
    requires Placed(fs, t, h, a, b) && fs != [] && Holds(nodes, Plug(fs, t))
    ensures t.id in nodes && nodes[t.id] == View(t) && h > 0 && |t.values| > 0
    ensures t.kids != [] ==> h > 1 && |View(t).children| == |t.kids| == |t.values| + 1
  {
    hide Bags, PathBag, Plug;
    PlugBag(fs, t);
    assert View(t) in multiset(nodes.Values);
    StoredOnce(nodes, View(t));
  }

  lemma DownRightmost<E>(fs: Path<E>, tail: Path<E>, t: Shape<E>, h: nat, a: nat, b: nat)
    requires Placed(fs + tail, t, h, a, b) && t.kids != [] && Rightmost(tail)
    ensures var p := |t.kids| - 1;
            var longer := tail + [Step(t, p)];
            && h > 1 && fs + longer == (fs + tail) + [Step(t, p)] && Rightmost(longer)
            && Placed(fs + longer, t.kids[p], h - 1, a, b)
            && Plug(fs + longer, t.kids[p]) == Plug(fs + tail, t)
            && View(t).children[p] == t.kids[p].id
  {
    hide Plug, Placed, PathFits;
    var p := |t.kids| - 1;
    DownFits(fs + tail, t, p, h, a, b);
    assert fs + (tail + [Step(t, p)]) == (fs + tail) + [Step(t, p)];
  }

  /** The search has found its key in an inner node. */
  lemma InnerFound<V>(nodes: Store<Entry<V>>, t0: Shape<Entry<V>>, fs: Path<Entry<V>>, cur: Shape<Entry<V>>, p: nat,
                      h: nat, a: nat, b: nat, key: Key)
    requires At(t0, fs, cur, h, a, b, key) && Sorted(InOrder(t0)) && Holds(nodes, t0)
    requires cur.kids != [] && p < |cur.values| && cur.values[p].key == key
    ensures h > 1 && p < |cur.kids| && View(cur).children[p] == cur.kids[p].id
    ensures var f := Step(cur, p);
            && f.right != [] && |f.left| == p < |f.values| && f.id == cur.id
            && Placed(fs + [f], cur.kids[p], h - 1, a, b)
            && Plug(fs + [f], cur.kids[p]) == t0
    ensures HasKey(InOrder(t0), key) && Stop(t0, key) == cur
  {
    DownFits(fs, cur, p, h, a, b);
    StopsAt(cur, p, key);
    FoundHere(t0, fs, cur, p, h, a, b, key);
    ContentKeys(InOrder(t0));
  }

  lemma {:induction false} StepsLength<E>(fs: Path<E>, id: nat)
    ensures |Steps(fs, id)| == |fs| + 1
    ensures Steps(fs, id)[|fs|].visitedNode == id
  {
    if fs != [] {
      StepsLength(fs[..|fs| - 1], fs[|fs| - 1].id);
    }
  }

  lemma LastEqual<T>(xs: seq<T>, x: T, ys: seq<T>, y: T)
    requires xs + [x] == ys + [y]
    ensures xs == ys && x == y
  {
    assert xs == (xs + [x])[..|xs + [x]| - 1] && ys == (ys + [y])[..|ys + [y]| - 1];
    assert x == (xs + [x])[|xs|] && y == (ys + [y])[|ys|];
  }
}

/** The upward half of Insert: one node on the path may hold a value too many and differ from its stored version. */
module Splits {
  import opened Shapes
  import opened Frames
  import opened Entries
  import opened Search
  import opened Slices

  ghost predicate Wide<E>(t: Shape<E>, h: nat, a: nat, b: nat) {
    && Uniform(t, h)
    && |t.values| <= b
    && (forall i :: 0 <= i < |t.kids| ==> KidFits(t.kids[i], h - 1, a, b))
  }

  /** Everything but cur is stored as it belongs; cur itself is stored in some earlier version. */
  ghost predicate Pending<E>(nodes: Store<E>, fs: Path<E>, cur: Shape<E>) {
    && Keyed(nodes)
    && cur.id in nodes
    && multiset(nodes.Values) == PathBag(fs, cur.id) + multiset{nodes[cur.id]} + Bags(cur.kids)
  }

  ghost predicate Splitting<V>(nodes: Store<Entry<V>>, fs: Path<Entry<V>>, cur: Shape<Entry<V>>,
                               h: nat, a: nat, b: nat, s: seq<Entry<V>>) {
    && SplitFits(fs, cur, h, a, b)
    && Pending(nodes, fs, cur)
    && Reads(fs, cur, s)
  }

  ghost predicate SplitFits<E>(fs: Path<E>, cur: Shape<E>, h: nat, a: nat, b: nat) {
    && a >= 2 && 2 * a - 1 <= b
    && PathFits(fs, h, a, b)
    && Wide(cur, h, a, b)
    && (fs == [] && h > 1 ==> |cur.values| > 0)
    && (fs != [] ==> a <= |cur.values| + 1 && |fs[0].values| > 0)
  }

  /** From left to right the tree reads as the sorted list s. */
  ghost predicate Reads<V>(fs: Path<Entry<V>>, cur: Shape<Entry<V>>, s: seq<Entry<V>>) {
    SoundPath(fs) && Before(fs) + InOrder(cur) + After(fs) == s && Sorted(s)
  }

  ghost function LeftHalf<E>(t: Shape<E>, m: nat, id: nat): Shape<E>
    requires m < |t.values| && (t.kids == [] || |t.kids| == |t.values| + 1)
  {
    Shape(id, t.values[..m], if t.kids == [] then [] else t.kids[..m + 1])
  }

  ghost function RightHalf<E>(t: Shape<E>, m: nat): Shape<E>
    requires m < |t.values| && (t.kids == [] || |t.kids| == |t.values| + 1)
  {
    Shape(t.id, t.values[m + 1..], if t.kids == [] then [] else t.kids[m + 1..])
  }

  /** The stored form of a split: values and children below position m, and those above it. */
  ghost function LowerHalf<E>(n: Node<E>, m: nat, id: nat): Node<E>
    requires m < |n.values| && (n.leaf || |n.children| == |n.values| + 1)
  {
    Node(id, n.values[..m], if n.leaf then [] else n.children[..m + 1], n.leaf)
  }

  ghost function UpperHalf<E>(n: Node<E>, m: nat): Node<E>
    requires m < |n.values| && (n.leaf || |n.children| == |n.values| + 1)
  {
    Node(n.id, n.values[m + 1..], if n.leaf then [] else n.children[m + 1..], n.leaf)
  }

  lemma SplittingShape<V>(nodes: Store<Entry<V>>, fs: Path<Entry<V>>, cur: Shape<Entry<V>>,
                          h: nat, a: nat, b: nat, s: seq<Entry<V>>)
    requires Splitting(nodes, fs, cur, h, a, b, s)
    ensures cur.id in nodes && Pending(nodes, fs, cur)
    ensures (cur.kids == [] || |cur.kids| == |cur.values| + 1) && |cur.values| <= b
    ensures a >= 2 && 2 * a - 1 <= b
    ensures var n := View(cur);
            && n.id == cur.id && n.values == cur.values && (n.leaf <==> cur.kids == [])
            && (if n.leaf then n.children == [] else |n.children| == |n.values| + 1)
  {
  }

  lemma PathIdsStep<E>(fs: Path<E>, t: Shape<E>, p: nat)
    requires p < |t.kids|
    ensures PathIds(fs + [Step(t, p)]) == PathIds(fs) + [t.id]
  {
  }

  lemma LastOf<E>(gs: Path<E>, f: Frame<E>)
    ensures PathIds(gs + [f])[..|gs|] == PathIds(gs)
    ensures |PathIds(gs + [f])| == |gs| + 1 && PathIds(gs + [f])[|gs|] == f.id
  {
  }

  lemma SplitInOrder<E>(t: Shape<E>, m: nat, id: nat)
    requires m < |t.values| && (t.kids == [] || |t.kids| == |t.values| + 1)
    ensures InOrder(t) == InOrder(LeftHalf(t, m, id)) + [t.values[m]] + InOrder(RightHalf(t, m))
    ensures Bags(t.kids) == Bags(LeftHalf(t, m, id).kids) + Bags(RightHalf(t, m).kids)
  {
    var x, y := LeftHalf(t, m, id), RightHalf(t, m);
    assert t.values == x.values + [t.values[m]] + y.values;
    assert t.kids == x.kids + y.kids;
    WeaveSplit(x.values, x.kids, t.values[m], y.values, y.kids);
    BagsConcat(x.kids, y.kids);
  }

  /** An odd b leaves both halves of a node with b values with at least a - 1 of them. */
  lemma HalvesFit<E>(t: Shape<E>, id: nat, h: nat, a: nat, b: nat)
    requires Wide(t, h, a, b) && |t.values| == b && b % 2 == 1 && 2 * a - 1 <= b
    ensures KidFits(LeftHalf(t, b / 2, id), h, a, b) && KidFits(RightHalf(t, b / 2), h, a, b)
  {
    var x, y := LeftHalf(t, b / 2, id), RightHalf(t, b / 2);
    assert |x.values| == b / 2 && |y.values| == b / 2;
    assert forall i :: 0 <= i < |y.kids| ==> y.kids[i] == t.kids[b / 2 + 1 + i];
  }

  /** The parent once the full child has been cut in two. */
  ghost function Widened<E>(f: Frame<E>, x: Shape<E>, m: E, y: Shape<E>): Shape<E>
    requires Sound(f)
  {
    Shape(f.id, f.values[..|f.left|] + [m] + f.values[|f.left|..], f.left + [x, y] + f.right)
  }

  lemma WidenedFits<E>(f: Frame<E>, x: Shape<E>, m: E, y: Shape<E>, h: nat, a: nat, b: nat)
    requires FrameFits(f, h, a, b) && KidFits(x, h, a, b) && KidFits(y, h, a, b)
    ensures Wide(Widened(f, x, m, y), h + 1, a, b)
  {
    var p := Widened(f, x, m, y);
    forall i | 0 <= i < |p.kids| ensures KidFits(p.kids[i], h, a, b) {
    }
  }

  lemma WidenedInOrder<E>(gs: Path<E>, f: Frame<E>, cur: Shape<E>, x: Shape<E>, m: E, y: Shape<E>)
    requires SoundPath(gs) && Sound(f) && InOrder(cur) == InOrder(x) + [m] + InOrder(y)
    ensures SoundPath(gs + [f])
    ensures Before(gs) + InOrder(Widened(f, x, m, y)) + After(gs)
         == Before(gs + [f]) + InOrder(cur) + After(gs + [f])
  {
    var vl, vr := f.values[..|f.left|], f.values[|f.left|..];
    DownSides(gs, f);
    WeavePair(vl, f.left, x, m, y, vr, f.right);
    var l, r := LeftWeave(vl, f.left), RightWeave(vr, f.right);
    Regroup(l, InOrder(x), [m], InOrder(y), r);
    AssocAround(Before(gs), l, InOrder(cur), r, After(gs));
  }

  lemma Regroup<E>(v: seq<E>, w: seq<E>, x: seq<E>, y: seq<E>, z: seq<E>)
    ensures v + w + x + y + z == v + (w + x + y) + z
  {
  }

  /** The value that goes up takes the place between the two halves. */
  lemma WidenedOrder<V>(gs: Path<Entry<V>>, f: Frame<Entry<V>>, x: Shape<Entry<V>>, m: Entry<V>, y: Shape<Entry<V>>)
    requires SoundPath(gs) && Sound(f)
    requires Sorted(Before(gs) + InOrder(Widened(f, x, m, y)) + After(gs))
    ensures Sorted(f.values)
    ensures forall i :: 0 <= i < |f.values| ==> f.values[i].key != m.key
    ensures Put(f.values, m) == Widened(f, x, m, y).values
  {
    var p := Widened(f, x, m, y);
    SortedAt(gs, p);
    WeaveSorted(p.values, p.kids);
    var vl, vr := f.values[..|f.left|], f.values[|f.left|..];
    SortedMiddle(vl, m, vr);
    PutPlace(vl, vr, m);
    assert f.values == vl + vr;
  }

  // ---- what is stored ----

  lemma FrameStored<E>(nodes: Store<E>, gs: Path<E>, f: Frame<E>, cur: Shape<E>)
    requires Pending(nodes, gs + [f], cur)
    ensures f.id in nodes && nodes[f.id] == FrameNode(f, cur.id)
    ensures f.id != cur.id && cur.id !in Ids(f.right)
    ensures multiset(nodes.Values)
         == PathBag(gs, f.id) + multiset{FrameNode(f, cur.id)} + Bags(f.left) + Bags(f.right)
            + multiset{nodes[cur.id]} + Bags(cur.kids)
  {
    var fs := gs + [f];
    assert fs[..|fs| - 1] == gs && fs[|fs| - 1] == f;
    assert FrameNode(f, cur.id) in multiset(nodes.Values);
    StoredOnce(nodes, FrameNode(f, cur.id));
    assert multiset{FrameNode(f, cur.id), nodes[cur.id]} <= multiset(nodes.Values);
    DistinctIds(nodes, FrameNode(f, cur.id), nodes[cur.id]);
    assert multiset{nodes[cur.id]} + Bags(f.right) <= multiset(nodes.Values);
    SiblingIds(nodes, nodes[cur.id], f.right);
  }

  lemma WidenedStored<E>(nodes: Store<E>, gs: Path<E>, f: Frame<E>, cur: Shape<E>, m: nat, id: nat, after: Store<E>)
    requires Pending(nodes, gs + [f], cur) && Sound(f)
    requires m < |cur.values| && (cur.kids == [] || |cur.kids| == |cur.values| + 1)
    requires id !in nodes
    requires after == nodes[cur.id := View(RightHalf(cur, m))][id := View(LeftHalf(cur, m, id))]
    ensures Pending(after, gs, Widened(f, LeftHalf(cur, m, id), cur.values[m], RightHalf(cur, m)))
  {
    hide PathBag, Bags, Ids;
    var x, y := LeftHalf(cur, m, id), RightHalf(cur, m);
    FrameStored(nodes, gs, f, cur);
    SplitInOrder(cur, m, id);
    BagOfPair(f.left, x, y, f.right);
    ValuesAfterWrite(nodes, View(y));
    ValuesAfterWrite(nodes[cur.id := View(y)], View(x));
    SplitBag(multiset(nodes.Values), PathBag(gs, f.id), FrameNode(f, cur.id), Bags(f.left), Bags(f.right),
             nodes[cur.id], Bags(cur.kids), View(x), Bags(x.kids), View(y), Bags(y.kids));
  }

  /** The first i elements have been overwritten by the ones d places on. */
  ghost predicate Shifting<T>(before: seq<T>, after: seq<T>, i: nat, d: nat) {
    && |after| == |before|
    && (0 < i ==> i - 1 + d < |before|)
    && (forall k :: 0 <= k < i && k < |before| - d ==> after[k] == before[k + d])
    && (forall k :: i <= k < |before| ==> after[k] == before[k])
  }

  lemma ShiftNone<T>(before: seq<T>, d: nat)
    ensures Shifting(before, before, 0, d)
  {
  }

  lemma ShiftOne<T>(before: seq<T>, after: seq<T>, i: nat, d: nat)
    requires Shifting(before, after, i, d) && i + d < |before| && d > 0
    ensures |after| == |before| && after[i] == before[i]
    ensures Shifting(before, after[i := after[i + d]], i + 1, d)
  {
  }

  lemma ShiftedDown<T>(before: seq<T>, after: seq<T>, n: nat, d: nat)
    requires Shifting(before, after, n, d) && |before| == n + d && n <= d
    ensures |after| == |before| && after[..n] == before[d..]
  {
  }

  /** The sum behind WidenedStored. */
  lemma SplitBag<N>(stored: multiset<N>, outside: multiset<N>, p: N, l: multiset<N>, r: multiset<N>,
                    old_: N, kids: multiset<N>, x: N, xKids: multiset<N>, y: N, yKids: multiset<N>)
    requires stored == outside + multiset{p} + l + r + multiset{old_} + kids
    requires kids == xKids + yKids
    ensures stored - multiset{old_} + multiset{y} + multiset{x}
         == outside + multiset{p} + (l + (multiset{x} + xKids) + (multiset{y} + yKids) + r)
  {
  }

  ghost function Raised<E>(cur: Shape<E>, m: nat, newId: nat, oldId: nat): Shape<E>
    requires m < |cur.values| && (cur.kids == [] || |cur.kids| == |cur.values| + 1)
  {
    Shape(cur.id, [cur.values[m]], [LeftHalf(cur, m, newId), RightHalf(cur, m).(id := oldId)])
  }

  /** Cutting the root in two puts a new root with its id above the halves. */
  lemma RaisedStored<E>(nodes: Store<E>, cur: Shape<E>, m: nat, newId: nat, oldId: nat, after: Store<E>)
    requires Pending(nodes, [], cur)
    requires m < |cur.values| && (cur.kids == [] || |cur.kids| == |cur.values| + 1)
    requires newId !in nodes && oldId !in nodes && newId != oldId
    requires var t := Raised(cur, m, newId, oldId);
             after == nodes[cur.id := View(t)][oldId := View(t.kids[1])][newId := View(t.kids[0])]
    ensures Holds(after, Raised(cur, m, newId, oldId))
  {
    var t := Raised(cur, m, newId, oldId);
    var x, y := t.kids[0], t.kids[1];
    RaisedBag(cur, m, newId, oldId);
    ValuesAfterWrite(nodes, View(t));
    var n1 := nodes[cur.id := View(t)];
    ValuesAfterWrite(n1, View(y));
    ValuesAfterWrite(n1[oldId := View(y)], View(x));
  }

  lemma RaisedBag<E>(cur: Shape<E>, m: nat, newId: nat, oldId: nat)
    requires m < |cur.values| && (cur.kids == [] || |cur.kids| == |cur.values| + 1)
    ensures var t := Raised(cur, m, newId, oldId);
            Bag(t) == multiset{View(t), View(t.kids[1]), View(t.kids[0])} + Bags(cur.kids)
  {
    hide Weave, Bags, LeftHalf, RightHalf;
    var t := Raised(cur, m, newId, oldId);
    var x, y := t.kids[0], t.kids[1];
    SplitInOrder(cur, m, newId);
    BagsOfTwo(x, y);
    assert Bags(y.kids) == Bags(RightHalf(cur, m).kids);
  }

  lemma BagsOfTwo<E>(x: Shape<E>, y: Shape<E>)
    ensures Bags([x, y]) == Bag(x) + Bag(y)
  {
    assert [x, y][1..] == [y];
    assert Bags([y]) == Bag(y);
  }

  lemma RaisedInOrder<E>(cur: Shape<E>, m: nat, newId: nat, oldId: nat)
    requires m < |cur.values| && (cur.kids == [] || |cur.kids| == |cur.values| + 1)
    ensures InOrder(Raised(cur, m, newId, oldId)) == InOrder(cur)
  {
    var t := Raised(cur, m, newId, oldId);
    var x, y := t.kids[0], t.kids[1];
    SplitInOrder(cur, m, newId);
    assert InOrder(y) == InOrder(RightHalf(cur, m));
    WeaveSplit([], [x], cur.values[m], [], [y]);
    assert t.kids == [x] + [y] && t.values == [] + [cur.values[m]] + [];
    assert Weave([], [x]) == InOrder(x) && Weave([], [y]) == InOrder(y);
  }

  /** A split of the root completes the tree, one level deeper. */
  lemma RaisedTree<V>(nodes: Store<Entry<V>>, cur: Shape<Entry<V>>, newId: nat, oldId: nat,
                      h: nat, a: nat, b: nat, s: seq<Entry<V>>, after: Store<Entry<V>>)
    requires Splitting(nodes, [], cur, h, a, b, s) && |cur.values| == b && b % 2 == 1 && cur.id == 0
    requires newId !in nodes && oldId !in nodes && newId != oldId && (cur.kids == [] || |cur.kids| == |cur.values| + 1)
    requires after == nodes[0 := Node(0, [cur.values[b / 2]], [newId, oldId], false)]
                           [oldId := UpperHalf(View(cur), b / 2).(id := oldId)]
                           [newId := LowerHalf(View(cur), b / 2, newId)]
    ensures TreeStored(after, h + 1, a, b) && InOrder(Unfold(after, 0, h + 1)) == s
  {
    hide Weave, Unfold, Bags, Uniform, Bounded, PathBag;
    var t := Raised(cur, b / 2, newId, oldId);
    assert InOrder(cur) == [] + InOrder(cur) + [] == s;
    HalfViews(cur, b / 2, newId);
    assert View(t) == Node(0, [cur.values[b / 2]], [newId, oldId], false);
    RaisedStored(nodes, cur, b / 2, newId, oldId, after);
    RaisedInOrder(cur, b / 2, newId, oldId);
    RaisedProper(cur, newId, oldId, h, a, b);
    Conclude(after, t, h + 1, a, b);
  }

  lemma HalfViews<E>(t: Shape<E>, m: nat, id: nat)
    requires m < |t.values| && (t.kids == [] || |t.kids| == |t.values| + 1)
    ensures View(LeftHalf(t, m, id)) == LowerHalf(View(t), m, id)
    ensures View(RightHalf(t, m)) == UpperHalf(View(t), m)
  {
  }

  /** The children list around a cut child. */
  lemma WidenedView<E>(f: Frame<E>, x: Shape<E>, m: E, y: Shape<E>)
    requires Sound(f) && y.id !in Ids(f.right)
    ensures LastIndex(FrameNode(f, y.id).children, y.id) >= 0
    ensures View(Widened(f, x, m, y))
         == Node(f.id, Widened(f, x, m, y).values, PlacedBefore(FrameNode(f, y.id).children, x.id, y.id), false)
  {
    IdsOfPair(f.left, x, y, f.right);
    PlacedBeforeOnly(Ids(f.left), x.id, y.id, Ids(f.right));
  }

  lemma RaisedProper<V>(cur: Shape<Entry<V>>, newId: nat, oldId: nat, h: nat, a: nat, b: nat)
    requires Wide(cur, h, a, b) && |cur.values| == b && b % 2 == 1 && a >= 2 && 2 * a - 1 <= b
    ensures Proper(Raised(cur, b / 2, newId, oldId), h + 1, a, b)
  {
    HalvesFit(cur, newId, h, a, b);
    var t := Raised(cur, b / 2, newId, oldId);
    assert KidFits(t.kids[0], h, a, b);
    assert KidFits(t.kids[1], h, a, b);
  }

  /** Persisting a node that is not too wide completes the tree. */
  lemma Settled<V>(nodes: Store<Entry<V>>, fs: Path<Entry<V>>, cur: Shape<Entry<V>>,
                   h: nat, a: nat, b: nat, s: seq<Entry<V>>)
    requires Splitting(nodes, fs, cur, h, a, b, s) && |cur.values| < b && Plug(fs, cur).id == 0
    ensures var after := nodes[cur.id := View(cur)];
            TreeStored(after, h + |fs|, a, b) && InOrder(Unfold(after, 0, h + |fs|)) == s
  {
    var after := nodes[cur.id := View(cur)];
    var t := Plug(fs, cur);
    SettledStored(nodes, fs, cur);
    PlugInOrder(fs, cur);
    assert Bounded(cur, a, b);
    PlugFits(fs, cur, h, a, b);
    Conclude(after, t, h + |fs|, a, b);
  }

  lemma SettledStored<E>(nodes: Store<E>, fs: Path<E>, cur: Shape<E>)
    requires Pending(nodes, fs, cur)
    ensures Holds(nodes[cur.id := View(cur)], Plug(fs, cur))
  {
    ValuesAfterWrite(nodes, View(cur));
    PlugBag(fs, cur);
    var o, k, p := multiset{nodes[cur.id]}, Bags(cur.kids), PathBag(fs, cur.id);
    assert p + o + k - o + multiset{View(cur)} == p + (multiset{View(cur)} + k);
  }

  // ---- what a search finds ----

  lemma InMiddle<V>(x: seq<Entry<V>>, m: seq<Entry<V>>, y: seq<Entry<V>>, key: Key)
    requires Below(x, key) && Above(y, key)
    ensures HasKey(x + m + y, key) ==> HasKey(m, key)
  {
    var s := x + m + y;
    if i :| 0 <= i < |s| && s[i].key == key {
      assert 0 <= i - |x| < |m| && m[i - |x|] == s[i];
    }
  }

  /** The entries of the tree around the p-th value of the node at the end of the path. */
  lemma AroundValue<E>(fs: Path<E>, cur: Shape<E>, p: nat, e: E)
    requires SoundPath(fs) && p < |cur.values| && (cur.kids == [] || |cur.kids| == |cur.values| + 1)
    ensures var x, y := Before(fs) + InOrder(LeftHalf(cur, p, 0)), InOrder(RightHalf(cur, p)) + After(fs);
            Before(fs) + InOrder(cur.(values := cur.values[p := e])) + After(fs) == x + [e] + y
  {
    var c := cur.(values := cur.values[p := e]);
    SplitInOrder(c, p, 0);
    assert c.values[..p] == cur.values[..p] && c.values[p + 1..] == cur.values[p + 1..];
    AssocAround(Before(fs), InOrder(LeftHalf(cur, p, 0)), [e], InOrder(RightHalf(cur, p)), After(fs));
  }

  lemma NotFoundHere<V>(s: seq<Entry<V>>, p: nat, key: Key)
    requires p <= |s| && Below(s[..p], key) && Above(s[p..], key)
    ensures !HasKey(s, key)
  {
    assert s == s[..p] + [] + s[p..];
    InMiddle(s[..p], [], s[p..], key);
  }

  lemma FoundHere<V>(t0: Shape<Entry<V>>, fs: Path<Entry<V>>, cur: Shape<Entry<V>>, p: nat,
                     h: nat, a: nat, b: nat, key: Key)
    requires At(t0, fs, cur, h, a, b, key) && Sorted(InOrder(t0))
    requires p < |cur.values| && cur.values[p].key == key
    ensures var m := Content(InOrder(t0)); key in m && m[key] == cur.values[p].value
  {
    PlugInOrder(fs, cur);
    assert cur.values[p := cur.values[p]] == cur.values;
    AroundValue(fs, cur, p, cur.values[p]);
    var x := Before(fs) + InOrder(LeftHalf(cur, p, 0));
    assert InOrder(t0)[|x|] == cur.values[p];
    ContentAt(InOrder(t0), |x|);
  }

  lemma Missing<V>(t0: Shape<Entry<V>>, fs: Path<Entry<V>>, cur: Shape<Entry<V>>, h: nat, a: nat, b: nat, key: Key)
    requires At(t0, fs, cur, h, a, b, key) && cur.kids == [] && !HasKey(cur.values, key)
    ensures key !in Content(InOrder(t0)) && !HasKey(InOrder(t0), key)
    ensures Drop(InOrder(t0), key) == InOrder(t0)
  {
    PlugInOrder(fs, cur);
    InMiddle(Before(fs), cur.values, After(fs), key);
    ContentKeys(InOrder(t0));
    DropAbsent(InOrder(t0), key);
  }

  lemma AtPending<V>(nodes: Store<Entry<V>>, t0: Shape<Entry<V>>, fs: Path<Entry<V>>, cur: Shape<Entry<V>>,
                     c: Shape<Entry<V>>,
                     h: nat, a: nat, b: nat, key: Key)
    requires At(t0, fs, cur, h, a, b, key) && Sorted(InOrder(t0)) && Holds(nodes, t0)
    requires c.id == cur.id && c.kids == cur.kids
    ensures Pending(nodes, fs, c)
  {
    AtNode(nodes, t0, fs, cur, h, a, b, key);
    PlugBag(fs, cur);
  }

  /** A new value for a key that the tree holds. */
  lemma Replaced<V>(nodes: Store<Entry<V>>, t0: Shape<Entry<V>>, fs: Path<Entry<V>>, cur: Shape<Entry<V>>, p: nat,
                    e: Entry<V>, h: nat, a: nat, b: nat)
    requires At(t0, fs, cur, h, a, b, e.key) && Sorted(InOrder(t0)) && Holds(nodes, t0) && t0.id == 0 && 2 * a - 1 <= b
    requires p < |cur.values| && cur.values[p].key == e.key
    ensures var after := nodes[cur.id := View(cur.(values := cur.values[p := e]))];
            TreeStored(after, h + |fs|, a, b) && InOrder(Unfold(after, 0, h + |fs|)) == Put(InOrder(t0), e)
    ensures HasKey(Stop(t0, e.key).values, e.key)
  {
    StopsAt(cur, p, e.key);
    var c := cur.(values := cur.values[p := e]);
    var s := Put(InOrder(t0), e);
    ReplacedOrder(t0, fs, cur, p, e, h, a, b);
    PutSorted(InOrder(t0), e);
    AtPending(nodes, t0, fs, cur, c, h, a, b, e.key);
    PlugIdOnly(fs, cur, c);
    assert Wide(c, h, a, b);
    Settled(nodes, fs, c, h, a, b, s);
  }

  lemma ReplacedOrder<V>(t0: Shape<Entry<V>>, fs: Path<Entry<V>>, cur: Shape<Entry<V>>, p: nat,
                         e: Entry<V>, h: nat, a: nat, b: nat)
    requires At(t0, fs, cur, h, a, b, e.key) && Sorted(InOrder(t0))
    requires p < |cur.values| && cur.values[p].key == e.key
    ensures Before(fs) + InOrder(cur.(values := cur.values[p := e])) + After(fs) == Put(InOrder(t0), e)
  {
    var x, y := Before(fs) + InOrder(LeftHalf(cur, p, 0)), InOrder(RightHalf(cur, p)) + After(fs);
    PlugInOrder(fs, cur);
    assert cur.values[p := cur.values[p]] == cur.values;
    AroundValue(fs, cur, p, cur.values[p]);
    AroundValue(fs, cur, p, e);
    SortedMiddle(x, cur.values[p], y);
    PutReplace(x, cur.values[p], y, e);
  }

  /** A new key goes into the leaf where the search for it stops. */
  lemma Grown<V>(nodes: Store<Entry<V>>, t0: Shape<Entry<V>>, fs: Path<Entry<V>>, cur: Shape<Entry<V>>,
                 e: Entry<V>, h: nat, a: nat, b: nat)
    requires At(t0, fs, cur, h, a, b, e.key) && Sorted(InOrder(t0)) && Holds(nodes, t0) && 2 * a - 1 <= b
    requires cur.kids == [] && !HasKey(cur.values, e.key)
    ensures Splitting(nodes, fs, cur.(values := Put(cur.values, e)), h, a, b, Put(InOrder(t0), e))
    ensures |Put(cur.values, e)| == |cur.values| + 1
    ensures Stop(t0, e.key) == cur
    ensures Plug(fs, cur.(values := Put(cur.values, e))).id == t0.id
  {
    var c := cur.(values := Put(cur.values, e));
    PlugInOrder(fs, cur);
    PutBetween(Before(fs), cur.values, After(fs), e);
    PutSorted(InOrder(t0), e);
    AtPending(nodes, t0, fs, cur, c, h, a, b, e.key);
    PutLength(cur.values, e);
    StopsAt(cur, 0, e.key);
    PlugIdOnly(fs, cur, c);
  }

  lemma {:induction false} PutLength<V>(s: seq<Entry<V>>, e: Entry<V>)
    requires !HasKey(s, e.key)
    ensures |Put(s, e)| == |s| + 1
  {
    if s != [] {
      assert s[0].key != e.key;
      forall i | 0 <= i < |s[1..]| ensures s[1..][i].key != e.key {
        assert s[1..][i] == s[i + 1];
      }
      PutLength(s[1..], e);
    }
  }

  lemma SplitStepFits<E>(gs: Path<E>, f: Frame<E>, cur: Shape<E>, id: nat, h: nat, a: nat, b: nat)
    requires SplitFits(gs + [f], cur, h, a, b) && |cur.values| == b && b % 2 == 1
    ensures Sound(f) && (cur.kids == [] || |cur.kids| == |cur.values| + 1)
    ensures SplitFits(gs, Widened(f, LeftHalf(cur, b / 2, id), cur.values[b / 2], RightHalf(cur, b / 2)), h + 1, a, b)
  {
    var x, y := LeftHalf(cur, b / 2, id), RightHalf(cur, b / 2);
    LastFrame(gs, f, h, a, b);
    HalvesFit(cur, id, h, a, b);
    WidenedFits(f, x, cur.values[b / 2], y, h, a, b);
  }

  lemma SplitStepReads<V>(gs: Path<Entry<V>>, f: Frame<Entry<V>>, cur: Shape<Entry<V>>, m: nat, id: nat,
                          s: seq<Entry<V>>)
    requires Reads(gs + [f], cur, s) && SoundPath(gs) && Sound(f)
    requires m < |cur.values| && (cur.kids == [] || |cur.kids| == |cur.values| + 1)
    ensures var p := Widened(f, LeftHalf(cur, m, id), cur.values[m], RightHalf(cur, m));
            && Reads(gs, p, s) && Sorted(f.values)
            && (forall i :: 0 <= i < |f.values| ==> f.values[i].key != cur.values[m].key)
            && Put(f.values, cur.values[m]) == p.values
  {
    var x, y := LeftHalf(cur, m, id), RightHalf(cur, m);
    SplitInOrder(cur, m, id);
    WidenedInOrder(gs, f, cur, x, cur.values[m], y);
    WidenedOrder(gs, f, x, cur.values[m], y);
  }

  /** after is the stored parent once the child called child has given it the value m and the new sibling id. */
  ghost predicate TakesMiddle<V>(parent: Node<Entry<V>>, after: Node<Entry<V>>, child: nat, m: Entry<V>, id: nat) {
    && Sorted(parent.values)
    && (forall i :: 0 <= i < |parent.values| ==> parent.values[i].key != m.key)
    && LastIndex(parent.children, child) >= 0
    && after == Node(parent.id, Put(parent.values, m), PlacedBefore(parent.children, id, child), false)
  }

  /** One turn of the split loop below the root: the parent takes over as the pending node. */
  lemma SplitStep<V>(nodes: Store<Entry<V>>, gs: Path<Entry<V>>, f: Frame<Entry<V>>, cur: Shape<Entry<V>>, id: nat,
                     h: nat, a: nat, b: nat, s: seq<Entry<V>>, after: Store<Entry<V>>) returns (up: Shape<Entry<V>>)
    requires Splitting(nodes, gs + [f], cur, h, a, b, s) && |cur.values| == b && b % 2 == 1 && id !in nodes
    requires cur.kids == [] || |cur.kids| == |cur.values| + 1
    requires after == nodes[cur.id := UpperHalf(View(cur), b / 2)][id := LowerHalf(View(cur), b / 2, id)]
    ensures Splitting(after, gs, up, h + 1, a, b, s)
    ensures TakesMiddle(FrameNode(f, cur.id), View(up), cur.id, cur.values[b / 2], id)
  {
    hide PathFits, Wide, Before, After, InOrder, PathBag, Bags, Put, Sorted, Uniform, Bounded, FrameFits, SoundPath,
         PlacedBefore, LastIndex;
    var x, y, m := LeftHalf(cur, b / 2, id), RightHalf(cur, b / 2), cur.values[b / 2];
    LastFrame(gs, f, h, a, b);
    FrameStored(nodes, gs, f, cur);
    SplitStepFits(gs, f, cur, id, h, a, b);
    SplitStepReads(gs, f, cur, b / 2, id, s);
    HalfViews(cur, b / 2, id);
    up := Widened(f, x, m, y);
    WidenedView(f, x, m, y);
    WidenedStored(nodes, gs, f, cur, b / 2, id, after);
  }
}

/** How many entries a tree of a given depth holds. */
module Heights {
  import opened Shapes
  import opened Frames

  ghost function Pow(x: nat, n: nat): nat {
    if n == 0 then 1 else x * Pow(x, n - 1)
  }

  lemma MoreTimes(x: nat, y: nat, p: nat)
    requires x <= y
    ensures x * p <= y * p
  {
  }

  lemma {:induction false} WeaveAtMost<E>(vs: seq<E>, ks: seq<Shape<E>>, p: nat)
    requires |ks| == |vs| + 1 && forall i :: 0 <= i < |ks| ==> |InOrder(ks[i])| + 1 <= p
    ensures |Weave(vs, ks)| + 1 <= |ks| * p
  {
    if vs != [] {
      WeaveAtMost(vs[1..], ks[1..], p);
      assert |ks| * p == p + |ks[1..]| * p;
    }
  }

  lemma {:induction false} WeaveAtLeast<E>(vs: seq<E>, ks: seq<Shape<E>>, p: nat)
    requires |ks| == |vs| + 1 && forall i :: 0 <= i < |ks| ==> p <= |InOrder(ks[i])| + 1
    ensures |ks| * p <= |Weave(vs, ks)| + 1
  {
    if vs != [] {
      WeaveAtLeast(vs[1..], ks[1..], p);
      assert |ks| * p == p + |ks[1..]| * p;
    }
  }

  lemma {:induction false} AtMost<E>(t: Shape<E>, h: nat, a: nat, b: nat)
    requires Uniform(t, h) && Bounded(t, a, b)
    ensures |InOrder(t)| + 1 <= Pow(b, h)
    decreases h
  {
    if h == 1 {
      assert Pow(b, 1) == b * Pow(b, 0) == b;
    } else {
      forall i | 0 <= i < |t.kids| ensures |InOrder(t.kids[i])| + 1 <= Pow(b, h - 1) {
        AtMost(t.kids[i], h - 1, a, b);
      }
      WeaveAtMost(t.values, t.kids, Pow(b, h - 1));
      MoreTimes(|t.kids|, b, Pow(b, h - 1));
    }
  }

  lemma {:induction false} AtLeast<E>(t: Shape<E>, h: nat, a: nat, b: nat)
    requires KidFits(t, h, a, b)
    ensures Pow(a, h) <= |InOrder(t)| + 1
    decreases h
  {
    if h == 1 {
      assert Pow(a, 1) == a * Pow(a, 0) == a;
    } else {
      forall i | 0 <= i < |t.kids| ensures Pow(a, h - 1) <= |InOrder(t.kids[i])| + 1 {
        AtLeast(t.kids[i], h - 1, a, b);
      }
      WeaveAtLeast(t.values, t.kids, Pow(a, h - 1));
      MoreTimes(a, |t.kids|, Pow(a, h - 1));
    }
  }

  /** A whole tree of depth h > 1 holds at least 2 * a^(h - 1) - 1 entries, and none more than b^h - 1. */
  lemma EntryCount<E>(t: Shape<E>, h: nat, a: nat, b: nat)
    requires Proper(t, h, a, b)
    ensures |InOrder(t)| + 1 <= Pow(b, h)
    ensures h > 1 ==> 2 * Pow(a, h - 1) <= |InOrder(t)| + 1
  {
    AtMost(t, h, a, b);
    if h > 1 {
      forall i | 0 <= i < |t.kids| ensures Pow(a, h - 1) <= |InOrder(t.kids[i])| + 1 {
        AtLeast(t.kids[i], h - 1, a, b);
      }
      WeaveAtLeast(t.values, t.kids, Pow(a, h - 1));
      MoreTimes(2, |t.kids|, Pow(a, h - 1));
    }
  }
}

/** Key-value pairs in key order: the values of one node, and those of the whole tree read from left to right. */
module Entries {
  newtype Key = k: int | -0x8000_0000_0000_0000 <= k < 0x8000_0000_0000_0000

  datatype Entry<V> = Entry(key: Key, value: V)

  ghost predicate Sorted<V>(s: seq<Entry<V>>) {
    forall i, j :: 0 <= i < j < |s| ==> s[i].key < s[j].key
  }

  ghost predicate Below<V>(s: seq<Entry<V>>, key: Key) {
    forall i :: 0 <= i < |s| ==> s[i].key < key
  }

  ghost predicate Above<V>(s: seq<Entry<V>>, key: Key) {
    forall i :: 0 <= i < |s| ==> key < s[i].key
  }

  /** Insertion into its place in key order, or replacement of the entry with the same key. */
  ghost function Put<V>(s: seq<Entry<V>>, e: Entry<V>): seq<Entry<V>> {
    if s == [] then [e]
    else if e.key < s[0].key then [e] + s
    else if e.key == s[0].key then [e] + s[1..]
    else [s[0]] + Put(s[1..], e)
  }

  ghost function Drop<V>(s: seq<Entry<V>>, key: Key): seq<Entry<V>> {
    if s == [] then []
    else if key == s[0].key then s[1..]
    else [s[0]] + Drop(s[1..], key)
  }

  ghost function Content<V>(s: seq<Entry<V>>): map<Key, V> {
    if s == [] then map[] else Content(s[1..])[s[0].key := s[0].value]
  }

  // ---- putting and dropping as map operations ----

  lemma {:induction false} ContentKeys<V>(s: seq<Entry<V>>)
    ensures forall k :: k in Content(s) <==> exists i :: 0 <= i < |s| && s[i].key == k
  {
    if s != [] {
      ContentKeys(s[1..]);
      forall k ensures k in Content(s) <==> exists i :: 0 <= i < |s| && s[i].key == k {
        if k == s[0].key {
        } else if k in Content(s[1..]) {
          var i :| 0 <= i < |s[1..]| && s[1..][i].key == k;
          assert s[i + 1].key == k;
        } else {
          forall i | 0 <= i < |s| ensures s[i].key != k {
            if i > 0 {
              assert s[i] == s[1..][i - 1];
            }
          }
        }
      }
    }
  }

  lemma {:induction false} ContentAt<V>(s: seq<Entry<V>>, i: nat)
    requires Sorted(s) && i < |s|
    ensures s[i].key in Content(s) && Content(s)[s[i].key] == s[i].value
  {
    if i > 0 {
      assert s[i] == s[1..][i - 1] && s[0].key < s[i].key;
      ContentAt(s[1..], i - 1);
    }
  }

  lemma ConsSorted<V>(e: Entry<V>, s: seq<Entry<V>>)
    requires Sorted(s) && Above(s, e.key)
    ensures Sorted([e] + s)
    ensures Content([e] + s) == Content(s)[e.key := e.value]
  {
    assert ([e] + s)[1..] == s;
  }

  lemma TailSorted<V>(s: seq<Entry<V>>)
    requires Sorted(s) && s != []
    ensures Sorted(s[1..]) && Above(s[1..], s[0].key)
  {
  }

  lemma {:induction false} PutAbove<V>(s: seq<Entry<V>>, e: Entry<V>, low: Key)
    requires Above(s, low) && low < e.key
    ensures Above(Put(s, e), low)
  {
    if s != [] {
      PutAbove(s[1..], e, low);
    }
  }

  lemma {:induction false} PutSorted<V>(s: seq<Entry<V>>, e: Entry<V>)
    requires Sorted(s)
    ensures Sorted(Put(s, e))
    ensures Content(Put(s, e)) == Content(s)[e.key := e.value]
  {
    if s == [] {
      ConsSorted(e, s);
    } else {
      TailSorted(s);
      if e.key < s[0].key {
        ConsSorted(e, s);
      } else if e.key == s[0].key {
        ConsSorted(e, s[1..]);
      } else {
        PutSorted(s[1..], e);
        PutAbove(s[1..], e, s[0].key);
        ConsSorted(s[0], Put(s[1..], e));
      }
    }
  }

  lemma {:induction false} DropAbove<V>(s: seq<Entry<V>>, key: Key, low: Key)
    requires Above(s, low)
    ensures Above(Drop(s, key), low)
  {
    if s != [] {
      DropAbove(s[1..], key, low);
    }
  }

  lemma {:induction false} DropSorted<V>(s: seq<Entry<V>>, key: Key)
    requires Sorted(s)
    ensures Sorted(Drop(s, key))
    ensures Content(Drop(s, key)) == Content(s) - {key}
  {
    hide Sorted;
    if s != [] {
      TailSorted(s);
      if key == s[0].key {
        AboveMisses(s[1..], key);
      } else {
        DropSorted(s[1..], key);
        DropAbove(s[1..], key, s[0].key);
        ConsSorted(s[0], Drop(s[1..], key));
        assert Content(s) - {key} == (Content(s[1..]) - {key})[s[0].key := s[0].value];
      }
    }
  }

  lemma AboveMisses<V>(s: seq<Entry<V>>, key: Key)
    requires Above(s, key)
    ensures key !in Content(s)
  {
    ContentKeys(s);
  }

  // ---- where an entry goes ----

  lemma {:induction false} PutAfter<V>(x: seq<Entry<V>>, s: seq<Entry<V>>, e: Entry<V>)
    requires Below(x, e.key)
    ensures Put(x + s, e) == x + Put(s, e)
  {
    if x == [] {
      assert x + s == s;
    } else {
      assert (x + s)[1..] == x[1..] + s;
      PutAfter(x[1..], s, e);
    }
  }

  lemma {:induction false} PutBefore<V>(s: seq<Entry<V>>, y: seq<Entry<V>>, e: Entry<V>)
    requires Above(y, e.key)
    ensures Put(s + y, e) == Put(s, e) + y
  {
    if s == [] {
      assert s + y == y;
    } else {
      assert (s + y)[1..] == s[1..] + y;
      PutBefore(s[1..], y, e);
      assert [s[0]] + (Put(s[1..], e) + y) == [s[0]] + Put(s[1..], e) + y;
      assert [e] + s + y == [e] + (s + y);
    }
  }

  lemma PutBetween<V>(x: seq<Entry<V>>, m: seq<Entry<V>>, y: seq<Entry<V>>, e: Entry<V>)
    requires Below(x, e.key) && Above(y, e.key)
    ensures Put(x + m + y, e) == x + Put(m, e) + y
  {
    PutBefore(x + m, y, e);
    PutAfter(x, m, e);
  }

  lemma {:induction false} PutPlace<V>(x: seq<Entry<V>>, y: seq<Entry<V>>, e: Entry<V>)
    requires Below(x, e.key) && Above(y, e.key)
    ensures Put(x + y, e) == x + [e] + y
  {
    assert x + [] + y == x + y;
    PutBetween(x, [], y, e);
  }

  lemma {:induction false} PutReplace<V>(x: seq<Entry<V>>, o: Entry<V>, y: seq<Entry<V>>, e: Entry<V>)
    requires Below(x, e.key) && o.key == e.key && Above(y, e.key)
    ensures Put(x + [o] + y, e) == x + [e] + y
  {
    PutBetween(x, [o], y, e);
    assert [e] + [o][1..] == [e];
  }

  lemma {:induction false} DropAt<V>(x: seq<Entry<V>>, o: Entry<V>, y: seq<Entry<V>>)
    requires Below(x, o.key)
    ensures Drop(x + [o] + y, o.key) == x + y
  {
    var s := x + [o] + y;
    if x == [] {
      assert s[1..] == y;
    } else {
      assert s[1..] == x[1..] + [o] + y;
      DropAt(x[1..], o, y);
    }
  }

  lemma DropMiddle<V>(x: seq<Entry<V>>, l: seq<Entry<V>>, m: Entry<V>, r: seq<Entry<V>>, y: seq<Entry<V>>)
    requires Sorted(x + (l + [m] + r) + y)
    ensures Drop(x + (l + [m] + r) + y, m.key) == x + (l + r) + y
  {
    hide Drop, Sorted;
    assert x + (l + [m] + r) + y == (x + l) + [m] + (r + y);
    assert x + (l + r) + y == (x + l) + (r + y);
    SortedMiddle(x + l, m, r + y);
    DropAt(x + l, m, r + y);
  }

  lemma {:induction false} DropAbsent<V>(s: seq<Entry<V>>, key: Key)
    requires forall i :: 0 <= i < |s| ==> s[i].key != key
    ensures Drop(s, key) == s
  {
    if s != [] {
      DropAbsent(s[1..], key);
    }
  }

  lemma SortedParts<V>(x: seq<Entry<V>>, y: seq<Entry<V>>)
    requires Sorted(x + y)
    ensures Sorted(x) && Sorted(y)
    ensures forall i, j :: 0 <= i < |x| && 0 <= j < |y| ==> x[i].key < y[j].key
  {
    var s := x + y;
    assert forall i :: 0 <= i < |x| ==> s[i] == x[i];
    assert forall j :: 0 <= j < |y| ==> s[|x| + j] == y[j];
  }

  lemma SortedMiddle<V>(x: seq<Entry<V>>, m: Entry<V>, y: seq<Entry<V>>)
    requires Sorted(x + [m] + y)
    ensures Below(x, m.key) && Above(y, m.key) && Sorted(x + y)
  {
    SortedParts(x + [m], y);
    SortedParts(x, [m]);
    assert (x + [m])[|x|] == m;
  }

  // ---- the sorted values of a node ----

  /** Binary search: the position of key, or the one it would take. */
  method Find<V>(values: seq<Entry<V>>, key: Key) returns (found: bool, position: nat)
    requires Sorted(values)
    ensures position <= |values|
    ensures found <==> position < |values| && values[position].key == key
    ensures Below(values[..position], key)
    ensures Above(values[if found then position + 1 else position..], key)
  {
    var i, j := 0, |values|;
    while i < j
      invariant 0 <= i <= j <= |values|
      invariant forall k :: 0 <= k < i ==> values[k].key < key
      invariant forall k :: j <= k < |values| ==> key <= values[k].key
    {
      var h := (i + j) / 2;
      if values[h].key < key {
        i := h + 1;
      } else {
        j := h;
      }
    }
    position := i;
    found := i < |values| && values[i].key == key;
  }

  /** Appends an entry with a new key and sorts. */
  method Add<V>(values: seq<Entry<V>>, e: Entry<V>) returns (r: seq<Entry<V>>)
    requires Sorted(values)
    requires forall i :: 0 <= i < |values| ==> values[i].key != e.key
    ensures r == Put(values, e)
  {
    r := values + [e];
    var i := |values|;
    while i > 0 && e.key < r[i - 1].key
      invariant 0 <= i <= |values| && |r| == |values| + 1 && r[i] == e
      invariant forall k :: 0 <= k < i ==> r[k] == values[k]
      invariant forall k :: i < k < |r| ==> r[k] == values[k - 1] && e.key < r[k].key
    {
      r := r[i := r[i - 1]][i - 1 := e];
      i := i - 1;
    }
    Shifted(values, e, i, r);
  }

  lemma Shifted<V>(values: seq<Entry<V>>, e: Entry<V>, i: nat, r: seq<Entry<V>>)
    requires Sorted(values) && i <= |values| && |r| == |values| + 1 && r[i] == e
    requires forall k :: 0 <= k < i ==> r[k] == values[k]
    requires forall k :: i < k < |r| ==> r[k] == values[k - 1] && e.key < r[k].key
    requires i > 0 ==> values[i - 1].key < e.key
    ensures r == Put(values, e)
  {
    hide Put, Sorted;
    var x, y := values[..i], values[i..];
    assert r == x + [e] + y;
    assert x + y == values;
    BelowStart(values, i, e.key);
    forall k | 0 <= k < |y| ensures e.key < y[k].key {
      assert y[k] == r[i + 1 + k];
    }
    PutPlace(x, y, e);
  }

  lemma BelowStart<V>(s: seq<Entry<V>>, i: nat, key: Key)
    requires Sorted(s) && i <= |s| && (i > 0 ==> s[i - 1].key < key)
    ensures Below(s[..i], key)
  {
  }

  lemma {:induction false} PutMultiset<V>(values: seq<Entry<V>>, e: Entry<V>)
    requires forall i :: 0 <= i < |values| ==> values[i].key != e.key
    ensures multiset(Put(values, e)) == multiset(values + [e])
  {
    if values != [] {
      PutMultiset(values[1..], e);
      assert values == [values[0]] + values[1..];
    }
  }

  /** Append and sort, whatever the sorting algorithm, is Put. */
  lemma AppendAndSort<V>(values: seq<Entry<V>>, e: Entry<V>, r: seq<Entry<V>>)
    requires Sorted(values) && Sorted(r)
    requires forall i :: 0 <= i < |values| ==> values[i].key != e.key
    ensures multiset(r) == multiset(values + [e]) <==> r == Put(values, e)
  {
    PutMultiset(values, e);
    PutSorted(values, e);
    if multiset(r) == multiset(values + [e]) {
      SortedUnique(r, Put(values, e));
    }
  }

  lemma SortedFirst<V>(s: seq<Entry<V>>, t: seq<Entry<V>>)
    requires Sorted(s) && s != [] && t != [] && t[0] in s
    ensures s[0].key <= t[0].key
  {
  }

  lemma TailMultiset<T>(s: seq<T>)
    requires s != []
    ensures multiset(s[1..]) == multiset(s) - multiset{s[0]} && s[0] in multiset(s)
  {
    assert s == [s[0]] + s[1..];
  }

  lemma HeadsAgree<V>(s: seq<Entry<V>>, t: seq<Entry<V>>)
    requires Sorted(s) && Sorted(t) && multiset(s) == multiset(t) && s != [] && t != []
    ensures s[0] == t[0]
  {
    hide Sorted;
    assert s[0] in multiset(t) && t[0] in multiset(s);
    SortedFirst(s, t);
    SortedFirst(t, s);
    SortedSame(s, t);
  }

  /** Sorting leaves no choice: Put gives the one sorted arrangement of the old entries and the new one. */
  lemma {:induction false} SortedUnique<V>(s: seq<Entry<V>>, t: seq<Entry<V>>)
    requires Sorted(s) && Sorted(t) && multiset(s) == multiset(t)
    ensures s == t
  {
    hide Sorted;
    assert |s| == |multiset(s)| == |t|;
    if s != [] {
      HeadsAgree(s, t);
      TailSorted(s);
      TailSorted(t);
      TailMultiset(s);
      TailMultiset(t);
      SortedUnique(s[1..], t[1..]);
      assert s == [s[0]] + s[1..] && t == [t[0]] + t[1..];
    }
  }

  lemma SortedSame<V>(s: seq<Entry<V>>, t: seq<Entry<V>>)
    requires Sorted(t) && s != [] && t != [] && s[0] in t && s[0].key == t[0].key
    ensures s[0] == t[0]
  {
  }

  lemma {:induction false} ContentSize<V>(s: seq<Entry<V>>)
    requires Sorted(s)
    ensures |Content(s)| == |s|
  {
    if s != [] {
      TailSorted(s);
      ContentSize(s[1..]);
      AboveMisses(s[1..], s[0].key);
      Added(Content(s[1..]), s[0].key, s[0].value);
    }
  }

  lemma Added<V>(m: map<Key, V>, key: Key, value: V)
    ensures |m[key := value]| == if key in m then |m| else |m| + 1
  {
    var n := m[key := value];
    assert n.Keys == m.Keys + {key};
    assert |n| == |n.Keys| && |m| == |m.Keys|;
  }
}

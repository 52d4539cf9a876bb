/** In-place edits of the first `length` cells of a backing array, and what they mean for the list in them. */
module Slices {
  function Removed<E>(s: seq<E>, position: nat): (r: seq<E>)
    requires position < |s|
    ensures |r| == |s| - 1
  {
    s[..position] + s[position + 1..]
  }

  /** The last position of target, or -1. */
  function LastIndex<E(==)>(s: seq<E>, target: E): (i: int)
    ensures -1 <= i < |s|
    ensures i >= 0 ==> s[i] == target
    ensures forall k :: i < k < |s| ==> s[k] != target
  {
    if s == [] then -1
    else if s[|s| - 1] == target then |s| - 1
    else LastIndex(s[..|s| - 1], target)
  }

  /** value just left of the last target. */
  function PlacedBefore<E(==)>(s: seq<E>, value: E, target: E): seq<E>
    requires LastIndex(s, target) >= 0
  {
    s[..LastIndex(s, target)] + [value] + s[LastIndex(s, target)..]
  }

  lemma LastIndexIs<E>(s: seq<E>, target: E, i: nat)
    requires i < |s| && s[i] == target
    requires forall k :: i < k < |s| ==> s[k] != target
    ensures LastIndex(s, target) == i
  {
  }

  lemma MiddleIndex<E>(l: seq<E>, m: E, r: seq<E>)
    requires m !in r
    ensures (l + [m] + r)[|l|] == m
    ensures forall k :: |l| < k < |l| + 1 + |r| ==> (l + [m] + r)[k] != m
  {
  }

  /** With no target right of it, the middle one is the one that value is put before. */
  lemma PlacedBeforeOnly<E>(l: seq<E>, value: E, target: E, r: seq<E>)
    requires target !in r
    ensures LastIndex(l + [target] + r, target) == |l|
    ensures PlacedBefore(l + [target] + r, value, target) == l + [value, target] + r
  {
    MiddleIndex(l, target, r);
    LastIndexIs(l + [target] + r, target, |l|);
    CutAt(l, target, r);
    assert l + [value] + ([target] + r) == l + [value, target] + r;
  }

  lemma CutAt<E>(l: seq<E>, m: E, r: seq<E>)
    ensures (l + [m] + r)[..|l|] == l
    ensures (l + [m] + r)[|l|..] == [m] + r
  {
  }

  method Pop<E>(slice: array<E>, length: nat, position: nat) returns (popped: E)
    requires position < length <= slice.Length
    modifies slice
    ensures popped == old(slice[position])
    ensures slice[..length - 1] == Removed(old(slice[..length]), position)
    ensures slice[length - 1..] == old(slice[length - 1..])
  {
    popped := slice[position];
    var i := position;
    while i < length - 1
      invariant position <= i <= length - 1
      invariant forall k :: 0 <= k < position || i <= k < slice.Length ==> slice[k] == old(slice[k])
      invariant forall k :: position <= k < i ==> slice[k] == old(slice[k + 1])
    {
      slice[i] := slice[i + 1];
      i := i + 1;
    }
  }

  method Swap<E>(slice: array<E>, position: nat, value: E) returns (previous: E)
    requires position < slice.Length
    modifies slice
    ensures previous == old(slice[position])
    ensures slice[..] == old(slice[..])[position := value]
  {
    previous := slice[position];
    slice[position] := value;
  }

  /** Go grows the slice by one cell first; here the cell is spare capacity. */
  method Prepend<E>(slice: array<E>, length: nat, value: E)
    requires length < slice.Length
    modifies slice
    ensures slice[..length + 1] == [value] + old(slice[..length])
    ensures slice[length + 1..] == old(slice[length + 1..])
  {
    var i := length;
    while i > 0
      invariant 0 <= i <= length
      invariant forall k :: 0 <= k < i || length < k < slice.Length ==> slice[k] == old(slice[k])
      invariant forall k :: i < k <= length ==> slice[k] == old(slice[k - 1])
    {
      slice[i] := slice[i - 1];
      i := i - 1;
    }
    slice[0] := value;
  }

  /** found is false where Go panics: the target is missing. */
  method PrependBefore<E(==)>(slice: array<E>, length: nat, value: E, target: E) returns (found: bool)
    requires length < slice.Length
    modifies slice
    ensures found <==> target in old(slice[..length])
    ensures found ==> LastIndex(old(slice[..length]), target) >= 0
    ensures found ==> slice[..length + 1] == PlacedBefore(old(slice[..length]), value, target)
    ensures slice[length + 1..] == old(slice[length + 1..])
  {
    ghost var s := slice[..length];
    var toReplace := length;
    while toReplace > 0
      invariant 0 <= toReplace <= length
      invariant forall k :: 0 <= k < toReplace || length < k < slice.Length ==> slice[k] == old(slice[k])
      invariant forall k :: toReplace < k <= length ==> slice[k] == s[k - 1]
      invariant forall k :: toReplace <= k < length ==> s[k] != target
    {
      var copied := slice[toReplace - 1];
      slice[toReplace] := copied;
      if copied == target {
        toReplace := toReplace - 1;
        slice[toReplace] := value;
        assert s[toReplace] == target;
        return true;
      }
      toReplace := toReplace - 1;
    }
    return false;
  }
}

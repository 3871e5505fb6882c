/** Swap-with-last compaction: scanning a list, a rejected entry is replaced
    by the current last entry and the list shortens by one; the scan then
    looks at the same position again.  Kept entries never move once passed. */
module Compaction {

  /** The list after rejecting its entry `i`: the last entry takes its place. */
  function DropAt<T>(s: seq<T>, i: nat): (d: seq<T>)
    requires i < |s|
    ensures |d| == |s| - 1
  {
    s[i := s[|s| - 1]][..|s| - 1]
  }

  /** The result of scanning `s` from position `i` on, the entries before `i`
      having been kept already. */
  function Compact<T>(s: seq<T>, i: nat, keep: T -> bool): seq<T>
    requires i <= |s|
    decreases |s| - i
  {
    if i == |s| then s
    else if keep(s[i]) then Compact(s, i + 1, keep)
    else Compact(DropAt(s, i), i, keep)
  }

  /** An accepted entry is passed over. */
  lemma CompactKeep<T>(s: seq<T>, i: nat, keep: T -> bool)
    requires i < |s| && keep(s[i])
    ensures Compact(s, i + 1, keep) == Compact(s, i, keep)
  {
  }

  /** A rejected entry is replaced by the last one, and the scan stays put. */
  lemma CompactDrop<T>(s: seq<T>, i: nat, keep: T -> bool)
    requires i < |s| && !keep(s[i])
    ensures Compact(DropAt(s, i), i, keep) == Compact(s, i, keep)
  {
  }

  /** The entries of `s` that are kept, in their order. */
  function Filter<T>(s: seq<T>, keep: T -> bool): seq<T> {
    if s == [] then []
    else Filter(s[..|s| - 1], keep) + (if keep(s[|s| - 1]) then [s[|s| - 1]] else [])
  }

  lemma {:induction false} FilterCount<T>(s: seq<T>, keep: T -> bool, x: T)
    ensures multiset(Filter(s, keep))[x] == if keep(x) then multiset(s)[x] else 0
  {
    if s != [] {
      FilterCount(s[..|s| - 1], keep, x);
      assert s == s[..|s| - 1] + [s[|s| - 1]];
    }
  }

  lemma DropAtParts<T>(s: seq<T>, i: nat)
    requires i < |s|
    ensures DropAt(s, i)[..i] == s[..i]
    ensures multiset(DropAt(s, i)[i..]) + multiset{s[i]} == multiset(s[i..])
  {
    if i < |s| - 1 {
      DropAtMiddle(s, i);
    } else {
      assert s[i..] == [s[i]];
    }
  }

  lemma DropAtMiddle<T>(s: seq<T>, i: nat)
    requires i < |s| - 1
    ensures DropAt(s, i)[..i] == s[..i]
    ensures multiset(DropAt(s, i)[i..]) + multiset{s[i]} == multiset(s[i..])
  {
    var last, mid := s[|s| - 1], s[i + 1..|s| - 1];
    var d := DropAt(s, i);
    assert d[..i] == s[..i];
    assert d[i..] == [last] + mid;
    assert s[i..] == [s[i]] + (mid + [last]);
  }

  /** Entry by entry: the last entry sits at `i`, the others stay put. */
  lemma DropAtIndex<T>(s: seq<T>, i: nat)
    requires i < |s|
    ensures forall m :: 0 <= m < |s| - 1 ==> DropAt(s, i)[m] == if m == i then s[|s| - 1] else s[m]
  {
  }

  /** Compaction keeps the already-passed prefix, and from position `i` on it
      keeps exactly the entries that `keep` accepts, each as often as it
      occurs, in some order. */
  lemma {:induction false} CompactCount<T>(s: seq<T>, i: nat, keep: T -> bool, x: T)
    requires i <= |s|
    ensures multiset(Compact(s, i, keep))[x]
         == multiset(s[..i])[x] + (if keep(x) then multiset(s[i..])[x] else 0)
    decreases |s| - i
  {
    if i == |s| {
      assert s[..i] == s;
    } else if keep(s[i]) {
      CompactCount(s, i + 1, keep, x);
      assert s[..i + 1] == s[..i] + [s[i]];
      assert s[i..] == [s[i]] + s[i + 1..];
    } else {
      CompactCount(DropAt(s, i), i, keep, x);
      DropAtParts(s, i);
    }
  }

  /** Compaction keeps its prefix in place, and every entry it keeps is accepted. */
  lemma {:induction false} CompactKeeps<T>(s: seq<T>, i: nat, keep: T -> bool)
    requires i <= |s|
    requires forall k :: 0 <= k < i ==> keep(s[k])
    ensures |Compact(s, i, keep)| >= i
    ensures Compact(s, i, keep)[..i] == s[..i]
    ensures forall k :: 0 <= k < |Compact(s, i, keep)| ==> keep(Compact(s, i, keep)[k])
    decreases |s| - i
  {
    if i == |s| {
    } else if keep(s[i]) {
      CompactKeeps(s, i + 1, keep);
    } else {
      DropAtParts(s, i);
      CompactKeeps(DropAt(s, i), i, keep);
    }
  }
}

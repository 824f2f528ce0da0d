/** Removal of duplicate download requests (src/download.rs): `find_dupes_by_key`, which
    sorts a slice in place by a string key and reports the positions whose key repeats at
    the next position, and the `swap_remove` loop of `clean` that drops those positions. */
module Dupes {
  import opened Strings

  /** The keys of `s` never decrease (the `Ord` of `str`). */
  predicate SortedByKey<T>(s: seq<T>, key: T -> string) {
    forall p, q :: 0 <= p < q < |s| ==> LexLe(key(s[p]), key(s[q]))
  }

  /** No two positions of `s` carry the same key. */
  predicate DistinctKeys<T>(s: seq<T>, key: T -> string) {
    forall p, q :: 0 <= p < q < |s| ==> key(s[p]) != key(s[q])
  }

  /** The set of keys occurring in `s`. */
  ghost function KeySet<T>(s: seq<T>, key: T -> string): set<string> {
    set x | x in s :: key(x)
  }

  /** Position `i` of `s` is reported by `find_dupes_by_key`: its key equals the next one. */
  predicate IsDupe<T>(s: seq<T>, key: T -> string, i: int) {
    0 <= i < |s| - 1 && key(s[i]) == key(s[i + 1])
  }

  predicate StrictlyDescending(s: seq<nat>) {
    forall p, q :: 0 <= p < q < |s| ==> s[p] > s[q]
  }

  predicate StrictlyAscending(s: seq<nat>) {
    forall p, q :: 0 <= p < q < |s| ==> s[p] < s[q]
  }

  /** `Vec::reverse`. */
  function Reversed(s: seq<nat>): (r: seq<nat>)
    ensures |r| == |s|
    ensures forall k :: 0 <= k < |s| ==> r[k] == s[|s| - 1 - k]
  {
    seq(|s|, k requires 0 <= k < |s| => s[|s| - 1 - k])
  }

  lemma ReversedAscending(s: seq<nat>)
    requires StrictlyAscending(s)
    ensures StrictlyDescending(Reversed(s))
    ensures forall x :: x in Reversed(s) <==> x in s
  {
    var r := Reversed(s);
    forall x | x in s ensures x in r {
      var k :| 0 <= k < |s| && s[k] == x;
      assert r[|s| - 1 - k] == x;
    }
  }

  /** Exchanges two elements of `a`. */
  method Swap<T>(a: array<T>, i: nat, j: nat)
    requires i < j < a.Length
    modifies a
    ensures a[i] == old(a[j]) && a[j] == old(a[i])
    ensures forall m :: 0 <= m < a.Length && m != i && m != j ==> a[m] == old(a[m])
    ensures multiset(a[..]) == multiset(old(a[..]))
  {
    a[i], a[j] := a[j], a[i];
  }

  /** `slice.sort_unstable_by_key(key)`. The library sort is modelled by an insertion
      sort: only its contract (sorted by key, a permutation) is relied on, and that
      leaves the order of elements with equal keys unspecified, as the library does. */
  method SortByKey<T>(a: array<T>, key: T -> string)
    modifies a
    ensures SortedByKey(a[..], key)
    ensures multiset(a[..]) == multiset(old(a[..]))
  {
    if a.Length < 2 { return; }
    var i := 1;
    while i < a.Length
      invariant 1 <= i <= a.Length
      invariant forall p, q :: 0 <= p < q < i ==> LexLe(key(a[p]), key(a[q]))
      invariant multiset(a[..]) == multiset(old(a[..]))
    {
      var j := i;
      while j > 0 && !LexLe(key(a[j - 1]), key(a[j]))
        invariant 0 <= j <= i
        invariant forall p, q :: 0 <= p < q <= i && p != j && q != j ==> LexLe(key(a[p]), key(a[q]))
        invariant forall q :: j < q <= i ==> LexLe(key(a[j]), key(a[q]))
        invariant multiset(a[..]) == multiset(old(a[..]))
      {
        LexLeTotal(key(a[j - 1]), key(a[j]));
        Swap(a, j - 1, j);
        j := j - 1;
      }
      forall p, q | 0 <= p < q <= i ensures LexLe(key(a[p]), key(a[q])) {
        if q == j && p < j - 1 {
          LexLeTransitive(key(a[p]), key(a[j - 1]), key(a[j]));
        }
      }
      i := i + 1;
    }
  }

  /** `find_dupes_by_key(slice, key)`: sorts `slice` by `key` and returns, in descending
      order, exactly the positions whose key equals the key at the next position. A slice
      shorter than two is left as it is. */
  method FindDupesByKey<T>(slice: array<T>, key: T -> string) returns (indices: seq<nat>)
    modifies slice
    ensures slice.Length < 2 ==> indices == [] && slice[..] == old(slice[..])
    ensures multiset(slice[..]) == multiset(old(slice[..]))
    ensures SortedByKey(slice[..], key)
    ensures StrictlyDescending(indices)
    ensures forall i :: i in indices <==> IsDupe(slice[..], key, i)
  {
    indices := [];
    if slice.Length < 2 {
      return;
    }
    SortByKey(slice, key);
    for i := 0 to slice.Length - 1
      invariant StrictlyAscending(indices)
      invariant forall p :: 0 <= p < |indices| ==> indices[p] < i
      invariant forall k :: k in indices <==> k < i && IsDupe(slice[..], key, k)
    {
      if key(slice[i]) == key(slice[i + 1]) {
        indices := indices + [i];
      }
    }
    ReversedAscending(indices);
    indices := Reversed(indices);
  }

  /** `Vec::swap_remove(i)`: the element at `i` is replaced by the last one and the
      vector shrinks by one. */
  function SwapRemove<T>(v: seq<T>, i: nat): (r: seq<T>)
    requires i < |v|
    ensures |r| == |v| - 1
  {
    if i == |v| - 1 then v[..i] else v[..i] + [v[|v| - 1]] + v[i + 1..|v| - 1]
  }

  /** What `swap_remove(i)` leaves: position `i` gets the last element, the others keep
      theirs, and exactly one copy of element `i` is gone. */
  lemma SwapRemoveSpec<T>(v: seq<T>, i: nat)
    requires i < |v|
    ensures SwapRemove(v, i)[..i] == v[..i]
    ensures forall j :: 0 <= j < |SwapRemove(v, i)| ==> SwapRemove(v, i)[j] == if j == i then v[|v| - 1] else v[j]
    ensures multiset(SwapRemove(v, i)) == multiset(v) - multiset{v[i]}
  {
    if i < |v| - 1 {
      SwapRemoveInner(v, i);
    } else {
      assert v == v[..i] + [v[i]];
    }
  }

  /** `SwapRemoveSpec` when `i` is not the last position. */
  lemma SwapRemoveInner<T>(v: seq<T>, i: nat)
    requires i < |v| - 1
    ensures SwapRemove(v, i)[..i] == v[..i]
    ensures forall j :: 0 <= j < |SwapRemove(v, i)| ==> SwapRemove(v, i)[j] == if j == i then v[|v| - 1] else v[j]
    ensures multiset(SwapRemove(v, i)) == multiset(v) - multiset{v[i]}
  {
    var pre, mid, last := v[..i], v[i + 1..|v| - 1], v[|v| - 1];
    assert SwapRemove(v, i) == pre + [last] + mid;
    assert v == pre + [v[i]] + mid + [last];
  }

  /** The key of every element, in order. */
  function Keys<T>(v: seq<T>, key: T -> string): (r: seq<string>)
    ensures |r| == |v|
    ensures forall i :: 0 <= i < |v| ==> r[i] == key(v[i])
  {
    seq(|v|, i requires 0 <= i < |v| => key(v[i]))
  }

  /** Taking keys commutes with `swap_remove`. */
  lemma KeysSwapRemove<T>(v: seq<T>, i: nat, key: T -> string)
    requires i < |v|
    ensures Keys(SwapRemove(v, i), key) == SwapRemove(Keys(v, key), i)
  {
    SwapRemoveSpec(v, i);
    SwapRemoveSpec(Keys(v, key), i);
  }

  /** The elements of `s[lo..]` at positions that are not dupes: the last element of
      every run of equal keys. */
  function Survivors<T>(s: seq<T>, key: T -> string, lo: nat): seq<T>
    requires lo <= |s|
    decreases |s| - lo
  {
    if lo == |s| then []
    else (if IsDupe(s, key, lo) then [] else [s[lo]]) + Survivors(s, key, lo + 1)
  }

  /** One position that is not a dupe, in front of survivors already known. */
  lemma SurvivorsStep<T>(s: seq<T>, key: T -> string, lo: nat, hi: nat)
    requires lo < hi <= |s| && !IsDupe(s, key, lo)
    requires Survivors(s, key, lo + 1) == s[lo + 1..hi] + Survivors(s, key, hi)
    ensures Survivors(s, key, lo) == s[lo..hi] + Survivors(s, key, hi)
  {
    var rest := Survivors(s, key, hi);
    calc {
      Survivors(s, key, lo);
      [s[lo]] + Survivors(s, key, lo + 1);
      [s[lo]] + (s[lo + 1..hi] + rest);
      { AppendAssoc([s[lo]], s[lo + 1..hi], rest); }
      ([s[lo]] + s[lo + 1..hi]) + rest;
      { assert s[lo..hi] == [s[lo]] + s[lo + 1..hi]; }
      s[lo..hi] + rest;
    }
  }

  lemma AppendAssoc<T>(a: seq<T>, b: seq<T>, c: seq<T>)
    ensures a + (b + c) == (a + b) + c
  {
  }

  lemma {:induction false} SurvivorsNoDupes<T>(s: seq<T>, key: T -> string, lo: nat, hi: nat)
    requires lo <= hi <= |s|
    requires forall i :: lo <= i < hi ==> !IsDupe(s, key, i)
    ensures Survivors(s, key, lo) == s[lo..hi] + Survivors(s, key, hi)
    decreases hi - lo
  {
    if lo < hi {
      SurvivorsNoDupes(s, key, lo + 1, hi);
      SurvivorsStep(s, key, lo, hi);
    }
  }

  lemma {:induction false} SurvivorsMembers<T>(s: seq<T>, key: T -> string, lo: nat)
    requires lo <= |s|
    ensures forall x :: x in Survivors(s, key, lo) ==> exists i :: lo <= i < |s| && !IsDupe(s, key, i) && x == s[i]
    ensures forall i :: lo <= i < |s| && !IsDupe(s, key, i) ==> s[i] in Survivors(s, key, lo)
    decreases |s| - lo
  {
    if lo < |s| {
      SurvivorsMembers(s, key, lo + 1);
    }
  }

  /** In a slice sorted by key, a survivor's key occurs at no later position. */
  lemma SurvivorKeyIsLast<T>(s: seq<T>, key: T -> string, lo: nat, i: nat)
    requires SortedByKey(s, key)
    requires lo < i < |s| && !IsDupe(s, key, lo)
    ensures key(s[i]) != key(s[lo])
  {
    if i > lo + 1 {
      LexLeTotal(key(s[lo]), key(s[lo + 1]));
      if LexLe(key(s[lo + 1]), key(s[lo])) {
        LexLeAntisymmetric(key(s[lo]), key(s[lo + 1]));
      }
      assert !LexLe(key(s[lo + 1]), key(s[lo]));
      assert LexLe(key(s[lo + 1]), key(s[i]));
    }
  }

  lemma DistinctKeysCons<T>(h: T, rest: seq<T>, key: T -> string)
    requires DistinctKeys(rest, key)
    requires forall x :: x in rest ==> key(x) != key(h)
    ensures DistinctKeys([h] + rest, key)
  {
    var t := [h] + rest;
    forall p, q | 0 <= p < q < |t| ensures key(t[p]) != key(t[q]) {
      assert t[q] == rest[q - 1];
      if p > 0 {
        assert t[p] == rest[p - 1];
      } else {
        assert t[q] in rest;
      }
    }
  }

  /** The survivors from `j` on all differ in key from the survivor at `lo < j`. */
  lemma {:induction false} SurvivorsAfter<T>(s: seq<T>, key: T -> string, lo: nat, j: nat)
    requires SortedByKey(s, key)
    requires lo < j <= |s| && !IsDupe(s, key, lo)
    ensures forall x :: x in Survivors(s, key, j) ==> key(x) != key(s[lo])
    decreases |s| - j
  {
    if j < |s| {
      SurvivorsAfter(s, key, lo, j + 1);
      SurvivorKeyIsLast(s, key, lo, j);
    }
  }

  /** In a slice sorted by key the survivors carry pairwise different keys. */
  lemma {:induction false} SurvivorsDistinct<T>(s: seq<T>, key: T -> string, lo: nat)
    requires lo <= |s|
    requires SortedByKey(s, key)
    ensures DistinctKeys(Survivors(s, key, lo), key)
    decreases |s| - lo
  {
    if lo < |s| {
      SurvivorsDistinct(s, key, lo + 1);
      if !IsDupe(s, key, lo) {
        SurvivorsAfter(s, key, lo, lo + 1);
        DistinctKeysCons(s[lo], Survivors(s, key, lo + 1), key);
      }
    }
  }

  /** Every position is followed, within its run of equal keys, by a survivor. */
  lemma {:induction false} RunEnd<T>(s: seq<T>, key: T -> string, i: nat) returns (j: nat)
    requires i < |s|
    ensures i <= j < |s| && !IsDupe(s, key, j) && key(s[j]) == key(s[i])
    decreases |s| - i
  {
    if IsDupe(s, key, i) {
      j := RunEnd(s, key, i + 1);
    } else {
      j := i;
    }
  }

  /** The survivors of a whole slice keep every key of the slice. */
  lemma SurvivorsKeys<T>(s: seq<T>, key: T -> string)
    ensures KeySet(Survivors(s, key, 0), key) == KeySet(s, key)
  {
    SurvivorsMembers(s, key, 0);
    forall k | k in KeySet(s, key) ensures k in KeySet(Survivors(s, key, 0), key) {
      var x :| x in s && key(x) == k;
      var i :| 0 <= i < |s| && s[i] == x;
      var j := RunEnd(s, key, i);
      assert s[j] in Survivors(s, key, 0);
    }
  }

  lemma {:induction false} DistinctKeysCountAtMostOne<T>(s: seq<T>, key: T -> string, x: T)
    requires DistinctKeys(s, key)
    ensures multiset(s)[x] <= 1
  {
    if s != [] {
      var init := s[..|s| - 1];
      assert s == init + [s[|s| - 1]];
      assert DistinctKeys(init, key);
      DistinctKeysCountAtMostOne(init, key, x);
      if s[|s| - 1] == x {
        forall p | 0 <= p < |init| ensures init[p] != x {
          assert key(s[p]) != key(s[|s| - 1]);
        }
        assert x !in init;
      }
    }
  }

  /** An element occurring at most once sits at a single position. */
  lemma SinglePosition<T>(s: seq<T>, p: nat, q: nat)
    requires p < q < |s| && multiset(s)[s[p]] <= 1
    ensures s[p] != s[q]
  {
    assert s == s[..q] + s[q..];
    assert s[p] in s[..q];
    assert s[q] in s[q..];
  }

  /** A rearrangement of a sequence with distinct keys has distinct keys. */
  lemma DistinctKeysPermutation<T>(a: seq<T>, b: seq<T>, key: T -> string)
    requires multiset(a) == multiset(b)
    requires DistinctKeys(b, key)
    ensures DistinctKeys(a, key)
  {
    forall p, q | 0 <= p < q < |a| ensures key(a[p]) != key(a[q]) {
      DistinctKeysCountAtMostOne(b, key, a[p]);
      SinglePosition(a, p, q);
      assert a[p] in multiset(b) && a[q] in multiset(b);
      var i :| 0 <= i < |b| && b[i] == a[p];
      var j :| 0 <= j < |b| && b[j] == a[q];
      assert i != j;
    }
  }

  /** With distinct keys, there are as many keys as elements. */
  lemma {:induction false} DistinctKeysCard<T>(s: seq<T>, key: T -> string)
    requires DistinctKeys(s, key)
    ensures |KeySet(s, key)| == |s|
  {
    if s != [] {
      var init := s[..|s| - 1];
      var last := s[|s| - 1];
      assert s == init + [last];
      assert DistinctKeys(init, key);
      DistinctKeysCard(init, key);
      assert KeySet(s, key) == KeySet(init, key) + {key(last)};
      forall x | x in init ensures key(x) != key(last) {
        var p :| 0 <= p < |init| && init[p] == x;
        assert key(s[p]) != key(s[|s| - 1]);
      }
      assert key(last) !in KeySet(init, key);
    }
  }

  lemma SameMultisetSameKeys<T>(a: seq<T>, b: seq<T>, key: T -> string)
    requires multiset(a) == multiset(b)
    ensures KeySet(a, key) == KeySet(b, key)
  {
    forall x ensures x in a <==> x in b {
      assert x in a <==> x in multiset(a);
      assert x in b <==> x in multiset(b);
    }
  }

  /** The positions reported by `find_dupes_by_key`, in descending order. */
  ghost predicate ReportsDupes<T>(s: seq<T>, key: T -> string, dupes: seq<nat>) {
    StrictlyDescending(dupes) && forall i :: i in dupes <==> IsDupe(s, key, i)
  }

  /** Between two consecutive reported positions (or above the first) nothing is a dupe. */
  lemma NoDupesBetween<T>(s: seq<T>, key: T -> string, dupes: seq<nat>, k: nat, hi: nat)
    requires ReportsDupes(s, key, dupes)
    requires k <= |dupes|
    requires hi == if k == 0 then |s| else dupes[k - 1]
    ensures forall i :: (if k == |dupes| then 0 else dupes[k] + 1) <= i < hi ==> !IsDupe(s, key, i)
  {
    var lo := if k == |dupes| then 0 else dupes[k] + 1;
    forall i | lo <= i < hi ensures i !in dupes {
      forall m | 0 <= m < |dupes| ensures dupes[m] != i {
        if m < k {
          assert dupes[m] >= dupes[k - 1];
        } else {
          assert dupes[m] <= dupes[k];
        }
      }
    }
  }

  /** `swap_remove(i)` leaves at and after position `i` exactly what followed `i`. */
  lemma SwapRemoveTail<T>(v: seq<T>, i: nat)
    requires i < |v|
    ensures multiset(SwapRemove(v, i)[i..]) == multiset(v[i + 1..])
  {
    SwapRemoveSpec(v, i);
    if i < |v| - 1 {
      assert SwapRemove(v, i)[i..] == [v[|v| - 1]] + v[i + 1..|v| - 1];
      assert v[i + 1..] == v[i + 1..|v| - 1] + [v[|v| - 1]];
    }
  }

  /** One `swap_remove(d)` below the untouched prefix `kept[..hi] == s[..hi]`: the
      prefix below `d` stays, and the rest holds `s[d + 1..hi]` and the old tail. */
  lemma SwapRemoveBelow<T>(s: seq<T>, kept: seq<T>, d: nat, hi: nat, tail: seq<T>)
    requires d < hi <= |kept| && hi <= |s|
    requires kept[..hi] == s[..hi]
    requires multiset(kept[hi..]) == multiset(tail)
    ensures kept[d] == s[d]
    ensures SwapRemove(kept, d)[..d] == s[..d]
    ensures multiset(SwapRemove(kept, d)[d..]) == multiset(s[d + 1..hi] + tail)
  {
    assert kept[d] == kept[..hi][d];
    assert kept[..d] == kept[..hi][..d];
    assert kept[d + 1..] == kept[d + 1..hi] + kept[hi..];
    assert kept[d + 1..hi] == kept[..hi][d + 1..hi];
    SwapRemoveSpec(kept, d);
    SwapRemoveTail(kept, d);
  }

  /** The reported position `d = dupes[k]` lies below `hi`, the previous one, and the
      survivors from `d` on are what lies strictly between the two, then the survivors
      from `hi` on. */
  lemma SurvivorsFromDupe<T>(s: seq<T>, key: T -> string, dupes: seq<nat>, k: nat, hi: nat)
    requires ReportsDupes(s, key, dupes)
    requires k < |dupes| && hi <= |s|
    requires hi == if k == 0 then |s| else dupes[k - 1]
    ensures dupes[k] < hi
    ensures Survivors(s, key, dupes[k]) == s[dupes[k] + 1..hi] + Survivors(s, key, hi)
  {
    var d := dupes[k];
    assert d in dupes;
    assert IsDupe(s, key, d);
    NoDupesBetween(s, key, dupes, k, hi);
    SurvivorsNoDupes(s, key, d + 1, hi);
  }

  /** One pass of the removal loop: the reported position `d = dupes[k]` lies below the
      untouched prefix, and after `swap_remove(d)` the part at and above `d` holds
      exactly the survivors of `s[d..]`. */
  lemma DropStep<T>(s: seq<T>, key: T -> string, dupes: seq<nat>, k: nat, hi: nat, kept: seq<T>)
    requires ReportsDupes(s, key, dupes)
    requires k < |dupes|
    requires hi == if k == 0 then |s| else dupes[k - 1]
    requires hi <= |s| && hi <= |kept| && kept[..hi] == s[..hi]
    requires multiset(kept[hi..]) == multiset(Survivors(s, key, hi))
    ensures dupes[k] < hi
    ensures kept[dupes[k]] == s[dupes[k]]
    ensures SwapRemove(kept, dupes[k])[..dupes[k]] == s[..dupes[k]]
    ensures multiset(SwapRemove(kept, dupes[k])[dupes[k]..]) == multiset(Survivors(s, key, dupes[k]))
  {
    SurvivorsFromDupe(s, key, dupes, k, hi);
    SwapRemoveBelow(s, kept, dupes[k], hi, Survivors(s, key, hi));
  }

  /** After the loop the kept elements are a permutation of the survivors; they carry
      every key of `v` once. */
  lemma DropResult<T>(s: seq<T>, v: seq<T>, key: T -> string, kept: seq<T>)
    requires SortedByKey(s, key)
    requires multiset(s) == multiset(v)
    requires multiset(kept) == multiset(Survivors(s, key, 0))
    ensures DistinctKeys(kept, key)
    ensures KeySet(kept, key) == KeySet(v, key)
    ensures |kept| == |KeySet(v, key)|
  {
    SurvivorsDistinct(s, key, 0);
    DistinctKeysPermutation(kept, Survivors(s, key, 0), key);
    SameMultisetSameKeys(kept, Survivors(s, key, 0), key);
    SurvivorsKeys(s, key);
    SameMultisetSameKeys(s, v, key);
    DistinctKeysCard(kept, key);
  }

  /** The state of the removal loop after `k` removals: the positions from `hi` (the last
      one removed) on hold a rearrangement of the survivors from `hi`, everything below
      `hi` is untouched, and nothing has been lost. */
  ghost predicate Dropping<T>(s: seq<T>, key: T -> string, dupes: seq<nat>, k: nat, hi: nat, kept: seq<T>, dropped: seq<T>) {
    && k <= |dupes|
    && hi == (if k == 0 then |s| else dupes[k - 1])
    && (k == 0 ==> kept == s && dropped == [])
    && |kept| == |s| - k && |dropped| == k
    && hi <= |s| && hi <= |kept| && kept[..hi] == s[..hi]
    && multiset(kept[hi..]) == multiset(Survivors(s, key, hi))
    && multiset(kept) + multiset(dropped) == multiset(s)
  }

  /** What the removal loop holds: the elements kept and those dropped so far. */
  datatype Removal<T> = Removal(kept: seq<T>, dropped: seq<T>)

  /** The kept and the dropped elements after the first `k` reported positions have been
      removed with `swap_remove`. */
  ghost function Dropped<T>(s: seq<T>, dupes: seq<nat>, k: nat): Removal<T>
    requires k <= |dupes|
  {
    if k == 0 then Removal(s, [])
    else
      var prev := Dropped(s, dupes, k - 1);
      var d := dupes[k - 1];
      if d < |prev.kept| then Removal(SwapRemove(prev.kept, d), prev.dropped + [prev.kept[d]]) else prev
  }

  /** One pass of the removal loop keeps its state. */
  lemma DropNext<T>(s: seq<T>, key: T -> string, dupes: seq<nat>, k: nat, hi: nat, prev: Removal<T>)
    requires ReportsDupes(s, key, dupes)
    requires k < |dupes| && prev == Dropped(s, dupes, k)
    requires Dropping(s, key, dupes, k, hi, prev.kept, prev.dropped)
    ensures dupes[k] < |prev.kept|
    ensures Dropping(s, key, dupes, k + 1, dupes[k], Dropped(s, dupes, k + 1).kept, Dropped(s, dupes, k + 1).dropped)
  {
    var d := dupes[k];
    var kept := prev.kept;
    DropStep(s, key, dupes, k, hi, kept);
    SwapRemoveSpec(kept, d);
    assert kept[d] in multiset(kept);
    assert Dropped(s, dupes, k + 1) == Removal(SwapRemove(kept, d), prev.dropped + [kept[d]]);
  }

  /** The state after `k` removals is the removal loop's state. */
  lemma {:induction false} DroppedState<T>(s: seq<T>, key: T -> string, dupes: seq<nat>, k: nat)
    requires ReportsDupes(s, key, dupes) && k <= |dupes|
    ensures k == 0 ==> Dropping(s, key, dupes, k, |s|, Dropped(s, dupes, k).kept, Dropped(s, dupes, k).dropped)
    ensures k > 0 ==> Dropping(s, key, dupes, k, dupes[k - 1], Dropped(s, dupes, k).kept, Dropped(s, dupes, k).dropped)
  {
    if k == 1 {
      DroppedState(s, key, dupes, 0);
      DropNext(s, key, dupes, 0, |s|, Dropped(s, dupes, 0));
    } else if k > 1 {
      DroppedState(s, key, dupes, k - 1);
      DropNext(s, key, dupes, k - 1, dupes[k - 2], Dropped(s, dupes, k - 1));
    }
  }

  /** Every reported position is in range when its turn comes. */
  lemma DroppedInRange<T>(s: seq<T>, key: T -> string, dupes: seq<nat>, k: nat, kept: seq<T>, dropped: seq<T>)
    requires ReportsDupes(s, key, dupes) && k < |dupes|
    requires Removal(kept, dropped) == Dropped(s, dupes, k)
    ensures dupes[k] < |kept|
  {
    DroppedState(s, key, dupes, k);
    DropNext(s, key, dupes, k, if k == 0 then |s| else dupes[k - 1], Removal(kept, dropped));
  }

  /** The next removal extends `Dropped` by one step. */
  lemma DroppedNext<T>(s: seq<T>, dupes: seq<nat>, k: nat, kept: seq<T>, dropped: seq<T>)
    requires k < |dupes| && Removal(kept, dropped) == Dropped(s, dupes, k) && dupes[k] < |kept|
    ensures Dropped(s, dupes, k + 1) == Removal(SwapRemove(kept, dupes[k]), dropped + [kept[dupes[k]]])
  {
  }

  /** When every reported position has been removed, the kept elements are a permutation
      of the survivors of the whole slice, and nothing has been lost. */
  lemma DroppedAll<T>(s: seq<T>, key: T -> string, dupes: seq<nat>, kept: seq<T>, dropped: seq<T>)
    requires ReportsDupes(s, key, dupes)
    requires Removal(kept, dropped) == Dropped(s, dupes, |dupes|)
    ensures dupes == [] ==> kept == s && dropped == []
    ensures |kept| == |s| - |dupes| && |dropped| == |dupes|
    ensures multiset(kept) == multiset(Survivors(s, key, 0))
    ensures multiset(kept) + multiset(dropped) == multiset(s)
  {
    var hi := if |dupes| == 0 then |s| else dupes[|dupes| - 1];
    DroppedState(s, key, dupes, |dupes|);
    NoDupesBetween(s, key, dupes, |dupes|, hi);
    SurvivorsNoDupes(s, key, 0, hi);
    assert kept == kept[..hi] + kept[hi..];
  }

  /** Lines 39-41 of src/download.rs: `swap_remove` of every reported position, in the
      descending order reported. Each removal takes a dupe, so what is left is a
      rearrangement of the survivors, the last element of every run of equal keys. */
  method DropReported<T>(s: seq<T>, key: T -> string, dupes: seq<nat>) returns (kept: seq<T>, dropped: seq<T>)
    requires ReportsDupes(s, key, dupes)
    ensures dupes == [] ==> kept == s && dropped == []
    ensures |kept| == |s| - |dupes| && |dropped| == |dupes|
    ensures multiset(kept) == multiset(Survivors(s, key, 0))
    ensures multiset(kept) + multiset(dropped) == multiset(s)
  {
    kept, dropped := s, [];
    for k: nat := 0 to |dupes|
      invariant Removal(kept, dropped) == Dropped(s, dupes, k)
    {
      var d := dupes[k];
      DroppedInRange(s, key, dupes, k, kept, dropped);
      DroppedNext(s, dupes, k, kept, dropped);
      dropped := dropped + [kept[d]];
      kept := SwapRemove(kept, d);
    }
    DroppedAll(s, key, dupes, kept, dropped);
  }

  /** Lines 32-47 of src/download.rs: `find_dupes_by_key` on the requests, then the
      removal of every reported position. What is left carries every key of `v` exactly
      once; `dropped` are the removed elements, whose keys the warning names, and each of
      them still has a survivor. */
  method DropDuplicates<T>(v: seq<T>, key: T -> string) returns (kept: seq<T>, dropped: seq<T>)
    ensures |v| < 2 ==> kept == v && dropped == []
    ensures DistinctKeys(kept, key)
    ensures KeySet(kept, key) == KeySet(v, key)
    ensures |kept| == |KeySet(v, key)|
    ensures multiset(kept) + multiset(dropped) == multiset(v)
    ensures forall x :: x in dropped ==> key(x) in KeySet(kept, key)
  {
    var slice := new T[|v|](i requires 0 <= i < |v| => v[i]);
    assert slice[..] == v;
    var dupes := FindDupesByKey(slice, key);
    assert ReportsDupes(slice[..], key, dupes);
    kept, dropped := DropReported(slice[..], key, dupes);
    DropResult(slice[..], v, key, kept);
    forall x | x in dropped ensures key(x) in KeySet(kept, key) {
      assert x in multiset(dropped);
      assert x in multiset(v);
    }
  }
}

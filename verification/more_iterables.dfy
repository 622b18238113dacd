/** `MoreIterables`: a null-hostile copy of a list, and sorting with duplicates
    removed. An element's `compareTo` is modelled by an integer key: two elements
    compare as their keys do. */
module MoreIterables {
  import opened Wrappers

  /** A list of possibly-null elements as a sequence of options. */
  function ToNullHostileList<T>(input: seq<Option<T>>): (r: Result<seq<T>>)
    ensures r.Success? <==> forall i :: 0 <= i < |input| ==> input[i].Some?
    ensures r.Success? ==> |r.value| == |input| && forall i :: 0 <= i < |input| ==> r.value[i] == input[i].value
  {
    if |input| == 0 then Success([])
    else if input[0].None? then Failure(NULL_POINTER)
    else
      var rest :- ToNullHostileList(input[1..]);
      assert forall i :: 1 <= i < |input| ==> input[i] == input[1..][i - 1];
      Success([input[0].value] + rest)
  }

  predicate SortedBy<T>(s: seq<T>, key: T -> int) {
    forall i, j :: 0 <= i < j < |s| ==> key(s[i]) <= key(s[j])
  }

  predicate StrictlyIncreasing<T>(s: seq<T>, key: T -> int) {
    forall i, j :: 0 <= i < j < |s| ==> key(s[i]) < key(s[j])
  }

  /** Puts `x` before the first element whose key is not smaller, so that it stays
      ahead of the elements it compares equal to. */
  function Insert<T>(x: T, s: seq<T>, key: T -> int): (r: seq<T>)
    requires SortedBy(s, key)
    ensures SortedBy(r, key)
    ensures multiset(r) == multiset(s) + multiset{x}
    ensures |r| == |s| + 1
  {
    if |s| == 0 || key(x) <= key(s[0]) then [x] + s
    else
      var rest := Insert(x, s[1..], key);
      HeadBelowRest(x, s, rest, key);
      [s[0]] + rest
  }

  /** The head of a sorted list, no larger than `x`, is no larger than anything
      the rest of the list and `x` are rearranged into. */
  lemma HeadBelowRest<T>(x: T, s: seq<T>, rest: seq<T>, key: T -> int)
    requires SortedBy(s, key) && |s| > 0 && key(s[0]) <= key(x)
    requires SortedBy(rest, key) && multiset(rest) == multiset(s[1..]) + multiset{x}
    ensures SortedBy([s[0]] + rest, key)
    ensures multiset([s[0]] + rest) == multiset(s) + multiset{x}
  {
    assert s == [s[0]] + s[1..];
    forall k | 0 <= k < |rest| ensures key(s[0]) <= key(rest[k]) {
      assert rest[k] in multiset(rest);
      assert rest[k] == x || rest[k] in multiset(s[1..]);
    }
  }

  /** `Collections.sort`: a sort by key. */
  function Sort<T>(s: seq<T>, key: T -> int): (r: seq<T>)
    ensures SortedBy(r, key)
    ensures multiset(r) == multiset(s)
  {
    if |s| == 0 then []
    else
      assert s == [s[0]] + s[1..];
      Insert(s[0], Sort(s[1..], key), key)
  }

  /** The keys of a sequence, in order. */
  function Keys<T>(s: seq<T>, key: T -> int): (ks: seq<int>)
    ensures |ks| == |s| && forall i :: 0 <= i < |s| ==> ks[i] == key(s[i])
  {
    if |s| == 0 then [] else [key(s[0])] + Keys(s[1..], key)
  }

  /** What the loop has kept after looking at the first `n` sorted elements. */
  ghost predicate Kept<T>(sorted: seq<T>, r: seq<T>, n: int, key: T -> int) {
    && 1 <= n <= |sorted|
    && |r| >= 1
    && StrictlyIncreasing(r, key)
    && key(r[|r| - 1]) == key(sorted[n - 1])
    && (forall i :: 0 <= i < |r| ==> r[i] in sorted)
    && (forall j :: 0 <= j < n ==> key(sorted[j]) in Keys(r, key))
  }

  lemma AppendIncreasing<T>(r: seq<T>, x: T, key: T -> int)
    requires |r| >= 1 && StrictlyIncreasing(r, key) && key(r[|r| - 1]) < key(x)
    ensures StrictlyIncreasing(r + [x], key)
  {
    var r' := r + [x];
    forall i, j | 0 <= i < j < |r'|
      ensures key(r'[i]) < key(r'[j])
    {
      if j == |r| {
        assert key(r[i]) <= key(r[|r| - 1]);
      } else {
        assert r'[i] == r[i] && r'[j] == r[j];
      }
    }
  }

  lemma AppendCovers<T>(sorted: seq<T>, r: seq<T>, n: int, key: T -> int)
    requires 0 <= n < |sorted|
    requires forall j :: 0 <= j < n ==> key(sorted[j]) in Keys(r, key)
    ensures forall j :: 0 <= j < n + 1 ==> key(sorted[j]) in Keys(r + [sorted[n]], key)
  {
    assert Keys(r + [sorted[n]], key) == Keys(r, key) + [key(sorted[n])];
  }

  /** An element with a new key is kept, and the loop's facts carry over. */
  lemma KeepNext<T>(sorted: seq<T>, r: seq<T>, n: int, key: T -> int)
    requires SortedBy(sorted, key) && Kept(sorted, r, n, key) && n < |sorted|
    requires key(sorted[n]) != key(r[|r| - 1])
    ensures Kept(sorted, r + [sorted[n]], n + 1, key)
  {
    assert key(sorted[n - 1]) <= key(sorted[n]);
    AppendIncreasing(r, sorted[n], key);
    AppendCovers(sorted, r, n, key);
  }

  /** An element that compares equal to the last kept one is dropped, and the
      loop's facts carry over. */
  lemma DropNext<T>(sorted: seq<T>, r: seq<T>, n: int, key: T -> int)
    requires Kept(sorted, r, n, key) && n < |sorted|
    requires key(sorted[n]) == key(r[|r| - 1])
    ensures Kept(sorted, r, n + 1, key)
  {
    assert Keys(r, key)[|r| - 1] == key(sorted[n]);
  }

  /** The loop over the sorted list: an element that compares equal to the last
      one kept is removed, any other one is kept and becomes the last. */
  method RemoveDuplicates<T>(sorted: seq<T>, key: T -> int) returns (r: seq<T>)
    requires SortedBy(sorted, key)
    ensures StrictlyIncreasing(r, key)
    ensures forall i :: 0 <= i < |r| ==> r[i] in sorted
    ensures forall j :: 0 <= j < |sorted| ==> key(sorted[j]) in Keys(r, key)
    ensures |sorted| <= 1 ==> r == sorted
  {
    if |sorted| <= 1 {
      return sorted;
    }
    r := [sorted[0]];
    var n := 1;
    while n < |sorted|
      invariant Kept(sorted, r, n, key)
    {
      var next := sorted[n];
      if key(next) != key(r[|r| - 1]) {
        KeepNext(sorted, r, n, key);
        r := r + [next];
      } else {
        DropNext(sorted, r, n, key);
      }
      n := n + 1;
    }
  }

  /** Every kept element is one of the raw elements. */
  lemma SortedSetFromRaw<T>(raw: seq<Option<T>>, list: seq<T>, sorted: seq<T>, unique: seq<T>)
    requires |list| == |raw| && forall i :: 0 <= i < |raw| ==> raw[i] == Some(list[i])
    requires multiset(sorted) == multiset(list)
    requires forall i :: 0 <= i < |unique| ==> unique[i] in sorted
    ensures forall i :: 0 <= i < |unique| ==> Some(unique[i]) in raw
  {
    forall i | 0 <= i < |unique|
      ensures Some(unique[i]) in raw
    {
      assert unique[i] in multiset(list);
      var j :| 0 <= j < |list| && list[j] == unique[i];
      assert raw[j] == Some(unique[i]);
    }
  }

  /** Every raw element compares equal to a kept one. */
  lemma SortedSetCoversRaw<T>(raw: seq<Option<T>>, list: seq<T>, sorted: seq<T>, unique: seq<T>, key: T -> int)
    requires |list| == |raw| && forall i :: 0 <= i < |raw| ==> raw[i] == Some(list[i])
    requires multiset(sorted) == multiset(list)
    requires forall j :: 0 <= j < |sorted| ==> key(sorted[j]) in Keys(unique, key)
    ensures forall j :: 0 <= j < |raw| ==> key(raw[j].value) in Keys(unique, key)
  {
    forall j | 0 <= j < |raw|
      ensures key(raw[j].value) in Keys(unique, key)
    {
      assert list[j] in multiset(sorted);
      var k :| 0 <= k < |sorted| && sorted[k] == list[j];
    }
  }

  /** `toSortedSet(raw)`: refuse nulls, sort, then drop the elements that compare
      equal to the one before. */
  method ToSortedSet<T>(raw: seq<Option<T>>, key: T -> int) returns (r: Result<seq<T>>)
    ensures r.Success? <==> forall i :: 0 <= i < |raw| ==> raw[i].Some?
    ensures r.Success? ==> StrictlyIncreasing(r.value, key)
    ensures r.Success? ==> forall i :: 0 <= i < |r.value| ==> Some(r.value[i]) in raw
    ensures r.Success? ==> forall j :: 0 <= j < |raw| ==> key(raw[j].value) in Keys(r.value, key)
  {
    var list := ToNullHostileList(raw);
    if list.Failure? {
      return Failure(list.error);
    }
    var sorted := Sort(list.value, key);
    var unique := RemoveDuplicates(sorted, key);
    SortedSetFromRaw(raw, list.value, sorted, unique);
    SortedSetCoversRaw(raw, list.value, sorted, unique, key);
    return Success(unique);
  }
}

/** `Array.prototype.sort` with a comparator of the form
    `(a, b) => key(b) - key(a)`: descending by key, and stable (elements
    with equal keys keep their relative order), as ECMAScript requires
    since its 2019 edition. Both sorts of the application have this shape:
    repositories by star count and file extensions by frequency. */
module StableSort {
  import opened Sequences

  ghost predicate SortedDesc<T>(s: seq<T>, key: T -> int) {
    forall i, j :: 0 <= i < j < |s| ==> key(s[i]) >= key(s[j])
  }

  /** Places x after every element at the back of s whose key is smaller,
      scanning from the back: the insertion step of a stable sort. */
  function InsertBack<T>(s: seq<T>, x: T, key: T -> int): (r: seq<T>)
    ensures |r| == |s| + 1
  {
    if s == [] || key(s[|s| - 1]) >= key(x) then s + [x]
    else InsertBack(s[..|s| - 1], x, key) + [s[|s| - 1]]
  }

  /** The order the stable descending sort produces. */
  function SortDesc<T>(s: seq<T>, key: T -> int): (r: seq<T>)
    ensures |r| == |s|
  {
    if s == [] then [] else InsertBack(SortDesc(s[..|s| - 1], key), s[|s| - 1], key)
  }

  function HasKey<T>(key: T -> int, k: int): T -> bool {
    x => key(x) == k
  }

  /** The elements of s whose key is k, in their order in s. */
  function WithKey<T>(s: seq<T>, key: T -> int, k: int): seq<T> {
    Filter(s, HasKey(key, k))
  }

  lemma WithKeyAppend<T>(a: seq<T>, b: seq<T>, key: T -> int, k: int)
    ensures WithKey(a + b, key, k) == WithKey(a, key, k) + WithKey(b, key, k)
  {
    FilterAppend(a, b, HasKey(key, k));
  }

  lemma {:induction false} InsertBackPermutation<T>(s: seq<T>, x: T, key: T -> int)
    ensures multiset(InsertBack(s, x, key)) == multiset(s) + multiset{x}
  {
    if s != [] && key(s[|s| - 1]) < key(x) {
      var init := s[..|s| - 1];
      InsertBackPermutation(init, x, key);
      assert s == init + [s[|s| - 1]];
    }
  }

  ghost predicate AllAtLeast<T>(s: seq<T>, key: T -> int, b: int) {
    forall i :: 0 <= i < |s| ==> key(s[i]) >= b
  }

  lemma SortedAppend<T>(s: seq<T>, y: T, key: T -> int)
    requires SortedDesc(s, key) && AllAtLeast(s, key, key(y))
    ensures SortedDesc(s + [y], key)
  {
  }

  lemma {:induction false} InsertBackAtLeast<T>(s: seq<T>, x: T, key: T -> int, b: int)
    requires AllAtLeast(s, key, b) && key(x) >= b
    ensures AllAtLeast(InsertBack(s, x, key), key, b)
  {
    if s != [] && key(s[|s| - 1]) < key(x) {
      InsertBackAtLeast(s[..|s| - 1], x, key, b);
    }
  }

  lemma {:induction false} InsertBackSorted<T>(s: seq<T>, x: T, key: T -> int)
    requires SortedDesc(s, key)
    ensures SortedDesc(InsertBack(s, x, key), key)
  {
    if s != [] && key(s[|s| - 1]) < key(x) {
      var init, y := s[..|s| - 1], s[|s| - 1];
      InsertBackSorted(init, x, key);
      InsertBackAtLeast(init, x, key, key(y));
      SortedAppend(InsertBack(init, x, key), y, key);
    } else if s != [] {
      SortedAppend(s, x, key);
    }
  }

  lemma {:induction false} InsertBackStable<T>(s: seq<T>, x: T, key: T -> int, k: int)
    ensures WithKey(InsertBack(s, x, key), key, k) == WithKey(s + [x], key, k)
  {
    if s != [] && key(s[|s| - 1]) < key(x) {
      var init, y := s[..|s| - 1], s[|s| - 1];
      InsertBackStable(init, x, key, k);
      WithKeyAppend(InsertBack(init, x, key), [y], key, k);
      WithKeyAppend(init, [x], key, k);
      WithKeyAppend(init + [y], [x], key, k);
      WithKeyAppend(init, [y], key, k);
      assert s == init + [y];
      assert WithKey([x], key, k) == (if key(x) == k then [x] else []);
      assert WithKey([y], key, k) == (if key(y) == k then [y] else []);
    }
  }

  /** The sorted order is non-increasing by key. */
  lemma {:induction false} SortDescSorted<T>(s: seq<T>, key: T -> int)
    ensures SortedDesc(SortDesc(s, key), key)
  {
    if s != [] {
      SortDescSorted(s[..|s| - 1], key);
      InsertBackSorted(SortDesc(s[..|s| - 1], key), s[|s| - 1], key);
    }
  }

  /** The sort neither loses nor invents elements. */
  lemma {:induction false} SortDescPermutation<T>(s: seq<T>, key: T -> int)
    ensures multiset(SortDesc(s, key)) == multiset(s)
  {
    if s != [] {
      var init := s[..|s| - 1];
      SortDescPermutation(init, key);
      InsertBackPermutation(SortDesc(init, key), s[|s| - 1], key);
      assert s == init + [s[|s| - 1]];
    }
  }

  /** Stability: the elements sharing any one key appear in the sorted
      order exactly as they appeared in the input. */
  lemma {:induction false} SortDescStable<T>(s: seq<T>, key: T -> int, k: int)
    ensures WithKey(SortDesc(s, key), key, k) == WithKey(s, key, k)
  {
    if s != [] {
      var init, x := s[..|s| - 1], s[|s| - 1];
      SortDescStable(init, key, k);
      InsertBackStable(SortDesc(init, key), x, key, k);
      WithKeyAppend(SortDesc(init, key), [x], key, k);
      WithKeyAppend(init, [x], key, k);
      assert s == init + [x];
    }
  }

  /** Where the insertion step places x: after the last element whose key
      is at least key(x), when every element after that one has a smaller
      key. */
  lemma {:induction false} InsertBackAt<T>(s: seq<T>, x: T, key: T -> int, j: nat)
    requires j <= |s|
    requires j == 0 || key(s[j - 1]) >= key(x)
    requires forall k :: j <= k < |s| ==> key(s[k]) < key(x)
    ensures InsertBack(s, x, key) == s[..j] + [x] + s[j..]
  {
    if j < |s| {
      var init := s[..|s| - 1];
      assert init[..j] == s[..j] && init[j..] + [s[|s| - 1]] == s[j..];
      InsertBackAt(init, x, key, j);
    }
  }

  /** The array contents once the gap at j is filled: the inserted
      element between the unmoved and the shifted elements. */
  lemma ShiftedContents<T>(b: seq<T>, done: seq<T>, x: T, j: nat, i: nat)
    requires j <= i == |done| < |b|
    requires forall k :: 0 <= k < j ==> b[k] == done[k]
    requires b[j] == x
    requires forall k :: j < k <= i ==> b[k] == done[k - 1]
    ensures b[..i + 1] == done[..j] + [x] + done[j..]
  {
  }

  /** Moves a[i] left past the elements before it with smaller keys: one
      insertion step on the prefix a[..i]. */
  method InsertInPlace<T>(a: array<T>, i: nat, key: T -> int)
    requires i < a.Length
    modifies a
    ensures a[..i + 1] == InsertBack(old(a[..i]), old(a[i]), key)
    ensures a[i + 1..] == old(a[i + 1..])
  {
    ghost var done := a[..i];
    var x := a[i];
    var j := i;
    while j > 0 && key(a[j - 1]) < key(x)
      invariant 0 <= j <= i
      invariant forall k :: 0 <= k < j ==> a[k] == done[k]
      invariant forall k :: j < k <= i ==> a[k] == done[k - 1]
      invariant forall k :: i < k < a.Length ==> a[k] == old(a[k])
      invariant forall k :: j <= k < i ==> key(done[k]) < key(x)
    {
      a[j] := a[j - 1];
      j := j - 1;
    }
    a[j] := x;
    InsertBackAt(done, x, key, j);
    ShiftedContents(a[..], done, x, j, i);
  }

  /** The in-place insertion sort: after it, the array holds the stable
      descending order of what it held before. */
  method SortInPlace<T>(a: array<T>, key: T -> int)
    modifies a
    ensures a[..] == SortDesc(old(a[..]), key)
  {
    var i := 0;
    while i < a.Length
      invariant 0 <= i <= a.Length
      invariant a[..i] == SortDesc(old(a[..])[..i], key)
      invariant a[i..] == old(a[..])[i..]
    {
      InsertInPlace(a, i, key);
      assert old(a[..])[..i + 1][..i] == old(a[..])[..i];
      i := i + 1;
    }
    assert old(a[..])[..a.Length] == old(a[..]);
  }
}

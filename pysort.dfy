/** Python's `list.sort(key=functools.cmp_to_key(cmp), reverse=True)` on a
    comparator whose sign agrees with an integer key. The sort is stable even
    with reverse=True: the result is ordered by non-increasing key, and the
    elements of each key keep their input order. */
module PySort {

  /** The elements of s whose key is v, in order. */
  function FilterKey<T>(s: seq<T>, key: T -> int, v: int): seq<T>
  {
    if |s| == 0 then []
    else FilterKey(s[..|s| - 1], key, v) + (if key(s[|s| - 1]) == v then [s[|s| - 1]] else [])
  }

  predicate NonIncreasing<T>(s: seq<T>, key: T -> int)
  {
    forall i, j :: 0 <= i < j < |s| ==> key(s[i]) >= key(s[j])
  }

  /** ys is xs sorted by non-increasing key, stably. */
  ghost predicate StablySortedDesc<T>(xs: seq<T>, ys: seq<T>, key: T -> int)
  {
    && multiset(ys) == multiset(xs)
    && NonIncreasing(ys, key)
    && forall v :: FilterKey(ys, key, v) == FilterKey(xs, key, v)
  }

  /** The comparator's sign is the sign of key(a) - key(b). */
  predicate Agrees<T>(cmp: (T, T) -> int, key: T -> int, a: T, b: T)
  {
    (cmp(a, b) < 0 <==> key(a) < key(b)) && (cmp(a, b) > 0 <==> key(a) > key(b))
  }

  /** The comparator agrees with the key on every pair of distinct positions;
      a sort never compares an element with itself. */
  predicate ConsistentOn<T>(cmp: (T, T) -> int, key: T -> int, xs: seq<T>)
  {
    forall i, j :: 0 <= i < |xs| && 0 <= j < |xs| && i != j ==> Agrees(cmp, key, xs[i], xs[j])
  }

  lemma {:induction false} FilterAppend<T>(a: seq<T>, b: seq<T>, key: T -> int, v: int)
    ensures FilterKey(a + b, key, v) == FilterKey(a, key, v) + FilterKey(b, key, v)
  {
    if |b| > 0 {
      var n := |b| - 1;
      assert (a + b)[..|a + b| - 1] == a + b[..n];
      FilterAppend(a, b[..n], key, v);
    } else {
      assert a + b == a;
    }
  }

  lemma {:induction false} FilterAbsent<T>(s: seq<T>, key: T -> int, v: int)
    requires forall i :: 0 <= i < |s| ==> key(s[i]) != v
    ensures FilterKey(s, key, v) == []
  {
    if |s| > 0 {
      FilterAbsent(s[..|s| - 1], key, v);
    }
  }

  /** Inserting x after every element with a key at least key(x) and before
      the first one with a smaller key keeps the order. */
  lemma InsertKeepsOrder<T>(ys: seq<T>, j: nat, x: T, key: T -> int)
    requires j <= |ys| && NonIncreasing(ys, key)
    requires forall t :: 0 <= t < j ==> key(ys[t]) >= key(x)
    requires j < |ys| ==> key(ys[j]) < key(x)
    ensures NonIncreasing(ys[..j] + [x] + ys[j..], key)
  {
    var zs := ys[..j] + [x] + ys[j..];
    assert |zs| == |ys| + 1;
    forall a, b | 0 <= a < b < |zs|
      ensures key(zs[a]) >= key(zs[b])
    {
      if b < j {
        assert zs[a] == ys[a] && zs[b] == ys[b];
      } else if b == j {
        assert zs[a] == ys[a] && zs[b] == x;
      } else if a == j {
        assert zs[a] == x && zs[b] == ys[b - 1];
        assert key(ys[j]) >= key(ys[b - 1]);
      } else if a < j {
        assert zs[a] == ys[a] && zs[b] == ys[b - 1];
      } else {
        assert zs[a] == ys[a - 1] && zs[b] == ys[b - 1];
      }
    }
  }

  /** The same insertion appends x to the elements of its key and leaves the
      elements of every other key as they were. */
  lemma InsertKeepsFilters<T>(ys: seq<T>, j: nat, x: T, key: T -> int, v: int)
    requires j <= |ys| && NonIncreasing(ys, key)
    requires j < |ys| ==> key(ys[j]) < key(x)
    ensures FilterKey(ys[..j] + [x] + ys[j..], key, v)
            == FilterKey(ys, key, v) + (if key(x) == v then [x] else [])
  {
    FilterAppend(ys[..j] + [x], ys[j..], key, v);
    FilterAppend(ys[..j], [x], key, v);
    FilterAppend(ys[..j], ys[j..], key, v);
    assert ys[..j] + ys[j..] == ys;
    assert [x][..0] == [];
    assert FilterKey([x], key, v) == (if key(x) == v then [x] else []);
    if key(x) == v {
      forall t | 0 <= t < |ys[j..]|
        ensures key(ys[j..][t]) != v
      {
        assert key(ys[j..][t]) <= key(ys[j]);
      }
      FilterAbsent(ys[j..], key, v);
    }
  }

  /** A stable descending sort by insertion; it compares elements only through
      cmp. */
  method SortDescending<T(==)>(xs: seq<T>, cmp: (T, T) -> int, ghost key: T -> int) returns (ys: seq<T>)
    requires ConsistentOn(cmp, key, xs)
    ensures StablySortedDesc(xs, ys, key)
  {
    ys := [];
    for i := 0 to |xs|
      invariant multiset(ys) == multiset(xs[..i])
      invariant NonIncreasing(ys, key)
      invariant forall v :: FilterKey(ys, key, v) == FilterKey(xs[..i], key, v)
    {
      var x := xs[i];
      var j := 0;
      while j < |ys| && cmp(ys[j], x) >= 0
        invariant 0 <= j <= |ys|
        invariant forall t :: 0 <= t < j ==> key(ys[t]) >= key(x)
      {
        CameFromEarlier(xs, i, ys[j], cmp, key);
        j := j + 1;
      }
      if j < |ys| {
        CameFromEarlier(xs, i, ys[j], cmp, key);
      }
      InsertStep(xs, i, ys, j, key);
      ys := ys[..j] + [x] + ys[j..];
    }
    assert xs[..|xs|] == xs;
  }

  /** One step of the insertion sort keeps its three invariants. */
  lemma InsertStep<T>(xs: seq<T>, i: nat, ys: seq<T>, j: nat, key: T -> int)
    requires i < |xs| && j <= |ys|
    requires multiset(ys) == multiset(xs[..i])
    requires NonIncreasing(ys, key)
    requires forall v :: FilterKey(ys, key, v) == FilterKey(xs[..i], key, v)
    requires forall t :: 0 <= t < j ==> key(ys[t]) >= key(xs[i])
    requires j < |ys| ==> key(ys[j]) < key(xs[i])
    ensures multiset(ys[..j] + [xs[i]] + ys[j..]) == multiset(xs[..i + 1])
    ensures NonIncreasing(ys[..j] + [xs[i]] + ys[j..], key)
    ensures forall v :: FilterKey(ys[..j] + [xs[i]] + ys[j..], key, v) == FilterKey(xs[..i + 1], key, v)
  {
    InsertKeepsOrder(ys, j, xs[i], key);
    InsertStepFilters(xs, i, ys, j, key);
    InsertStepElements(xs, i, ys, j);
  }

  /** Inserting xs[i] keeps, for every key, the elements of that key in
      input order. */
  lemma InsertStepFilters<T>(xs: seq<T>, i: nat, ys: seq<T>, j: nat, key: T -> int)
    requires i < |xs| && j <= |ys| && NonIncreasing(ys, key)
    requires forall v :: FilterKey(ys, key, v) == FilterKey(xs[..i], key, v)
    requires j < |ys| ==> key(ys[j]) < key(xs[i])
    ensures forall v :: FilterKey(ys[..j] + [xs[i]] + ys[j..], key, v) == FilterKey(xs[..i + 1], key, v)
  {
    forall v
      ensures FilterKey(ys[..j] + [xs[i]] + ys[j..], key, v) == FilterKey(xs[..i + 1], key, v)
    {
      InsertKeepsFilters(ys, j, xs[i], key, v);
      FilterPrefixStep(xs, i, key, v);
    }
  }

  /** Filtering one more element of the input adds it when its key is v. */
  lemma FilterPrefixStep<T>(xs: seq<T>, i: nat, key: T -> int, v: int)
    requires i < |xs|
    ensures FilterKey(xs[..i + 1], key, v) == FilterKey(xs[..i], key, v) + (if key(xs[i]) == v then [xs[i]] else [])
  {
    assert xs[..i + 1][..i] == xs[..i];
  }

  /** Inserting xs[i] into a permutation of xs[..i] gives one of xs[..i + 1]. */
  lemma InsertStepElements<T>(xs: seq<T>, i: nat, ys: seq<T>, j: nat)
    requires i < |xs| && j <= |ys| && multiset(ys) == multiset(xs[..i])
    ensures multiset(ys[..j] + [xs[i]] + ys[j..]) == multiset(xs[..i + 1])
  {
    InsertKeepsElements(ys, j, xs[i]);
    assert xs[..i + 1] == xs[..i] + [xs[i]];
  }

  lemma InsertKeepsElements<T>(ys: seq<T>, j: nat, x: T)
    requires j <= |ys|
    ensures multiset(ys[..j] + [x] + ys[j..]) == multiset(ys) + multiset{x}
  {
    assert ys == ys[..j] + ys[j..];
  }

  /** An element already placed came from a position before i, so the
      comparator agrees with the key on it and xs[i]. */
  lemma CameFromEarlier<T>(xs: seq<T>, i: nat, y: T, cmp: (T, T) -> int, key: T -> int)
    requires i < |xs| && ConsistentOn(cmp, key, xs) && y in multiset(xs[..i])
    ensures Agrees(cmp, key, y, xs[i])
  {
    assert y in xs[..i];
    var m :| 0 <= m < i && xs[..i][m] == y;
    assert xs[m] == y;
  }
}

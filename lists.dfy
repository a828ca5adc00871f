/** Python's `sorted(..., key=...)` (a stable sort) and `list.index`, over
    sequences, with the facts the scripts rely on. */
module Lists {
  import opened Strings

  /** Every pair in order of position is in order of key. */
  ghost predicate SortedBy<T>(s: seq<T>, key: T -> string)
  {
    forall i, j :: 0 <= i < j < |s| ==> Le(key(s[i]), key(s[j]))
  }

  /** No value occurs twice. */
  ghost predicate Distinct<T>(s: seq<T>)
  {
    forall i, j :: 0 <= i < j < |s| ==> s[i] != s[j]
  }

  /** A value not in a sequence without repeats can go in front of it. */
  lemma ConsDistinct<T>(x: T, s: seq<T>)
    requires Distinct(s) && x !in s
    ensures Distinct([x] + s)
  {
    var t := [x] + s;
    forall i, j | 0 <= i < j < |t|
      ensures t[i] != t[j]
    {
      assert t[j] == s[j - 1];
      if i > 0 {
        assert t[i] == s[i - 1];
      }
    }
  }

  /** Strictly ascending: sorted, with no name twice. */
  ghost predicate StrictlyAscending(s: seq<string>)
  {
    forall i, j :: 0 <= i < j < |s| ==> Lt(s[i], s[j])
  }

  /** The elements whose key is `k`, in their original order; a sort is
      stable when it keeps this subsequence unchanged for every `k`. */
  function WithKey<T>(s: seq<T>, key: T -> string, k: string): seq<T>
  {
    if s == [] then [] else Only(s[0], key, k) + WithKey(s[1..], key, k)
  }

  /** `[y]` when `y` has key `k`, else nothing. */
  function Only<T>(y: T, key: T -> string, k: string): seq<T>
  {
    if key(y) == k then [y] else []
  }

  /** Places `x` before the first element whose key is not smaller. */
  function Insert<T>(x: T, t: seq<T>, key: T -> string): (r: seq<T>)
    ensures multiset(r) == multiset(t) + multiset{x}
  {
    if t == [] then [x]
    else if Le(key(x), key(t[0])) then [x] + t
    else
      assert t == [t[0]] + t[1..];
      [t[0]] + Insert(x, t[1..], key)
  }

  /** Inserting `x` puts it in front of every element of its key. */
  lemma {:induction false} InsertKeeps<T>(x: T, t: seq<T>, key: T -> string, k: string)
    ensures WithKey(Insert(x, t, key), key, k) == Only(x, key, k) + WithKey(t, key, k)
  {
    if t == [] {
      assert [x][1..] == [];
    } else if Le(key(x), key(t[0])) {
      assert ([x] + t)[1..] == t;
    } else {
      var rest := Insert(x, t[1..], key);
      InsertKeeps(x, t[1..], key, k);
      assert Insert(x, t, key) == [t[0]] + rest;
      assert ([t[0]] + rest)[1..] == rest;
      LeReflexive(key(x));
      SwapOnly(x, t[0], key, k, WithKey(t[1..], key, k));
    }
  }

  /** Elements of different keys commute in front of a subsequence. */
  lemma SwapOnly<T>(x: T, y: T, key: T -> string, k: string, w: seq<T>)
    requires key(x) != key(y)
    ensures Only(y, key, k) + (Only(x, key, k) + w) == Only(x, key, k) + (Only(y, key, k) + w)
  {
  }

  lemma {:induction false} InsertSorted<T>(x: T, t: seq<T>, key: T -> string)
    requires SortedBy(t, key)
    ensures SortedBy(Insert(x, t, key), key)
  {
    if t != [] && !Le(key(x), key(t[0])) {
      var rest := Insert(x, t[1..], key);
      var r := [t[0]] + rest;
      assert r == Insert(x, t, key);
      InsertSorted(x, t[1..], key);
      LeTotal(key(x), key(t[0]));
      forall i, j | 0 <= i < j < |r|
        ensures Le(key(r[i]), key(r[j]))
      {
        if i == 0 {
          assert r[j] == rest[j - 1];
          assert r[j] in multiset(rest);
          if r[j] != x {
            assert r[j] in multiset(t[1..]);
            var m :| 0 <= m < |t[1..]| && t[1..][m] == r[j];
            assert t[m + 1] == r[j];
          }
        } else {
          assert r[i] == rest[i - 1] && r[j] == rest[j - 1];
        }
      }
    } else if t != [] {
      var r := [x] + t;
      forall i, j | 0 <= i < j < |r|
        ensures Le(key(r[i]), key(r[j]))
      {
        if i == 0 {
          assert r[j] == t[j - 1];
          if j > 1 {
            LeTransitive(key(x), key(t[0]), key(t[j - 1]));
          }
        } else {
          assert r[i] == t[i - 1] && r[j] == t[j - 1];
        }
      }
    }
  }

  /** `sorted(s, key=key)`: insertion sort, each element inserted in front of
      the already sorted elements of equal key that come after it. */
  function SortBy<T>(s: seq<T>, key: T -> string): (r: seq<T>)
    ensures multiset(r) == multiset(s)
    ensures SortedBy(r, key)
  {
    if s == [] then []
    else
      assert s == [s[0]] + s[1..];
      InsertSorted(s[0], SortBy(s[1..], key), key);
      Insert(s[0], SortBy(s[1..], key), key)
  }

  /** The sort is stable: the elements of each key keep their order. */
  lemma {:induction false} SortByStable<T>(s: seq<T>, key: T -> string)
    ensures forall k :: WithKey(SortBy(s, key), key, k) == WithKey(s, key, k)
  {
    if s != [] {
      SortByStable(s[1..], key);
      forall k
        ensures WithKey(SortBy(s, key), key, k) == WithKey(s, key, k)
      {
        InsertKeeps(s[0], SortBy(s[1..], key), key, k);
      }
    }
  }

  /** `s.index(x)`: the first position holding `x`. */
  function IndexOf<T(==)>(s: seq<T>, x: T): (i: nat)
    requires x in s
    ensures i < |s| && s[i] == x
    ensures forall j :: 0 <= j < i ==> s[j] != x
  {
    if s[0] == x then 0 else 1 + IndexOf(s[1..], x)
  }

  /** A value at two positions is counted twice by the multiset. */
  lemma TwiceCounted<T>(s: seq<T>, i: nat, j: nat)
    requires i < j < |s| && s[i] == s[j]
    ensures multiset(s)[s[i]] >= 2
  {
    assert s == s[..i] + [s[i]] + s[i + 1..j] + [s[j]] + s[j + 1..];
    assert multiset(s) == multiset(s[..i]) + multiset{s[i]} + multiset(s[i + 1..j]) + multiset{s[j]} + multiset(s[j + 1..]);
  }

  /** A sequence with no value twice counts each value at most once. */
  lemma {:induction false} DistinctCountsOnce<T>(s: seq<T>)
    requires Distinct(s)
    ensures forall x :: multiset(s)[x] <= 1
  {
    if s != [] {
      DistinctCountsOnce(s[1..]);
      assert s == [s[0]] + s[1..];
      assert s[0] !in s[1..];
    }
  }

  /** A sequence whose multiset counts each value at most once (as that of
      any permutation of a set does) lists no value twice. */
  lemma CountsOnceDistinct<T>(s: seq<T>)
    requires forall x :: multiset(s)[x] <= 1
    ensures Distinct(s)
  {
    forall i, j | 0 <= i < j < |s|
      ensures s[i] != s[j]
    {
      if s[i] == s[j] {
        TwiceCounted(s, i, j);
      }
    }
  }

  /** Sorted names with no name twice are strictly ascending. */
  lemma SortedDistinctAscending(s: seq<string>)
    requires SortedBy(s, Id) && Distinct(s)
    ensures StrictlyAscending(s)
  {
    forall i, j | 0 <= i < j < |s|
      ensures Lt(s[i], s[j])
    {
      assert Le(Id(s[i]), Id(s[j]));
    }
  }

  /** The key of a plain name list sorted by the names themselves. */
  function Id(s: string): string
  {
    s
  }
}

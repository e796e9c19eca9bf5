/**
 * The stable sort of `Array.prototype.sort` for the two comparators the
 * sidebar uses: by a whole-number key, largest first, and by a flag, set
 * first. The flag comparator is the key 1 for a set flag and 0 otherwise,
 * and a stable sort by it is the partition into the entries with the flag
 * and those without, each in the order it had. The key and the flag are
 * parameters, so the facts proved here do not depend on how they are
 * computed.
 */
module Ordering {

  predicate Descending<T>(s: seq<T>, key: T -> int)
  {
    forall i, j :: 0 <= i < j < |s| ==> key(s[i]) >= key(s[j])
  }

  /**
   * Places `x` in front of the first entry whose key is not larger: `x`
   * stays ahead of the entries with the same key that came after it in the
   * input, which is what makes the sort stable.
   */
  function Insert<T>(x: T, s: seq<T>, key: T -> int): (r: seq<T>)
    ensures |r| == |s| + 1
  {
    if s == [] || key(s[0]) <= key(x) then [x] + s
    else [s[0]] + Insert(x, s[1..], key)
  }

  /** A stable insertion sort, largest key first. */
  function SortDescending<T>(s: seq<T>, key: T -> int): (r: seq<T>)
    ensures |r| == |s|
  {
    if s == [] then [] else Insert(s[0], SortDescending(s[1..], key), key)
  }

  lemma {:induction false} InsertSpec<T>(x: T, s: seq<T>, key: T -> int)
    requires Descending(s, key)
    ensures Descending(Insert(x, s, key), key)
    ensures multiset(Insert(x, s, key)) == multiset(s) + multiset{x}
    decreases |s|
  {
    InsertKeeps(x, s, key);
    if s != [] && key(s[0]) > key(x) {
      InsertSpec(x, s[1..], key);
      var rest := Insert(x, s[1..], key);
      forall j | 0 <= j < |rest| ensures key(s[0]) >= key(rest[j]) {
        InsertFrom(x, s[1..], key, j);
        if rest[j] != x {
          var t :| 0 <= t < |s[1..]| && s[1..][t] == rest[j];
          assert s[t + 1] == rest[j];
        }
      }
      PrependDescending(s[0], rest, key);
    }
  }

  /** Inserting adds the one entry. */
  lemma {:induction false} InsertKeeps<T>(x: T, s: seq<T>, key: T -> int)
    ensures multiset(Insert(x, s, key)) == multiset(s) + multiset{x}
    decreases |s|
  {
    if s != [] && key(s[0]) > key(x) {
      InsertKeeps(x, s[1..], key);
      assert s == [s[0]] + s[1..];
    }
  }

  /** Every entry after inserting is the inserted one or was there before. */
  lemma InsertFrom<T>(x: T, s: seq<T>, key: T -> int, j: nat)
    requires j < |Insert(x, s, key)|
    ensures Insert(x, s, key)[j] == x || Insert(x, s, key)[j] in s
  {
    InsertKeeps(x, s, key);
    var r := Insert(x, s, key);
    assert r[j] in multiset(r);
  }

  lemma PrependDescending<T>(y: T, rest: seq<T>, key: T -> int)
    requires Descending(rest, key)
    requires forall j :: 0 <= j < |rest| ==> key(y) >= key(rest[j])
    ensures Descending([y] + rest, key)
  {
    var r := [y] + rest;
    forall i, j | 0 <= i < j < |r| ensures key(r[i]) >= key(r[j]) {
      assert r[j] == rest[j - 1];
      if i > 0 {
        assert r[i] == rest[i - 1];
      }
    }
  }

  /** The sort orders largest key first and keeps every entry exactly as often as it occurs. */
  lemma {:induction false} SortDescendingSpec<T>(s: seq<T>, key: T -> int)
    ensures Descending(SortDescending(s, key), key)
    ensures multiset(SortDescending(s, key)) == multiset(s)
    decreases |s|
  {
    if s != [] {
      SortDescendingSpec(s[1..], key);
      InsertSpec(s[0], SortDescending(s[1..], key), key);
      assert s == [s[0]] + s[1..];
    }
  }

  /** The test for entries whose key is `v`. */
  function KeyIs<T>(key: T -> int, v: int): T -> bool
  {
    x => key(x) == v
  }

  /**
   * Inserting `x` puts it ahead of every entry with the same key and keeps
   * the order of those entries.
   */
  lemma {:induction false} InsertStable<T>(x: T, s: seq<T>, key: T -> int, v: int)
    ensures Filter(Insert(x, s, key), KeyIs(key, v)) == (if key(x) == v then [x] else []) + Filter(s, KeyIs(key, v))
    decreases |s|
  {
    var p := KeyIs(key, v);
    if s == [] || key(s[0]) <= key(x) {
      assert ([x] + s)[1..] == s;
    } else {
      InsertStable(x, s[1..], key, v);
      var rest := Insert(x, s[1..], key);
      assert ([s[0]] + rest)[0] == s[0] && ([s[0]] + rest)[1..] == rest;
      assert Filter([s[0]] + rest, p) == (if p(s[0]) then [s[0]] else []) + Filter(rest, p);
      if key(x) == v {
        assert !p(s[0]);
      }
    }
  }

  /**
   * The sort is stable: the entries with any one key come out in the order
   * they went in, which is what `Array.prototype.sort` promises.
   */
  lemma {:induction false} SortStable<T>(s: seq<T>, key: T -> int, v: int)
    ensures Filter(SortDescending(s, key), KeyIs(key, v)) == Filter(s, KeyIs(key, v))
    decreases |s|
  {
    if s != [] {
      SortStable(s[1..], key, v);
      InsertStable(s[0], SortDescending(s[1..], key), key, v);
    }
  }

  /** The entries that satisfy `p`, in order. */
  function Filter<T>(s: seq<T>, p: T -> bool): (r: seq<T>)
    ensures |r| <= |s|
    ensures forall k :: 0 <= k < |r| ==> p(r[k])
  {
    if s == [] then []
    else (if p(s[0]) then [s[0]] else []) + Filter(s[1..], p)
  }

  /** Keeping what satisfies `p`, then what does not, keeps every entry. */
  lemma {:induction false} FilterSplit<T>(s: seq<T>, p: T -> bool, q: T -> bool)
    requires forall k :: 0 <= k < |s| ==> q(s[k]) == !p(s[k])
    ensures multiset(Filter(s, p)) + multiset(Filter(s, q)) == multiset(s)
    decreases |s|
  {
    if s != [] {
      assert forall k :: 0 <= k < |s[1..]| ==> s[1..][k] == s[k + 1];
      FilterSplit(s[1..], p, q);
      assert s == [s[0]] + s[1..];
      var fp := Filter(s[1..], p);
      var fq := Filter(s[1..], q);
      if p(s[0]) {
        assert Filter(s, p) == [s[0]] + fp && Filter(s, q) == fq;
      } else {
        assert Filter(s, p) == fp && Filter(s, q) == [s[0]] + fq;
      }
    }
  }

  /** What the filter keeps comes from the input. */
  lemma {:induction false} FilterFrom<T>(s: seq<T>, p: T -> bool)
    ensures forall k :: 0 <= k < |Filter(s, p)| ==> Filter(s, p)[k] in s
    decreases |s|
  {
    if s != [] {
      FilterFrom(s[1..], p);
      var rest := Filter(s[1..], p);
      var r := Filter(s, p);
      forall k | 0 <= k < |r| ensures r[k] in s {
        if p(s[0]) && k == 0 {
        } else {
          var t := if p(s[0]) then k - 1 else k;
          assert r[k] == rest[t];
          assert rest[t] in s[1..];
        }
      }
    }
  }

  /** A filter keeps the order it is given. */
  lemma {:induction false} FilterDescending<T>(s: seq<T>, p: T -> bool, key: T -> int)
    requires Descending(s, key)
    ensures Descending(Filter(s, p), key)
    decreases |s|
  {
    if s != [] {
      FilterDescending(s[1..], p, key);
      FilterFrom(s[1..], p);
      var rest := Filter(s[1..], p);
      forall j | 0 <= j < |rest| ensures key(s[0]) >= key(rest[j]) {
        var t :| 0 <= t < |s[1..]| && s[1..][t] == rest[j];
        assert s[t + 1] == rest[j];
      }
      if p(s[0]) {
        PrependDescending(s[0], rest, key);
      }
    }
  }

  /** The key of the flag comparator: 1 where `p` holds, 0 elsewhere. */
  function FlagKey<T>(p: T -> bool): T -> int
  {
    x => if p(x) then 1 else 0
  }

  /**
   * Sorting by a flag, set first, keeps the entries with the flag and then
   * those without it, each group in the order it had.
   */
  lemma SortByFlag<T>(s: seq<T>, p: T -> bool, q: T -> bool)
    requires forall k :: 0 <= k < |s| ==> q(s[k]) == !p(s[k])
    ensures SortDescending(s, FlagKey(p)) == Filter(s, p) + Filter(s, q)
  {
    var key := FlagKey(p);
    var r := SortDescending(s, key);
    var one := KeyIs(key, 1);
    var zero := KeyIs(key, 0);
    SortDescendingSpec(s, key);
    FlagGroups(r, p);
    Grouped(r, one, zero);
    SortStable(s, key, 1);
    SortStable(s, key, 0);
    FilterSame(s, one, p);
    FilterSame(s, zero, q);
  }

  /** Ordered by the flag key, the entries with key 1 come first, and every other entry has key 0. */
  lemma FlagGroups<T>(r: seq<T>, p: T -> bool)
    requires Descending(r, FlagKey(p))
    ensures forall k :: 0 <= k < |r| ==> KeyIs(FlagKey(p), 0)(r[k]) == !KeyIs(FlagKey(p), 1)(r[k])
    ensures forall i, j :: 0 <= i < j < |r| && KeyIs(FlagKey(p), 1)(r[j]) ==> KeyIs(FlagKey(p), 1)(r[i])
  {
    var key := FlagKey(p);
    forall i, j | 0 <= i < j < |r| && KeyIs(key, 1)(r[j]) ensures KeyIs(key, 1)(r[i]) {
      assert key(r[i]) >= key(r[j]);
    }
  }

  /** A list whose `p` entries all come before the others is its `p` entries followed by the others. */
  lemma {:induction false} Grouped<T>(r: seq<T>, p: T -> bool, q: T -> bool)
    requires forall k :: 0 <= k < |r| ==> q(r[k]) == !p(r[k])
    requires forall i, j :: 0 <= i < j < |r| && p(r[j]) ==> p(r[i])
    ensures r == Filter(r, p) + Filter(r, q)
    decreases |r|
  {
    if r != [] {
      var rest := r[1..];
      forall k | 0 <= k < |rest| ensures q(rest[k]) == !p(rest[k]) && (!p(r[0]) ==> !p(rest[k])) {
        assert rest[k] == r[k + 1];
      }
      forall i, j | 0 <= i < j < |rest| && p(rest[j]) ensures p(rest[i]) {
        assert rest[i] == r[i + 1] && rest[j] == r[j + 1];
      }
      Grouped(rest, p, q);
      FilterCons(r, p);
      FilterCons(r, q);
      if !p(r[0]) {
        FilterNone(rest, p);
      }
    }
  }

  /** One unfolding of the filter. */
  lemma FilterCons<T>(r: seq<T>, p: T -> bool)
    requires r != []
    ensures r == [r[0]] + r[1..]
    ensures Filter(r, p) == (if p(r[0]) then [r[0]] else []) + Filter(r[1..], p)
  {
  }

  /** Nothing satisfies `p`: the filter keeps nothing. */
  lemma {:induction false} FilterNone<T>(s: seq<T>, p: T -> bool)
    requires forall k :: 0 <= k < |s| ==> !p(s[k])
    ensures Filter(s, p) == []
    decreases |s|
  {
    if s != [] {
      assert forall k :: 0 <= k < |s[1..]| ==> s[1..][k] == s[k + 1];
      FilterNone(s[1..], p);
    }
  }

  /** Two tests that agree on every entry keep the same entries. */
  lemma {:induction false} FilterSame<T>(s: seq<T>, p: T -> bool, q: T -> bool)
    requires forall k :: 0 <= k < |s| ==> p(s[k]) == q(s[k])
    ensures Filter(s, p) == Filter(s, q)
    decreases |s|
  {
    if s != [] {
      assert forall k :: 0 <= k < |s[1..]| ==> s[1..][k] == s[k + 1];
      FilterSame(s[1..], p, q);
    }
  }

  /**
   * Two runs, each ordered, the first all `p` and the second all not `p`,
   * one after the other: `p` entries come first, and entries alike in `p`
   * are in order.
   */
  lemma GroupsInOrder<T>(a: seq<T>, b: seq<T>, p: T -> bool, key: T -> int)
    requires Descending(a, key) && Descending(b, key)
    requires forall k :: 0 <= k < |a| ==> p(a[k])
    requires forall k :: 0 <= k < |b| ==> !p(b[k])
    ensures forall i, j :: 0 <= i < j < |a + b| && p((a + b)[j]) ==> p((a + b)[i])
    ensures forall i, j :: 0 <= i < j < |a + b| && p((a + b)[i]) == p((a + b)[j]) ==> key((a + b)[i]) >= key((a + b)[j])
  {
    var r := a + b;
    forall i, j | 0 <= i < j < |r| && p(r[i]) == p(r[j]) ensures key(r[i]) >= key(r[j]) {
      if j < |a| {
        assert r[i] == a[i] && r[j] == a[j];
      } else if i >= |a| {
        assert r[i] == b[i - |a|] && r[j] == b[j - |a|];
      } else {
        assert false;
      }
    }
    forall i, j | 0 <= i < j < |r| && p(r[j]) ensures p(r[i]) {
      if i < |a| {
        assert r[i] == a[i];
      } else {
        assert false;
      }
    }
  }
}

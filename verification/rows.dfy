/** The table operations the journal's queries are built from: a `WHERE`
    filter that keeps table order, `ORDER BY key DESC` as a stable sort
    (rows with equal keys keep their table order), and `LIMIT ? OFFSET ?`
    with SQLite's reading of negative values. */
module Rows {
  import opened Optional

  /** The first element whose key is `k` (the first row of
      `SELECT … WHERE key = ?`), or `None` when no element has that key. */
  function FirstWith<T>(xs: seq<T>, key: T -> string, k: string): (r: Option<T>)
    ensures r.None? <==> forall i | 0 <= i < |xs| :: key(xs[i]) != k
    ensures r.Some? ==> key(r.value) == k && r.value in xs
    ensures r.Some? ==> exists i | 0 <= i < |xs| ::
      xs[i] == r.value && forall j | 0 <= j < i :: key(xs[j]) != k
  {
    if |xs| == 0 then None
    else if key(xs[0]) == k then Some(xs[0])
    else
      var r := FirstWith(xs[1..], key, k);
      assert forall i | 1 <= i < |xs| :: xs[i] == xs[1..][i - 1];
      assert r.Some? ==> exists i | 0 <= i < |xs| ::
        xs[i] == r.value && forall j | 0 <= j < i :: key(xs[j]) != k
      by {
        if r.Some? {
          var i :| 0 <= i < |xs[1..]| && xs[1..][i] == r.value
            && forall j | 0 <= j < i :: key(xs[1..][j]) != k;
          assert xs[i + 1] == r.value;
        }
      }
      r
  }

  /** Appending an element changes the first match only when there was
      none before. */
  lemma {:induction false} FirstWithAppend<T>(xs: seq<T>, x: T, key: T -> string, k: string)
    ensures FirstWith(xs + [x], key, k)
      == if FirstWith(xs, key, k).Some? then FirstWith(xs, key, k)
         else if key(x) == k then Some(x) else None
    decreases |xs|
  {
    if |xs| == 0 {
      assert xs + [x] == [x];
    } else {
      assert (xs + [x])[1..] == xs[1..] + [x];
      FirstWithAppend(xs[1..], x, key, k);
    }
  }

  function Filter<T>(xs: seq<T>, keep: T -> bool): (r: seq<T>)
    ensures |r| <= |xs|
  {
    if |xs| == 0 then []
    else if keep(xs[0]) then [xs[0]] + Filter(xs[1..], keep)
    else Filter(xs[1..], keep)
  }

  /** The filter keeps exactly the elements that pass. */
  lemma {:induction false} FilterMembers<T(!new)>(xs: seq<T>, keep: T -> bool)
    ensures forall x :: x in Filter(xs, keep) <==> x in xs && keep(x)
    decreases |xs|
  {
    if |xs| > 0 {
      FilterMembers(xs[1..], keep);
      assert forall x :: x in xs <==> x == xs[0] || x in xs[1..];
    }
  }

  lemma {:induction false} FilterAppend<T(!new)>(xs: seq<T>, ys: seq<T>, keep: T -> bool)
    ensures Filter(xs + ys, keep) == Filter(xs, keep) + Filter(ys, keep)
    decreases |xs|
  {
    if |xs| == 0 {
      assert xs + ys == ys;
    } else {
      assert (xs + ys)[1..] == xs[1..] + ys;
      FilterAppend(xs[1..], ys, keep);
    }
  }

  /** Filtering keeps everything when every element passes. */
  lemma {:induction false} FilterAll<T(!new)>(xs: seq<T>, keep: T -> bool)
    requires forall i | 0 <= i < |xs| :: keep(xs[i])
    ensures Filter(xs, keep) == xs
    decreases |xs|
  {
    if |xs| > 0 {
      FilterAll(xs[1..], keep);
    }
  }

  predicate SortedDesc<T>(xs: seq<T>, key: T -> int) {
    forall i, j | 0 <= i < j < |xs| :: key(xs[i]) >= key(xs[j])
  }

  lemma SliceSorted<T>(xs: seq<T>, a: int, b: int, key: T -> int)
    requires 0 <= a <= b <= |xs| && SortedDesc(xs, key)
    ensures SortedDesc(xs[a..b], key)
  {
    var s := xs[a..b];
    forall i, j | 0 <= i < j < |s| ensures key(s[i]) >= key(s[j]) {
      assert s[i] == xs[a + i] && s[j] == xs[a + j];
    }
  }

  /** Insert `x` into a sequence sorted largest first, ahead of the elements
      whose key does not exceed its own. */
  function Insert<T>(x: T, ys: seq<T>, key: T -> int): (r: seq<T>)
    ensures |r| == |ys| + 1
  {
    if |ys| == 0 || key(x) >= key(ys[0]) then [x] + ys
    else [ys[0]] + Insert(x, ys[1..], key)
  }

  /** Inserting adds exactly `x`. */
  lemma {:induction false} InsertCounts<T>(x: T, ys: seq<T>, key: T -> int)
    ensures multiset(Insert(x, ys, key)) == multiset(ys) + multiset{x}
    decreases |ys|
  {
    if |ys| > 0 && key(x) < key(ys[0]) {
      InsertCounts(x, ys[1..], key);
      assert ys == [ys[0]] + ys[1..];
    }
  }

  /** Inserting into a sorted sequence keeps it sorted. */
  lemma {:induction false} InsertSorted<T>(x: T, ys: seq<T>, key: T -> int)
    requires SortedDesc(ys, key)
    ensures SortedDesc(Insert(x, ys, key), key)
    decreases |ys|
  {
    if |ys| == 0 || key(x) >= key(ys[0]) {
      forall i | 0 <= i < |ys| ensures key(x) >= key(ys[i]) {
        if i > 0 {
          assert key(ys[0]) >= key(ys[i]);
        }
      }
      PrependSorted(x, ys, key);
    } else {
      var rest := Insert(x, ys[1..], key);
      SliceSorted(ys, 1, |ys|, key);
      InsertSorted(x, ys[1..], key);
      InsertCounts(x, ys[1..], key);
      forall i | 0 <= i < |rest| ensures key(ys[0]) >= key(rest[i]) {
        var e := rest[i];
        assert e in multiset(rest);
        if e != x {
          assert e in multiset(ys[1..]);
          var j :| 1 <= j < |ys| && ys[j] == e;
        }
      }
      PrependSorted(ys[0], rest, key);
    }
  }

  /** A first element no smaller than the rest keeps a sorted sequence sorted. */
  lemma PrependSorted<T>(h: T, rest: seq<T>, key: T -> int)
    requires SortedDesc(rest, key)
    requires forall i | 0 <= i < |rest| :: key(h) >= key(rest[i])
    ensures SortedDesc([h] + rest, key)
  {
    var r := [h] + rest;
    forall i, j | 0 <= i < j < |r| ensures key(r[i]) >= key(r[j]) {
      assert r[j] == rest[j - 1];
      if i > 0 {
        assert r[i] == rest[i - 1];
      }
    }
  }

  /** The rows ordered by `key`, largest first. */
  function SortDesc<T>(xs: seq<T>, key: T -> int): (r: seq<T>)
    ensures |r| == |xs|
  {
    if |xs| == 0 then [] else Insert(xs[0], SortDesc(xs[1..], key), key)
  }

  /** Sorting yields a permutation of its input, largest key first. */
  lemma {:induction false} SortDescSorted<T>(xs: seq<T>, key: T -> int)
    ensures SortedDesc(SortDesc(xs, key), key)
    ensures multiset(SortDesc(xs, key)) == multiset(xs)
    decreases |xs|
  {
    if |xs| > 0 {
      SortDescSorted(xs[1..], key);
      InsertSorted(xs[0], SortDesc(xs[1..], key), key);
      InsertCounts(xs[0], SortDesc(xs[1..], key), key);
      assert xs == [xs[0]] + xs[1..];
    }
  }

  /** Where `OFFSET offset` starts: a negative offset counts as zero. */
  function Start(n: nat, offset: int): (o: nat)
    ensures o <= n
  {
    if offset <= 0 then 0 else if offset >= n then n else offset
  }

  /** `LIMIT limit OFFSET offset`: skip `offset` rows, then keep at most
      `limit` of them; a negative limit means no limit. */
  function Window<T>(xs: seq<T>, limit: int, offset: int): (r: seq<T>)
    ensures var o := Start(|xs|, offset);
      |r| == (if limit < 0 || o + limit >= |xs| then |xs| - o else limit)
  {
    var o := Start(|xs|, offset);
    var n := if limit < 0 || o + limit >= |xs| then |xs| - o else limit;
    seq(n, i requires 0 <= i < n => xs[o + i])
  }

  /** A window is the run of rows from its start. */
  lemma WindowAt<T>(xs: seq<T>, limit: int, offset: int)
    ensures var r := Window(xs, limit, offset);
      forall i | 0 <= i < |r| :: r[i] == xs[Start(|xs|, offset) + i]
  {
  }

  /** A window of a sorted sequence is sorted. */
  lemma WindowSorted<T>(xs: seq<T>, limit: int, offset: int, key: T -> int)
    requires SortedDesc(xs, key)
    ensures SortedDesc(Window(xs, limit, offset), key)
  {
    WindowAt(xs, limit, offset);
  }

  /** Consecutive pages fit together: the page of `a` rows at `o` followed by
      the page of `b` rows at `o + a` is the page of `a + b` rows at `o`. */
  lemma Pages<T>(xs: seq<T>, a: nat, b: nat, o: nat)
    ensures Window(xs, a, o) + Window(xs, b, o + a) == Window(xs, a + b, o)
  {
    var s := Start(|xs|, o);
    var p, q, w := Window(xs, a, o), Window(xs, b, o + a), Window(xs, a + b, o);
    WindowAt(xs, a, o);
    WindowAt(xs, b, o + a);
    WindowAt(xs, a + b, o);
    assert s + |p| == Start(|xs|, o + a);
    forall i | 0 <= i < |w| ensures (p + q)[i] == w[i] {
      if i >= |p| {
        assert (p + q)[i] == q[i - |p|];
      }
    }
  }
}

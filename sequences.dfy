/**
 Sequence helpers that model the Python list operations the cleanup passes use:
 `list.remove` (first occurrence) and repeated removal, and distinctness (a list
 built from a `set` holds each name once).
 */
module Sequences {

  /** Each element occurs at most once. */
  ghost predicate Distinct<T(!new)>(s: seq<T>)
  {
    forall x :: multiset(s)[x] <= 1
  }

  /** One more element of a prefix: the prefix grows by that element, stays a
      sub-multiset of the whole, and its own first part is the shorter prefix. */
  lemma PrefixSnoc<T>(s: seq<T>, m: nat)
    requires m < |s|
    ensures s[..m + 1] == s[..m] + [s[m]]
    ensures s[..m + 1][..m] == s[..m]
    ensures multiset(s[..m + 1]) <= multiset(s)
  {
    assert s == s[..m + 1] + s[m + 1..];
  }

  /** The index of the first occurrence of `x` in `s`. */
  function IndexOf<T(==)>(s: seq<T>, x: T): (i: nat)
    requires x in s
    ensures i < |s| && s[i] == x && x !in s[..i]
  {
    if s[0] == x then 0
    else
      assert s == [s[0]] + s[1..];
      var j := IndexOf(s[1..], x);
      assert s[..j + 1] == [s[0]] + s[1..][..j];
      j + 1
  }

  /** Python's `list.remove(x)`: deletes the first occurrence of `x`.
      Python raises `ValueError` when `x` is absent, so callers must show `x in s`. */
  function RemoveFirst<T(==)>(s: seq<T>, x: T): (r: seq<T>)
    requires x in s
    ensures |r| == |s| - 1
    ensures multiset(r) == multiset(s) - multiset{x}
  {
    var i := IndexOf(s, x);
    assert s == s[..i] + [x] + s[i + 1..];
    s[..i] + s[i + 1..]
  }

  /** `list.remove(x)` deletes the first `x` and nothing else: putting `x` back
      where the first one stood gives the original list, and no `x` comes before it. */
  lemma RemoveFirstAt<T>(s: seq<T>, x: T)
    requires x in s
    ensures var i, r := IndexOf(s, x), RemoveFirst(s, x);
            i <= |r| && s == r[..i] + [x] + r[i..] && x !in r[..i]
  {
    var i := IndexOf(s, x);
    var before, after := s[..i], s[i + 1..];
    assert s == before + [x] + after;
    assert (before + after)[..i] == before && (before + after)[i..] == after;
  }

  /** The list left after calling `list.remove` once for each element of `r`, in order.
      A call whose element is no longer present is passed over here; Python would raise
      `ValueError` there, and every pass shows its removals stay within the list
      (`multiset(r) <= multiset(s)`), where no call is passed over. */
  function RemoveEach<T(==)>(s: seq<T>, r: seq<T>): seq<T>
    decreases |r|
  {
    if r == [] then s
    else if r[0] in s then RemoveEach(RemoveFirst(s, r[0]), r[1..])
    else RemoveEach(s, r[1..])
  }

  /** What is left holds each element as often as `s` does, less the times `r` removes it. */
  lemma {:induction false} RemoveEachCount<T>(s: seq<T>, r: seq<T>)
    requires multiset(r) <= multiset(s)
    ensures multiset(RemoveEach(s, r)) == multiset(s) - multiset(r)
    decreases |r|
  {
    if r != [] {
      assert r == [r[0]] + r[1..];
      assert r[0] in multiset(s);
      RemoveEachCount(RemoveFirst(s, r[0]), r[1..]);
    }
  }

  /** An element is still there after the removals exactly when `r` removes it
      fewer times than `s` holds it. */
  lemma RemoveEachLeaves<T>(s: seq<T>, r: seq<T>, x: T)
    requires multiset(r) <= multiset(s)
    ensures x in RemoveEach(s, r) <==> multiset(r)[x] < multiset(s)[x]
  {
    RemoveEachCount(s, r);
    assert x in RemoveEach(s, r) <==> multiset(RemoveEach(s, r))[x] > 0;
  }

  /** A list that holds `x` and no more than one `x` in all is `[x]`. */
  lemma SingleCopy<T>(s: seq<T>, x: T)
    requires x in s && multiset(s) <= multiset{x}
    ensures s == [x]
  {
    assert multiset(s) == multiset{x} by {
      forall y ensures multiset(s)[y] == multiset{x}[y] {
        assert multiset(s)[y] <= multiset{x}[y];
      }
    }
    assert |s| == |multiset(s)| == 1;
    assert s[0] in multiset(s);
  }

  /** Removing one more element extends the removals by one `list.remove` call. */
  lemma {:induction false} RemoveEachSnoc<T>(s: seq<T>, r: seq<T>, x: T)
    requires multiset(r + [x]) <= multiset(s)
    ensures multiset(r) <= multiset(s)
    ensures x in RemoveEach(s, r)
    ensures RemoveEach(s, r + [x]) == RemoveFirst(RemoveEach(s, r), x)
    decreases |r|
  {
    assert multiset(r + [x]) == multiset(r) + multiset{x};
    if r == [] {
      assert r + [x] == [x] && [x][1..] == [];
      assert x in multiset(s);
      assert RemoveEach(s, [x]) == RemoveEach(RemoveFirst(s, x), []);
    } else {
      var h, t := r[0], r[1..];
      assert r == [h] + t;
      assert (r + [x])[0] == h && (r + [x])[1..] == t + [x];
      assert h in multiset(s);
      var s' := RemoveFirst(s, h);
      assert multiset(t + [x]) <= multiset(s') by {
        assert multiset(r + [x]) == multiset{h} + multiset(t + [x]);
      }
      RemoveEachSnoc(s', t, x);
      assert RemoveEach(s, r + [x]) == RemoveEach(s', t + [x]);
      assert RemoveEach(s, r) == RemoveEach(s', t);
    }
  }

  /** Removing the elements of `r + g` is removing those of `r`, then those of `g`. */
  lemma {:induction false} RemoveEachAppend<T>(s: seq<T>, r: seq<T>, g: seq<T>)
    requires multiset(r + g) <= multiset(s)
    ensures multiset(r) <= multiset(s)
    ensures multiset(g) <= multiset(RemoveEach(s, r))
    ensures RemoveEach(s, r + g) == RemoveEach(RemoveEach(s, r), g)
    decreases |r|
  {
    assert multiset(r + g) == multiset(r) + multiset(g);
    if r == [] {
      assert r + g == g;
    } else {
      var h, t := r[0], r[1..];
      assert r == [h] + t;
      assert (r + g)[0] == h && (r + g)[1..] == t + g;
      assert h in multiset(s);
      var s' := RemoveFirst(s, h);
      assert multiset(t + g) <= multiset(s') by {
        assert multiset(r + g) == multiset{h} + multiset(t + g);
      }
      RemoveEachAppend(s', t, g);
      assert RemoveEach(s, r + g) == RemoveEach(s', t + g);
      assert RemoveEach(s, r) == RemoveEach(s', t);
    }
  }

  /** Removing an element not removed before keeps the removals without repetitions. */
  lemma RemoveEachFresh<T(!new)>(s: seq<T>, r: seq<T>, x: T)
    requires multiset(r) <= multiset(s) && Distinct(r)
    requires x in s && x !in r
    ensures multiset(r + [x]) <= multiset(s)
    ensures Distinct(r + [x])
    ensures x in RemoveEach(s, r)
    ensures RemoveEach(s, r + [x]) == RemoveFirst(RemoveEach(s, r), x)
  {
    assert multiset(r)[x] == 0;
    assert multiset(r + [x]) == multiset(r) + multiset{x};
    RemoveEachSnoc(s, r, x);
  }

  /** An element of a list without repetitions does not occur before its own position. */
  lemma DistinctNotBefore<T(!new)>(s: seq<T>, k: nat)
    requires Distinct(s) && k < |s|
    ensures s[k] !in s[..k]
    ensures Distinct(s[..k])
  {
    assert s == s[..k] + [s[k]] + s[k + 1..];
    assert multiset(s) == multiset(s[..k]) + multiset{s[k]} + multiset(s[k + 1..]);
    forall x ensures multiset(s[..k])[x] <= multiset(s)[x] { }
    assert multiset(s)[s[k]] == multiset(s[..k])[s[k]] + 1 + multiset(s[k + 1..])[s[k]];
    assert multiset(s[..k])[s[k]] == 0;
  }
}

/** Generic operations on the rows of a table held as a sequence. */
module Tables {
  import opened Wrappers

  type Id = nat

  /** The rows of `t` that satisfy `keep`, in their original order
      (a `WHERE` clause, or `Array.prototype.filter`). */
  function Filter<T(!new)>(t: seq<T>, keep: T -> bool): (r: seq<T>)
    ensures |r| <= |t|
    ensures forall x :: x in r <==> x in t && keep(x)
  {
    if t == [] then []
    else
      var rest := Filter(t[1..], keep);
      assert forall x :: x in t <==> x == t[0] || x in t[1..];
      if keep(t[0]) then [t[0]] + rest else rest
  }

  /** The filter drops a row exactly when some row fails the test. */
  lemma {:induction false} FilterShorter<T(!new)>(t: seq<T>, keep: T -> bool)
    ensures |Filter(t, keep)| < |t| <==> exists i :: 0 <= i < |t| && !keep(t[i])
  {
    if t != [] {
      var tail := t[1..];
      FilterShorter(tail, keep);
      if exists i :: 0 <= i < |tail| && !keep(tail[i]) {
        var i :| 0 <= i < |tail| && !keep(tail[i]);
        assert t[i + 1] == tail[i];
      }
      if exists i :: 0 <= i < |t| && !keep(t[i]) {
        var i :| 0 <= i < |t| && !keep(t[i]);
        if i > 0 {
          assert tail[i - 1] == t[i];
        }
      }
    }
  }

  /** Filtering distributes over concatenation. */
  lemma {:induction false} FilterAppend<T(!new)>(a: seq<T>, b: seq<T>, keep: T -> bool)
    ensures Filter(a + b, keep) == Filter(a, keep) + Filter(b, keep)
  {
    if a == [] {
      assert a + b == b;
    } else {
      assert (a + b)[1..] == a[1..] + b;
      FilterAppend(a[1..], b, keep);
    }
  }

  /** A second, weaker filter after a first one changes nothing. */
  lemma {:induction false} FilterFilter<T(!new)>(t: seq<T>, outer: T -> bool, inner: T -> bool)
    requires forall x :: inner(x) ==> outer(x)
    ensures Filter(Filter(t, outer), inner) == Filter(t, inner)
  {
    if t != [] {
      FilterFilter(t[1..], outer, inner);
    }
  }

  /** Two tables whose rows agree pointwise on a test have equally many rows passing it. */
  lemma {:induction false} FilterSameCount<T(!new), U(!new)>(t: seq<T>, u: seq<U>, p: T -> bool, q: U -> bool)
    requires |t| == |u|
    requires forall i :: 0 <= i < |t| ==> p(t[i]) == q(u[i])
    ensures |Filter(t, p)| == |Filter(u, q)|
  {
    if t != [] {
      FilterSameCount(t[1..], u[1..], p, q);
    }
  }

  /** The position of the first row satisfying `p` (`Array.prototype.find`, `findIndex`). */
  function FirstIndex<T>(t: seq<T>, p: T -> bool): (r: Option<nat>)
    ensures r.Some? ==> r.value < |t| && p(t[r.value]) && forall j :: 0 <= j < r.value ==> !p(t[j])
    ensures r.None? ==> forall j :: 0 <= j < |t| ==> !p(t[j])
  {
    if t == [] then None
    else if p(t[0]) then Some(0)
    else match FirstIndex(t[1..], p)
      case None => None
      case Some(k) => Some(k + 1)
  }

  /** Two matching positions make at least two rows pass the filter. */
  lemma {:induction false} FilterTwo<T(!new)>(t: seq<T>, keep: T -> bool, i: nat, j: nat)
    requires i < j < |t| && keep(t[i]) && keep(t[j])
    ensures |Filter(t, keep)| >= 2
  {
    if i == 0 {
      assert t[j] == t[1..][j - 1];
      assert t[j] in Filter(t[1..], keep);
    } else {
      FilterTwo(t[1..], keep, i - 1, j - 1);
    }
  }

  /** When at most one row matches, the first match is the last match. */
  lemma FirstIsLastWhenSingle<T(!new)>(t: seq<T>, p: T -> bool)
    requires |Filter(t, p)| <= 1
    ensures FirstIndex(t, p) == LastIndex(t, p)
  {
    var f, l := FirstIndex(t, p), LastIndex(t, p);
    if f.Some? && l.Some? && f.value != l.value {
      FilterTwo(t, p, f.value, l.value);
    }
  }

  /** Replacing a row by one with the same key keeps keys distinct. */
  lemma UpdateKeepsKeys<T>(t: seq<T>, k: nat, x: T, key: T -> Id)
    requires DistinctKeys(t, key)
    requires k < |t| && key(x) == key(t[k])
    ensures DistinctKeys(t[k := x], key)
  {
    var u := t[k := x];
    forall i, j | 0 <= i < j < |u|
      ensures key(u[i]) != key(u[j])
    {
      assert key(u[i]) == key(t[i]) && key(u[j]) == key(t[j]);
    }
  }

  /** Appending a row with a new key keeps keys distinct. */
  lemma AppendKeepsKeys<T>(t: seq<T>, x: T, key: T -> Id)
    requires DistinctKeys(t, key)
    requires forall i :: 0 <= i < |t| ==> key(t[i]) != key(x)
    ensures DistinctKeys(t + [x], key)
  {
  }

  /** The first match depends only on which rows match: two tables that agree row by row
      on `p` have their first match at the same position. */
  lemma FirstIndexSamePattern<T>(t: seq<T>, u: seq<T>, p: T -> bool)
    requires |t| == |u|
    requires forall i :: 0 <= i < |t| ==> p(t[i]) == p(u[i])
    ensures FirstIndex(t, p) == FirstIndex(u, p)
  {
    var a, b := FirstIndex(t, p), FirstIndex(u, p);
    if a.Some? && b.Some? {
      assert !(a.value < b.value) && !(b.value < a.value);
    }
  }

  /** The position of the last row satisfying `p`: the row a JavaScript `Map` built
      from the table keeps for a key, since later entries overwrite earlier ones. */
  function LastIndex<T>(t: seq<T>, p: T -> bool): (r: Option<nat>)
    ensures r.Some? ==> r.value < |t| && p(t[r.value]) && forall j :: r.value < j < |t| ==> !p(t[j])
    ensures r.None? ==> forall j :: 0 <= j < |t| ==> !p(t[j])
  {
    if t == [] then None
    else if p(t[|t| - 1]) then Some(|t| - 1)
    else LastIndex(t[..|t| - 1], p)
  }

  /** The first row satisfying `p`, if any. */
  function Find<T>(t: seq<T>, p: T -> bool): Option<T>
  {
    match FirstIndex(t, p)
    case Some(i) => Some(t[i])
    case None => None
  }

  /** The last row satisfying `p`, if any. */
  function FindLast<T>(t: seq<T>, p: T -> bool): Option<T>
  {
    match LastIndex(t, p)
    case Some(i) => Some(t[i])
    case None => None
  }

  /** Every key of the table is below `bound` (ids already handed out). */
  ghost predicate KeysBelow<T>(t: seq<T>, key: T -> Id, bound: Id)
  {
    forall i :: 0 <= i < |t| ==> key(t[i]) < bound
  }

  /** No two rows share a key (a primary key). */
  ghost predicate DistinctKeys<T>(t: seq<T>, key: T -> Id)
  {
    forall i, j :: 0 <= i < j < |t| ==> key(t[i]) != key(t[j])
  }

  /** The table without its rows whose key is `id` (`DELETE ... WHERE key = id`). */
  function Without<T(!new)>(t: seq<T>, key: T -> Id, id: Id): (r: seq<T>)
    ensures forall x :: x in r <==> x in t && key(x) != id
    ensures |r| < |t| <==> exists i :: 0 <= i < |t| && key(t[i]) == id
  {
    FilterShorter(t, (x: T) => key(x) != id);
    Filter(t, (x: T) => key(x) != id)
  }

  /** The position of the first row whose key is `id`. */
  function Position<T>(t: seq<T>, key: T -> Id, id: Id): (r: Option<nat>)
    ensures r.Some? ==> r.value < |t| && key(t[r.value]) == id && forall j :: 0 <= j < r.value ==> key(t[j]) != id
    ensures r.None? <==> forall j :: 0 <= j < |t| ==> key(t[j]) != id
  {
    FirstIndex(t, (x: T) => key(x) == id)
  }

  /** A row with key `id` is found exactly when the table has one. */
  lemma PositionFound<T>(t: seq<T>, key: T -> Id, id: Id)
    ensures Position(t, key, id).Some? <==> exists x :: x in t && key(x) == id
  {
    var r := Position(t, key, id);
    if r.Some? {
      assert t[r.value] in t;
    } else {
      forall x | x in t
        ensures key(x) != id
      {
        var j :| 0 <= j < |t| && t[j] == x;
      }
    }
  }

  /** Removing rows keeps keys distinct. */
  lemma {:induction false} FilterKeepsDistinct<T(!new)>(t: seq<T>, keep: T -> bool, key: T -> Id)
    requires DistinctKeys(t, key)
    ensures DistinctKeys(Filter(t, keep), key)
  {
    if t != [] {
      var tail := t[1..];
      forall i, j | 0 <= i < j < |tail|
        ensures key(tail[i]) != key(tail[j])
      {
        assert tail[i] == t[i + 1] && tail[j] == t[j + 1];
      }
      FilterKeepsDistinct(tail, keep, key);
      var rest := Filter(tail, keep);
      if keep(t[0]) {
        var r := [t[0]] + rest;
        forall i, j | 0 <= i < j < |r|
          ensures key(r[i]) != key(r[j])
        {
          if i == 0 {
            assert r[j] in tail;
            var m :| 0 <= m < |tail| && tail[m] == r[j];
            assert t[m + 1] == r[j];
          } else {
            assert r[i] == rest[i - 1] && r[j] == rest[j - 1];
          }
        }
      }
    }
  }

  /** Removing rows keeps keys distinct and below the bound. */
  lemma FilterKeepsKeys<T(!new)>(t: seq<T>, keep: T -> bool, key: T -> Id, bound: Id)
    requires KeysBelow(t, key, bound) && DistinctKeys(t, key)
    ensures KeysBelow(Filter(t, keep), key, bound) && DistinctKeys(Filter(t, keep), key)
  {
    FilterKeepsDistinct(t, keep, key);
    var r := Filter(t, keep);
    forall i | 0 <= i < |r|
      ensures key(r[i]) < bound
    {
      assert r[i] in t;
    }
  }

  /** With distinct keys no row occurs twice. */
  lemma {:induction false} DistinctKeysOnce<T>(t: seq<T>, key: T -> Id, x: T)
    requires DistinctKeys(t, key)
    ensures multiset(t)[x] <= 1
  {
    if t != [] {
      var tail := t[1..];
      assert t == [t[0]] + tail;
      forall i, j | 0 <= i < j < |tail|
        ensures key(tail[i]) != key(tail[j])
      {
        assert tail[i] == t[i + 1] && tail[j] == t[j + 1];
      }
      DistinctKeysOnce(tail, key, x);
      forall m | 0 <= m < |tail|
        ensures tail[m] != t[0]
      {
        assert key(t[0]) != key(t[m + 1]);
      }
      assert t[0] !in multiset(tail);
    }
  }

  /** Rows drawn from a table with distinct keys, each at most as often as it occurs there,
      have distinct keys too. */
  lemma SubMultisetKeepsKeys<T>(r: seq<T>, t: seq<T>, key: T -> Id)
    requires multiset(r) <= multiset(t)
    requires DistinctKeys(t, key)
    ensures DistinctKeys(r, key)
  {
    forall i, j | 0 <= i < j < |r|
      ensures key(r[i]) != key(r[j])
    {
      assert r[i] != r[j] by {
        DistinctKeysOnce(t, key, r[i]);
        assert r == r[..j] + r[j..];
        assert r[i] in r[..j] && r[j] in r[j..];
      }
      assert r[i] in multiset(t) && r[j] in multiset(t);
      var a :| 0 <= a < |t| && t[a] == r[i];
      var b :| 0 <= b < |t| && t[b] == r[j];
    }
  }

  /** Deleting the rows whose `column` value is `id` keeps the primary key `key` distinct and below the bound. */
  lemma WithoutKeepsKeys<T(!new)>(t: seq<T>, column: T -> Id, id: Id, key: T -> Id, bound: Id)
    requires KeysBelow(t, key, bound) && DistinctKeys(t, key)
    ensures KeysBelow(Without(t, column, id), key, bound) && DistinctKeys(Without(t, column, id), key)
  {
    FilterKeepsKeys(t, (x: T) => column(x) != id, key, bound);
  }

  /** Deleting rows that a filter rejects anyway does not change what the filter keeps. */
  lemma WithoutThenFilter<T(!new)>(t: seq<T>, column: T -> Id, id: Id, keep: T -> bool)
    requires forall x :: keep(x) ==> column(x) != id
    ensures Filter(Without(t, column, id), keep) == Filter(t, keep)
  {
    FilterFilter(t, (x: T) => column(x) != id, keep);
  }

  /** A filter that rejects every row keeps none. */
  lemma {:induction false} FilterNone<T(!new)>(t: seq<T>, keep: T -> bool)
    requires forall x :: x in t ==> !keep(x)
    ensures Filter(t, keep) == []
  {
    if t != [] {
      FilterNone(t[1..], keep);
    }
  }
}

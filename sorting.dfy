/** `Array.prototype.sort` with a numeric comparator `(a, b) => key(a) - key(b)`:
    a stable sort into ascending order of an integer key. */
module Sorting {

  /** `s` is in ascending order of `key`. */
  ghost predicate SortedBy<T>(s: seq<T>, key: T -> int)
  {
    forall i, j :: 0 <= i < j < |s| ==> key(s[i]) <= key(s[j])
  }

  /** Inserts `x` before the first element whose key is not below its own. */
  function Insert<T>(x: T, s: seq<T>, key: T -> int): (r: seq<T>)
    requires SortedBy(s, key)
    ensures SortedBy(r, key)
    ensures multiset(r) == multiset(s) + multiset{x}
    ensures |r| == |s| + 1
    ensures r[0] == x || (|s| > 0 && r[0] == s[0])
  {
    if s == [] || key(x) <= key(s[0]) then
      [x] + s
    else
      var rest := Insert(x, s[1..], key);
      assert s == [s[0]] + s[1..];
      var r := [s[0]] + rest;
      forall i, j | 0 <= i < j < |r|
        ensures key(r[i]) <= key(r[j])
      {
        assert r[j] == rest[j - 1];
        if i == 0 {
          assert key(s[0]) <= key(rest[0]) <= key(rest[j - 1]);
        } else {
          assert r[i] == rest[i - 1];
        }
      }
      r
  }

  /** The elements of `s`, sorted by `key`; elements with equal keys keep their order. */
  function SortBy<T>(s: seq<T>, key: T -> int): (r: seq<T>)
    ensures SortedBy(r, key)
    ensures multiset(r) == multiset(s)
    ensures |r| == |s|
  {
    if s == [] then []
    else
      assert s == [s[0]] + s[1..];
      Insert(s[0], SortBy(s[1..], key), key)
  }

  /** The first `n` elements of a sorted sequence stay sorted, and every element left out has
      a key no smaller than any element kept. */
  lemma TakeFirst<T>(s: seq<T>, key: T -> int, n: nat)
    requires SortedBy(s, key) && n <= |s|
    ensures SortedBy(s[..n], key)
    ensures multiset(s[..n]) <= multiset(s)
    ensures forall e :: e in multiset(s) - multiset(s[..n]) ==> forall x :: x in s[..n] ==> key(x) <= key(e)
  {
    assert s == s[..n] + s[n..];
    forall e | e in multiset(s) - multiset(s[..n])
      ensures forall x :: x in s[..n] ==> key(x) <= key(e)
    {
      assert e in s[n..];
      var j :| 0 <= j < |s[n..]| && s[n..][j] == e;
      forall x | x in s[..n]
        ensures key(x) <= key(e)
      {
        var i :| 0 <= i < n && s[..n][i] == x;
        assert s[i] == x && s[n + j] == e;
      }
    }
  }

  /** The elements of a sorted sequence from position `m` on stay sorted, and every element
      left out has a key no larger than any element kept. */
  lemma DropFirst<T>(s: seq<T>, key: T -> int, m: nat)
    requires SortedBy(s, key) && m <= |s|
    ensures SortedBy(s[m..], key)
    ensures multiset(s[m..]) <= multiset(s)
    ensures forall e :: e in multiset(s) - multiset(s[m..]) ==> forall x :: x in s[m..] ==> key(e) <= key(x)
  {
    assert s == s[..m] + s[m..];
    forall e | e in multiset(s) - multiset(s[m..])
      ensures forall x :: x in s[m..] ==> key(e) <= key(x)
    {
      assert e in s[..m];
      var i :| 0 <= i < m && s[..m][i] == e;
      forall x | x in s[m..]
        ensures key(e) <= key(x)
      {
        var j :| 0 <= j < |s[m..]| && s[m..][j] == x;
        assert s[i] == e && s[m + j] == x;
      }
    }
  }
}

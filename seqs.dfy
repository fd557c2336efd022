/** Sequence helpers used to model database tables as ordered sequences of rows. */
module Seqs {

  /** The elements of `s` that satisfy `keep`, in their original order
      (a `DELETE ... WHERE` keeps exactly the rows the condition spares). */
  function Filter<T(!new)>(s: seq<T>, keep: T -> bool): (r: seq<T>)
    ensures |r| <= |s|
    ensures forall x :: x in r <==> x in s && keep(x)
  {
    if s == [] then []
    else if keep(s[0]) then [s[0]] + Filter(s[1..], keep)
    else Filter(s[1..], keep)
  }

  /** No two positions of `s` carry the same key: `key` is a unique column of the table `s`. */
  ghost predicate KeysDistinct<T, K>(s: seq<T>, key: T -> K) {
    forall i, j :: 0 <= i < j < |s| ==> key(s[i]) != key(s[j])
  }

  /** Deleting rows never breaks a uniqueness constraint. */
  lemma {:induction false} FilterKeepsDistinct<T(!new), K>(s: seq<T>, keep: T -> bool, key: T -> K)
    requires KeysDistinct(s, key)
    ensures KeysDistinct(Filter(s, keep), key)
  {
    if s != [] {
      var tail := s[1..];
      assert KeysDistinct(tail, key);
      FilterKeepsDistinct(tail, keep, key);
      if keep(s[0]) {
        var r := [s[0]] + Filter(tail, keep);
        forall i, j | 0 <= i < j < |r| ensures key(r[i]) != key(r[j]) {
          if i == 0 {
            assert r[j] in Filter(tail, keep);
            var k :| 0 <= k < |tail| && tail[k] == r[j];
            assert s[k + 1] == r[j];
          } else {
            assert r[i] == Filter(tail, keep)[i - 1] && r[j] == Filter(tail, keep)[j - 1];
          }
        }
      }
    }
  }

  /** Inserting a row whose key no existing row carries keeps the column unique. */
  lemma AppendKeepsDistinct<T, K>(s: seq<T>, x: T, key: T -> K)
    requires KeysDistinct(s, key)
    requires forall i :: 0 <= i < |s| ==> key(s[i]) != key(x)
    ensures KeysDistinct(s + [x], key)
  {
  }

  /** Rewriting one row without touching its key keeps the column unique. */
  lemma UpdateKeepsDistinct<T, K>(s: seq<T>, p: nat, y: T, key: T -> K)
    requires p < |s|
    requires KeysDistinct(s, key)
    requires key(y) == key(s[p])
    ensures KeysDistinct(s[p := y], key)
  {
  }
}

/** Sequences without repetition, and removal by place. */
module Sequences {

  ghost predicate Distinct<T>(s: seq<T>) {
    forall i, j :: 0 <= i < j < |s| ==> s[i] != s[j]
  }

  // The same with a trigger that fires on request only.
  ghost predicate Differ<T>(s: seq<T>, i: int, j: int)
    requires 0 <= i < |s| && 0 <= j < |s|
  {
    s[i] != s[j]
  }

  ghost predicate NoDup<T>(s: seq<T>) {
    forall i, j {:trigger Differ(s, i, j)} :: 0 <= i < j < |s| ==> Differ(s, i, j)
  }

  lemma NoDupIsDistinct<T>(s: seq<T>)
    ensures NoDup(s) <==> Distinct(s)
  {
    if NoDup(s) {
      forall i, j | 0 <= i < j < |s| ensures s[i] != s[j] { assert Differ(s, i, j); }
    }
  }

  // s without its element number k.
  function RemoveAt<T>(s: seq<T>, k: nat): (r: seq<T>)
    requires k < |s|
    ensures |r| == |s| - 1
  {
    s[..k] + s[k + 1..]
  }

  lemma RemoveAtDistinct<T>(s: seq<T>, k: nat)
    requires Distinct(s) && k < |s|
    ensures Distinct(RemoveAt(s, k)) && forall x :: x in RemoveAt(s, k) <==> x in s && x != s[k]
  {
    var r := RemoveAt(s, k);
    forall i | 0 <= i < |r| ensures r[i] == s[if i < k then i else i + 1] { }
    forall x | x in s && x != s[k] ensures x in r {
      var i :| 0 <= i < |s| && s[i] == x;
      assert r[if i < k then i else i - 1] == x;
    }
    forall x | x in r ensures x in s && x != s[k] {
      var i :| 0 <= i < |r| && r[i] == x;
    }
  }
}

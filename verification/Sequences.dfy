/** Sequences without repetition, and taking one element out. */
module Sequences {
  ghost predicate NoDup<T>(s: seq<T>) {
    forall i, j :: 0 <= i < j < |s| ==> s[i] != s[j]
  }

  function Drop<T>(s: seq<T>, k: nat): seq<T>
    requires k < |s|
  {
    s[..k] + s[k + 1..]
  }

  lemma DropFacts<T>(s: seq<T>, k: nat)
    requires NoDup(s) && k < |s|
    ensures NoDup(Drop(s, k)) && s[k] !in Drop(s, k)
    ensures forall x :: x in Drop(s, k) <==> x in s && x != s[k]
  {
    var t := Drop(s, k);
    forall x | x in s && x != s[k]
      ensures x in t
    {
      var i :| 0 <= i < |s| && s[i] == x;
      assert t[if i < k then i else i - 1] == x;
    }
  }

  lemma Apart<T>(s: seq<T>, k: nat)
    requires NoDup(s) && k < |s|
    ensures forall i :: 0 <= i < |s| && i != k ==> s[i] != s[k]
    ensures forall i :: 0 <= i < |s| && i != k - 1 && k > 0 ==> s[i] != s[k - 1]
    ensures forall i :: 0 <= i < |s| && i != k + 1 && k + 1 < |s| ==> s[i] != s[k + 1]
  {
  }

  lemma {:induction false} NoDupCard<T>(s: seq<T>)
    requires NoDup(s)
    ensures |set x | x in s| == |s|
  {
    if s != [] {
      var last, rest := s[|s| - 1], s[..|s| - 1];
      NoDupCard(rest);
      assert (set x | x in s) == (set x | x in rest) + {last};
      assert last !in rest;
    }
  }
}

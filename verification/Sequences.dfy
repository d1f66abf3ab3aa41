// Sequences of addresses: free lists and queues.
module Sequences {
  ghost function ElementOr0(s: seq<nat>, i: nat): nat {
    if i < |s| then s[i] else 0
  }

  ghost predicate Differ(s: seq<nat>, i: nat, j: nat) {
    i < j < |s| ==> s[i] != s[j]
  }

  ghost predicate NoDuplicates(s: seq<nat>) {
    forall i: nat, j: nat :: Differ(s, i, j)
  }

  lemma PairsDiffer(s: seq<nat>)
    requires NoDuplicates(s)
    ensures forall i, j :: 0 <= i < j < |s| ==> s[i] != s[j]
  {
    forall i, j | 0 <= i < j < |s| ensures s[i] != s[j] {
      assert Differ(s, i, j);
    }
  }

  lemma InsertMembers(s: seq<nat>, k: nat, b: nat)
    requires k <= |s|
    ensures forall x :: x in s[..k] + [b] + s[k..] <==> x == b || x in s
    ensures NoDuplicates(s) && b !in s ==> NoDuplicates(s[..k] + [b] + s[k..])
  {
    assert s == s[..k] + s[k..];
    var r := s[..k] + [b] + s[k..];
    if NoDuplicates(s) && b !in s {
      PairsDiffer(s);
      forall i: nat, j: nat ensures Differ(r, i, j) {
      }
    }
  }

  // Who stands where, and in front of whom, once b was put in at position k.
  lemma InsertPlaces(s: seq<nat>, k: nat, b: nat, i: nat)
    requires k <= |s| && i <= |s|
    ensures var r := s[..k] + [b] + s[k..];
      && r[i] == (if i < k then s[i] else if i == k then b else s[i - 1])
      && ElementOr0(r, i + 1) == if i + 1 == k then b else ElementOr0(s, if i < k then i + 1 else i)
  {
  }

  lemma RemoveMembers(s: seq<nat>, k: nat)
    requires k < |s| && NoDuplicates(s)
    ensures forall x :: x in s[..k] + s[k + 1..] <==> x != s[k] && x in s
    ensures NoDuplicates(s[..k] + s[k + 1..])
  {
    var r := s[..k] + s[k + 1..];
    PairsDiffer(s);
    forall x | x != s[k] && x in s ensures x in r {
      var i :| 0 <= i < |s| && s[i] == x;
      assert r[if i < k then i else i - 1] == x;
    }
    forall i: nat, j: nat ensures Differ(r, i, j) {
    }
  }

  lemma RemovePlaces(s: seq<nat>, k: nat, i: nat)
    requires k < |s| && i + 1 < |s|
    ensures var r, j := s[..k] + s[k + 1..], if i < k then i else i + 1;
      r[i] == s[j] && ElementOr0(r, i + 1) == ElementOr0(s, if j + 1 == k then k + 1 else j + 1)
  {
  }

  lemma TailMembers(s: seq<nat>)
    requires s != [] && NoDuplicates(s)
    ensures forall x :: x in s[1..] <==> x != s[0] && x in s
    ensures NoDuplicates(s[1..])
  {
    var t := s[1..];
    PairsDiffer(s);
    assert s == [s[0]] + t;
    forall i: nat, j: nat ensures Differ(t, i, j) {
      assert Differ(s, i + 1, j + 1);
    }
  }
}

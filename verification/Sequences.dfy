/** Sequences without repetition, and sequences of sequences. */
module Sequences {
  ghost predicate NoRepeats<T>(s: seq<T>) {
    forall i, j :: 0 <= i < j < |s| ==> s[i] != s[j]
  }

  function Flatten<T>(parts: seq<seq<T>>): seq<T> {
    if parts == [] then [] else Flatten(parts[..|parts| - 1]) + parts[|parts| - 1]
  }

  lemma {:induction false} FlattenMembers<T>(parts: seq<seq<T>>, x: T)
    ensures x in Flatten(parts) <==> exists i :: 0 <= i < |parts| && x in parts[i]
  {
    if parts != [] {
      FlattenMembers(parts[..|parts| - 1], x);
      assert forall i :: 0 <= i < |parts| - 1 ==> parts[..|parts| - 1][i] == parts[i];
    }
  }

  ghost predicate Apart<T>(a: seq<T>, b: seq<T>) {
    forall i, j :: 0 <= i < |a| && 0 <= j < |b| ==> a[i] != b[j]
  }

  lemma {:induction false} FlattenDoesNotRepeat<T>(parts: seq<seq<T>>)
    requires forall i :: 0 <= i < |parts| ==> NoRepeats(parts[i])
    requires forall i, j :: 0 <= i < j < |parts| ==> Apart(parts[i], parts[j])
    ensures NoRepeats(Flatten(parts))
  {
    if parts != [] {
      var before, n := parts[..|parts| - 1], |parts| - 1;
      assert forall i :: 0 <= i < n ==> before[i] == parts[i];
      FlattenDoesNotRepeat(before);
      forall i, j | 0 <= i < |Flatten(before)| && 0 <= j < |parts[n]|
        ensures Flatten(before)[i] != parts[n][j]
      {
        var x := Flatten(before)[i];
        FlattenMembers(before, x);
        var k :| 0 <= k < n && x in before[k];
        assert Apart(parts[k], parts[n]);
        var m :| 0 <= m < |parts[k]| && parts[k][m] == x;
      }
    }
  }

  lemma SliceOfSlice<T>(s: seq<T>, lo: nat, hi: nat, i: nat, j: nat)
    requires lo <= hi <= |s| && i <= j <= hi - lo
    ensures s[lo..hi][i..j] == s[lo + i..lo + j]
  {
    forall k | 0 <= k < j - i
      ensures s[lo..hi][i..j][k] == s[lo + i..lo + j][k]
    {
      assert s[lo..hi][i + k] == s[lo + i + k];
    }
  }
}

/** Joined sequences, and sequences of numbers without repetitions. */
module Sequences {
  lemma JoinAgain<T>(x: seq<T>, y: seq<T>, z: seq<T>)
    ensures x + (y + z) == x + y + z
  {
  }

  ghost predicate Differ(s: seq<nat>, i: int, j: int) {
    0 <= i < j < |s| ==> s[i] != s[j]
  }

  ghost predicate Distinct(s: seq<nat>) {
    forall i, j :: Differ(s, i, j)
  }

  lemma DistinctFront(s: seq<nat>)
    requires s != []
    ensures Distinct(s) <==> s[0] !in s[1..] && Distinct(s[1..])
  {
    if Distinct(s) {
      forall k | 0 <= k < |s[1..]| ensures s[1..][k] != s[0] { assert Differ(s, 0, k + 1); }
      forall i, j ensures Differ(s[1..], i, j) { assert Differ(s, i + 1, j + 1); }
    }
    if s[0] !in s[1..] && Distinct(s[1..]) {
      forall i, j ensures Differ(s, i, j) {
        if i == 0 {
          assert 0 < j < |s| ==> s[j] == s[1..][j - 1];
        } else {
          assert Differ(s[1..], i - 1, j - 1);
        }
      }
    }
  }

  lemma OthersDiffer(a: seq<nat>, t: nat)
    requires Distinct(a) && t < |a|
    ensures a[t] !in a[..t] && a[t] !in a[t + 1..]
  {
    forall k | 0 <= k < t ensures a[k] != a[t] { assert Differ(a, k, t); }
    forall k | t < k < |a| ensures a[k] != a[t] { assert Differ(a, t, k); }
  }

  lemma DistinctParts(a: seq<nat>, t: nat)
    requires Distinct(a) && t <= |a|
    ensures Distinct(a[..t]) && Distinct(a[t..])
  {
    forall i, j ensures Differ(a[..t], i, j) { assert Differ(a, i, j); }
    forall i, j ensures Differ(a[t..], i, j) { assert Differ(a, t + i, t + j); }
  }
}

/** Arrays of row indices: the parts of them that are kept, and what deleting a row does to them. */
module IndexArrays {
  import opened Sequences

  function Keep<T>(s: seq<T>, p: T -> bool): seq<T> {
    if s == [] then []
    else if p(s[0]) then [s[0]] + Keep(s[1..], p)
    else Keep(s[1..], p)
  }

  /** A permutation of 0..n-1. */
  ghost predicate IsOrder(m: seq<nat>, n: nat) {
    && |m| == n
    && Distinct(m)
    && (forall x :: x in m ==> x < n)
    && (forall x: nat :: x < n ==> x in m)
  }

  /** `d` lists some elements of `m` in the order of `m`. */
  ghost predicate InOrder<T(!new)>(d: seq<T>, m: seq<T>) {
    exists p: T -> bool :: d == Keep(m, p)
  }

  lemma KeepFront<T>(x: T, rest: seq<T>, p: T -> bool)
    ensures Keep([x] + rest, p) == if p(x) then [x] + Keep(rest, p) else Keep(rest, p)
  {
    assert ([x] + rest)[1..] == rest;
  }

  lemma {:induction false} KeepJoin<T>(a: seq<T>, b: seq<T>, p: T -> bool)
    ensures Keep(a + b, p) == Keep(a, p) + Keep(b, p)
  {
    if a == [] {
      assert a + b == b;
    } else {
      var rest := a[1..];
      KeepJoin(rest, b, p);
      assert a + b == [a[0]] + (rest + b) && a == [a[0]] + rest;
      KeepFront(a[0], rest + b, p);
      KeepFront(a[0], rest, p);
      JoinAgain([a[0]], Keep(rest, p), Keep(b, p));
    }
  }

  lemma KeepPush<T>(a: seq<T>, x: T, p: T -> bool)
    ensures Keep(a + [x], p) == if p(x) then Keep(a, p) + [x] else Keep(a, p)
  {
    KeepJoin(a, [x], p);
    assert [x][1..] == [];
  }

  lemma {:induction false} KeepContents<T>(s: seq<T>, p: T -> bool)
    ensures |Keep(s, p)| <= |s|
    ensures forall x :: x in Keep(s, p) <==> x in s && p(x)
  {
    if s != [] {
      KeepContents(s[1..], p);
      assert s == [s[0]] + s[1..];
    }
  }

  lemma {:induction false} KeepDistinct(s: seq<nat>, p: nat -> bool)
    requires Distinct(s)
    ensures Distinct(Keep(s, p))
  {
    if s != [] {
      DistinctFront(s);
      KeepDistinct(s[1..], p);
      KeepContents(s[1..], p);
      if p(s[0]) {
        assert Keep(s, p)[1..] == Keep(s[1..], p);
        DistinctFront(Keep(s, p));
      }
    }
  }

  lemma {:induction false} KeepSame<T>(s: seq<T>, p: T -> bool, q: T -> bool)
    requires forall x :: x in s ==> p(x) == q(x)
    ensures Keep(s, p) == Keep(s, q)
  {
    if s != [] {
      assert s[0] in s;
      KeepSame(s[1..], p, q);
    }
  }

  lemma {:induction false} KeepAll<T>(s: seq<T>, p: T -> bool)
    requires forall x :: x in s ==> p(x)
    ensures Keep(s, p) == s
  {
    if s != [] {
      assert s[0] in s;
      KeepAll(s[1..], p);
    }
  }

  /** Nothing is dropped exactly if nothing gets shorter. */
  lemma {:induction false} KeepWhole<T>(s: seq<T>, p: T -> bool)
    requires |Keep(s, p)| == |s|
    ensures Keep(s, p) == s
    ensures forall x :: x in s ==> p(x)
  {
    if s != [] {
      KeepContents(s[1..], p);
      KeepWhole(s[1..], p);
      assert s == [s[0]] + s[1..];
    }
  }

  lemma {:induction false} KeepTwice<T>(s: seq<T>, p: T -> bool, q: T -> bool, both: T -> bool)
    requires forall x :: x in s ==> both(x) == (p(x) && q(x))
    ensures Keep(Keep(s, p), q) == Keep(s, both)
  {
    if s != [] {
      assert s[0] in s;
      KeepTwice(s[1..], p, q, both);
      KeepFront(s[0], Keep(s[1..], p), q);
    }
  }

  // ------------------------------------------------------------------ deleting a row

  function Low(x: nat, k: nat): nat {
    if x > k then x - 1 else x
  }

  /** The other rows, under their numbers after row `k` is gone. */
  function Deleted(s: seq<nat>, k: nat): seq<nat> {
    if s == [] then []
    else if s[0] == k then Deleted(s[1..], k)
    else [Low(s[0], k)] + Deleted(s[1..], k)
  }

  lemma DeletedFront(x: nat, rest: seq<nat>, k: nat)
    ensures Deleted([x] + rest, k) == if x == k then Deleted(rest, k) else [Low(x, k)] + Deleted(rest, k)
  {
    assert ([x] + rest)[1..] == rest;
  }

  /** Keeping rows commutes with deleting one. */
  lemma {:induction false} KeepDeleted(s: seq<nat>, k: nat, p: nat -> bool, p': nat -> bool)
    requires forall x :: x in s && x != k ==> p'(Low(x, k)) == p(x)
    ensures Keep(Deleted(s, k), p') == Deleted(Keep(s, p), k)
  {
    if s != [] {
      assert s[0] in s;
      KeepDeleted(s[1..], k, p, p');
      KeepFront(Low(s[0], k), Deleted(s[1..], k), p');
      DeletedFront(s[0], Keep(s[1..], p), k);
    }
  }

  /** The row that has the number `y` after row `k` is gone. */
  function High(y: nat, k: nat): nat {
    if y < k then y else y + 1
  }

  lemma {:induction false} DeletedElements(s: seq<nat>, k: nat, y: nat)
    ensures y in Deleted(s, k) <==> High(y, k) in s
  {
    if s != [] {
      DeletedElements(s[1..], k, y);
      assert s == [s[0]] + s[1..];
    }
  }

  lemma {:induction false} DeletedDistinct(s: seq<nat>, k: nat)
    requires Distinct(s)
    ensures Distinct(Deleted(s, k))
    ensures |Deleted(s, k)| == if k in s then |s| - 1 else |s|
  {
    if s != [] {
      var rest := s[1..];
      DistinctFront(s);
      DeletedDistinct(rest, k);
      assert s == [s[0]] + rest;
      if s[0] != k {
        DeletedElements(rest, k, Low(s[0], k));
        assert High(Low(s[0], k), k) == s[0];
        assert Deleted(s, k)[1..] == Deleted(rest, k);
        DistinctFront(Deleted(s, k));
      }
    }
  }

  /** A permutation of 0..n-1 becomes one of 0..n-2. */
  lemma OrderDeleted(m: seq<nat>, n: nat, k: nat)
    requires IsOrder(m, n) && k < n
    ensures IsOrder(Deleted(m, k), n - 1)
  {
    DeletedDistinct(m, k);
    forall y: nat ensures y in Deleted(m, k) <==> y < n - 1 {
      DeletedElements(m, k, y);
    }
  }

  /** In an array without repetitions, deleting removes one place and moves the rest up. */
  lemma DeletedAt(s: seq<nat>, k: nat, t: nat)
    requires Distinct(s) && t < |s| && s[t] == k
    ensures Deleted(s, k) == Deleted(s[..t], k) + Deleted(s[t + 1..], k)
    ensures |Deleted(s[..t], k)| == t
  {
    DeletedJoin(s[..t], [k] + s[t + 1..], k);
    assert s == s[..t] + ([k] + s[t + 1..]);
    assert ([k] + s[t + 1..])[1..] == s[t + 1..];
    DistinctParts(s, t);
    OthersDiffer(s, t);
    DeletedDistinct(s[..t], k);
  }

  lemma {:induction false} DeletedJoin(a: seq<nat>, b: seq<nat>, k: nat)
    ensures Deleted(a + b, k) == Deleted(a, k) + Deleted(b, k)
  {
    if a == [] {
      assert a + b == b;
    } else {
      var rest := a[1..];
      DeletedJoin(rest, b, k);
      assert Deleted(a + b, k) == if a[0] == k then Deleted(rest + b, k) else [Low(a[0], k)] + Deleted(rest + b, k) by {
        assert a + b == [a[0]] + (rest + b);
        DeletedFront(a[0], rest + b, k);
      }
      JoinAgain([Low(a[0], k)], Deleted(rest, k), Deleted(b, k));
    }
  }

  /** With the target out of the way, deleting only renumbers. */
  lemma {:induction false} DeletedLow(s: seq<nat>, k: nat)
    requires k !in s
    ensures |Deleted(s, k)| == |s|
    ensures forall i :: 0 <= i < |s| ==> Deleted(s, k)[i] == Low(s[i], k)
  {
    if s != [] {
      assert s[0] in s;
      DeletedLow(s[1..], k);
    }
  }

  lemma {:induction false} NothingDeleted(s: seq<nat>, n: nat, k: nat)
    requires k >= n && forall i :: 0 <= i < |s| ==> s[i] < n
    ensures Deleted(s, k) == s
  {
    if s != [] {
      NothingDeleted(s[1..], n, k);
    }
  }

  /** The first place of `x`, or -1: `$.inArray`. */
  method InArray(x: nat, a: seq<nat>) returns (index: int)
    ensures -1 <= index < |a|
    ensures index == -1 <==> x !in a
    ensures index >= 0 ==> a[index] == x && x !in a[..index]
  {
    for i := 0 to |a|
      invariant x !in a[..i]
    {
      if a[i] == x { return i; }
    }
    return -1;
  }

  /** `_fnDeleteIndex`: numbers above the target move down in place, then its entry goes. */
  method DeleteIndex(a: seq<nat>, iTarget: nat) returns (r: seq<nat>)
    requires Distinct(a)
    ensures r == Deleted(a, iTarget)
  {
    r := a;
    var iTargetIndex := -1;
    for i := 0 to |a|
      invariant |r| == |a| && -1 <= iTargetIndex < i
      invariant iTargetIndex == -1 <==> iTarget !in a[..i]
      invariant iTargetIndex >= 0 ==> a[iTargetIndex] == iTarget
      invariant forall j :: 0 <= j < i ==> r[j] == Low(a[j], iTarget)
      invariant forall j :: i <= j < |a| ==> r[j] == a[j]
    {
      if r[i] == iTarget {
        iTargetIndex := i;
      } else if r[i] > iTarget {
        r := r[i := r[i] - 1];
      }
    }
    if iTargetIndex != -1 {
      var t := iTargetIndex;
      DeletedAt(a, iTarget, t);
      OthersDiffer(a, t);
      DeletedLow(a[..t], iTarget);
      DeletedLow(a[t + 1..], iTarget);
      r := r[..t] + r[t + 1..];
      assert r[..t] == Deleted(a[..t], iTarget);
      assert r[t..] == Deleted(a[t + 1..], iTarget);
    } else {
      assert a[..|a|] == a;
      DeletedLow(a, iTarget);
    }
  }
}

/** Sizzle's fallback comparator and `uniqueSort`: nodes of one tree are compared by their
    lists of ancestors, and the sorted result list is freed of duplicates in place. */
module DocumentOrder {
  import opened Wrappers
  import opened Trees

  function ParentNode(p: Path): Option<Path> {
    if p == [] then None else Some(Parent(p))
  }

  /** `siblingCheck`: -1 when `b` is found among the following siblings of `a`. */
  method SiblingCheck<T>(t: Tree<T>, a: Path, b: Path, same: int) returns (r: int)
    requires IsNode(t, a) && IsNode(t, b) && a != [] && b != [] && Parent(a) == Parent(b)
    ensures r == if a == b then same else if Last(a) < Last(b) then -1 else 1
  {
    assert a == Parent(a) + [Last(a)] && b == Parent(b) + [Last(b)];
    if a == b { return same; }
    var cur := NextSibling(t, a);
    ghost var k := Last(a) + 1;
    while cur.Some?
      invariant k > Last(a) && cur == if IsNode(t, Parent(a) + [k]) then Some(Parent(a) + [k]) else None
      invariant Last(a) < Last(b) ==> k <= Last(b)
      decreases |KidsAt(t, Parent(a))| - k
    {
      KidCount(t, Parent(a), k);
      if cur.value == b { return -1; }
      assert Parent(cur.value) == Parent(a) && Last(cur.value) == k;
      cur, k := NextSibling(t, cur.value), k + 1;
    }
    if Last(a) < Last(b) { SiblingIsNode(t, b, k); }
    return 1;
  }

  lemma KidCount<T>(t: Tree<T>, p: Path, k: nat)
    requires IsNode(t, p + [k])
    ensures IsNode(t, p) && k < |KidsAt(t, p)|
  {
    PrefixIsNode(t, p, p + [k]);
    ChildIsNode(t, p, k);
  }

  /** The ancestors of `p` from the root down, as the two `unshift` loops build them. */
  method Ancestors(p: Path) returns (list: seq<Path>)
    requires p != []
    ensures |list| == |p| && forall i :: 0 <= i < |p| ==> list[i] == p[..i]
  {
    var cur := ParentNode(p);
    list := [];
    while cur.Some?
      invariant |list| <= |p| && cur == if |list| == |p| then None else Some(p[..|p| - 1 - |list|])
      invariant forall i :: 0 <= i < |list| ==> list[i] == p[..|p| - |list| + i]
      decreases |p| - |list|
    {
      assert cur.value != [] ==> Parent(cur.value) == p[..|p| - 2 - |list|];
      list, cur := [cur.value] + list, ParentNode(cur.value);
    }
  }

  /** The first difference decides. */
  lemma FirstDifference(a: Path, b: Path, i: nat)
    requires i < |a| && i < |b| && a[..i] == b[..i] && a[i] != b[i]
    ensures Before(a, b) <==> a[i] < b[i]
  {
    assert a == a[..i] + a[i..] && b == b[..i] + b[i..];
    BeforeExtension(a[..i], a[i..], b[i..]);
  }

  /** `sortOrder` without `compareDocumentPosition` and `sourceIndex`, on two nodes of one tree:
      zero exactly for the same node, negative exactly when `a` comes first. */
  method SortOrder<T>(t: Tree<T>, a: Path, b: Path) returns (r: int, hasDuplicate: bool)
    requires IsNode(t, a) && IsNode(t, b)
    ensures r < 0 <==> Before(a, b)
    ensures r == 0 <==> a == b
    ensures hasDuplicate == (a == b)
  {
    hasDuplicate := false;
    BeforeIrreflexive(a);
    if a == b { return 0, true; }
    var aup, bup := ParentNode(a), ParentNode(b);
    if aup == bup {
      assert a != [] && b != [] && a == Parent(a) + [Last(a)] && b == Parent(b) + [Last(b)];
      r := SiblingCheck(t, a, b, 0);
      FirstDifference(a, b, |a| - 1);
      return;
    } else if aup.None? {
      return -1, false;
    } else if bup.None? {
      return 1, false;
    }
    var ap := Ancestors(a);
    var bp := Ancestors(b);
    var i := 0;
    while i < |ap| && i < |bp|
      invariant 0 <= i <= |ap| && i <= |bp|
      invariant i > 0 ==> a[..i - 1] == b[..i - 1]
    {
      PrefixIsNode(t, a[..i], a);
      PrefixIsNode(t, b[..i], b);
      if ap[i] != bp[i] {
        r := Diverge(t, a, b, i, 0);
        return;
      }
      i := i + 1;
    }
    assert a[..|a|] == a && b[..|b|] == b;
    if i == |ap| {
      PrefixIsNode(t, b[..i], b);
      r := Diverge(t, a, b, i, -1);
    } else {
      PrefixIsNode(t, a[..i], a);
      r := Diverge(t, a, b, i, 1);
    }
  }

  /** The sibling check at level `i`, where the parents agree. */
  method Diverge<T>(t: Tree<T>, a: Path, b: Path, i: nat, same: int) returns (r: int)
    requires 0 < i <= |a| && i <= |b| && IsNode(t, a[..i]) && IsNode(t, b[..i]) && a[..i - 1] == b[..i - 1]
    requires a[..i] == b[..i] ==> (same == -1 && i == |a| < |b|) || (same == 1 && i == |b| < |a|)
    ensures r < 0 <==> Before(a, b)
    ensures r != 0
  {
    assert Parent(a[..i]) == a[..i - 1] && Parent(b[..i]) == b[..i - 1];
    assert a[..i] == a[..i - 1] + [a[i - 1]] && b[..i] == b[..i - 1] + [b[i - 1]];
    r := SiblingCheck(t, a[..i], b[..i], same);
    if a[..i] == b[..i] {
      if i == |a| {
        assert a == b[..i];
        AncestorBefore(a, b);
      } else {
        assert b == a[..i];
        AncestorBefore(b, a); BeforeAsymmetric(b, a);
      }
    } else {
      FirstDifference(a, b, i - 1);
    }
  }

  /** The comparator orders the nodes of a tree strictly and totally, and as preorder does. */
  lemma ComparatorIsPreorder<T>(t: Tree<T>, a: Path, b: Path)
    requires IsNode(t, a) && IsNode(t, b)
    ensures var s := Preorder(t, [], {});
            exists i, j :: 0 <= i < |s| && 0 <= j < |s| && s[i] == a && s[j] == b && (Before(a, b) <==> i < j)
    ensures (a == b || Before(a, b) || Before(b, a)) && !(Before(a, b) && Before(b, a)) && !Before(a, a)
  {
    PreorderIsDocumentOrder(t);
    BeforeTotal(a, b);
    BeforeIrreflexive(a);
    if Before(a, b) { BeforeAsymmetric(a, b); }
    var s := Preorder(t, [], {});
    assert a in s && b in s;
  }

  // ------------------------------------------------------------------ uniqueSort

  /** The outcome of any comparison sort under the comparator. */
  ghost predicate Sorted(s: seq<Path>) {
    forall i, j :: 0 <= i < j < |s| ==> !Before(s[j], s[i])
  }

  function ToSet(s: seq<Path>): set<Path> {
    set p | p in s
  }

  /** The result list, whose items `uniqueSort` sorts and splices in place. */
  class ResultList {
    var items: seq<Path>

    /** `Sizzle.uniqueSort`. `sorted` is what the host's `sort` left, and `hasDuplicate` is the
        flag the comparator raised: a comparison sort compares every pair of neighbours, so it
        was raised if two items are the same node. */
    method UniqueSort(sorted: seq<Path>, hasDuplicate: bool)
      requires multiset(sorted) == multiset(items) && Sorted(sorted)
      requires (exists i :: 0 < i < |sorted| && sorted[i] == sorted[i - 1]) ==> hasDuplicate
      modifies this
      ensures Increasing(items)
      ensures ToSet(items) == ToSet(old(items))
    {
      SameMembers(sorted, items);
      items := sorted;
      if hasDuplicate {
        var i := 1;
        while i < |items|
          invariant 1 <= i <= |items| + 1 && Sorted(items) && ToSet(items) == ToSet(sorted)
          invariant forall k :: 0 < k < i && k < |items| ==> items[k] != items[k - 1]
          decreases |items| - i
        {
          if items[i] == items[i - 1] {
            RemoveNeighbour(items, i);
            items := items[..i] + items[i + 1..];
          } else {
            i := i + 1;
          }
        }
      }
      DistinctNeighbours(items);
    }
  }

  lemma SameMembers(s: seq<Path>, r: seq<Path>)
    requires multiset(s) == multiset(r)
    ensures ToSet(s) == ToSet(r)
  {
    assert forall p :: p in s <==> p in multiset(s);
    assert forall p :: p in r <==> p in multiset(r);
  }

  lemma RemoveNeighbour(s: seq<Path>, i: nat)
    requires 0 < i < |s| && s[i] == s[i - 1] && Sorted(s)
    ensures Sorted(s[..i] + s[i + 1..]) && ToSet(s[..i] + s[i + 1..]) == ToSet(s)
  {
    var r := s[..i] + s[i + 1..];
    assert s == s[..i] + [s[i]] + s[i + 1..];
    assert s[i] in s[..i] by { assert s[..i][i - 1] == s[i]; }
    assert forall p :: p in s <==> p in r;
    assert forall k :: 0 <= k < |r| ==> r[k] == if k < i then s[k] else s[k + 1];
  }

  lemma {:induction false} DistinctNeighbours(s: seq<Path>)
    requires Sorted(s) && forall k :: 0 < k < |s| ==> s[k] != s[k - 1]
    ensures Increasing(s)
  {
    if |s| > 1 {
      var init := s[..|s| - 1];
      DistinctNeighbours(init);
      var last := s[|s| - 1];
      BeforeTotal(s[|s| - 2], last);
      forall i | 0 <= i < |s| - 1 ensures Before(s[i], last) {
        if i < |s| - 2 {
          assert Before(init[i], init[|s| - 2]);
          BeforeTransitive(s[i], s[|s| - 2], last);
        }
      }
    }
  }
}

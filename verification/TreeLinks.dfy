/** An ordered tree held as jsTree's DOM holds it: every node has a parent and a list of children.
    That the links form a tree is not built in; it is an invariant of the edits. */
module TreeLinks {
  import opened Sequences
  import opened Wrappers

  /** The tree container, which is no node of the tree itself. */
  const CONTAINER: nat := 0

  datatype Links = Links(kids: map<nat, seq<nat>>, parent: map<nat, nat>)

  /** Both directions of a link agree. */
  ghost predicate LinkAgrees(t: Links, p: nat, c: nat) {
    p in t.kids && c in t.kids[p] <==> c in t.parent && t.parent[c] == p
  }

  ghost predicate DistinctKids(t: Links, p: nat) {
    p in t.kids ==> Distinct(t.kids[p])
  }

  ghost predicate Linked(t: Links) {
    && CONTAINER !in t.parent && t.kids.Keys == t.parent.Keys + {CONTAINER}
    && (forall p :: DistinctKids(t, p))
    && (forall p, c :: LinkAgrees(t, p, c))
  }

  /** The parent of a node is a node or the container. */
  lemma ParentIsNode(t: Links, x: nat)
    requires Linked(t) && x in t.parent
    ensures x in t.kids && t.parent[x] in t.kids && x in t.kids[t.parent[x]]
  {
    assert LinkAgrees(t, t.parent[x], x);
  }

  /** The node `n` levels above `x`. */
  function Up(t: Links, x: nat, n: nat): Option<nat>
    decreases n
  {
    if n == 0 then Some(x) else if x in t.parent then Up(t, t.parent[x], n - 1) else None
  }

  /** `a` is `x` or an ancestor of `x`. */
  ghost predicate Under(t: Links, a: nat, x: nat) {
    exists n: nat :: Up(t, x, n) == Some(a)
  }

  /** The links form a tree: from every node the parents lead to the container. */
  ghost predicate IsTree(t: Links) {
    Linked(t) && forall x :: x in t.kids ==> Under(t, CONTAINER, x)
  }

  // ------------------------------------------------------------------ climbing

  lemma {:induction false} UpAdd(t: Links, x: nat, m: nat, n: nat)
    requires Up(t, x, m).Some?
    ensures Up(t, x, m + n) == Up(t, Up(t, x, m).value, n)
    decreases m
  {
    if m > 0 { UpAdd(t, t.parent[x], m - 1, n); }
  }

  lemma {:induction false} UpPrefix(t: Links, x: nat, m: nat, n: nat)
    requires m <= n && Up(t, x, n).Some?
    ensures Up(t, x, m).Some?
    decreases m
  {
    if m > 0 { UpPrefix(t, t.parent[x], m - 1, n - 1); }
  }

  lemma UpParent(t: Links, x: nat, n: nat)
    requires Up(t, x, n).Some?
    ensures Up(t, x, n + 1) == if Up(t, x, n).value in t.parent then Some(t.parent[Up(t, x, n).value]) else None
  {
    UpAdd(t, x, n, 1);
    assert forall y :: Up(t, y, 1) == if y in t.parent then Up(t, t.parent[y], 0) else None;
  }

  lemma {:induction false} UpIsNode(t: Links, x: nat, n: nat)
    requires Linked(t) && x in t.kids && Up(t, x, n).Some?
    ensures Up(t, x, n).value in t.kids
    decreases n
  {
    if n > 0 {
      ParentIsNode(t, x);
      UpIsNode(t, t.parent[x], n - 1);
    }
  }

  /** The container is above a node at one distance only. */
  lemma {:induction false} DepthIsUnique(t: Links, x: nat, m: nat, n: nat)
    requires CONTAINER !in t.parent && Up(t, x, m) == Some(CONTAINER) && Up(t, x, n) == Some(CONTAINER)
    ensures m == n
    decreases m
  {
    if m > 0 && n > 0 { DepthIsUnique(t, t.parent[x], m - 1, n - 1); }
  }

  /** So is every other node. */
  lemma DistanceIsUnique(t: Links, a: nat, x: nat, m: nat, n: nat)
    requires IsTree(t) && x in t.kids && Up(t, x, m) == Some(a) && Up(t, x, n) == Some(a)
    ensures m == n
  {
    UpIsNode(t, x, m);
    var d: nat :| Up(t, a, d) == Some(CONTAINER);
    UpAdd(t, x, m, d);
    UpAdd(t, x, n, d);
    DepthIsUnique(t, x, m + d, n + d);
  }

  lemma UnderParent(t: Links, a: nat, x: nat)
    requires x in t.parent
    ensures Under(t, a, x) <==> a == x || Under(t, a, t.parent[x])
  {
    if Under(t, a, x) && a != x {
      var n: nat :| Up(t, x, n) == Some(a);
      assert Up(t, t.parent[x], n - 1) == Some(a);
    }
    if n: nat :| Up(t, t.parent[x], n) == Some(a) {
      assert Up(t, x, n + 1) == Some(a);
    }
    assert Up(t, x, 0) == Some(x);
  }

  // ------------------------------------------------------------------ one list of children

  function IndexOf(s: seq<nat>, x: nat): (i: nat)
    ensures i <= |s| && (i < |s| <==> x in s) && (i < |s| ==> s[i] == x) && forall k :: 0 <= k < i ==> s[k] != x
  {
    IndexFrom(s, x, 0)
  }

  function IndexFrom(s: seq<nat>, x: nat, j: nat): (i: nat)
    requires j <= |s|
    ensures j <= i <= |s| && (i < |s| ==> s[i] == x) && forall k :: j <= k < i ==> s[k] != x
    decreases |s| - j
  {
    if j == |s| || s[j] == x then j else IndexFrom(s, x, j + 1)
  }

  lemma IndexIs(s: seq<nat>, x: nat, i: nat)
    requires Distinct(s) && i < |s| && s[i] == x
    ensures IndexOf(s, x) == i
  {
    assert Differ(s, IndexOf(s, x), i);
  }

  function Without(s: seq<nat>, x: nat): (r: seq<nat>)
  {
    if x in s then RemoveAt(s, IndexOf(s, x)) else s
  }

  function RemoveAt(s: seq<nat>, i: nat): (r: seq<nat>)
    requires i < |s|
    ensures |r| == |s| - 1 && forall k :: 0 <= k < |r| ==> r[k] == s[if k < i then k else k + 1]
  {
    s[..i] + s[i + 1..]
  }

  function InsertAt(s: seq<nat>, i: nat, x: nat): (r: seq<nat>)
    requires i <= |s|
    ensures |r| == |s| + 1 && forall k :: 0 <= k < |r|
                                ==> r[k] == if k < i then s[k] else if k == i then x else s[k - 1]
  {
    s[..i] + [x] + s[i..]
  }

  /** `insertBefore(x, ref)`, or `append(x)` without a reference. */
  function Inserted(s: seq<nat>, x: nat, before: Option<nat>): (r: seq<nat>)
  {
    InsertAt(s, if before.Some? then IndexOf(s, before.value) else |s|, x)
  }

  lemma RemoveAtContents(s: seq<nat>, i: nat)
    requires Distinct(s) && i < |s|
    ensures Distinct(RemoveAt(s, i)) && forall y :: y in RemoveAt(s, i) <==> y in s && y != s[i]
  {
    var r := RemoveAt(s, i);
    forall j, k ensures Differ(r, j, k) {
      assert Differ(s, if j < i then j else j + 1, if k < i then k else k + 1);
    }
    forall y ensures y in r <==> y in s && y != s[i] {
      if y in s && y != s[i] {
        var k :| 0 <= k < |s| && s[k] == y;
        assert r[if k < i then k else k - 1] == y;
      }
      if y in r {
        var k :| 0 <= k < |r| && r[k] == y;
        assert Differ(s, i, k + 1) && Differ(s, k, i);
      }
    }
  }

  lemma WithoutContents(s: seq<nat>, x: nat)
    requires Distinct(s)
    ensures Distinct(Without(s, x)) && forall y :: y in Without(s, x) <==> y in s && y != x
  {
    if x in s { RemoveAtContents(s, IndexOf(s, x)); }
  }

  lemma InsertAtContents(s: seq<nat>, i: nat, x: nat)
    requires Distinct(s) && i <= |s| && x !in s
    ensures var r := InsertAt(s, i, x);
            && Distinct(r) && IndexOf(r, x) == i
            && (forall y :: y in r <==> y in s || y == x) && Without(r, x) == s
  {
    var r := InsertAt(s, i, x);
    forall j, k ensures Differ(r, j, k) {
      assert Differ(s, if j < i then j else j - 1, if k < i then k else k - 1);
    }
    forall y ensures y in r <==> y in s || y == x {
      if y in s {
        var k :| 0 <= k < |s| && s[k] == y;
        assert r[if k < i then k else k + 1] == y;
      } else if y == x {
        assert r[i] == y;
      }
    }
    IndexIs(r, x, i);
    assert RemoveAt(r, i) == s;
  }
}

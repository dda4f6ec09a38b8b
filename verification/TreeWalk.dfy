/** jsTree's keyboard traversal: `_get_next` and `_get_prev` on the items that are visible because
    all the items above them are open. */
module TreeWalk {
  import opened Wrappers
  import opened Trees

  type Shape = Tree<nat>

  /** The items without the class `jstree-open` are `closed`; the container, path [], is open. */
  predicate Openable(closed: set<Path>) {
    [] !in closed
  }

  /** `parentsUntil(".jstree", "li").next("li").eq(0)`: the next sibling of the nearest ancestor
      that has one. */
  function AfterAncestors(t: Shape, p: Path): Option<Path>
    decreases |p|
  {
    if |p| <= 1 then None
    else if NextSibling(t, Parent(p)).Some? then NextSibling(t, Parent(p))
    else AfterAncestors(t, Parent(p))
  }

  /** `_get_next`. */
  function GetNext(t: Shape, closed: set<Path>, p: Path): Option<Path> {
    if p !in closed then (if IsNode(t, p + [0]) then Some(p + [0]) else None)
    else Onward(t, p)
  }

  /** The `while` loop of `_get_prev`: to the last child as long as the item is open. */
  function DeepLast(n: Shape, p: Path, closed: set<Path>): Option<Path>
    decreases n
  {
    if p in closed then Some(p)
    else if n.kids == [] then None
    else DeepLast(n.kids[|n.kids| - 1], p + [|n.kids| - 1], closed)
  }

  /** `_get_prev`. */
  function GetPrev(t: Shape, closed: set<Path>, p: Path): Option<Path> {
    if p != [] && Last(p) > 0 then
      var s := Parent(p) + [Last(p) - 1];
      if IsNode(t, s) then DeepLast(At(t, s).value, s, closed) else None
    else if |p| > 1 then Some(Parent(p))
    else None
  }

  /** The visible items in preorder; the container itself is no item. */
  function VisibleItems(t: Shape, closed: set<Path>): seq<Path> {
    Preorder(t, [], closed)[1..]
  }

  ghost predicate IsVisible(t: Shape, closed: set<Path>, p: Path) {
    p != [] && IsNode(t, p) && Visible(closed, [], p)
  }

  lemma VisibleItemsContents(t: Shape, closed: set<Path>)
    ensures Increasing(VisibleItems(t, closed))
    ensures forall p :: p in VisibleItems(t, closed) <==> IsVisible(t, closed, p)
  {
    PreorderContents(t, [], closed);
    var all, v := Preorder(t, [], closed), VisibleItems(t, closed);
    assert all[0] == [] && all == [[]] + v;
    assert forall i :: 0 <= i < |v| ==> v[i] == all[i + 1] && Before(all[0], all[i + 1]) && v[i] != [];
    forall p ensures p in v <==> IsVisible(t, closed, p) {
      assert p[0..] == p && [] <= p;
    }
  }

  // ------------------------------------------------------------------ the successor

  /** In document order `r` comes after everything below `p`: they part at index `k`. */
  lemma {:induction false} BeforeSplit(p: Path, r: Path) returns (k: nat)
    requires Before(p, r) && !(p < r)
    ensures k < |p| && k < |r| && p[..k] == r[..k] && p[k] < r[k]
  {
    if p[0] < r[0] {
      k := 0;
    } else {
      assert p == [p[0]] + p[1..] && r == [r[0]] + r[1..];
      var j := BeforeSplit(p[1..], r[1..]);
      k := j + 1;
      assert p[..k] == [p[0]] + p[1..][..j] && r[..k] == [r[0]] + r[1..][..j];
    }
  }

  lemma SplitBefore(p: Path, r: Path, k: nat)
    requires k < |p| && k < |r| && p[..k] == r[..k] && p[k] < r[k]
    ensures Before(p, r)
  {
    assert p == p[..k] + p[k..] && r == r[..k] + r[k..];
    BeforeExtension(p[..k], p[k..], r[k..]);
  }

  /** Nothing visible lies strictly between `p` and `q`. */
  ghost predicate Adjoins(t: Shape, closed: set<Path>, p: Path, q: Path) {
    && IsVisible(t, closed, q) && Before(p, q)
    && forall r :: IsVisible(t, closed, r) && Before(p, r) ==> r == q || Before(q, r)
  }

  /** The next sibling of the ancestor of `p` with `m + 1` indices. */
  function Turn(p: Path, m: nat): Path
    requires m < |p|
  {
    p[..m] + [p[m] + 1]
  }

  /** No ancestor of `p` with more than `from` indices has a next sibling, nor has `p`. */
  ghost predicate NoTurn(t: Shape, p: Path, from: nat) {
    forall j :: from <= j < |p| ==> !IsNode(t, Turn(p, j))
  }

  /** The two sibling branches of `_get_next`. */
  function Onward(t: Shape, p: Path): Option<Path> {
    if NextSibling(t, p).Some? then NextSibling(t, p) else AfterAncestors(t, p)
  }

  /** `m` is the level of the deepest turn to the right, and `found` what it leads to. */
  ghost predicate DeepestIs(t: Shape, p: Path, found: Option<Path>, m: nat) {
    match found
    case None => NoTurn(t, p, 0)
    case Some(q) => m < |p| && q == Turn(p, m) && IsNode(t, q) && NoTurn(t, p, m + 1)
  }

  lemma {:induction false} DeepestTurn(t: Shape, p: Path, up: nat) returns (m: nat)
    requires up < |p| && NoTurn(t, p, |p| - up)
    ensures DeepestIs(t, p, Onward(t, p[..|p| - up]), m)
    decreases |p| - up
  {
    m := |p| - up - 1;
    var a := p[..m + 1];
    assert Parent(a) == p[..m] && Last(a) == p[m];
    if NextSibling(t, a).None? {
      assert !IsNode(t, Turn(p, m));
      assert NoTurn(t, p, m);
      if m > 0 {
        assert Parent(a) == p[..|p| - (up + 1)];
        m := DeepestTurn(t, p, up + 1);
      }
    }
  }

  lemma TurnAdjoins(t: Shape, closed: set<Path>, p: Path, m: nat)
    requires IsVisible(t, closed, p) && p in closed && m < |p| && IsNode(t, Turn(p, m))
    requires NoTurn(t, p, m + 1)
    ensures Adjoins(t, closed, p, Turn(p, m))
  {
    var q := Turn(p, m);
    SplitBefore(p, q, m);
    forall a: Path {:trigger a in closed} | a < q ensures a !in closed {
      assert a == q[..|a|] == p[..|a|];
      assert a < p;
    }
    forall r | IsVisible(t, closed, r) && Before(p, r) ensures r == q || Before(q, r) {
      var k := PartsFrom(t, closed, p, r);
      if k < m {
        assert q[..k] == p[..k];
        SplitBefore(q, r, k);
      } else if k == m && r[m] > p[m] + 1 {
        assert q[..m] == r[..m];
        SplitBefore(q, r, m);
      } else if k == m && r != q {
        assert r[..m + 1] == q;
        AncestorBefore(q, r);
      }
    }
  }

  /** A visible item after a closed one parts from it, and the turn at that level exists. */
  lemma PartsFrom(t: Shape, closed: set<Path>, p: Path, r: Path) returns (k: nat)
    requires p in closed && IsNode(t, p) && IsVisible(t, closed, r) && Before(p, r)
    ensures k < |p| && k < |r| && p[..k] == r[..k] && p[k] < r[k] && IsNode(t, Turn(p, k))
  {
    assert !(p < r) by { assert p < r ==> [] <= p < r; }
    k := BeforeSplit(p, r);
    PrefixIsNode(t, r[..k + 1], r);
    assert Parent(r[..k + 1]) == r[..k] && Last(r[..k + 1]) == r[k];
    SiblingIsNode(t, r[..k + 1], p[k] + 1);
  }

  lemma ChildAdjoins(t: Shape, closed: set<Path>, p: Path)
    requires IsVisible(t, closed, p) && p !in closed && IsNode(t, p + [0])
    ensures Adjoins(t, closed, p, p + [0])
  {
    var q := p + [0];
    AncestorBefore(p, q);
    forall a: Path {:trigger a in closed} | a < q ensures a !in closed {
      assert a == q[..|a|];
      assert a == p || a < p;
    }
    forall r | IsVisible(t, closed, r) && Before(p, r) ensures r == q || Before(q, r) {
      if p < r {
        if r[|p|] == 0 {
          assert r[..|p| + 1] == q;
          if r != q { AncestorBefore(q, r); }
        } else {
          assert q[..|p|] == r[..|p|];
          SplitBefore(q, r, |p|);
        }
      } else {
        var k := BeforeSplit(p, r);
        assert q[..k] == p[..k];
        SplitBefore(q, r, k);
      }
    }
  }

  /** When `_get_next` finds something, it is the next visible item. */
  lemma NextAdjoins(t: Shape, closed: set<Path>, p: Path)
    requires IsVisible(t, closed, p) && GetNext(t, closed, p).Some?
    ensures Adjoins(t, closed, p, GetNext(t, closed, p).value)
  {
    if p !in closed {
      ChildAdjoins(t, closed, p);
    } else {
      assert p[..|p|] == p;
      var m := DeepestTurn(t, p, 0);
      TurnAdjoins(t, closed, p, m);
    }
  }

  /** When it finds nothing, the item is the last visible one, or open without a child. */
  lemma NoNextIsLast(t: Shape, closed: set<Path>, p: Path, r: Path)
    requires IsVisible(t, closed, p) && p in closed && GetNext(t, closed, p).None?
    requires IsVisible(t, closed, r)
    ensures !Before(p, r)
  {
    if Before(p, r) {
      assert p[..|p|] == p;
      var m := DeepestTurn(t, p, 0);
      var k := PartsFrom(t, closed, p, r);
    }
  }

  /** An open item without a child, where the walk gets stuck. */
  predicate Stuck(t: Shape, closed: set<Path>, p: Path) {
    p !in closed && !IsNode(t, p + [0])
  }

  /** At each visible item, `_get_next` is the next visible item, or nothing at the last one, if
      and only if the item is not stuck or is the last. */
  lemma NextIsSuccessor(t: Shape, closed: set<Path>, i: nat)
    requires i < |VisibleItems(t, closed)|
    ensures var v := VisibleItems(t, closed);
            (GetNext(t, closed, v[i]) == if i + 1 < |v| then Some(v[i + 1]) else None)
            <==> (i + 1 == |v| || !Stuck(t, closed, v[i]))
  {
    var v := VisibleItems(t, closed);
    VisibleItemsContents(t, closed);
    assert v[i] in v;
    var next := GetNext(t, closed, v[i]);
    if next.Some? {
      NextAdjoins(t, closed, v[i]);
      assert next.value in v;
      AdjoiningIndex(t, closed, v, i, next.value);
    } else if i + 1 < |v| && v[i] in closed {
      assert v[i + 1] in v;
      NoNextIsLast(t, closed, v[i], v[i + 1]);
    }
  }

  /** Two items at the top, the first of them open and without a child. */
  lemma OpenItemWithoutChildIsStuck()
    ensures var t: Shape := Node(0, [Node(1, []), Node(2, [])]);
            && VisibleItems(t, {}) == [[0], [1]] && Stuck(t, {}, [0])
            && GetNext(t, {}, [0]) == None && GetPrev(t, {}, [1]) == None
  {
    var t: Shape := Node(0, [Node(1, []), Node(2, [])]);
    var top, first, second: Path := [], [0], [1];
    assert top + [0] == first && top + [1] == second;
    assert Preorder(t.kids[0], first, {}) == [first] && Preorder(t.kids[1], second, {}) == [second];
    assert PreorderKids(t, top, {}, 1) == [second] + PreorderKids(t, top, {}, 2);
    assert PreorderKids(t, top, {}, 0) == [first] + [second];
    ChildIsNode(t, [0], 0);
  }

  lemma AdjoiningIndex(t: Shape, closed: set<Path>, v: seq<Path>, i: nat, q: Path)
    requires Increasing(v) && (forall p :: p in v <==> IsVisible(t, closed, p))
    requires i < |v| && q in v && Adjoins(t, closed, v[i], q)
    ensures i + 1 < |v| && v[i + 1] == q
  {
    var j :| 0 <= j < |v| && v[j] == q;
    if j < i { BeforeAsymmetric(v[j], v[i]); }
    if j == i { BeforeIrreflexive(v[i]); }
    if i + 1 < j {
      assert v[i + 1] in v;
      BeforeAsymmetric(v[i + 1], v[j]);
    }
  }

  // ------------------------------------------------------------------ the predecessor

  /** Going to the last child again and again leads back to where a turn was needed. */
  lemma {:induction false} DeepLastReturns(t: Shape, closed: set<Path>, p: Path, k: nat, n: Shape)
    requires IsVisible(t, closed, p) && p in closed && 0 < k <= |p| && At(t, p[..k]) == Some(n)
    requires NoTurn(t, p, k)
    ensures DeepLast(n, p[..k], closed) == Some(p)
    decreases |p| - k
  {
    var a := p[..k];
    if k == |p| {
      assert a == p;
    } else {
      assert [] <= a < p;
      PrefixIsNode(t, p[..k + 1], p);
      assert p[..k + 1] == a + [p[k]] && Turn(p, k) == a + [p[k] + 1];
      ChildIsNode(t, a, p[k]);
      ChildIsNode(t, a, p[k] + 1);
      assert p[k] == |n.kids| - 1;
      DeepLastReturns(t, closed, p, k + 1, n.kids[p[k]]);
    }
  }

  /** `_get_prev` undoes every step of `_get_next`. */
  lemma PrevUndoesNext(t: Shape, closed: set<Path>, p: Path)
    requires IsVisible(t, closed, p) && GetNext(t, closed, p).Some?
    ensures GetPrev(t, closed, GetNext(t, closed, p).value) == Some(p)
  {
    var q := GetNext(t, closed, p).value;
    if p !in closed {
      assert Parent(q) == p && Last(q) == 0;
    } else {
      assert p[..|p|] == p;
      var m := DeepestTurn(t, p, 0);
      assert Parent(q) == p[..m] && Last(q) == p[m] + 1;
      var s := p[..m + 1];
      assert s == p[..m] + [p[m]];
      PrefixIsNode(t, s, p);
      DeepLastReturns(t, closed, p, m + 1, At(t, s).value);
    }
  }

  /** Nothing is in front of the first item. */
  lemma FirstHasNoPrevious(t: Shape, closed: set<Path>)
    requires Openable(closed) && VisibleItems(t, closed) != []
    ensures GetPrev(t, closed, VisibleItems(t, closed)[0]) == None
  {
    FirstVisible(t, closed);
  }

  // ------------------------------------------------------------------ the whole walk

  /** The walk has visited a first part of the visible items, and `cur` is the next one. */
  ghost predicate Walked(t: Shape, closed: set<Path>, visited: seq<Path>, cur: Option<Path>) {
    var v := VisibleItems(t, closed);
    visited <= v && cur == if |visited| < |v| then Some(v[|visited|]) else None
  }

  lemma WalkOn(t: Shape, closed: set<Path>, visited: seq<Path>, cur: Path)
    requires forall p :: IsVisible(t, closed, p) ==> !Stuck(t, closed, p)
    requires Openable(closed) && Walked(t, closed, visited, Some(cur))
    ensures IsVisible(t, closed, cur) && Walked(t, closed, visited + [cur], GetNext(t, closed, cur))
  {
    var v := VisibleItems(t, closed);
    VisibleItemsContents(t, closed);
    assert cur in v;
    NextIsSuccessor(t, closed, |visited|);
  }

  /** Walking from the first root with `_get_next` visits exactly the visible items, once each and
      in preorder, when every open item has a child. */
  method WalkAll(t: Shape, closed: set<Path>) returns (visited: seq<Path>)
    requires forall p :: IsVisible(t, closed, p) ==> !Stuck(t, closed, p)
    requires Openable(closed)
    ensures visited == VisibleItems(t, closed)
  {
    visited := [];
    var cur := if IsNode(t, [0]) then Some([0]) else None;
    FirstVisible(t, closed);
    while cur.Some?
      invariant Walked(t, closed, visited, cur)
      decreases |VisibleItems(t, closed)| - |visited|
    {
      WalkOn(t, closed, visited, cur.value);
      visited, cur := visited + [cur.value], GetNext(t, closed, cur.value);
    }
  }

  lemma NothingBeforeFirst(p: Path)
    requires p != []
    ensures !Before(p, [0])
  {
    assert [0][1..] == [];
  }

  lemma FirstVisible(t: Shape, closed: set<Path>)
    requires Openable(closed)
    ensures var v := VisibleItems(t, closed);
            if IsNode(t, [0]) then |v| > 0 && v[0] == [0] else v == []
  {
    var v := VisibleItems(t, closed);
    VisibleItemsContents(t, closed);
    if IsNode(t, [0]) {
      forall a: Path {:trigger a in closed} | a < [0] ensures a !in closed { assert a == []; }
      assert [0] in v;
      var i :| 0 <= i < |v| && v[i] == [0];
      assert v[0] in v;
      NothingBeforeFirst(v[0]);
    } else if v != [] {
      assert v[0] in v;
      var p := v[0];
      PrefixIsNode(t, [p[0]], p);
      SiblingIsNode(t, [p[0]], 0);
    }
  }
}

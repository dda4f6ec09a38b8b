/** jsTree's checkbox plugin: a click sets a whole subtree and repairs only the ancestors, up to
    the first one that turns out mixed. */
module Checkbox {
  import opened Wrappers
  import opened Trees

  datatype Check = Checked | Unchecked | Undetermined

  /** The items of the tree; the root, path [], is the container. */
  type Shape = Tree<nat>

  /** The state classes of the items. */
  type States = map<Path, Check>

  predicate IsItem(t: Shape, p: Path) {
    p != [] && IsNode(t, p)
  }

  ghost predicate Covers(t: Shape, st: States) {
    forall p :: p in st <==> IsItem(t, p)
  }

  function Of(st: States, p: Path): Check {
    if p in st then st[p] else Undetermined
  }

  ghost predicate AllKids(t: Shape, st: States, p: Path, c: Check)
    requires IsNode(t, p)
  {
    forall k: nat :: k < |KidsAt(t, p)| ==> Of(st, p + [k]) == c
  }

  /** An inner item shows what its children show: checked or unchecked if they all are, else
      undetermined. A leaf is checked or unchecked. */
  ghost predicate Settled(t: Shape, st: States, p: Path)
    requires IsItem(t, p)
  {
    if KidsAt(t, p) == [] then Of(st, p) != Undetermined
    else
      && (Of(st, p) == Checked <==> AllKids(t, st, p, Checked))
      && (Of(st, p) == Unchecked <==> AllKids(t, st, p, Unchecked))
  }

  ghost predicate Consistent(t: Shape, st: States) {
    Covers(t, st) && forall p :: IsItem(t, p) ==> Settled(t, st, p)
  }

  // ------------------------------------------------------------------ full recomputation

  /** The state of the item `n` at `p`, computed bottom up from its leaves. */
  function Computed(n: Shape, p: Path, st: States): Check {
    if n.kids == [] then Of(st, p)
    else if forall k: nat | k < |n.kids| :: Computed(n.kids[k], p + [k], st) == Checked then Checked
    else if forall k: nat | k < |n.kids| :: Computed(n.kids[k], p + [k], st) == Unchecked then Unchecked
    else Undetermined
  }

  lemma {:induction false} ConsistentIsComputed(t: Shape, st: States, p: Path, n: Shape)
    requires Consistent(t, st) && IsItem(t, p) && At(t, p) == Some(n)
    ensures Of(st, p) == Computed(n, p, st)
    decreases n
  {
    assert Settled(t, st, p);
    forall k: nat | k < |n.kids| ensures Of(st, p + [k]) == Computed(n.kids[k], p + [k], st) {
      ChildIsNode(t, p, k);
      ConsistentIsComputed(t, st, p + [k], n.kids[k]);
    }
  }

  /** The recomputation looks at the leaves only. */
  lemma {:induction false} ComputedFromLeaves(t: Shape, st: States, st': States, p: Path, n: Shape)
    requires IsItem(t, p) && At(t, p) == Some(n)
    requires forall q :: IsItem(t, q) && KidsAt(t, q) == [] ==> Of(st, q) == Of(st', q)
    ensures Computed(n, p, st) == Computed(n, p, st')
    decreases n
  {
    forall k: nat | k < |n.kids| ensures Computed(n.kids[k], p + [k], st) == Computed(n.kids[k], p + [k], st') {
      ChildIsNode(t, p, k);
      ComputedFromLeaves(t, st, st', p + [k], n.kids[k]);
    }
  }

  // ------------------------------------------------------------------ one click

  /** All of the subtree at `p` set to `c`. */
  function SetSubtree(st: States, p: Path, c: Check): States {
    map q | q in st :: if p <= q then c else st[q]
  }

  /** The ancestors of `p` with at most `k` indices set to undetermined. */
  function SetAncestors(st: States, p: Path, k: nat): States {
    map q | q in st :: if q < p && |q| <= k then Undetermined else st[q]
  }

  /** Everything is settled but the ancestors of `p` with at most `k` indices, and the ancestor
      just below those shows `c`. */
  ghost predicate SettledBelow(t: Shape, st: States, p: Path, k: nat, c: Check) {
    && Covers(t, st) && IsItem(t, p) && k < |p| && Of(st, p[..k + 1]) == c
    && forall q :: IsItem(t, q) && !(q < p && |q| <= k) ==> Settled(t, st, q)
  }

  /** Whether an item is settled depends on it and its children only. */
  lemma SettledFrame(t: Shape, st: States, st': States, q: Path)
    requires IsItem(t, q) && Settled(t, st, q) && Of(st, q) == Of(st', q)
    requires forall k: nat :: k < |KidsAt(t, q)| ==> Of(st, q + [k]) == Of(st', q + [k])
    ensures Settled(t, st', q)
  {
  }

  lemma SubtreeIsSettled(t: Shape, st: States, p: Path, c: Check)
    requires Consistent(t, st) && IsItem(t, p) && c != Undetermined
    ensures SettledBelow(t, SetSubtree(st, p, c), p, |p| - 1, c)
  {
    var st' := SetSubtree(st, p, c);
    assert p[..|p|] == p;
    forall q | IsItem(t, q) && !(q < p && |q| <= |p| - 1) ensures Settled(t, st', q) {
      assert Settled(t, st, q);
      forall k: nat | k < |KidsAt(t, q)| ensures Of(st', q + [k]) == if p <= q then c else Of(st, q + [k]) {
        ChildIsNode(t, q, k);
        assert p <= q + [k] ==> p <= q || p == q + [k];
      }
    }
  }

  /** One round of the loop over the ancestors: `a` is the ancestor with `k` indices. */
  lemma AncestorFollows(t: Shape, st: States, p: Path, k: nat, c: Check)
    requires SettledBelow(t, st, p, k, c) && k > 0 && c != Undetermined
    requires IsNode(t, p[..k]) && AllKids(t, st, p[..k], c)
    ensures SettledBelow(t, st[p[..k] := c], p, k - 1, c)
  {
    var a, st' := p[..k], st[p[..k] := c];
    ChildOnPath(t, p, k);
    forall q | IsItem(t, q) && !(q < p && |q| <= k - 1) ensures Settled(t, st', q) {
      if q == a { FollowsKids(t, st, a, c); } else { FollowsOthers(t, st, p, k, c, q); }
    }
    assert p[..k - 1 + 1] == a;
  }

  lemma FollowsKids(t: Shape, st: States, a: Path, c: Check)
    requires IsItem(t, a) && a in st && c != Undetermined && KidsAt(t, a) != [] && AllKids(t, st, a, c)
    ensures Settled(t, st[a := c], a)
  {
    forall j: nat | j < |KidsAt(t, a)| ensures Of(st[a := c], a + [j]) == c { assert a + [j] != a; }
    assert Of(st[a := c], a + [0]) == c;
  }

  lemma FollowsOthers(t: Shape, st: States, p: Path, k: nat, c: Check, q: Path)
    requires SettledBelow(t, st, p, k, c) && k > 0 && IsItem(t, q) && q != p[..k] && !(q < p && |q| <= k - 1)
    ensures Settled(t, st[p[..k] := c], q)
  {
    NotAbove(p, k, q);
    SettledFrame(t, st, st[p[..k] := c], q);
  }

  /** Neither `q` nor a child of it is the ancestor with `k` indices. */
  lemma NotAbove(p: Path, k: nat, q: Path)
    requires 0 < k < |p| && q != p[..k] && !(q < p && |q| <= k - 1)
    ensures !(q < p && |q| <= k)
    ensures forall j: nat :: q + [j] != p[..k]
  {
    forall j: nat ensures q + [j] != p[..k] {
      assert Parent(q + [j]) == q && Parent(p[..k]) == p[..k - 1];
    }
    assert q <= p ==> q == p[..|q|];
  }

  lemma ChildOnPath(t: Shape, p: Path, k: nat)
    requires IsNode(t, p) && k < |p|
    ensures IsNode(t, p[..k]) && p[k] < |KidsAt(t, p[..k])| && p[..k] + [p[k]] == p[..k + 1]
  {
    PrefixIsNode(t, p[..k], p);
    PrefixIsNode(t, p[..k + 1], p);
    assert p[..k + 1] == p[..k] + [p[k]];
    ChildIsNode(t, p[..k], p[k]);
  }

  /** At the first mixed ancestor all of the remaining ones become undetermined. */
  lemma AncestorsStop(t: Shape, st: States, p: Path, k: nat, c: Check)
    requires SettledBelow(t, st, p, k, c) && k > 0 && c != Undetermined
    requires IsNode(t, p[..k]) && !AllKids(t, st, p[..k], c)
    ensures Consistent(t, SetAncestors(st, p, k))
  {
    forall q | IsItem(t, q) ensures Settled(t, SetAncestors(st, p, k), q) {
      if q < p && |q| <= k { StopAbove(t, st, p, k, c, q); } else { StopOthers(t, st, p, k, c, q); }
    }
  }

  /** An ancestor that is set to undetermined has a child that is not checked and one that is not
      unchecked, or an undetermined one. */
  lemma StopAbove(t: Shape, st: States, p: Path, k: nat, c: Check, q: Path)
    requires SettledBelow(t, st, p, k, c) && k > 0 && c != Undetermined && q != [] && q < p && |q| <= k
    requires IsNode(t, p[..k]) && !AllKids(t, st, p[..k], c)
    ensures IsItem(t, q) && Settled(t, SetAncestors(st, p, k), q)
  {
    var st', on := SetAncestors(st, p, k), p[|q|];
    assert q == p[..|q|];
    ChildOnPath(t, p, |q|);
    if |q| < k {
      assert Of(st', q + [on]) == Undetermined;
    } else {
      var j: nat :| j < |KidsAt(t, q)| && Of(st, q + [j]) != c;
      assert Of(st', q + [j]) == Of(st, q + [j]) && Of(st', q + [on]) == c;
    }
  }

  lemma StopOthers(t: Shape, st: States, p: Path, k: nat, c: Check, q: Path)
    requires SettledBelow(t, st, p, k, c) && IsItem(t, q) && !(q < p && |q| <= k)
    ensures Settled(t, SetAncestors(st, p, k), q)
  {
    forall j: nat | j < |KidsAt(t, q)| ensures Of(st, q + [j]) == Of(SetAncestors(st, p, k), q + [j]) {
      ChildPrefix(q, j, p);
    }
    SettledFrame(t, st, SetAncestors(st, p, k), q);
  }

  // ------------------------------------------------------------------ change_state

  /** The leaves after a click on `p`. */
  ghost predicate LeavesAfter(t: Shape, before: States, after: States, p: Path, c: Check) {
    forall q :: IsItem(t, q) && KidsAt(t, q) == [] ==> Of(after, q) == if p <= q then c else Of(before, q)
  }

  lemma LeavesOfSubtree(t: Shape, st: States, p: Path, c: Check)
    requires Covers(t, st)
    ensures LeavesAfter(t, st, SetSubtree(st, p, c), p, c)
  {
  }

  lemma LeavesKept(t: Shape, st: States, now: States, next: States, p: Path, c: Check)
    requires LeavesAfter(t, st, now, p, c) && IsItem(t, p)
    requires forall q :: IsItem(t, q) && !(q < p) ==> Of(next, q) == Of(now, q)
    ensures LeavesAfter(t, st, next, p, c)
  {
    forall q | IsItem(t, q) && KidsAt(t, q) == [] ensures !(q < p) {
      if q < p {
        assert q == p[..|q|];
        ChildOnPath(t, p, |q|);
      }
    }
  }

  /** What the incremental update leaves is what a recomputation from the new leaves gives. */
  lemma IncrementalIsFull(t: Shape, before: States, after: States, p: Path, c: Check)
    requires Consistent(t, before) && Consistent(t, after) && LeavesAfter(t, before, after, p, c)
    ensures forall q :: IsItem(t, q) ==> Of(after, q) == Computed(At(t, q).value, q, SetSubtree(before, p, c))
  {
    LeavesOfSubtree(t, before, p, c);
    forall q | IsItem(t, q) ensures Of(after, q) == Computed(At(t, q).value, q, SetSubtree(before, p, c)) {
      ConsistentIsComputed(t, after, q, At(t, q).value);
      ComputedFromLeaves(t, after, SetSubtree(before, p, c), q, At(t, q).value);
    }
  }

  /** After a click on `p` every item at or below it shows what the click set. */
  lemma {:induction false} SubtreeShows(t: Shape, before: States, after: States, p: Path, c: Check, q: Path)
    requires Consistent(t, after) && LeavesAfter(t, before, after, p, c) && c != Undetermined
    requires IsItem(t, q) && p <= q
    ensures Of(after, q) == c
    decreases At(t, q).value
  {
    var n := At(t, q).value;
    assert Settled(t, after, q);
    forall k: nat | k < |n.kids| ensures Of(after, q + [k]) == c {
      ChildIsNode(t, q, k);
      SubtreeShows(t, before, after, p, c, q + [k]);
    }
    if n.kids != [] { assert Of(after, q + [0]) == c; }
  }

  /** A click: a checked item is unchecked and any other is checked, with all leaves below it; the
      other leaves stay, and every other item shows what its children show. */
  ghost predicate Clicked(t: Shape, before: States, after: States, p: Path) {
    && Consistent(t, after)
    && forall q :: IsItem(t, q) && KidsAt(t, q) == [] ==>
         Of(after, q) == if !(p <= q) then Of(before, q) else if Of(before, p) == Checked then Unchecked else Checked
  }

  lemma NothingBelowLeaf(t: Shape, p: Path, l: Path)
    requires IsNode(t, p) && KidsAt(t, p) == [] && IsNode(t, l) && p <= l
    ensures l == p
  {
    if p < l {
      assert p + [l[|p|]] == l[..|p| + 1];
      PrefixIsNode(t, p + [l[|p|]], l);
      ChildIsNode(t, p, l[|p|]);
    }
  }

  /** Two clicks on a leaf restore the whole tree. */
  lemma TwoClicksRestore(t: Shape, first: States, second: States, third: States, p: Path, q: Path)
    requires Consistent(t, first) && IsItem(t, p) && KidsAt(t, p) == []
    requires Clicked(t, first, second, p) && Clicked(t, second, third, p) && IsItem(t, q)
    ensures Of(third, q) == Of(first, q)
  {
    assert Settled(t, first, p);
    forall l | IsItem(t, l) && KidsAt(t, l) == [] ensures Of(third, l) == Of(first, l) {
      if p <= l { NothingBelowLeaf(t, p, l); }
    }
    ConsistentIsComputed(t, first, q, At(t, q).value);
    ConsistentIsComputed(t, third, q, At(t, q).value);
    ComputedFromLeaves(t, first, third, q, At(t, q).value);
  }

  /** `before` had `c` set below `p`, and only ancestors of `p` above level `k` are still to be repaired. */
  ghost predicate Repairing(t: Shape, before: States, st: States, p: Path, k: int, c: Check) {
    0 <= k < |p| && c != Undetermined && SettledBelow(t, st, p, k, c) && LeavesAfter(t, before, st, p, c)
  }

  /** Some child of the item shows something else. */
  predicate Mixed(t: Shape, st: States, a: Path, c: Check) {
    IsNode(t, a) && exists j: nat :: j < |KidsAt(t, a)| && Of(st, a + [j]) != c
  }

  lemma RoundFollows(t: Shape, before: States, st: States, p: Path, k: nat, c: Check)
    requires Repairing(t, before, st, p, k, c) && k > 0 && !Mixed(t, st, p[..k], c)
    ensures Repairing(t, before, st[p[..k] := c], p, k - 1, c)
  {
    ChildOnPath(t, p, k);
    AncestorFollows(t, st, p, k, c);
    LeavesKept(t, before, st, st[p[..k] := c], p, c);
  }

  lemma RoundStops(t: Shape, before: States, st: States, p: Path, k: nat, c: Check)
    requires Repairing(t, before, st, p, k, c) && k > 0 && Mixed(t, st, p[..k], c)
    ensures Repaired(t, before, SetAncestors(st, p, k), p, c)
  {
    AncestorsStop(t, st, p, k, c);
    LeavesKept(t, before, st, SetAncestors(st, p, k), p, c);
  }

  lemma NothingLeft(t: Shape, before: States, st: States, p: Path, c: Check)
    requires Repairing(t, before, st, p, 0, c)
    ensures Repaired(t, before, st, p, c)
  {
  }

  ghost predicate Repaired(t: Shape, before: States, after: States, p: Path, c: Check) {
    Consistent(t, after) && LeavesAfter(t, before, after, p, c)
  }

  class Boxes {
    const tree: Shape
    var states: States

    constructor (tree: Shape)
      ensures this.tree == tree && Consistent(tree, states) && forall p :: p in states ==> states[p] == Unchecked
    {
      PreorderIsDocumentOrder(tree);
      this.tree := tree;
      states := map p | p in Preorder(tree, [], {}) && p != [] :: Unchecked;
      new;
      forall p | IsItem(tree, p) ensures Settled(tree, states, p) {
        forall k: nat | k < |KidsAt(tree, p)| ensures Of(states, p + [k]) == Unchecked { ChildIsNode(tree, p, k); }
        if KidsAt(tree, p) != [] { assert Of(states, p + [0]) == Unchecked; }
      }
    }

    /** The class a click sets: `state` says whether to uncheck, else a checked item is unchecked. */
    function Aim(p: Path, state: Option<bool>): Check
      reads this
    {
      if (if state.Some? then state.value else Of(states, p) == Checked) then Unchecked else Checked
    }

    /** `change_state`. */
    method ChangeState(p: Path, state: Option<bool>) returns (changed: bool)
      requires IsItem(tree, p) && Consistent(tree, states)
      modifies this
      ensures Consistent(tree, states)
      ensures LeavesAfter(tree, old(states), states, p, old(Aim(p, state)))
      ensures changed <==> exists q :: IsItem(tree, q) && p <= q && Of(old(states), q) != old(Aim(p, state))
      ensures !changed ==> states == old(states)
      ensures forall q :: IsItem(tree, q) ==>
                Of(states, q) == Computed(At(tree, q).value, q, SetSubtree(old(states), p, old(Aim(p, state))))
      ensures state == None ==> Clicked(tree, old(states), states, p)
      ensures state == None ==> Of(states, p) == if Of(old(states), p) == Checked then Unchecked else Checked
      ensures state == Some(true) ==> Of(states, p) == Unchecked
      ensures state == Some(false) ==> Of(states, p) == Checked
      ensures forall q :: IsItem(tree, q) && p <= q ==> Of(states, q) == Of(states, p)
      ensures state == None && KidsAt(tree, p) == [] ==> changed
    {
      ghost var before := states;
      var c := Aim(p, state);
      if forall q | q in states && p <= q :: states[q] == c {
        assert LeavesAfter(tree, before, states, p, c);
        IncrementalIsFull(tree, before, states, p, c);
        SubtreeShows(tree, before, states, p, c, p);
        return false;
      }
      SubtreeIsSettled(tree, states, p, c);
      LeavesOfSubtree(tree, states, p, c);
      states := SetSubtree(states, p, c);
      RepairAncestors(p, c, before);
      IncrementalIsFull(tree, before, states, p, c);
      forall q | IsItem(tree, q) && p <= q ensures Of(states, q) == c { SubtreeShows(tree, before, states, p, c, q); }
      changed := true;
    }

    /** The loop over `parentsUntil(".jstree", "li")`. */
    method RepairAncestors(p: Path, c: Check, ghost before: States)
      requires p != [] && Repairing(tree, before, states, p, |p| - 1, c)
      modifies this
      ensures Repaired(tree, before, states, p, c)
    {
      var k := |p| - 1;
      while k > 0
        invariant Repairing(tree, before, states, p, k, c)
      {
        if Mixed(tree, states, p[..k], c) {
          RoundStops(tree, before, states, p, k, c);
          states := SetAncestors(states, p, k);
          return;
        }
        RoundFollows(tree, before, states, p, k, c);
        states := states[p[..k] := c];
        k := k - 1;
      }
      NothingLeft(tree, before, states, p, c);
    }
  }

  // ------------------------------------------------------------------ get_checked

  /** `> ul > .jstree-checked, .jstree-undetermined > ul > .jstree-checked` below the container. */
  predicate Listed(st: States, p: Path) {
    p != [] && Of(st, p) == Checked && (|p| == 1 || Of(st, Parent(p)) == Undetermined)
  }

  function Select(s: seq<Path>, st: States): seq<Path> {
    if s == [] then [] else (if Listed(st, s[0]) then [s[0]] else []) + Select(s[1..], st)
  }

  /** `get_checked` on the whole tree, in document order. */
  function GetChecked(t: Shape, st: States): seq<Path> {
    Select(Preorder(t, [], {}), st)
  }

  lemma {:induction false} SelectContents(s: seq<Path>, st: States)
    requires Increasing(s)
    ensures Increasing(Select(s, st)) && forall p :: p in Select(s, st) <==> p in s && Listed(st, p)
  {
    if s != [] {
      SelectContents(s[1..], st);
      var rest := Select(s[1..], st);
      forall j | 0 <= j < |rest| ensures Before(s[0], rest[j]) {
        assert rest[j] in s[1..];
      }
    }
  }

  lemma {:induction false} CheckedBelow(t: Shape, st: States, p: Path, q: Path)
    requires Consistent(t, st) && IsItem(t, p) && Of(st, p) == Checked && p <= q && IsNode(t, q)
    ensures Of(st, q) == Checked
    decreases |q|
  {
    if p != q {
      var above := Parent(q);
      PrefixIsNode(t, above, q);
      assert p <= above && q == above + [Last(q)];
      CheckedBelow(t, st, p, above);
      ChildIsNode(t, above, Last(q));
      assert Settled(t, st, above);
    }
  }

  /** The parent of a checked item is the container, checked or undetermined. */
  lemma ParentOfChecked(t: Shape, st: States, p: Path)
    requires Consistent(t, st) && IsItem(t, p) && Of(st, p) == Checked && |p| > 1
    ensures IsItem(t, Parent(p)) && Of(st, Parent(p)) != Unchecked
  {
    PrefixIsNode(t, Parent(p), p);
    assert p == Parent(p) + [Last(p)];
    ChildIsNode(t, Parent(p), Last(p));
    assert Settled(t, st, Parent(p));
  }

  /** The topmost checked item above a checked one. */
  lemma {:induction false} ListedAbove(t: Shape, st: States, q: Path) returns (p: Path)
    requires Consistent(t, st) && IsItem(t, q) && Of(st, q) == Checked
    ensures IsItem(t, p) && Listed(st, p) && p <= q
    decreases |q|
  {
    if Listed(st, q) {
      p := q;
    } else {
      ParentOfChecked(t, st, q);
      p := ListedAbove(t, st, Parent(q));
    }
  }

  /** A listed item is a checked one without a checked ancestor. */
  ghost predicate Maximal(t: Shape, st: States, p: Path) {
    IsItem(t, p) && Of(st, p) == Checked && forall a :: IsItem(t, a) && a < p ==> Of(st, a) != Checked
  }

  lemma ListedIsMaximal(t: Shape, st: States, p: Path)
    requires Consistent(t, st)
    ensures IsNode(t, p) && Listed(st, p) <==> Maximal(t, st, p)
  {
    if IsItem(t, p) && Of(st, p) == Checked && |p| > 1 {
      ParentOfChecked(t, st, p);
      if Of(st, Parent(p)) == Undetermined {
        forall a | IsItem(t, a) && a < p ensures Of(st, a) != Checked {
          if Of(st, a) == Checked { CheckedBelow(t, st, a, Parent(p)); }
        }
      }
    }
  }

  /** In every consistent tree `get_checked` lists, in document order and once each, exactly the
      checked items without a checked ancestor; none lies below another, and the checked items, so
      the checked leaves too, are exactly those at or below a listed item. */
  lemma GetCheckedIsMaximal(t: Shape, st: States)
    requires Consistent(t, st)
    ensures var r := GetChecked(t, st);
            && Increasing(r)
            && (forall p :: p in r <==> Maximal(t, st, p))
            && (forall p, q :: p in r && q in r ==> !(p < q))
            && (forall q :: IsItem(t, q) ==> (Of(st, q) == Checked <==> exists p :: p in r && p <= q))
  {
    var r, all := GetChecked(t, st), Preorder(t, [], {});
    PreorderIsDocumentOrder(t);
    PreorderContents(t, [], {});
    SelectContents(all, st);
    forall p ensures p in r <==> Maximal(t, st, p) {
      ListedIsMaximal(t, st, p);
    }
    forall q | IsItem(t, q) ensures Of(st, q) == Checked <==> exists p :: p in r && p <= q {
      if Of(st, q) == Checked { var p := ListedAbove(t, st, q); ListedIsMaximal(t, st, p); }
      if p :| p in r && p <= q { CheckedBelow(t, st, p, q); }
    }
  }
}

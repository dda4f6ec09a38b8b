/** The rules of jsTree's types plugin: limits on the number of children and on the depth of
    subtrees, and what an accepted edit does to them. */
module TypeRules {
  import opened Wrappers
  import opened TreeLinks
  import opened TreeEdits

  datatype ValidChildren = AllTypes | NoTypes | Only(types: seq<nat>)

  /** The rules a type may define. */
  datatype Rule = Rule(max_children: Option<int>, max_depth: Option<int>, valid_children: Option<ValidChildren>)

  /** The type of nodes without a `rel` attribute. */
  const DEFAULT: nat := 0

  datatype Settings = Settings(max_children: int, max_depth: int, valid_children: ValidChildren, types: map<nat, Rule>)

  const NO_RULE := Rule(None, None, None)

  function RuleOf(s: Settings, kind: nat): Rule {
    if kind in s.types then s.types[kind] else NO_RULE
  }

  /** A limit comes from the type, else from the default type; `false` counts as 0. */
  function Limit(own: Option<int>, fallback: Option<int>): int {
    if own.Some? then own.value else if fallback.Some? then fallback.value else 0
  }

  function MaxDepth(s: Settings, kind: map<nat, nat>, x: nat): int {
    Limit(RuleOf(s, Kind(kind, x)).max_depth, RuleOf(s, DEFAULT).max_depth)
  }

  function MaxChildren(s: Settings, kind: map<nat, nat>, x: nat): int {
    if x == CONTAINER then s.max_children
    else Limit(RuleOf(s, Kind(kind, x)).max_children, RuleOf(s, DEFAULT).max_children)
  }

  function ValidFor(s: Settings, kind: map<nat, nat>, x: nat): ValidChildren {
    if x == CONTAINER then s.valid_children
    else
      var own, fallback := RuleOf(s, Kind(kind, x)).valid_children, RuleOf(s, DEFAULT).valid_children;
      if own.Some? then own.value else if fallback.Some? then fallback.value else AllTypes
  }

  function Kind(kind: map<nat, nat>, x: nat): nat {
    if x in kind then kind[x] else DEFAULT
  }

  predicate Allows(limit: int, n: int) {
    limit == -1 || n <= limit
  }

  // ------------------------------------------------------------------ the rules

  /** What the depth rules say about a node `x` that is `k` levels below `a`. */
  predicate LevelAllowed(s: Settings, kind: map<nat, nat>, a: nat, k: nat) {
    if a == CONTAINER then Allows(s.max_depth, k) else Allows(MaxDepth(s, kind, a), k + 1)
  }

  /** No subtree is deeper than its root's type allows (its own level counted), and no node is
      deeper than the tree may be. */
  ghost predicate DepthRule(t: Links, s: Settings, kind: map<nat, nat>) {
    forall x, k: nat, a :: x in t.kids && Up(t, x, k) == Some(a) ==> LevelAllowed(s, kind, a, k)
  }

  ghost predicate ChildRule(t: Links, s: Settings, kind: map<nat, nat>) {
    forall q :: q in t.kids ==> Allows(MaxChildren(s, kind, q), |t.kids[q]|)
  }

  /** A subtree of height `h` may hang below `x`: every node from `x` up allows its levels. */
  ghost predicate Fits(t: Links, s: Settings, kind: map<nat, nat>, x: nat, h: nat) {
    forall i: nat, a :: Up(t, x, i) == Some(a) ==> LevelAllowed(s, kind, a, i + h)
  }

  /** All nodes at or below `o` are less than `h` levels below it. */
  ghost predicate HeightAtMost(t: Links, o: nat, h: nat) {
    forall x, k: nat :: x in t.kids && Up(t, x, k) == Some(o) ==> k < h
  }

  lemma FitsLess(t: Links, s: Settings, kind: map<nat, nat>, x: nat, h: nat, i: nat, a: nat, j: nat)
    requires Fits(t, s, kind, x, h) && Up(t, x, i) == Some(a) && j <= h
    ensures LevelAllowed(s, kind, a, i + j)
  {
  }

  // ------------------------------------------------------------------ edits keep the rules

  /** A node `a` above `x` after the move was above `x` before, or it is above the new parent. */
  lemma MovedPath(t: Links, t': Links, o: nat, np: nat, x: nat, k: nat, a: nat) returns (inside: bool, j: nat, i: nat)
    requires IsTree(t) && Reparented(t, t', o, np) && !Under(t, o, np) && x in t.kids && Up(t', x, k) == Some(a)
    ensures if inside then k == i + j + 1 && Up(t, x, j) == Some(o) && Up(t, np, i) == Some(a)
            else Up(t, x, k) == Some(a)
  {
    inside, j, i := false, 0, 0;
    if Under(t, o, x) {
      j :| Up(t, x, j) == Some(o);
      if k <= j {
        PathInside(t, t', o, np, x, j, k);
      } else {
        inside, i := true, k - j - 1;
        PathAbove(t, t', o, np, x, j, i);
      }
    } else {
      PathOutside(t, t', o, np, x, k);
    }
  }

  lemma LevelBelow(t: Links, s: Settings, kind: map<nat, nat>, o: nat, np: nat, h: nat, x: nat, j: nat, i: nat, a: nat)
    requires HeightAtMost(t, o, h) && Fits(t, s, kind, np, h) && x in t.kids
    requires Up(t, x, j) == Some(o) && Up(t, np, i) == Some(a)
    ensures LevelAllowed(s, kind, a, i + j + 1)
  {
    FitsLess(t, s, kind, np, h, i, a, j + 1);
  }

  lemma MoveKeepsDepthRule(t: Links, s: Settings, kind: map<nat, nat>, o: nat, np: nat, before: Option<nat>, h: nat)
    requires Movable(t, o, np, before) && DepthRule(t, s, kind) && HeightAtMost(t, o, h) && Fits(t, s, kind, np, h)
    ensures DepthRule(MoveTo(t, o, np, before), s, kind)
  {
    var t' := MoveTo(t, o, np, before);
    assert t'.kids.Keys == t.kids.Keys && Reparented(t, t', o, np);
    forall x, k: nat, a | x in t'.kids && Up(t', x, k) == Some(a) ensures LevelAllowed(s, kind, a, k) {
      var inside, j, i := MovedPath(t, t', o, np, x, k, a);
      if inside { LevelBelow(t, s, kind, o, np, h, x, j, i, a); }
    }
  }

  lemma CreatedPath(t: Links, t': Links, d: nat, p: nat, x: nat, k: nat, a: nat)
    requires IsTree(t) && Reparented(t, t', d, p) && d !in t.kids && p in t.kids && (x == d || x in t.kids)
    requires Up(t', x, k) == Some(a)
    ensures if x != d then a != d && Up(t, x, k) == Some(a)
            else if k > 0 then a != d && Up(t, p, k - 1) == Some(a) else a == d
  {
    if x != d {
      NotUnderNew(t, d, x);
      PathOutside(t, t', d, p, x, k);
    } else if k > 0 {
      NotUnderNew(t, d, p);
      assert Up(t', d, k) == Up(t', p, k - 1);
      PathOutside(t, t', d, p, p, k - 1);
    }
  }

  lemma CreatedLevel(t: Links, s: Settings, kind: map<nat, nat>, d: nat, ty: nat, p: nat, x: nat, k: nat, a: nat)
    requires DepthRule(t, s, kind) && Fits(t, s, kind, p, 1) && Allows(MaxDepth(s, kind[d := ty], d), 1)
    requires d != CONTAINER && (x == d || x in t.kids)
    requires if x != d then a != d && Up(t, x, k) == Some(a)
             else if k > 0 then a != d && Up(t, p, k - 1) == Some(a) else a == d
    ensures LevelAllowed(s, kind[d := ty], a, k)
  {
    if x != d {
      assert LevelAllowed(s, kind, a, k);
    } else if k > 0 {
      FitsLess(t, s, kind, p, 1, k - 1, a, 1);
    }
    if a != d { SameLevel(s, kind, d, ty, a, k); }
  }

  lemma SameLevel(s: Settings, kind: map<nat, nat>, d: nat, ty: nat, a: nat, k: nat)
    requires a != d
    ensures LevelAllowed(s, kind[d := ty], a, k) == LevelAllowed(s, kind, a, k)
  {
  }

  lemma CreateKeepsDepthRule(t: Links, s: Settings, kind: map<nat, nat>, d: nat, ty: nat, p: nat, index: nat)
    requires IsTree(t) && d !in t.kids && p in t.kids && index <= |t.kids[p]|
    requires DepthRule(t, s, kind) && Fits(t, s, kind, p, 1) && Allows(MaxDepth(s, kind[d := ty], d), 1)
    ensures DepthRule(CreateIn(t, d, p, index), s, kind[d := ty])
  {
    var t' := CreateIn(t, d, p, index);
    assert Reparented(t, t', d, p) && forall x :: x in t'.kids <==> x == d || x in t.kids;
    forall x, k: nat, a | x in t'.kids && Up(t', x, k) == Some(a) ensures LevelAllowed(s, kind[d := ty], a, k) {
      CreatedPath(t, t', d, p, x, k, a);
      CreatedLevel(t, s, kind, d, ty, p, x, k, a);
    }
  }

  lemma MoveKeepsChildRule(t: Links, s: Settings, kind: map<nat, nat>, o: nat, np: nat, before: Option<nat>)
    requires Movable(t, o, np, before) && ChildRule(t, s, kind)
    requires Allows(MaxChildren(s, kind, np), |Without(t.kids[np], o)| + 1)
    ensures ChildRule(MoveTo(t, o, np, before), s, kind)
  {
    var t' := MoveTo(t, o, np, before);
    forall q | q in t'.kids ensures Allows(MaxChildren(s, kind, q), |t'.kids[q]|) {
      assert LinkAgrees(t, q, o);
    }
  }

  lemma CreateKeepsChildRule(t: Links, s: Settings, kind: map<nat, nat>, d: nat, ty: nat, p: nat, index: nat)
    requires IsTree(t) && d !in t.kids && p in t.kids && index <= |t.kids[p]| && ChildRule(t, s, kind)
    requires Allows(MaxChildren(s, kind, p), |t.kids[p]| + 1) && Allows(MaxChildren(s, kind[d := ty], d), 0)
    ensures ChildRule(CreateIn(t, d, p, index), s, kind[d := ty])
  {
  }
}

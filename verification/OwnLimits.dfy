/** What the types plugin decides, read off the rules of the types themselves: the rule of a node's
    own type comes before that of the default type. */
module OwnLimits {
  import opened Wrappers
  import opened TreeLinks
  import opened TypeRules
  import opened MovePreparation
  import opened JsTree

  // ------------------------------------------------------------------ where a limit comes from

  /** A node without a type, or of a type without rules, or whose type leaves `max_children` out. */
  predicate NoMaxChildren(s: Settings, kind: map<nat, nat>, x: nat) {
    x !in kind || kind[x] !in s.types || s.types[kind[x]].max_children.None?
  }

  predicate NoMaxDepth(s: Settings, kind: map<nat, nat>, x: nat) {
    x !in kind || kind[x] !in s.types || s.types[kind[x]].max_depth.None?
  }

  predicate NoValidChildren(s: Settings, kind: map<nat, nat>, x: nat) {
    x !in kind || kind[x] !in s.types || s.types[kind[x]].valid_children.None?
  }

  /** The own type first, then the default type, then 0. The tree itself has its own setting. */
  lemma MaxChildrenComesFrom(s: Settings, kind: map<nat, nat>, x: nat)
    ensures x == CONTAINER ==> MaxChildren(s, kind, x) == s.max_children
    ensures x != CONTAINER && !NoMaxChildren(s, kind, x) ==>
              Some(MaxChildren(s, kind, x)) == s.types[kind[x]].max_children
    ensures x != CONTAINER && NoMaxChildren(s, kind, x) ==>
              MaxChildren(s, kind, x) ==
                if DEFAULT in s.types && s.types[DEFAULT].max_children.Some? then s.types[DEFAULT].max_children.value
                else 0
  {
  }

  lemma MaxDepthComesFrom(s: Settings, kind: map<nat, nat>, x: nat)
    ensures !NoMaxDepth(s, kind, x) ==> Some(MaxDepth(s, kind, x)) == s.types[kind[x]].max_depth
    ensures NoMaxDepth(s, kind, x) ==>
              MaxDepth(s, kind, x) ==
                if DEFAULT in s.types && s.types[DEFAULT].max_depth.Some? then s.types[DEFAULT].max_depth.value else 0
  {
  }

  lemma ValidChildrenComeFrom(s: Settings, kind: map<nat, nat>, x: nat)
    ensures x == CONTAINER ==> ValidFor(s, kind, x) == s.valid_children
    ensures x != CONTAINER && !NoValidChildren(s, kind, x) ==>
              Some(ValidFor(s, kind, x)) == s.types[kind[x]].valid_children
    ensures x != CONTAINER && NoValidChildren(s, kind, x) ==>
              ValidFor(s, kind, x) ==
                if DEFAULT !in s.types || s.types[DEFAULT].valid_children.None? then AllTypes
                else s.types[DEFAULT].valid_children.value
  {
  }

  // ------------------------------------------------------------------ nodes with rules of their own

  /** The type of the node has all three rules and is not the default type. */
  predicate Ruled(s: Settings, kind: map<nat, nat>, x: nat) {
    && x in kind && kind[x] != DEFAULT && kind[x] in s.types
    && s.types[kind[x]].max_children.Some? && s.types[kind[x]].max_depth.Some? && s.types[kind[x]].valid_children.Some?
  }

  /** So have all nodes at or above `x`. */
  ghost predicate RuledAbove(t: Links, s: Settings, kind: map<nat, nat>, x: nat) {
    forall i: nat, a :: Up(t, x, i) == Some(a) && a != CONTAINER ==> Ruled(s, kind, a)
  }

  function OwnDepth(s: Settings, kind: map<nat, nat>, x: nat): int
    requires Ruled(s, kind, x)
  {
    s.types[kind[x]].max_depth.value
  }

  /** A limit that is not -1 is the largest number allowed. */
  predicate Within(limit: int, n: nat) {
    limit != -1 ==> limit >= n
  }

  /** A node `n` levels below `x` breaks no limit: that of the tree counts the levels below it, that
      of an item its own level too. */
  ghost predicate RoomAt(t: Links, s: Settings, kind: map<nat, nat>, x: nat, n: nat)
    requires RuledAbove(t, s, kind, x)
  {
    forall i: nat, a :: Up(t, x, i) == Some(a) ==>
      if a == CONTAINER then Within(s.max_depth, i + n) else Within(OwnDepth(s, kind, a), i + n + 1)
  }

  /** There is room below `np` for each level of the subtree at `o`. */
  ghost predicate RoomForAll(t: Links, s: Settings, kind: map<nat, nat>, o: nat, np: nat)
    requires RuledAbove(t, s, kind, np)
  {
    forall x, k: nat :: x in t.kids && Up(t, x, k) == Some(o) ==> RoomAt(t, s, kind, np, k + 1)
  }

  lemma RoomIsFit(t: Links, s: Settings, kind: map<nat, nat>, x: nat, n: nat)
    requires RuledAbove(t, s, kind, x)
    ensures RoomAt(t, s, kind, x, n) <==> Fits(t, s, kind, x, n)
  {
    forall i: nat, a | Up(t, x, i) == Some(a)
      ensures LevelAllowed(s, kind, a, i + n) <==>
              if a == CONTAINER then Within(s.max_depth, i + n) else Within(OwnDepth(s, kind, a), i + n + 1)
    {
      if a != CONTAINER { MaxDepthComesFrom(s, kind, a); }
    }
    if RoomAt(t, s, kind, x, n) {
      forall i: nat, a | Up(t, x, i) == Some(a) ensures LevelAllowed(s, kind, a, i + n) {}
    }
    if Fits(t, s, kind, x, n) {
      forall i: nat, a | Up(t, x, i) == Some(a)
        ensures if a == CONTAINER then Within(s.max_depth, i + n) else Within(OwnDepth(s, kind, a), i + n + 1)
      {
        FitsLess(t, s, kind, x, n, i, a, n);
      }
    }
  }

  /** The type `ty` may be a child of `p`. */
  predicate Welcome(s: Settings, kind: map<nat, nat>, p: nat, ty: nat)
    requires p != CONTAINER ==> Ruled(s, kind, p)
  {
    var valid := if p == CONTAINER then s.valid_children else s.types[kind[p]].valid_children.value;
    valid != NoTypes && (valid.Only? ==> ty in valid.types)
  }

  function OwnChildren(s: Settings, kind: map<nat, nat>, p: nat): int
    requires p != CONTAINER ==> Ruled(s, kind, p)
  {
    if p == CONTAINER then s.max_children else s.types[kind[p]].max_children.value
  }

  /** A leaf is allowed exactly if its type, if it asks for one, is welcome, its parent has room for
      one more child, and every node above has room for one more level. */
  lemma CreateAllowedExactly(t: Links, s: Settings, kind: map<nat, nat>, p: nat, asked: Option<nat>)
    requires p in t.kids && RuledAbove(t, s, kind, p)
    ensures p != CONTAINER ==> Ruled(s, kind, p)
    ensures CreateAllowed(t, s, kind, p, asked) <==>
              && (if asked.Some? then Welcome(s, kind, p, asked.value)
                  else (if p == CONTAINER then s.valid_children else s.types[kind[p]].valid_children.value) != NoTypes)
              && Within(OwnChildren(s, kind, p), |t.kids[p]| + 1)
              && RoomAt(t, s, kind, p, 1)
  {
    assert Up(t, p, 0) == Some(p);
    RoomIsFit(t, s, kind, p, 1);
    MaxChildrenComesFrom(s, kind, p);
    ValidChildrenComeFrom(s, kind, p);
  }

  /** A move that the core accepts is allowed exactly if the type of the node is welcome, the other
      children leave room for it, and every node above has room for each level of its subtree. */
  lemma MoveAllowedExactly(t: Links, s: Settings, kind: map<nat, nat>, p: Prepared)
    requires IsTree(t) && p.o in t.kids && p.np in t.kids && p.o in kind && RuledAbove(t, s, kind, p.np)
    ensures p.np != CONTAINER ==> Ruled(s, kind, p.np)
    ensures MoveAllowed(t, s, kind, p) <==>
              && Accepts(t, p)
              && Welcome(s, kind, p.np, kind[p.o])
              && Within(OwnChildren(s, kind, p.np), |Without(t.kids[p.np], p.o)| + 1)
              && RoomForAll(t, s, kind, p.o, p.np)
  {
    assert Up(t, p.np, 0) == Some(p.np);
    MaxChildrenComesFrom(s, kind, p.np);
    ValidChildrenComeFrom(s, kind, p.np);
    SubtreeFits(t, s, kind, p.o, p.np);
  }

  lemma SubtreeFits(t: Links, s: Settings, kind: map<nat, nat>, o: nat, np: nat)
    requires IsTree(t) && o in t.kids && RuledAbove(t, s, kind, np)
    ensures DepthAllowed(t, s, kind, o, np) <==> RoomForAll(t, s, kind, o, np)
  {
    if DepthAllowed(t, s, kind, o, np) {
      var h: nat :| HeightAtMost(t, o, h) && Fits(t, s, kind, np, h);
      forall x, k: nat | x in t.kids && Up(t, x, k) == Some(o) ensures RoomAt(t, s, kind, np, k + 1) {
        FitsMonotone(t, s, kind, np, h, k + 1);
        RoomIsFit(t, s, kind, np, k + 1);
      }
    }
    if RoomForAll(t, s, kind, o, np) {
      var d := TreeHeight(t, o);
      var k: nat := d - 1;
      var x :| x in Level(t, o, k);
      assert Up(t, x, k) == Some(o) && RoomAt(t, s, kind, np, k + 1);
      RoomIsFit(t, s, kind, np, d);
    }
  }

  /** The rules of a whole tree. */
  lemma RulesExactly(t: Links, s: Settings, kind: map<nat, nat>)
    requires forall x :: x in t.kids ==> RuledAbove(t, s, kind, x)
    ensures DepthRule(t, s, kind) <==> forall x :: x in t.kids ==> RoomAt(t, s, kind, x, 0)
    ensures forall q :: q in t.kids && q != CONTAINER ==> Ruled(s, kind, q)
    ensures ChildRule(t, s, kind) <==> forall q :: q in t.kids ==> Within(OwnChildren(s, kind, q), |t.kids[q]|)
  {
    forall q | q in t.kids
      ensures q != CONTAINER ==> Ruled(s, kind, q)
      ensures q == CONTAINER || Ruled(s, kind, q) ==> MaxChildren(s, kind, q) == OwnChildren(s, kind, q)
    {
      assert Up(t, q, 0) == Some(q);
      MaxChildrenComesFrom(s, kind, q);
    }
    forall x | x in t.kids ensures RoomAt(t, s, kind, x, 0) <==> Fits(t, s, kind, x, 0) { RoomIsFit(t, s, kind, x, 0); }
    DepthRuleByNodes(t, s, kind);
  }

  lemma DepthRuleByNodes(t: Links, s: Settings, kind: map<nat, nat>)
    ensures DepthRule(t, s, kind) <==> forall x :: x in t.kids ==> Fits(t, s, kind, x, 0)
  {
    if forall x :: x in t.kids ==> Fits(t, s, kind, x, 0) {
      forall x, k: nat, a | x in t.kids && Up(t, x, k) == Some(a) ensures LevelAllowed(s, kind, a, k) {
        FitsLess(t, s, kind, x, 0, k, a, 0);
      }
    }
    if DepthRule(t, s, kind) {
      forall x | x in t.kids ensures Fits(t, s, kind, x, 0) {
        forall i: nat, a | Up(t, x, i) == Some(a) ensures LevelAllowed(s, kind, a, i + 0) {}
      }
    }
  }

  // ------------------------------------------------------------------ the default type

  /** Where every node above has rules of its own, those of the default type change no decision. */
  lemma DefaultIsIrrelevant(t: Links, s: Settings, kind: map<nat, nat>, rule: Rule, p: Prepared, asked: Option<nat>)
    requires IsTree(t) && p.o in t.kids && p.np in t.kids && p.o in kind && RuledAbove(t, s, kind, p.np)
    ensures var s' := s.(types := s.types[DEFAULT := rule]);
            && (CreateAllowed(t, s', kind, p.np, asked) <==> CreateAllowed(t, s, kind, p.np, asked))
            && (MoveAllowed(t, s', kind, p) <==> MoveAllowed(t, s, kind, p))
  {
    var s' := s.(types := s.types[DEFAULT := rule]);
    assert RuledAbove(t, s', kind, p.np);
    forall n: nat ensures RoomAt(t, s', kind, p.np, n) <==> RoomAt(t, s, kind, p.np, n) {
      SameRoom(t, s, s', kind, p.np, n);
    }
    CreateAllowedExactly(t, s, kind, p.np, asked);
    CreateAllowedExactly(t, s', kind, p.np, asked);
    MoveAllowedExactly(t, s, kind, p);
    MoveAllowedExactly(t, s', kind, p);
  }

  lemma SameRoom(t: Links, s: Settings, s': Settings, kind: map<nat, nat>, x: nat, n: nat)
    requires RuledAbove(t, s, kind, x) && RuledAbove(t, s', kind, x) && s'.max_depth == s.max_depth
    requires forall ty :: ty in s.types && ty != DEFAULT ==> ty in s'.types && s'.types[ty] == s.types[ty]
    ensures RoomAt(t, s', kind, x, n) <==> RoomAt(t, s, kind, x, n)
  {
    forall i: nat, a | Up(t, x, i) == Some(a) && a != CONTAINER
      ensures OwnDepth(s', kind, a) == OwnDepth(s, kind, a)
    {
      assert Ruled(s, kind, a);
    }
  }

  /** The default settings allow every creation and every move that the core accepts. */
  lemma DefaultsAllowAll(t: Links, kind: map<nat, nat>, p: Prepared, asked: Option<nat>)
    requires IsTree(t) && p.o in t.kids && p.np in t.kids && (forall x :: x in kind ==> kind[x] == DEFAULT)
    ensures var s := Settings(-1, -1, AllTypes, map[DEFAULT := Rule(Some(-1), Some(-1), Some(AllTypes))]);
            && Sensible(s) && RulesKept(t, s, kind) && CreateAllowed(t, s, kind, p.np, asked)
            && LeafAllowed(s, kind, p.o)
            && (MoveAllowed(t, s, kind, p) <==> Accepts(t, p))
  {
    var s := Settings(-1, -1, AllTypes, map[DEFAULT := Rule(Some(-1), Some(-1), Some(AllTypes))]);
    assert forall a :: MaxDepth(s, kind, a) == -1 && MaxChildren(s, kind, a) == -1 && ValidFor(s, kind, a) == AllTypes;
    var d := TreeHeight(t, p.o);
    assert Fits(t, s, kind, p.np, 1) && Fits(t, s, kind, p.np, d);
  }

  /** Settings are sensible unless a limit of the tree is 0 or below -1. */
  lemma SensibleExactly(s: Settings)
    ensures Sensible(s) <==>
              s.max_depth != 0 && s.max_children != 0 && s.max_depth >= -1 && s.max_children >= -1
  {
  }

  /** A node that asks for no type gets the first one its parent allows, or the default type. */
  lemma TypeOfNew(s: Settings, kind: map<nat, nat>, p: nat, asked: Option<nat>)
    requires p != CONTAINER && Ruled(s, kind, p)
    ensures var valid, ty := s.types[kind[p]].valid_children.value, NewType(ValidFor(s, kind, p), asked);
            && (asked.Some? ==> ty == asked.value)
            && (asked.None? && valid.Only? && valid.types != [] ==> ty == valid.types[0])
            && (asked.None? && !valid.Only? ==> ty == DEFAULT)
  {
  }

  /** A type that allows one child keeps it at one, although the default type has no limit. */
  lemma OwnLimitRefuses()
    ensures var types := map[DEFAULT := Rule(Some(-1), Some(-1), None), 1 := Rule(Some(1), None, None)];
            var s := Settings(-1, -1, AllTypes, types);
            var t := Links(map[0 := [5], 5 := [6], 6 := []], map[5 := 0, 6 := 5]);
            !CreateAllowed(t, s, map[5 := 1], 5, None) && CreateAllowed(t, s, map[5 := 1], 6, None)
  {
    var types := map[DEFAULT := Rule(Some(-1), Some(-1), None), 1 := Rule(Some(1), None, None)];
    var s := Settings(-1, -1, AllTypes, types);
    assert forall a :: MaxDepth(s, map[5 := 1], a) == -1;
  }
}

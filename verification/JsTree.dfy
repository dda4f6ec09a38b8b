/** The tree object itself: `prepare_move`, `check_move`, `move_node` and `create_node`, with the
    checks the types plugin puts in front of them. */
module JsTree {
  import opened Wrappers
  import opened TreeLinks
  import opened TreeEdits
  import opened TypeRules
  import opened MovePreparation

  /** `v` is the capacity below `x` after the first `i` nodes from `x` up are accounted for: -1
      is unlimited, otherwise the height a new subtree may have. */
  ghost predicate CapacityUpTo(t: Links, s: Settings, kind: map<nat, nat>, x: nat, i: nat, v: int) {
    forall h: nat :: h >= 1 ==> (Allows(v, h) <==> FitsUpTo(t, s, kind, x, i, h))
  }

  ghost predicate FitsUpTo(t: Links, s: Settings, kind: map<nat, nat>, x: nat, i: nat, h: nat) {
    Allows(s.max_depth, i + h) && forall k: nat :: k < i ==> FitsLevel(t, s, kind, x, k, h)
  }

  ghost predicate FitsLevel(t: Links, s: Settings, kind: map<nat, nat>, x: nat, k: nat, h: nat) {
    Up(t, x, k).Some? ==> Allows(MaxDepth(s, kind, Up(t, x, k).value), k + h + 1)
  }

  /** One round of the loop in `_check`, when it does not stop. */
  function Narrowed(v: int, d: int, g: int, i: nat): int {
    var w := if d >= 0 && (d - (i + 1) < v || v < 0) then d - (i + 1) else v;
    if g >= 0 && (g - (i + 1) < w || w < 0) then g - (i + 1) else w
  }

  lemma NarrowedAllows(v: int, d: int, g: int, i: nat, h: nat)
    requires (v == -1 || v >= 1) && (d == -1 || d > i + 1) && (g == -1 || g > i + 1) && h >= 1
    ensures Allows(Narrowed(v, d, g, i), h) <==> Allows(v, h) && Allows(d, i + h + 1) && Allows(g, i + h + 1)
    ensures Narrowed(v, d, g, i) == -1 || Narrowed(v, d, g, i) >= 1
  {
  }

  lemma CapacityStep(t: Links, s: Settings, kind: map<nat, nat>, x: nat, i: nat, a: nat, v: int, d: int)
    requires Up(t, x, i) == Some(a) && d == MaxDepth(s, kind, a)
    requires (v == -1 || v >= 1) && (d == -1 || d > i + 1) && (s.max_depth == -1 || s.max_depth > i + 1)
    requires if i == 0 then v == d else CapacityUpTo(t, s, kind, x, i, v)
    ensures CapacityUpTo(t, s, kind, x, i + 1, Narrowed(v, d, s.max_depth, i))
  {
    forall h: nat | h >= 1
      ensures Allows(Narrowed(v, d, s.max_depth, i), h) <==> FitsUpTo(t, s, kind, x, i + 1, h)
    {
      NarrowedAllows(v, d, s.max_depth, i, h);
      assert FitsLevel(t, s, kind, x, i, h) <==> Allows(d, i + h + 1);
      if i > 0 { assert Allows(v, h) <==> FitsUpTo(t, s, kind, x, i, h); }
    }
  }

  /** Where the loop of `_check` stands before round `i`. */
  ghost predicate Scanning(t: Links, s: Settings, kind: map<nat, nat>, x: nat, i: nat, v: int) {
    if i == 0 then v == MaxDepth(s, kind, x) else (v == -1 || v >= 1) && CapacityUpTo(t, s, kind, x, i, v)
  }

  lemma ScanStep(t: Links, s: Settings, kind: map<nat, nat>, x: nat, i: nat, a: nat, v: int, d: int)
    requires Up(t, x, i) == Some(a) && d == MaxDepth(s, kind, a) && Scanning(t, s, kind, x, i, v)
    requires (d == -1 || d > i + 1) && (s.max_depth == -1 || s.max_depth > i + 1)
    ensures Scanning(t, s, kind, x, i + 1, Narrowed(v, d, s.max_depth, i))
  {
    CapacityStep(t, s, kind, x, i, a, v, d);
    NarrowedAllows(v, d, s.max_depth, i, 1);
  }

  /** Nothing fits below `x` when a node on the way up, or the tree, has no room left. */
  lemma CapacityZero(t: Links, s: Settings, kind: map<nat, nat>, x: nat, i: nat, a: nat, n: nat)
    requires Up(t, x, i) == Some(a) && i < n
    requires (s.max_depth != -1 && s.max_depth <= i + 1)
             || (MaxDepth(s, kind, a) != -1 && MaxDepth(s, kind, a) <= i + 1)
    ensures CapacityUpTo(t, s, kind, x, n, 0)
  {
    forall h: nat | h >= 1 ensures !FitsUpTo(t, s, kind, x, n, h) {
      assert FitsLevel(t, s, kind, x, i, h) <==> Allows(MaxDepth(s, kind, a), i + h + 1);
    }
  }

  /** `v` is exactly what fits below `x`: a subtree of height `h` keeps every limit from `x` up
      if and only if `v` is unlimited or at least `h`. */
  ghost predicate Capacity(t: Links, s: Settings, kind: map<nat, nat>, x: nat, v: int) {
    forall h: nat :: h >= 1 ==> (Allows(v, h) <==> Fits(t, s, kind, x, h))
  }

  lemma CapacityIsExact(t: Links, s: Settings, kind: map<nat, nat>, x: nat, n: nat, v: int)
    requires IsTree(t) && x in t.kids && Up(t, x, n) == Some(CONTAINER) && CapacityUpTo(t, s, kind, x, n, v)
    ensures Capacity(t, s, kind, x, v)
  {
    forall h: nat | h >= 1 ensures Allows(v, h) <==> Fits(t, s, kind, x, h) {
      if FitsUpTo(t, s, kind, x, n, h) { FitsFromLevels(t, s, kind, x, n, h); }
      if Fits(t, s, kind, x, h) { LevelsFromFits(t, s, kind, x, n, h); }
    }
  }

  lemma FitsFromLevels(t: Links, s: Settings, kind: map<nat, nat>, x: nat, n: nat, h: nat)
    requires IsTree(t) && x in t.kids && Up(t, x, n) == Some(CONTAINER) && FitsUpTo(t, s, kind, x, n, h)
    ensures Fits(t, s, kind, x, h)
  {
    forall i: nat, a | Up(t, x, i) == Some(a) ensures LevelAllowed(s, kind, a, i + h) {
      if a == CONTAINER {
        DepthIsUnique(t, x, n, i);
      } else {
        BelowTop(t, x, n, i);
        assert FitsLevel(t, s, kind, x, i, h);
      }
    }
  }

  lemma LevelsFromFits(t: Links, s: Settings, kind: map<nat, nat>, x: nat, n: nat, h: nat)
    requires IsTree(t) && x in t.kids && Up(t, x, n) == Some(CONTAINER) && Fits(t, s, kind, x, h)
    ensures FitsUpTo(t, s, kind, x, n, h)
  {
    FitsLess(t, s, kind, x, h, n, CONTAINER, h);
    forall k: nat | k < n ensures FitsLevel(t, s, kind, x, k, h) {
      UpPrefix(t, x, k, n);
      var a := Up(t, x, k).value;
      if a == CONTAINER { DepthIsUnique(t, x, n, k); }
      FitsLess(t, s, kind, x, h, k, a, h);
    }
  }

  lemma BelowTop(t: Links, x: nat, n: nat, i: nat)
    requires CONTAINER !in t.parent && Up(t, x, n) == Some(CONTAINER) && Up(t, x, i).Some?
             && Up(t, x, i) != Some(CONTAINER)
    ensures i < n
  {
    if n < i {
      UpAdd(t, x, n, i - n);
    }
  }

  // ------------------------------------------------------------------ the tree object

  class Tree {
    var kids: map<nat, seq<nat>>
    var parent: map<nat, nat>
    var kind: map<nat, nat>
    var prepared: Option<Prepared>
    const settings: Settings

    function View(): Links
      reads this
    {
      Links(kids, parent)
    }

    /** The links form a tree in which every rule is kept. */
    ghost predicate Valid()
      reads this
    {
      IsTree(View()) && RulesKept(View(), settings, kind)
    }

    constructor (settings: Settings)
      ensures IsTree(View()) && View() == Links(map[CONTAINER := []], map[]) && this.settings == settings
      ensures Valid() <==> Allows(settings.max_depth, 0) && Allows(settings.max_children, 0)
    {
      kids, parent, kind, prepared := map[CONTAINER := []], map[], map[], None;
      this.settings := settings;
      new;
      assert Up(View(), CONTAINER, 0) == Some(CONTAINER);
      assert forall p, c :: LinkAgrees(View(), p, c);
      assert forall n: nat :: n > 0 ==> Up(View(), CONTAINER, n) == None;
    }

    /** `_check("max_depth", x)`; `None` is the undefined result for the tree without a limit. */
    method CheckMaxDepth(x: nat) returns (v: Option<int>)
      requires IsTree(View()) && x in kids
      ensures x == CONTAINER ==> v == if settings.max_depth == 0 then None else Some(settings.max_depth)
      ensures x != CONTAINER ==> v.Some?
      ensures x != CONTAINER && settings.max_depth != -2 ==> v.value >= -1
      ensures x != CONTAINER && settings.max_depth == -2 ==> v.value == MaxDepth(settings, kind, x)
      ensures settings.max_depth != -2 && v.Some? ==> Capacity(View(), settings, kind, x, v.value)
    {
      TopCapacity(View(), settings, kind);
      if x == CONTAINER { return if settings.max_depth == 0 then None else Some(settings.max_depth); }
      var own := MaxDepth(settings, kind, x);
      if settings.max_depth == -2 { return Some(own); }
      ghost var n: nat :| Up(View(), x, n) == Some(CONTAINER);
      var w := 0;
      if own != 0 {
        w := CheckAncestors(x, own, n);
      } else {
        assert Up(View(), x, 0) == Some(x);
        CapacityZero(View(), settings, kind, x, 0, x, n);
      }
      CapacityIsExact(View(), settings, kind, x, n, w);
      v := Some(w);
    }

    /** The two assignments of the loop body. */
    static method Narrow(v: int, d: int, g: int, i: nat) returns (w: int)
      ensures w == Narrowed(v, d, g, i)
    {
      w := v;
      if d >= 0 && (d - (i + 1) < w || w < 0) { w := d - (i + 1); }
      if g >= 0 && (g - (i + 1) < w || w < 0) { w := g - (i + 1); }
    }

    /** The loop of `_check` over the node and its ancestors. */
    method CheckAncestors(x: nat, own: int, ghost n: nat) returns (v: int)
      requires IsTree(View()) && x in kids && x != CONTAINER && Up(View(), x, n) == Some(CONTAINER)
      requires own == MaxDepth(settings, kind, x) && own != 0 && settings.max_depth != -2
      ensures v >= -1 && CapacityUpTo(View(), settings, kind, x, n, v)
    {
      v := own;
      var cur, i := x, 0;
      while cur != CONTAINER
        invariant 0 <= i <= n && Up(View(), x, i) == Some(cur) && Scanning(View(), settings, kind, x, i, v)
        decreases n - i
      {
        BelowTop(View(), x, n, i);
        UpIsNode(View(), x, i);
        UpParent(View(), x, i);
        var d := if i == 0 then v else MaxDepth(settings, kind, cur);
        if settings.max_depth != -1 && settings.max_depth - (i + 1) <= 0 {
          CapacityZero(View(), settings, kind, x, i, cur, n);
          return 0;
        }
        if d != -1 && d - (i + 1) <= 0 {
          CapacityZero(View(), settings, kind, x, i, cur, n);
          return 0;
        }
        ScanStep(View(), settings, kind, x, i, cur, v, d);
        v := Narrow(v, d, settings.max_depth, i);
        cur, i := parent[cur], i + 1;
      }
      DepthIsUnique(View(), x, n, i);
    }

    /** `_check("max_children", x)`; `None` is the undefined result for the tree without a limit. */
    method CheckMaxChildren(x: nat) returns (v: Option<int>)
      ensures v.Some? ==> v.value == MaxChildren(settings, kind, x)
      ensures v.None? <==> x == CONTAINER && MaxChildren(settings, kind, x) == 0
    {
      if x == CONTAINER { return if settings.max_children != 0 then Some(settings.max_children) else None; }
      var t := if x in kind then kind[x] else DEFAULT;
      if t in settings.types && settings.types[t].max_children.Some? { return settings.types[t].max_children; }
      if DEFAULT in settings.types && settings.types[DEFAULT].max_children.Some? {
        return settings.types[DEFAULT].max_children;
      }
      v := Some(0);
    }

    /** `parentsUntil(".jstree", "li").andSelf().index(a) !== -1`. */
    method IsUnder(a: nat, x: nat) returns (b: bool)
      requires IsTree(View()) && x in kids && a != CONTAINER
      ensures b == Under(View(), a, x)
    {
      ghost var n: nat :| Up(View(), x, n) == Some(CONTAINER);
      ghost var i := 0;
      var cur := x;
      while cur != CONTAINER
        invariant 0 <= i <= n && Up(View(), x, i) == Some(cur)
        invariant Under(View(), a, x) <==> Under(View(), a, cur)
        decreases n - i
      {
        BelowTop(View(), x, n, i);
        UpIsNode(View(), x, i);
        UpParent(View(), x, i);
        UnderParent(View(), a, cur);
        if cur == a { return true; }
        cur, i := parent[cur], i + 1;
      }
      NothingAboveTop(View(), a);
      b := false;
    }

    /** `prepare_move`. */
    method PrepareMove(o: nat, r: Option<nat>, pos: Position)
      requires IsTree(View()) && o in parent && (r.Some? ==> r.value in parent)
      modifies this`prepared
      ensures prepared == Some(Prepare(View(), o, r, pos))
    {
      var np, cp := CONTAINER, 0;
      match r {
        case None =>
          match pos {
            case First => cp := 0;
            case Before => cp := 0;
            case Inside => cp := 0;
            case After => cp := |kids[CONTAINER]|;
            case Last => cp := |kids[CONTAINER]|;
            case Index(k) => cp := k;
          }
        case Some(x) =>
          ParentIsNode(View(), x);
          match pos {
            case Before => np := parent[x]; cp := IndexOf(kids[np], x);
            case After => np := parent[x]; cp := IndexOf(kids[np], x) + 1;
            case Inside => np := x; cp := 0;
            case First => np := x; cp := 0;
            case Last => np := x; cp := |kids[x]|;
            case Index(k) => np := x; cp := k;
          }
      }
      ParentIsNode(View(), o);
      var op := parent[o];
      if !Beside(pos) && op == np && IndexOf(kids[op], o) < cp { cp := cp + 1; }
      prepared := Some(Prepared(o, r, cp, np, op, ChildAt(kids[np], cp)));
    }

    /** The core `check_move`. */
    method CheckMove() returns (ok: bool)
      requires IsTree(View()) && prepared.Some? && prepared.value.o in parent && prepared.value.op in kids
      requires prepared.value.r.Some? ==> prepared.value.r.value in kids
      ensures ok == Accepts(View(), prepared.value)
    {
      var p := prepared.value;
      if p.before == Some(p.o) { return false; }
      if p.op == p.np && p.cp - 1 == IndexOf(kids[p.op], p.o) { return false; }
      if p.r.Some? {
        var below := IsUnder(p.o, p.r.value);
        return !below;
      }
      ok := true;
    }

    /** The number of levels of the moved node: `t = t.find("> ul > li")` until none is left. */
    method Levels(o: nat) returns (d: nat)
      requires IsTree(View()) && o in parent
      ensures d >= 1 && HeightAtMost(View(), o, d)
      ensures Level(View(), o, d - 1) != {}
    {
      ParentIsNode(View(), o);
      var t := {o};
      d := 0;
      FirstLevel(View(), o);
      while t != {}
        invariant t == Level(View(), o, d) && (d == 0 ==> t != {})
        invariant d > 0 ==> Level(View(), o, d - 1) != {}
        decreases View().kids.Keys - Seen(View(), o, d)
      {
        NextLevel(View(), o, d);
        SeenGrows(View(), o, d);
        t, d := KidsOfAll(View(), t), d + 1;
      }
      HeightFromLevels(View(), o, d);
    }

    /** `check_move` of the types plugin, which asks the core first. */
    method TypesCheckMove() returns (ok: bool)
      requires IsTree(View()) && prepared.Some? && Placed(View(), prepared.value)
      ensures ok ==> Accepts(View(), prepared.value)
      ensures Sensible(settings) ==> (ok <==> MoveAllowed(View(), settings, kind, prepared.value))
    {
      var p := prepared.value;
      ok := CheckMove();
      if !ok { return; }
      var mc := CheckMaxChildren(p.np);
      var md := CheckMaxDepth(p.np);
      var vc := ValidFor(settings, kind, p.np);
      if vc.NoTypes? { return false; }
      if vc.Only? && Kind(kind, p.o) !in vc.types { return false; }
      if settings.max_children != -2 && mc != Some(-1) {
        var ch := |Without(kids[p.np], p.o)|;
        if mc.Some? && ch + 1 > mc.value { return false; }
      }
      if settings.max_depth != -2 && md != Some(-1) {
        if md == Some(0) {
          if Sensible(settings) {
            ghost var h := TreeHeight(View(), p.o);
            DepthAllowedBy(View(), settings, kind, p.o, p.np, h, 0);
          }
          return false;
        }
        var d := Levels(p.o);
        if Sensible(settings) { DepthAllowedBy(View(), settings, kind, p.o, p.np, d, md.value); }
        if md.Some? && md.value - d < 0 { return false; }
      } else if Sensible(settings) {
        ghost var d := TreeHeight(View(), p.o);
        DepthAllowedBy(View(), settings, kind, p.o, p.np, d, -1);
      }
      ok := true;
    }

    /** `move_node` on a freshly prepared move of one node, without a copy. */
    method MoveNode(o: nat, r: Option<nat>, pos: Position) returns (ok: bool)
      requires IsTree(View()) && o in parent && (r.Some? ==> r.value in parent)
      modifies this`kids, this`parent, this`prepared
      ensures IsTree(View())
      ensures if ok then Moved(old(View()), View(), o, r, pos) else View() == old(View())
      ensures Sensible(settings) ==> (ok <==> MoveAsked(old(View()), settings, kind, o, r, pos))
      ensures Sensible(settings) && old(Valid()) ==> Valid()
    {
      PrepareMove(o, r, pos);
      var p := prepared.value;
      PreparedIsPlaced(View(), o, r, pos);
      ok := TypesCheckMove();
      if !ok { return; }
      AcceptedMoveKeepsRules(View(), settings, kind, o, r, pos);
      kids := kids[p.op := Without(kids[p.op], o)];
      kids := kids[p.np := Inserted(kids[p.np], o, p.before)];
      parent := parent[o := p.np];
    }

    /** The checks of the types plugin's `create_node`. */
    method CheckCreate(p: nat, asked: Option<nat>) returns (ok: bool)
      requires IsTree(View()) && p in kids
      ensures Sensible(settings) ==> (ok <==> CreateAllowed(View(), settings, kind, p, asked))
    {
      var mc := CheckMaxChildren(p);
      var md := CheckMaxDepth(p);
      var vc := ValidFor(settings, kind, p);
      if vc.NoTypes? { return false; }
      if vc.Only? && asked.Some? && asked.value !in vc.types { return false; }
      if settings.max_children != -2 && mc != Some(-1) {
        if mc.Some? && |kids[p]| + 1 > mc.value { return false; }
      }
      if settings.max_depth != -2 && md != Some(-1) {
        if md.Some? && md.value - 1 < 0 { return false; }
      }
      ok := true;
    }

    /** `create_node` of the types plugin around the core: a new leaf `d`, of the given type or of
        the type the new parent asks for. */
    method CreateNode(d: nat, r: Option<nat>, pos: Position, asked: Option<nat>) returns (ok: bool)
      requires IsTree(View()) && d !in kids && (r.Some? ==> r.value in parent)
      modifies this`kids, this`parent, this`kind
      ensures IsTree(View())
      ensures if ok then Created(old(View()), View(), d, r, pos) else View() == old(View()) && kind == old(kind)
      ensures ok ==> kind == old(kind)[d := NewType(ValidFor(settings, old(kind), Target(old(View()), r, pos)), asked)]
      ensures Sensible(settings) ==>
                (ok <==> CreateAllowed(old(View()), settings, old(kind), Target(old(View()), r, pos), asked))
      ensures ok && old(Valid()) && Sensible(settings) && LeafAllowed(settings, kind, d) ==> Valid()
    {
      var p := Target(View(), r, pos);
      TargetIsNode(View(), r, pos);
      ok := CheckCreate(p, asked);
      if !ok { return; }
      CreatedKeepsRules(View(), settings, kind, d, r, pos, asked);
      var ty := NewType(ValidFor(settings, kind, p), asked);
      CoreCreate(d, p, r, pos);
      kind := kind[d := ty];
    }

    /** The `switch` of the core `create_node` that puts the new item into the list. */
    method CoreCreate(d: nat, p: nat, r: Option<nat>, pos: Position)
      requires IsTree(View()) && d !in kids && (r.Some? ==> r.value in parent) && p == Target(View(), r, pos)
      modifies this`kids, this`parent
      ensures Created(old(View()), View(), d, r, pos)
    {
      TargetIsNode(View(), r, pos);
      CreateLands(View(), d, r, pos);
      var list, i := kids[p], 0;
      match pos {
        case Before => i := if r.Some? then IndexOf(list, r.value) else 0;
        case After => i := if r.Some? then IndexOf(list, r.value) + 1 else |list|;
        case Inside => i := 0;
        case First => i := 0;
        case Last => i := |list|;
        case Index(k) =>
          var at := if k >= 0 then k else |list| + k;
          i := if 0 <= at < |list| then at else |list|;
      }
      kids := kids[p := InsertAt(list, i, d)][d := []];
      parent := parent[d := p];
    }
  }

  // ------------------------------------------------------------------ what the checks decide

  /** The move took place and `o` landed where it was asked to go. */
  ghost predicate Moved(t: Links, t': Links, o: nat, r: Option<nat>, pos: Position) {
    && o in t.parent
    && var p := Prepare(t, o, r, pos);
       && Placed(t, p) && Accepts(t, p)
       && t' == MoveTo(t, o, p.np, p.before)
       && Landed(KidsOf(t', p.np), o, r, pos) && ((r.Some? ==> r.value in t.parent) ==> Adopted(t, t', o, r, pos))
  }

  /** The leaf was created where it was asked to go. */
  ghost predicate Created(t: Links, t': Links, d: nat, r: Option<nat>, pos: Position) {
    var p, i := Target(t, r, pos), CreateIndex(t, r, pos);
    && p in t.kids && i <= |t.kids[p]|
    && t' == CreateIn(t, d, p, i)
    && ((pos.Index? ==> pos.k >= 0) ==> Landed(KidsOf(t', p), d, r, pos))
    && (pos.Index? && pos.k < 0 ==> LandedFromEnd(KidsOf(t', p), d, -pos.k))
    && ((r.Some? ==> r.value in t.parent) ==> Adopted(t, t', d, r, pos))
  }

  /** `d` has `n` siblings behind it, or none if there are not that many. */
  predicate LandedFromEnd(list: seq<nat>, d: nat, n: nat) {
    var i := IndexOf(list, d);
    i < |list| && |list| - 1 - i == if n < |list| then n else 0
  }

  /** The limits of the new leaf's own type leave room for itself. */
  predicate LeafAllowed(s: Settings, kind: map<nat, nat>, d: nat) {
    Allows(MaxDepth(s, kind, d), 1) && Allows(MaxChildren(s, kind, d), 0)
  }

  /** Types, children and depth allow the move that is asked for. */
  ghost predicate MoveAsked(t: Links, s: Settings, kind: map<nat, nat>, o: nat, r: Option<nat>, pos: Position)
    requires o in t.parent
  {
    var p := Prepare(t, o, r, pos);
    p.np in t.kids && MoveAllowed(t, s, kind, p)
  }

  lemma PreparedIsPlaced(t: Links, o: nat, r: Option<nat>, pos: Position)
    requires Linked(t) && o in t.parent && (r.Some? ==> r.value in t.parent)
    ensures Placed(t, Prepare(t, o, r, pos))
  {
    ParentIsNode(t, o);
    if r.Some? { ParentIsNode(t, r.value); }
  }

  lemma AcceptedMoveKeepsRules(t: Links, s: Settings, kind: map<nat, nat>, o: nat, r: Option<nat>, pos: Position)
    requires IsTree(t) && o in t.parent && (r.Some? ==> r.value in t.parent) && Accepts(t, Prepare(t, o, r, pos))
    ensures var p := Prepare(t, o, r, pos);
            && Placed(t, p)
            && var t' := MoveTo(t, o, p.np, p.before);
               && IsTree(t') && Moved(t, t', o, r, pos)
               && (RulesKept(t, s, kind) && MoveAsked(t, s, kind, o, r, pos) ==> RulesKept(t', s, kind))
  {
    var p := Prepare(t, o, r, pos);
    PreparedIsPlaced(t, o, r, pos);
    LandsWhereAsked(t, o, r, pos);
    MoveKeepsTree(t, o, p.np, p.before);
    if RulesKept(t, s, kind) && MoveAsked(t, s, kind, o, r, pos) {
      var h: nat :| HeightAtMost(t, o, h) && Fits(t, s, kind, p.np, h);
      MoveKeepsDepthRule(t, s, kind, o, p.np, p.before, h);
      MoveKeepsChildRule(t, s, kind, o, p.np, p.before);
    }
  }

  /** A move touches nothing but the moved node: the nodes are the same, every other node keeps
      its parent, and in every list the others keep their order. */
  lemma MoveKeepsOthers(t: Links, t': Links, o: nat, r: Option<nat>, pos: Position)
    requires IsTree(t) && (r.Some? ==> r.value in t.parent) && Moved(t, t', o, r, pos)
    ensures t'.kids.Keys == t.kids.Keys && t'.parent == t.parent[o := Target(t, r, pos)]
    ensures forall q :: q in t.kids ==> q in t'.kids && Without(t'.kids[q], o) == Without(t.kids[q], o)
  {
    var p := Prepare(t, o, r, pos);
    OthersKept(t, o, p.np, p.before);
  }

  lemma OthersKept(t: Links, o: nat, np: nat, before: Option<nat>)
    requires IsTree(t) && o in t.parent && t.parent[o] in t.kids && np in t.kids
    ensures var t' := MoveTo(t, o, np, before);
            && t'.kids.Keys == t.kids.Keys && t'.parent == t.parent[o := np]
            && forall q :: q in t.kids ==> q in t'.kids && Without(t'.kids[q], o) == Without(t.kids[q], o)
  {
    var t' := MoveTo(t, o, np, before);
    forall q | q in t.kids ensures q in t'.kids && Without(t'.kids[q], o) == Without(t.kids[q], o) {
      MovedList(t, o, np, before, q);
    }
  }

  lemma CreatedKeepsRules(t: Links, s: Settings, kind: map<nat, nat>, d: nat, r: Option<nat>, pos: Position,
                          asked: Option<nat>)
    requires IsTree(t) && d !in t.kids && (r.Some? ==> r.value in t.parent)
    ensures var p, i := Target(t, r, pos), CreateIndex(t, r, pos);
            && p in t.kids && i <= |t.kids[p]|
            && var t', kind' := CreateIn(t, d, p, i), kind[d := NewType(ValidFor(s, kind, p), asked)];
               && IsTree(t')
               && (RulesKept(t, s, kind) && CreateAllowed(t, s, kind, p, asked) && LeafAllowed(s, kind', d)
                   ==> RulesKept(t', s, kind'))
  {
    var p, i := Target(t, r, pos), CreateIndex(t, r, pos);
    TargetIsNode(t, r, pos);
    var ty := NewType(ValidFor(s, kind, p), asked);
    CreateKeepsTree(t, d, p, i);
    if RulesKept(t, s, kind) && CreateAllowed(t, s, kind, p, asked) && LeafAllowed(s, kind[d := ty], d) {
      CreateKeepsDepthRule(t, s, kind, d, ty, p, i);
      CreateKeepsChildRule(t, s, kind, d, ty, p, i);
    }
  }

  lemma TargetIsNode(t: Links, r: Option<nat>, pos: Position)
    requires Linked(t) && (r.Some? ==> r.value in t.parent)
    ensures Target(t, r, pos) in t.kids
    ensures r.Some? && Beside(pos) ==> r.value in t.kids[Target(t, r, pos)]
  {
    if r.Some? { ParentIsNode(t, r.value); }
  }

  /** The index at which the core creates the item; `eq` counts from the end below zero. */
  function CreateIndex(t: Links, r: Option<nat>, pos: Position): (i: nat)
    ensures i <= |KidsOf(t, Target(t, r, pos))| || (Beside(pos) && r.Some? && r.value !in KidsOf(t, Target(t, r, pos)))
  {
    var list := KidsOf(t, Target(t, r, pos));
    match pos
    case Before => if r.Some? then IndexOf(list, r.value) else 0
    case After => if r.Some? then IndexOf(list, r.value) + 1 else |list|
    case Inside => 0
    case First => 0
    case Last => |list|
    case Index(k) =>
      var at := if k >= 0 then k else |list| + k;
      if 0 <= at < |list| then at else |list|
  }

  function NewType(valid: ValidChildren, asked: Option<nat>): nat {
    if asked.Some? then asked.value
    else if valid.Only? && |valid.types| > 0 then valid.types[0] else DEFAULT
  }

  /** The rules allow a new leaf below `p`. */
  ghost predicate CreateAllowed(t: Links, s: Settings, kind: map<nat, nat>, p: nat, asked: Option<nat>) {
    && p in t.kids && Fits(t, s, kind, p, 1) && Allows(MaxChildren(s, kind, p), |t.kids[p]| + 1)
    && !ValidFor(s, kind, p).NoTypes?
    && (ValidFor(s, kind, p).Only? && asked.Some? ==> asked.value in ValidFor(s, kind, p).types)
  }

  lemma CreateLands(t: Links, d: nat, r: Option<nat>, pos: Position)
    requires IsTree(t) && d !in t.kids && (r.Some? ==> r.value in t.parent)
    ensures var p := Target(t, r, pos);
            p in t.kids && CreateIndex(t, r, pos) <= |t.kids[p]|
            && Created(t, CreateIn(t, d, p, CreateIndex(t, r, pos)), d, r, pos)
  {
    var p, i := Target(t, r, pos), CreateIndex(t, r, pos);
    TargetIsNode(t, r, pos);
    assert LinkAgrees(t, p, d) && DistinctKids(t, p);
    var list := InsertAt(t.kids[p], i, d);
    InsertedIndex(t.kids[p], i, d);
    assert |list| == |t.kids[p]| + 1;
  }

  /** Limits of -1 or at least 1; no rule may be switched off. */
  predicate Sensible(s: Settings) {
    && (s.max_depth == -1 || s.max_depth >= 1) && (s.max_children == -1 || s.max_children >= 1)
  }

  ghost predicate RulesKept(t: Links, s: Settings, kind: map<nat, nat>) {
    DepthRule(t, s, kind) && ChildRule(t, s, kind)
  }

  ghost predicate Placed(t: Links, p: Prepared) {
    && p.o in t.parent && p.op == t.parent[p.o] && p.op in t.kids && p.np in t.kids
    && (p.r.Some? ==> p.r.value in t.kids)
  }

  /** The rules allow the move: the type, the number of children, and every limit above. */
  ghost predicate MoveAllowed(t: Links, s: Settings, kind: map<nat, nat>, p: Prepared)
    requires p.np in t.kids
  {
    && Accepts(t, p) && TypeAllowed(ValidFor(s, kind, p.np), Kind(kind, p.o))
    && Allows(MaxChildren(s, kind, p.np), |Without(t.kids[p.np], p.o)| + 1)
    && DepthAllowed(t, s, kind, p.o, p.np)
  }

  predicate TypeAllowed(valid: ValidChildren, ty: nat) {
    match valid
    case AllTypes => true
    case NoTypes => false
    case Only(types) => ty in types
  }

  /** The whole subtree of `o` fits below `np`. */
  ghost predicate DepthAllowed(t: Links, s: Settings, kind: map<nat, nat>, o: nat, np: nat) {
    exists h: nat :: HeightAtMost(t, o, h) && Fits(t, s, kind, np, h)
  }

  lemma TreeHeight(t: Links, o: nat) returns (d: nat)
    requires IsTree(t) && o in t.kids
    ensures d >= 1 && HeightAtMost(t, o, d) && Level(t, o, d - 1) != {}
  {
    d := 0;
    FirstLevel(t, o);
    while Level(t, o, d) != {}
      invariant (d == 0 ==> Level(t, o, d) != {}) && (d > 0 ==> Level(t, o, d - 1) != {})
      decreases t.kids.Keys - Seen(t, o, d)
    {
      SeenGrows(t, o, d);
      d := d + 1;
    }
    HeightFromLevels(t, o, d);
  }

  /** The depth test of the move is exact. */
  lemma DepthAllowedBy(t: Links, s: Settings, kind: map<nat, nat>, o: nat, np: nat, d: nat, v: int)
    requires d >= 1 && HeightAtMost(t, o, d) && Level(t, o, d - 1) != {}
    requires Capacity(t, s, kind, np, v)
    ensures DepthAllowed(t, s, kind, o, np) <==> Allows(v, d)
  {
    if h: nat :| HeightAtMost(t, o, h) && Fits(t, s, kind, np, h) {
      var x :| x in Level(t, o, d - 1);
      assert d - 1 < h;
      FitsMonotone(t, s, kind, np, h, d);
    }
  }

  lemma FitsMonotone(t: Links, s: Settings, kind: map<nat, nat>, x: nat, h: nat, d: nat)
    requires Fits(t, s, kind, x, h) && d <= h
    ensures Fits(t, s, kind, x, d)
  {
    forall i: nat, a | Up(t, x, i) == Some(a) ensures LevelAllowed(s, kind, a, i + d) {
      FitsLess(t, s, kind, x, h, i, a, d);
    }
  }

  lemma TopCapacity(t: Links, s: Settings, kind: map<nat, nat>)
    requires CONTAINER !in t.parent
    ensures Capacity(t, s, kind, CONTAINER, s.max_depth)
  {
    forall h: nat | h >= 1 ensures Allows(s.max_depth, h) <==> Fits(t, s, kind, CONTAINER, h) {
      assert Up(t, CONTAINER, 0) == Some(CONTAINER);
      assert forall i: nat :: i > 0 ==> Up(t, CONTAINER, i) == None;
      if Fits(t, s, kind, CONTAINER, h) { FitsLess(t, s, kind, CONTAINER, h, 0, CONTAINER, h); }
    }
  }

  /** `t.find("> ul > li")`. */
  function KidsOfAll(t: Links, ys: set<nat>): set<nat> {
    set x, y | y in ys && y in t.kids && x in t.kids[y] :: x
  }

  /** The nodes less than `d` levels below `o`. */
  ghost function Seen(t: Links, o: nat, d: nat): set<nat>
  {
    if d == 0 then {} else Seen(t, o, d - 1) + Level(t, o, d - 1)
  }

  lemma {:induction false} SeenIsAbove(t: Links, o: nat, d: nat, x: nat)
    requires x in Seen(t, o, d)
    ensures x in t.kids && exists k: nat :: k < d && Up(t, x, k) == Some(o)
    decreases d
  {
    if x in Level(t, o, d - 1) {
      assert Up(t, x, d - 1) == Some(o);
    } else {
      SeenIsAbove(t, o, d - 1, x);
    }
  }

  lemma SeenGrows(t: Links, o: nat, d: nat)
    requires IsTree(t) && Level(t, o, d) != {}
    ensures t.kids.Keys - Seen(t, o, d + 1) < t.kids.Keys - Seen(t, o, d)
  {
    var x :| x in Level(t, o, d);
    if x in Seen(t, o, d) {
      SeenIsAbove(t, o, d, x);
      var k: nat :| k < d && Up(t, x, k) == Some(o);
      DistanceIsUnique(t, o, x, d, k);
    }
    assert x in t.kids.Keys - Seen(t, o, d) && x !in t.kids.Keys - Seen(t, o, d + 1);
  }

  lemma FirstLevel(t: Links, o: nat)
    requires o in t.kids
    ensures Level(t, o, 0) == {o}
  {
    assert forall x :: x in t.kids ==> Up(t, x, 0) == Some(x);
  }

  /** The nodes `d` levels below `o`. */
  ghost function Level(t: Links, o: nat, d: nat): set<nat> {
    set x | x in t.kids && Up(t, x, d) == Some(o)
  }

  lemma NextLevel(t: Links, o: nat, d: nat)
    requires Linked(t)
    ensures Level(t, o, d + 1) == KidsOfAll(t, Level(t, o, d))
  {
    forall x | x in Level(t, o, d + 1) ensures x in KidsOfAll(t, Level(t, o, d)) {
      ParentIsNode(t, x);
      assert t.parent[x] in Level(t, o, d);
    }
    forall x | x in KidsOfAll(t, Level(t, o, d)) ensures x in Level(t, o, d + 1) {
      var y :| y in Level(t, o, d) && y in t.kids && x in t.kids[y];
      assert LinkAgrees(t, y, x);
      assert Up(t, x, d + 1) == Up(t, y, d);
    }
  }

  lemma LevelReached(t: Links, o: nat, x: nat, k: nat, d: nat)
    requires Linked(t) && x in t.kids && Up(t, x, k) == Some(o) && d <= k
    ensures Level(t, o, d) != {}
  {
    UpPrefix(t, x, k - d, k);
    UpIsNode(t, x, k - d);
    UpAdd(t, x, k - d, d);
    assert Up(t, x, k - d).value in Level(t, o, d);
  }

  lemma HeightFromLevels(t: Links, o: nat, d: nat)
    requires Linked(t) && Level(t, o, d) == {}
    ensures HeightAtMost(t, o, d)
  {
    forall x, k: nat | x in t.kids && Up(t, x, k) == Some(o) ensures k < d {
      if k >= d { LevelReached(t, o, x, k, d); }
    }
  }

  lemma NothingAboveTop(t: Links, a: nat)
    requires CONTAINER !in t.parent && a != CONTAINER
    ensures !Under(t, a, CONTAINER)
  {
    forall n: nat ensures Up(t, CONTAINER, n) != Some(a) {}
  }
}

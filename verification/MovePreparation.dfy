/** `prepare_move` and `check_move`: where a node is asked to go, the corrected index, and the
    child it will be put in front of. */
module MovePreparation {
  import opened Wrappers
  import opened Sequences
  import opened TreeLinks
  import opened TreeEdits

  datatype Position = Before | After | Inside | First | Last | Index(k: int)

  /** The fields of `prepared_move`: the node, the reference (-1 is `None`), the target index, the
      new and the old parent, and the child at the target index. */
  datatype Prepared = Prepared(o: nat, r: Option<nat>, cp: int, np: nat, op: nat, before: Option<nat>)

  predicate Beside(pos: Position) {
    pos.Before? || pos.After?
  }

  /** The new parent. */
  function Target(t: Links, r: Option<nat>, pos: Position): nat {
    match r
    case None => CONTAINER
    case Some(x) => if Beside(pos) && x in t.parent then t.parent[x] else x
  }

  function KidsOf(t: Links, x: nat): seq<nat> {
    if x in t.kids then t.kids[x] else []
  }

  /** The index before the correction. */
  function AskedIndex(t: Links, r: Option<nat>, pos: Position): int {
    var list := KidsOf(t, Target(t, r, pos));
    match pos
    case Before => if r.Some? then IndexOf(list, r.value) else 0
    case After => if r.Some? then IndexOf(list, r.value) + 1 else |list|
    case Inside => 0
    case First => 0
    case Last => |list|
    case Index(k) => k
  }

  function ChildAt(list: seq<nat>, i: int): Option<nat> {
    if 0 <= i < |list| then Some(list[i]) else None
  }

  /** `prepare_move` on a node `o` and a reference that is a node or -1. */
  function Prepare(t: Links, o: nat, r: Option<nat>, pos: Position): Prepared
    requires o in t.parent
  {
    var np, op, cp := Target(t, r, pos), t.parent[o], AskedIndex(t, r, pos);
    var corrected := if !Beside(pos) && op == np && IndexOf(KidsOf(t, op), o) < cp then cp + 1 else cp;
    Prepared(o, r, corrected, np, op, ChildAt(KidsOf(t, np), corrected))
  }

  /** The core `check_move`: the move changes something and does not go below the node itself. */
  ghost predicate Accepts(t: Links, p: Prepared) {
    && p.before != Some(p.o)
    && !(p.op == p.np && p.cp - 1 == IndexOf(KidsOf(t, p.op), p.o))
    && !(p.r.Some? && Under(t, p.o, p.r.value))
  }

  // ------------------------------------------------------------------ where the node lands

  /** `o` is where it was asked to go, in its new list of `n` siblings and itself. */
  ghost predicate Landed(list: seq<nat>, o: nat, r: Option<nat>, pos: Position) {
    var i := IndexOf(list, o);
    && i < |list|
    && match pos
       case Before => if r.Some? then i + 1 < |list| && list[i + 1] == r.value else i == 0
       case After => if r.Some? then i > 0 && list[i - 1] == r.value else i == |list| - 1
       case Inside => i == 0
       case First => i == 0
       case Last => i == |list| - 1
       case Index(k) => i == if 0 <= k < |list| then k else |list| - 1
  }

  /** The new parent of `o`: the tree itself without a reference, the parent of the reference beside
      it, else the reference. */
  ghost predicate Adopted(t: Links, t': Links, o: nat, r: Option<nat>, pos: Position) {
    && o in t'.parent
    && (r.None? ==> t'.parent[o] == CONTAINER)
    && (r.Some? && (pos.Before? || pos.After?) ==> r.value in t.parent && t'.parent[o] == t.parent[r.value])
    && (r.Some? && !(pos.Before? || pos.After?) ==> t'.parent[o] == r.value)
  }

  lemma AcceptedIsMovable(t: Links, o: nat, r: Option<nat>, pos: Position)
    requires IsTree(t) && o in t.parent && (r.Some? ==> r.value in t.parent)
    requires Accepts(t, Prepare(t, o, r, pos))
    ensures var p := Prepare(t, o, r, pos); Movable(t, o, p.np, p.before)
  {
    var p := Prepare(t, o, r, pos);
    ParentIsNode(t, o);
    match r {
      case None => forall n: nat ensures Up(t, CONTAINER, n) != Some(o) {}
      case Some(x) =>
        ParentIsNode(t, x);
        UnderParent(t, o, x);
    }
  }

  /** Where the members next to index `c` are once `o` is removed. */
  lemma WithoutNear(s: seq<nat>, o: nat, c: nat) returns (base: seq<nat>, i: nat)
    requires c < |s| && s[c] != o
    ensures base == Without(s, o) && i < |base| && base[i] == s[c]
    ensures i == if IndexOf(s, o) < c then c - 1 else c
    ensures |base| == if o in s then |s| - 1 else |s|
    ensures c > 0 && s[c - 1] != o ==> i > 0 && base[i - 1] == s[c - 1]
  {
    var j := IndexOf(s, o);
    base, i := Without(s, o), if j < c then c - 1 else c;
    if j < |s| {
      var removed := RemoveAt(s, j);
      if j < c {
        assert c >= 2 ==> removed[c - 2] == s[if c - 2 < j then c - 2 else c - 1];
        assert removed[c - 1] == s[c];
      } else {
        assert removed[c] == s[c] && (c > 0 ==> removed[c - 1] == s[c - 1]);
      }
    }
  }

  lemma WithoutDistinct(s: seq<nat>, o: nat)
    requires Distinct(s)
    ensures Distinct(Without(s, o)) && o !in Without(s, o)
  {
    WithoutContents(s, o);
  }

  lemma InsertedIndex(s: seq<nat>, i: nat, o: nat)
    requires i <= |s| && o !in s
    ensures o in InsertAt(s, i, o) && IndexOf(InsertAt(s, i, o), o) == i
  {
    var r := InsertAt(s, i, o);
    assert r[i] == o;
  }

  lemma InsertedBefore(s: seq<nat>, o: nat, c: nat) returns (r: seq<nat>, i: nat)
    requires Distinct(s) && c < |s| && s[c] != o
    ensures r == Inserted(Without(s, o), o, Some(s[c])) && o in r && IndexOf(r, o) == i
    ensures i == if IndexOf(s, o) < c then c - 1 else c
    ensures |r| == (if o in s then |s| else |s| + 1) && i + 1 < |r| && r[i + 1] == s[c]
    ensures c > 0 && s[c - 1] != o ==> i > 0 && r[i - 1] == s[c - 1]
  {
    var base;
    base, i := WithoutNear(s, o, c);
    WithoutDistinct(s, o);
    IndexIs(base, s[c], i);
    r := InsertAt(base, i, o);
    InsertedIndex(base, i, o);
  }

  lemma InsertedLast(s: seq<nat>, o: nat)
    requires Distinct(s)
    ensures var r := Inserted(Without(s, o), o, None);
            && o in r && |r| == (if o in s then |s| else |s| + 1) && IndexOf(r, o) == |r| - 1
            && (|s| > 0 && s[|s| - 1] != o ==> |r| > 1 && r[|r| - 2] == s[|s| - 1])
  {
    WithoutDistinct(s, o);
    InsertedIndex(Without(s, o), |Without(s, o)|, o);
  }

  /** The corrected index, seen from the list of the new parent alone. */
  function Corrected(list: seq<nat>, o: nat, r: Option<nat>, pos: Position): int {
    var cp := match pos
      case Before => if r.Some? then IndexOf(list, r.value) else 0
      case After => if r.Some? then IndexOf(list, r.value) + 1 else |list|
      case Inside => 0
      case First => 0
      case Last => |list|
      case Index(k) => k;
    if !Beside(pos) && o in list && IndexOf(list, o) < cp then cp + 1 else cp
  }

  ghost predicate Askable(list: seq<nat>, o: nat, r: Option<nat>, pos: Position) {
    var c := Corrected(list, o, r, pos);
    && Distinct(list) && (r.Some? && Beside(pos) ==> r.value in list && r.value != o)
    && ChildAt(list, c) != Some(o) && !(o in list && c - 1 == IndexOf(list, o))
  }

  lemma LandsInList(list: seq<nat>, o: nat, r: Option<nat>, pos: Position)
    requires Askable(list, o, r, pos)
    ensures Landed(Inserted(Without(list, o), o, ChildAt(list, Corrected(list, o, r, pos))), o, r, pos)
  {
    var c := Corrected(list, o, r, pos);
    if 0 <= c < |list| {
      var asked, i := InsertedBefore(list, o, c);
      LandsAt(list, asked, i, o, r, pos);
    } else {
      InsertedLast(list, o);
      LandsLast(list, Inserted(Without(list, o), o, None), o, r, pos);
    }
  }

  lemma LandsLast(list: seq<nat>, asked: seq<nat>, o: nat, r: Option<nat>, pos: Position)
    requires Askable(list, o, r, pos) && !(0 <= Corrected(list, o, r, pos) < |list|)
    requires o in asked && |asked| == (if o in list then |list| else |list| + 1) && IndexOf(asked, o) == |asked| - 1
    requires |list| > 0 && list[|list| - 1] != o ==> |asked| > 1 && asked[|asked| - 2] == list[|list| - 1]
    ensures Landed(asked, o, r, pos)
  {
  }

  lemma LandsAt(list: seq<nat>, asked: seq<nat>, i: nat, o: nat, r: Option<nat>, pos: Position)
    requires Askable(list, o, r, pos) && 0 <= Corrected(list, o, r, pos) < |list|
    requires o in asked && IndexOf(asked, o) == i && i + 1 < |asked| == (if o in list then |list| else |list| + 1)
    requires var c := Corrected(list, o, r, pos);
             && i == (if IndexOf(list, o) < c then c - 1 else c) && asked[i + 1] == list[c]
             && (c > 0 && list[c - 1] != o ==> i > 0 && asked[i - 1] == list[c - 1])
    ensures Landed(asked, o, r, pos)
  {
  }

  /** An accepted move lands where it was asked to, within the node's own parent too. */
  lemma LandsWhereAsked(t: Links, o: nat, r: Option<nat>, pos: Position)
    requires IsTree(t) && o in t.parent && (r.Some? ==> r.value in t.parent)
    requires Accepts(t, Prepare(t, o, r, pos))
    ensures var p := Prepare(t, o, r, pos);
            && Movable(t, o, p.np, p.before)
            && Landed(MoveTo(t, o, p.np, p.before).kids[p.np], o, r, pos)
  {
    var p := Prepare(t, o, r, pos);
    AcceptedIsMovable(t, o, r, pos);
    PreparedInList(t, o, r, pos);
    LandsInList(t.kids[p.np], o, r, pos);
  }

  lemma PreparedInList(t: Links, o: nat, r: Option<nat>, pos: Position)
    requires Linked(t) && o in t.parent && (r.Some? ==> r.value in t.parent)
    requires Accepts(t, Prepare(t, o, r, pos)) && Prepare(t, o, r, pos).np in t.kids && t.parent[o] in t.kids
    ensures var p := Prepare(t, o, r, pos); var list := t.kids[p.np];
            && p.cp == Corrected(list, o, r, pos) && p.before == ChildAt(list, p.cp)
            && Distinct(list) && (r.Some? && Beside(pos) ==> r.value in list && r.value != o)
            && !(o in list && p.cp - 1 == IndexOf(list, o))
            && MoveTo(t, o, p.np, p.before).kids[p.np] == Inserted(Without(list, o), o, p.before)
  {
    var p := Prepare(t, o, r, pos);
    assert LinkAgrees(t, p.np, o) && DistinctKids(t, p.np);
    if r.Some? {
      ParentIsNode(t, r.value);
      assert Up(t, r.value, 0) == Some(r.value);
    }
  }

  // ------------------------------------------------------------------ what the core refuses

  /** `o` is where it is asked to go. A node that is to be the last, or at an index outside of the
      list, is moved even if it is the last. */
  ghost predicate AlreadyThere(list: seq<nat>, o: nat, r: Option<nat>, pos: Position) {
    Landed(list, o, r, pos) && !pos.Last? && (pos.Index? ==> 0 <= pos.k < |list|)
  }

  /** The core refuses a move exactly if the reference is the node itself or below it, or the node is
      there already. */
  lemma AcceptsExactly(t: Links, o: nat, r: Option<nat>, pos: Position)
    requires IsTree(t) && o in t.parent && t.parent[o] in t.kids && (r.Some? ==> r.value in t.parent)
    ensures Accepts(t, Prepare(t, o, r, pos)) <==>
              && (r.Some? ==> !Under(t, o, r.value))
              && !(Target(t, r, pos) == t.parent[o] && AlreadyThere(t.kids[t.parent[o]], o, r, pos))
  {
    var p, list := Prepare(t, o, r, pos), t.kids[t.parent[o]];
    ParentIsNode(t, o);
    assert DistinctKids(t, t.parent[o]);
    if r.Some? {
      ParentIsNode(t, r.value);
      assert Up(t, r.value, 0) == Some(r.value);
    }
    if p.np == p.op {
      assert p.before == ChildAt(list, p.cp);
      if r.None? || r.value != o { StaysExactly(list, o, r, pos); }
    } else {
      assert LinkAgrees(t, p.np, o);
    }
  }

  /** Within one list: the corrected index points to the node or behind it exactly if it is there. */
  lemma StaysExactly(list: seq<nat>, o: nat, r: Option<nat>, pos: Position)
    requires Distinct(list) && o in list && (r.Some? && Beside(pos) ==> r.value in list && r.value != o)
    ensures var c := Corrected(list, o, r, pos);
            ChildAt(list, c) == Some(o) || c - 1 == IndexOf(list, o) <==> AlreadyThere(list, o, r, pos)
  {
    var i, c := IndexOf(list, o), Corrected(list, o, r, pos);
    if 0 <= c < |list| && list[c] == o { IndexIs(list, o, c); }
    if r.Some? && Beside(pos) {
      var j := IndexOf(list, r.value);
      if i + 1 < |list| && list[i + 1] == r.value { IndexIs(list, r.value, i + 1); }
      if i > 0 && list[i - 1] == r.value { IndexIs(list, r.value, i - 1); }
    }
  }
}

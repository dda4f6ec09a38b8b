/** The two edits of jsTree as changes of the links: moving a node and creating a leaf. */
module TreeEdits {
  import opened Wrappers
  import opened Sequences
  import opened TreeLinks

  function MoveTo(t: Links, o: nat, np: nat, before: Option<nat>): Links
    requires o in t.parent && t.parent[o] in t.kids && np in t.kids
  {
    var kids := t.kids[t.parent[o] := Without(t.kids[t.parent[o]], o)];
    Links(kids[np := Inserted(kids[np], o, before)], t.parent[o := np])
  }

  function CreateIn(t: Links, d: nat, p: nat, index: nat): Links
    requires p in t.kids && index <= |t.kids[p]|
  {
    Links(t.kids[p := InsertAt(t.kids[p], index, d)][d := []], t.parent[d := p])
  }

  // ------------------------------------------------------------------ paths after an edit

  /** Only the parent of `o` differs. */
  ghost predicate Reparented(t: Links, t': Links, o: nat, np: nat) {
    t'.parent == t.parent[o := np]
  }

  lemma {:induction false} PathOutside(t: Links, t': Links, o: nat, np: nat, x: nat, n: nat)
    requires Reparented(t, t', o, np) && !Under(t, o, x)
    ensures Up(t', x, n) == Up(t, x, n)
    decreases n
  {
    assert Up(t, x, 0) == Some(x);
    if n > 0 && x in t.parent {
      UnderParent(t, o, x);
      PathOutside(t, t', o, np, t.parent[x], n - 1);
    }
  }

  lemma {:induction false} PathInside(t: Links, t': Links, o: nat, np: nat, x: nat, j: nat, m: nat)
    requires Reparented(t, t', o, np) && IsTree(t) && x in t.kids && Up(t, x, j) == Some(o) && m <= j
    ensures Up(t', x, m) == Up(t, x, m)
    decreases m
  {
    if m > 0 {
      if x == o { DistanceIsUnique(t, o, x, j, 0); }
      ParentIsNode(t, x);
      PathInside(t, t', o, np, t.parent[x], j - 1, m - 1);
    }
  }

  /** Above the moved node the path continues from the new parent. */
  lemma PathAbove(t: Links, t': Links, o: nat, np: nat, x: nat, j: nat, n: nat)
    requires Reparented(t, t', o, np) && IsTree(t) && x in t.kids && Up(t, x, j) == Some(o) && !Under(t, o, np)
    ensures Up(t', x, j + 1 + n) == Up(t, np, n)
  {
    PathInside(t, t', o, np, x, j, j);
    UpAdd(t', x, j, 1 + n);
    assert Up(t', o, 1 + n) == Up(t', np, n);
    PathOutside(t, t', o, np, np, n);
  }

  // ------------------------------------------------------------------ a move

  ghost predicate Movable(t: Links, o: nat, np: nat, before: Option<nat>) {
    && IsTree(t) && o in t.parent && t.parent[o] in t.kids && np in t.kids && !Under(t, o, np)
    && (before.Some? ==> before.value in t.kids[np] && before.value != o)
  }

  /** `s'` is the list `s` after the edit: `o` may have come or gone, the others are as before. */
  ghost predicate Relisted(s: seq<nat>, s': seq<nat>, o: nat, has: bool) {
    && Distinct(s') && Without(s', o) == Without(s, o) && (o in s' <==> has)
    && forall y :: y != o ==> (y in s' <==> y in s)
  }

  lemma RelistedBy(s: seq<nat>, o: nat, before: Option<nat>)
    requires Distinct(s)
    ensures Relisted(s, Without(s, o), o, false)
    ensures Relisted(s, Inserted(Without(s, o), o, before), o, true)
  {
    var base := Without(s, o);
    WithoutContents(s, o);
    InsertAtContents(base, if before.Some? then IndexOf(base, before.value) else |base|, o);
  }

  lemma MovedList(t: Links, o: nat, np: nat, before: Option<nat>, q: nat)
    requires Linked(t) && o in t.parent && t.parent[o] in t.kids && np in t.kids && q in t.kids
    ensures q in MoveTo(t, o, np, before).kids
    ensures Relisted(t.kids[q], MoveTo(t, o, np, before).kids[q], o, q == np)
  {
    assert LinkAgrees(t, q, o) && DistinctKids(t, q);
    RelistedBy(t.kids[q], o, before);
  }

  /** The edit keeps the tree: the same nodes, no cycle, and every other node keeps its parent
      and its order among the others. */
  lemma MoveKeepsTree(t: Links, o: nat, np: nat, before: Option<nat>)
    requires Movable(t, o, np, before)
    ensures IsTree(MoveTo(t, o, np, before))
  {
    var t' := MoveTo(t, o, np, before);
    forall q | q in t.kids ensures q in t'.kids && Relisted(t.kids[q], t'.kids[q], o, q == np) {
      MovedList(t, o, np, before, q);
    }
    MoveKeepsLinks(t, t', o, np);
    forall x | x in t'.kids ensures Under(t', CONTAINER, x) {
      if Under(t, o, x) {
        var j: nat :| Up(t, x, j) == Some(o);
        var n: nat :| Up(t, np, n) == Some(CONTAINER);
        PathAbove(t, t', o, np, x, j, n);
      } else {
        var n: nat :| Up(t, x, n) == Some(CONTAINER);
        PathOutside(t, t', o, np, x, n);
      }
    }
  }

  lemma MoveKeepsLinks(t: Links, t': Links, o: nat, np: nat)
    requires Linked(t) && o in t.parent && np in t.kids
    requires t'.kids.Keys == t.kids.Keys && t'.parent == t.parent[o := np]
    requires forall q :: q in t.kids ==> Relisted(t.kids[q], t'.kids[q], o, q == np)
    ensures Linked(t')
  {
    forall p ensures DistinctKids(t', p) {
      if p in t.kids { assert Relisted(t.kids[p], t'.kids[p], o, p == np); }
    }
    forall p, c ensures LinkAgrees(t', p, c) {
      assert LinkAgrees(t, p, c);
      if p in t.kids { assert Relisted(t.kids[p], t'.kids[p], o, p == np); }
    }
  }

  // ------------------------------------------------------------------ a new leaf

  lemma CreateKeepsTree(t: Links, d: nat, p: nat, index: nat)
    requires IsTree(t) && d !in t.kids && p in t.kids && index <= |t.kids[p]|
    ensures IsTree(CreateIn(t, d, p, index))
  {
    var t' := CreateIn(t, d, p, index);
    CreateKeepsLinks(t, d, p, index);
    forall x | x in t'.kids ensures Under(t', CONTAINER, x) {
      if x == d {
        var n: nat :| Up(t, p, n) == Some(CONTAINER);
        NotUnderNew(t, d, p);
        PathOutside(t, t', d, p, p, n);
        assert Up(t', d, n + 1) == Some(CONTAINER);
      } else {
        var n: nat :| Up(t, x, n) == Some(CONTAINER);
        NotUnderNew(t, d, x);
        PathOutside(t, t', d, p, x, n);
      }
    }
  }

  lemma CreateKeepsLinks(t: Links, d: nat, p: nat, index: nat)
    requires Linked(t) && d !in t.kids && p in t.kids && index <= |t.kids[p]|
    ensures Linked(CreateIn(t, d, p, index))
  {
    var t' := CreateIn(t, d, p, index);
    assert LinkAgrees(t, p, d) && DistinctKids(t, p);
    InsertAtContents(t.kids[p], index, d);
    forall q ensures DistinctKids(t', q) { assert DistinctKids(t, q); }
    forall q, c ensures LinkAgrees(t', q, c) {
      assert LinkAgrees(t, q, c) && LinkAgrees(t, d, c);
    }
  }

  lemma NotUnderNew(t: Links, d: nat, x: nat)
    requires Linked(t) && d !in t.kids && x in t.kids
    ensures !Under(t, d, x)
  {
    forall n: nat | Up(t, x, n).Some? ensures Up(t, x, n) != Some(d) { UpIsNode(t, x, n); }
  }
}

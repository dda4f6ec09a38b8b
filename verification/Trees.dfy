/** Finite ordered trees whose nodes are named by paths: the path of a node lists the
    child index taken at each level, so `[]` is the root, the parent of a node is its
    path without the last index, and a proper prefix is a proper ancestor. */
module Trees {
  import opened Wrappers

  type Path = seq<nat>

  datatype Tree<T> = Node(value: T, kids: seq<Tree<T>>)

  function Parent(p: Path): Path
    requires p != []
  {
    p[..|p| - 1]
  }

  function Last(p: Path): nat
    requires p != []
  {
    p[|p| - 1]
  }

  function At<T>(t: Tree<T>, p: Path): Option<Tree<T>>
    decreases |p|
  {
    if p == [] then Some(t)
    else
      match At(t, Parent(p))
      case None => None
      case Some(n) => if Last(p) < |n.kids| then Some(n.kids[Last(p)]) else None
  }

  predicate IsNode<T>(t: Tree<T>, p: Path) {
    At(t, p).Some?
  }

  /** The child of the same parent that follows. */
  function NextSibling<T>(t: Tree<T>, p: Path): Option<Path> {
    if p != [] && IsNode(t, Parent(p) + [Last(p) + 1]) then Some(Parent(p) + [Last(p) + 1]) else None
  }

  function KidsAt<T>(t: Tree<T>, p: Path): (kids: seq<Tree<T>>)
    requires IsNode(t, p)
  {
    At(t, p).value.kids
  }

  /** The document order of HTML and XML: an ancestor comes first, otherwise the first
      differing child index decides. */
  predicate Before(p: Path, q: Path) {
    q != [] && (p == [] || p[0] < q[0] || (p[0] == q[0] && Before(p[1..], q[1..])))
  }

  /** The nodes below `n` (which sits at path `at`) in preorder, skipping everything below
      the nodes in `closed`. */
  function Preorder<T>(n: Tree<T>, at: Path, closed: set<Path>): seq<Path>
    decreases n, 0
  {
    [at] + if at in closed then [] else PreorderKids(n, at, closed, 0)
  }

  function PreorderKids<T>(n: Tree<T>, at: Path, closed: set<Path>, k: nat): seq<Path>
    requires k <= |n.kids|
    decreases n, 0, |n.kids| - k
  {
    if k == |n.kids| then []
    else Preorder(n.kids[k], at + [k], closed) + PreorderKids(n, at, closed, k + 1)
  }

  // ---------------------------------------------------------------- paths

  lemma PrefixIsNode<T>(t: Tree<T>, p: Path, q: Path)
    requires p <= q && IsNode(t, q)
    ensures IsNode(t, p)
    decreases |q|
  {
    if p != q {
      assert p <= Parent(q);
      PrefixIsNode(t, p, Parent(q));
    }
  }

  lemma ChildIsNode<T>(t: Tree<T>, p: Path, k: nat)
    requires IsNode(t, p)
    ensures IsNode(t, p + [k]) <==> k < |KidsAt(t, p)|
    ensures IsNode(t, p + [k]) ==> At(t, p + [k]).value == KidsAt(t, p)[k]
  {
    assert Parent(p + [k]) == p;
  }

  /** Earlier siblings of a node are nodes. */
  lemma SiblingIsNode<T>(t: Tree<T>, p: Path, k: nat)
    requires p != [] && IsNode(t, p) && k <= Last(p)
    ensures IsNode(t, Parent(p) + [k])
  {
    PrefixIsNode(t, Parent(p), p);
    assert Parent(Parent(p) + [k]) == Parent(p);
  }

  lemma ChildPrefix(c: Path, k: nat, p: Path)
    ensures c + [k] <= p <==> c < p && p[|c|] == k
  {
    assert c + [k] <= p ==> p[..|c| + 1] == c + [k];
    assert c < p ==> p[..|c| + 1] == c + [p[|c|]];
  }

  // ------------------------------------------------------- document order

  lemma {:induction false} BeforeIrreflexive(p: Path)
    ensures !Before(p, p)
  {
    if p != [] { BeforeIrreflexive(p[1..]); }
  }

  lemma {:induction false} BeforeTransitive(p: Path, q: Path, r: Path)
    requires Before(p, q) && Before(q, r)
    ensures Before(p, r)
  {
    if p != [] && q != [] && r != [] && p[0] == q[0] == r[0] {
      BeforeTransitive(p[1..], q[1..], r[1..]);
    }
  }

  lemma {:induction false} BeforeTotal(p: Path, q: Path)
    ensures p == q || Before(p, q) || Before(q, p)
  {
    if p != [] && q != [] && p[0] == q[0] {
      BeforeTotal(p[1..], q[1..]);
      assert p == [p[0]] + p[1..] && q == [q[0]] + q[1..];
    }
  }

  lemma BeforeAsymmetric(p: Path, q: Path)
    requires Before(p, q)
    ensures p != q && !Before(q, p)
  {
    BeforeIrreflexive(p);
    if Before(q, p) { BeforeTransitive(p, q, p); }
  }

  lemma {:induction false} BeforeExtension(c: Path, p: Path, q: Path)
    ensures Before(c + p, c + q) <==> Before(p, q)
  {
    if c == [] {
      assert c + p == p && c + q == q;
    } else {
      BeforeExtension(c[1..], p, q);
      assert (c + p)[1..] == c[1..] + p && (c + q)[1..] == c[1..] + q;
    }
  }

  lemma AncestorBefore(p: Path, q: Path)
    requires p < q
    ensures Before(p, q)
  {
    BeforeExtension(p, [], q[|p|..]);
    assert p + [] == p && p + q[|p|..] == q;
  }

  /** Two nodes in the subtrees of two different children compare as the children do. */
  lemma CousinsBefore(c: Path, i: nat, j: nat, p: Path, q: Path)
    requires i < j && c + [i] <= p && c + [j] <= q
    ensures Before(p, q)
  {
    var p', q' := p[|c|..], q[|c|..];
    assert p == c + p' && q == c + q';
    assert p'[0] == p[|c|] == (c + [i])[|c|] && q'[0] == q[|c|] == (c + [j])[|c|];
    BeforeExtension(c, p', q');
  }

  // ------------------------------------------------------------- preorder

  ghost predicate Increasing(s: seq<Path>) {
    forall i, j :: 0 <= i < j < |s| ==> Before(s[i], s[j])
  }

  /** No node strictly between `from` (inclusive) and `p` (exclusive) is closed. */
  ghost predicate Visible(closed: set<Path>, from: Path, p: Path) {
    from <= p && forall a: Path :: from <= a < p ==> a !in closed
  }

  lemma {:induction false} PreorderContents<T>(n: Tree<T>, at: Path, closed: set<Path>)
    ensures Increasing(Preorder(n, at, closed))
    ensures forall p :: p in Preorder(n, at, closed) <==>
                        at <= p && IsNode(n, p[|at|..]) && Visible(closed, at, p)
    decreases n, 1
  {
    var s := Preorder(n, at, closed);
    if at !in closed { PreorderKidsContents(n, at, closed, 0); }
    forall i, j | 0 <= i < j < |s| ensures Before(s[i], s[j]) {
      if i == 0 {
        assert s[j] in PreorderKids(n, at, closed, 0);
        AncestorBefore(at, s[j]);
      }
    }
    forall p ensures p in s <==> at <= p && IsNode(n, p[|at|..]) && Visible(closed, at, p) {
      if p == at {
        assert p[|at|..] == [] && s[0] == at;
      } else if at <= p && at !in closed {
        assert p in s <==> p in PreorderKids(n, at, closed, 0);
        FirstStep(n, at, p);
      } else if at <= p {
        assert at <= at < p;
      }
    }
  }

  lemma {:induction false} PreorderKidsContents<T>(n: Tree<T>, at: Path, closed: set<Path>, k: nat)
    requires k <= |n.kids| && at !in closed
    ensures Increasing(PreorderKids(n, at, closed, k))
    ensures forall p :: p in PreorderKids(n, at, closed, k) <==>
                        at < p && p[|at|] >= k && IsNode(n, p[|at|..]) && Visible(closed, at, p)
    decreases n, 0, |n.kids| - k
  {
    var s := PreorderKids(n, at, closed, k);
    if k < |n.kids| {
      var head, tail := Preorder(n.kids[k], at + [k], closed), PreorderKids(n, at, closed, k + 1);
      PreorderContents(n.kids[k], at + [k], closed);
      PreorderKidsContents(n, at, closed, k + 1);
      forall i, j | 0 <= i < j < |s| ensures Before(s[i], s[j]) {
        if i < |head| <= j {
          assert s[i] == head[i] && s[j] == tail[j - |head|];
          assert s[i] in head && s[j] in tail;
          var m := s[j][|at|];
          assert at + [m] <= s[j];
          CousinsBefore(at, k, m, s[i], s[j]);
        }
      }
      forall p
        ensures p in s <==> at < p && p[|at|] >= k && IsNode(n, p[|at|..]) && Visible(closed, at, p)
      {
        assert p in s <==> p in head || p in tail;
        ChildPrefix(at, k, p);
        if at < p && p[|at|] == k {
          FirstStep(n, at, p);
          forall a: Path {:trigger a in closed} | at <= a < p ensures a == at || at + [k] <= a {
            if |a| == |at| { assert a == at; } else { assert a[|at|] == p[..|a|][|at|]; }
          }
          assert p[|at + [k]|..] == p[|at|..][1..];
        }
      }
    } else {
      forall p | at < p && p[|at|] >= k ensures !IsNode(n, p[|at|..]) {
        FirstStep(n, at, p);
      }
    }
  }

  lemma FirstStep<T>(n: Tree<T>, at: Path, p: Path)
    requires at < p
    ensures IsNode(n, p[|at|..]) <==> p[|at|] < |n.kids| && IsNode(n.kids[p[|at|]], p[|at|..][1..])
  {
    AtFront(n, p[|at|..]);
  }

  /** `At` peels the last index; this peels the first. */
  lemma {:induction false} AtFront<T>(n: Tree<T>, q: Path)
    requires q != []
    ensures At(n, q) == if q[0] < |n.kids| then At(n.kids[q[0]], q[1..]) else None
    decreases |q|
  {
    if |q| == 1 {
      assert Parent(q) == [] && q[1..] == [];
    } else {
      AtFront(n, Parent(q));
      assert Parent(q)[1..] == Parent(q[1..]);
      assert Last(q) == Last(q[1..]);
    }
  }

  /** Preorder over the whole tree lists exactly the nodes, each once, and its index order
      is document order. */
  lemma PreorderIsDocumentOrder<T>(t: Tree<T>)
    ensures var s := Preorder(t, [], {});
            && (forall p :: p in s <==> IsNode(t, p))
            && (forall i, j :: 0 <= i < |s| && 0 <= j < |s| ==> (i < j <==> Before(s[i], s[j])))
  {
    var s := Preorder(t, [], {});
    PreorderContents(t, [], {});
    forall p ensures p in s <==> IsNode(t, p) {
      assert p[0..] == p;
    }
    forall i, j | 0 <= i < |s| && 0 <= j < |s| ensures i < j <==> Before(s[i], s[j]) {
      if i == j { BeforeIrreflexive(s[i]); }
      else if j < i { BeforeAsymmetric(s[j], s[i]); }
    }
  }
}

/** Sizzle's nth-child test: the index of an element among its siblings is counted once for each
    parent and kept on the nodes, under a mark that the walks of the engine overwrite as well. */
module NthChild {
  import opened Wrappers
  import opened Trees
  import opened Sizzle

  /** The elements among the first `k` children. */
  function Elements(kids: seq<Dom>, k: nat): (n: nat)
    requires k <= |kids|
  {
    if k == 0 then 0 else Elements(kids, k - 1) + if kids[k - 1].value.Element? then 1 else 0
  }

  ghost function ElementIndices(kids: seq<Dom>, k: nat): set<nat>
    requires k <= |kids|
  {
    set j: nat | j < k && kids[j].value.Element?
  }

  lemma {:induction false} ElementsAreCounted(kids: seq<Dom>, k: nat)
    requires k <= |kids|
    ensures Elements(kids, k) == |ElementIndices(kids, k)|
  {
    if k > 0 {
      ElementsAreCounted(kids, k - 1);
      var before, now := ElementIndices(kids, k - 1), ElementIndices(kids, k);
      if kids[k - 1].value.Element? { assert now == before + {k - 1}; } else { assert now == before; }
    }
  }

  /** The place of an element among the elements with its parent, from 1. */
  function Place(dom: Dom, e: Path): nat
    requires e != [] && IsNode(dom, e)
  {
    PrefixIsNode(dom, Parent(e), e);
    ChildIsNode(dom, Parent(e), Last(e));
    assert e == Parent(e) + [Last(e)];
    Elements(KidsAt(dom, Parent(e)), Last(e)) + 1
  }

  /** The place is the number of sibling elements up to and with the element. */
  lemma PlaceIsCount(dom: Dom, e: Path)
    requires e != [] && IsElement(dom, e)
    ensures Place(dom, e) == |set j: nat | j <= Last(e) && IsElement(dom, Parent(e) + [j])|
  {
    var parent, n := Parent(e), Last(e);
    PrefixIsNode(dom, parent, e);
    assert e == parent + [n];
    ChildIsNode(dom, parent, n);
    var kids := KidsAt(dom, parent);
    ElementsAreCounted(kids, n + 1);
    forall j: nat | j <= n ensures IsElement(dom, parent + [j]) <==> kids[j].value.Element? {
      ChildIsNode(dom, parent, j);
    }
    assert ElementIndices(kids, n + 1) == set j: nat | j <= n && IsElement(dom, parent + [j]);
  }

  /** `diff === 0` without a step, else `diff % first === 0 && diff / first >= 0`. */
  predicate Solves(first: int, last: int, index: int) {
    var diff := index - last;
    if first == 0 then diff == 0
    else diff % first == 0 && (diff == 0 || (diff > 0 <==> first > 0))
  }

  /** The test holds of an index exactly if it is `first` times `n` plus `last` for some `n`. */
  lemma SolvesExactly(first: int, last: int, index: int)
    ensures Solves(first, last, index) <==> exists n: nat :: first * n + last == index
  {
    var diff := index - last;
    if Solves(first, last, index) {
      if first == 0 {
        assert first * 0 + last == index;
      } else {
        var n := diff / first;
        Quotient(diff, first);
        assert first * n + last == index;
      }
    }
    if n: nat :| first * n + last == index {
      assert diff == first * n;
      if first != 0 { Multiple(first, n); }
    }
  }

  lemma Quotient(diff: int, first: int)
    requires first != 0 && diff % first == 0 && (diff == 0 || (diff > 0 <==> first > 0))
    ensures diff / first >= 0 && first * (diff / first) == diff
  {
    var q := diff / first;
    assert diff == first * q;
    if q < 0 {
      if first > 0 { Product(first, -q); } else { Product(-first, -q); }
    }
  }

  lemma Product(a: int, b: int)
    requires a > 0 && b > 0
    ensures a * b > 0
  {
  }

  lemma Multiple(first: int, n: nat)
    requires first != 0
    ensures (first * n) % first == 0
    ensures first * n == 0 || (first * n > 0 <==> first > 0)
  {
    Remainder(first, n, (first * n) / first, (first * n) % first);
    if n > 0 {
      if first > 0 { Product(first, n); } else { Product(-first, n); }
    }
  }

  lemma Remainder(first: int, n: int, q: int, r: int)
    requires first != 0 && first * n == first * q + r && 0 <= r && (first > 0 ==> r < first)
             && (first < 0 ==> r < -first)
    ensures r == 0
  {
    assert r == first * (n - q);
    if n != q {
      var d := if n > q then n - q else q - n;
      var f := if first > 0 then first else -first;
      Scale(f, d);
    }
  }

  lemma Scale(f: int, d: int)
    requires f > 0 && d > 0
    ensures f * d >= f
  {
  }

  // ------------------------------------------------------------------ the marks

  ghost predicate Indexed(dom: Dom, e: Path, nodeIndex: map<Path, nat>) {
    e != [] && IsElement(dom, e) ==> e in nodeIndex && nodeIndex[e] == Place(dom, e)
  }

  /** Below a node that carries the name of a test, every element has its index. */
  ghost predicate Marked(dom: Dom, sizcache: map<Path, nat>, nodeIndex: map<Path, nat>, tests: set<nat>) {
    forall e :: e != [] && Parent(e) in sizcache && sizcache[Parent(e)] in tests ==> Indexed(dom, e, nodeIndex)
  }

  /** The first `k` children of the parent have their index. */
  ghost predicate CountedTo(dom: Dom, parent: Path, k: nat, nodeIndex: map<Path, nat>) {
    forall j: nat :: j < k ==> Indexed(dom, parent + [j], nodeIndex)
  }

  lemma CountOne(dom: Dom, parent: Path, k: nat, sizcache: map<Path, nat>, nodeIndex: map<Path, nat>, tests: set<nat>,
                 count: nat)
    requires Marked(dom, sizcache, nodeIndex, tests) && CountedTo(dom, parent, k, nodeIndex)
    requires IsNode(dom, parent) && k < |KidsAt(dom, parent)| && count == Elements(KidsAt(dom, parent), k)
    ensures var next :=
              if KidsAt(dom, parent)[k].value.Element? then nodeIndex[parent + [k] := count + 1] else nodeIndex;
            Marked(dom, sizcache, next, tests) && CountedTo(dom, parent, k + 1, next)
  {
    ChildIsNode(dom, parent, k);
    var e := parent + [k];
    assert Parent(e) == parent && Last(e) == k;
    if KidsAt(dom, parent)[k].value.Element? {
      assert Place(dom, e) == count + 1;
      var next := nodeIndex[e := count + 1];
      forall q ensures Indexed(dom, q, nodeIndex) ==> Indexed(dom, q, next) {}
    }
  }

  lemma CountAll(dom: Dom, parent: Path, name: nat, sizcache: map<Path, nat>, nodeIndex: map<Path, nat>,
                 tests: set<nat>)
    requires Marked(dom, sizcache, nodeIndex, tests) && IsNode(dom, parent)
    requires CountedTo(dom, parent, |KidsAt(dom, parent)|, nodeIndex)
    ensures Marked(dom, sizcache[parent := name], nodeIndex, tests)
    ensures forall e :: e != [] && Parent(e) == parent ==> Indexed(dom, e, nodeIndex)
  {
    forall e | e != [] && Parent(e) == parent ensures Indexed(dom, e, nodeIndex) {
      assert e == parent + [Last(e)];
      ChildIsNode(dom, parent, Last(e));
    }
  }

  /** The marks on the nodes. The names in `tests` belong to nth-child tests, all others to walks. */
  class Marks {
    var sizcache: map<Path, nat>
    var nodeIndex: map<Path, nat>
    ghost var tests: set<nat>

    ghost predicate Valid(dom: Dom)
      reads this
    {
      Marked(dom, sizcache, nodeIndex, tests)
    }

    constructor (dom: Dom)
      ensures Valid(dom) && tests == {}
    {
      sizcache, nodeIndex, tests := map[], map[], {};
    }

    /** `match[0] = done++` in the pre-filter: a name that no node carries. */
    ghost method StartTest(dom: Dom, name: nat)
      requires Valid(dom) && forall p :: p in sizcache ==> sizcache[p] != name
      modifies `tests
      ensures Valid(dom) && tests == old(tests) + {name}
    {
      tests := tests + {name};
    }

    /** A walk of the engine marks a node with its own name. */
    method MarkByWalk(dom: Dom, e: Path, name: nat)
      requires Valid(dom) && name !in tests
      modifies `sizcache
      ensures Valid(dom) && sizcache == old(sizcache)[e := name]
    {
      sizcache := sizcache[e := name];
    }

    /** The loop over the children of the parent. */
    method Count(dom: Dom, parent: Path, name: nat)
      requires Valid(dom) && IsNode(dom, parent)
      modifies `sizcache, `nodeIndex
      ensures Valid(dom) && sizcache == old(sizcache)[parent := name]
      ensures forall e :: e != [] && Parent(e) == parent ==> Indexed(dom, e, nodeIndex)
    {
      var kids := KidsAt(dom, parent);
      var count := 0;
      for k := 0 to |kids|
        invariant count == Elements(kids, k) && Valid(dom) && sizcache == old(sizcache)
        invariant CountedTo(dom, parent, k, nodeIndex)
      {
        CountOne(dom, parent, k, sizcache, nodeIndex, tests, count);
        if kids[k].value.Element? {
          count := count + 1;
          nodeIndex := nodeIndex[parent + [k] := count];
        }
      }
      CountAll(dom, parent, name, sizcache, nodeIndex, tests);
      sizcache := sizcache[parent := name];
    }

    /** `CHILD` with `nth`: whatever the walks did to the marks in between, the answer is right. A
        node without a parent, be it the document, has no index. */
    method Nth(dom: Dom, elem: Path, name: nat, first: int, last: int) returns (b: bool)
      requires Valid(dom) && name in tests && (elem == [] || IsElement(dom, elem))
      modifies `sizcache, `nodeIndex
      ensures Valid(dom)
      ensures elem != [] ==> (b <==> exists n: nat :: first * n + last == Place(dom, elem))
      ensures elem == [] ==> (b <==> first == 1 && last == 0)
    {
      if elem != [] { SolvesExactly(first, last, Place(dom, elem)); }
      if first == 1 && last == 0 {
        return true;
      }
      if elem == [] {
        return false;
      }
      var parent := Parent(elem);
      PrefixIsNode(dom, parent, elem);
      if parent !in sizcache || sizcache[parent] != name || elem !in nodeIndex {
        Count(dom, parent, name);
      }
      b := Solves(first, last, nodeIndex[elem]);
    }
  }
}

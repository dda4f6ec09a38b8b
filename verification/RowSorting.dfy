/** The multi-column order of `_fnSort` and the sorted row indices. */
module RowSorting {
  import opened IndexArrays
  import opened Sequences

  type Comparator<!T> = (T, T) -> int

  /** The first column that tells the rows apart decides. */
  function Compare<T>(columns: seq<Comparator<T>>, x: T, y: T): int {
    if columns == [] then 0
    else if columns[0](x, y) != 0 then columns[0](x, y)
    else Compare(columns[1..], x, y)
  }

  /** The comparison of two row indices: by the columns, then by the places before sorting. */
  function Local<T>(rows: seq<T>, columns: seq<Comparator<T>>, aiOrig: seq<nat>, a: nat, b: nat): int {
    if a < |rows| && b < |rows| && Compare(columns, rows[a], rows[b]) != 0 then Compare(columns, rows[a], rows[b])
    else if a < |aiOrig| && b < |aiOrig| then aiOrig[a] as int - aiOrig[b] as int
    else 0
  }

  function RowOrder<T>(rows: seq<T>, columns: seq<Comparator<T>>, aiOrig: seq<nat>): Comparator<nat> {
    (a: nat, b: nat) => Local(rows, columns, aiOrig, a, b)
  }

  /** The function given to the host's sort. */
  method LocalSorting<T>(rows: seq<T>, columns: seq<Comparator<T>>, aiOrig: seq<nat>, a: nat, b: nat)
    returns (iTest: int)
    requires a < |rows| == |aiOrig| && b < |rows|
    ensures iTest == Local(rows, columns, aiOrig, a, b)
  {
    assert columns[0..] == columns;
    for i := 0 to |columns|
      invariant Compare(columns, rows[a], rows[b]) == Compare(columns[i..], rows[a], rows[b])
    {
      assert columns[i..][1..] == columns[i + 1..];
      iTest := columns[i](rows[a], rows[b]);
      if iTest != 0 {
        return;
      }
    }
    return aiOrig[a] as int - aiOrig[b] as int;
  }

  /** `aiOrig[ aiDisplayMaster[i] ] = i`. */
  method FillOrig(master: seq<nat>) returns (aiOrig: seq<nat>)
    requires IsOrder(master, |master|)
    ensures Places(aiOrig, master)
  {
    aiOrig := seq(|master|, _ => 0);
    for i := 0 to |master|
      invariant |aiOrig| == |master|
      invariant forall j :: 0 <= j < i ==> Placed(aiOrig, master[j], j)
    {
      assert master[i] in master;
      forall j | 0 <= j < i ensures master[j] != master[i] { assert Differ(master, j, i); }
      aiOrig := aiOrig[master[i] := i];
    }
  }

  ghost predicate Placed(aiOrig: seq<nat>, x: nat, place: nat) {
    x < |aiOrig| && aiOrig[x] == place
  }

  ghost predicate Places(aiOrig: seq<nat>, master: seq<nat>) {
    |aiOrig| == |master| && forall j :: 0 <= j < |master| ==> Placed(aiOrig, master[j], j)
  }

  // ------------------------------------------------------------------ the order

  ghost predicate Preorder<T(!new)>(c: Comparator<T>) {
    && (forall x, y :: c(x, y) < 0 <==> c(y, x) > 0)
    && forall x, y, z :: c(x, y) <= 0 && c(y, z) <= 0 ==> c(x, z) <= 0
  }

  ghost predicate StrictOrder(less: Comparator<nat>, s: seq<nat>) {
    && (forall x, y :: x in s && y in s ==> (less(x, y) < 0 <==> less(y, x) > 0))
    && (forall x, y :: x in s && y in s && x != y ==> less(x, y) != 0)
    && forall x, y, z :: x in s && y in s && z in s && less(x, y) < 0 && less(y, z) < 0 ==> less(x, z) < 0
  }

  ghost predicate SortedBy(s: seq<nat>, less: Comparator<nat>) {
    forall i, j :: 0 <= i < j < |s| ==> less(s[i], s[j]) < 0
  }

  ghost predicate SameElements(s: seq<nat>, t: seq<nat>) {
    forall x :: x in s <==> x in t
  }

  ghost predicate Among(s: seq<nat>, all: seq<nat>) {
    forall x :: x in s ==> x in all
  }

  ghost predicate SortedAmong(s: seq<nat>, less: Comparator<nat>, all: seq<nat>) {
    SortedBy(s, less) && Among(s, all)
  }

  /** The first column that tells two rows apart decides, whatever the later ones say. */
  lemma {:induction false} FirstColumnDecides<T>(columns: seq<Comparator<T>>, i: nat, x: T, y: T)
    requires i < |columns| && columns[i](x, y) != 0 && forall j :: 0 <= j < i ==> columns[j](x, y) == 0
    ensures Compare(columns, x, y) == columns[i](x, y)
  {
    if i > 0 {
      assert columns[0](x, y) == 0;
      FirstColumnDecides(columns[1..], i - 1, x, y);
    }
  }

  /** Rows are equal exactly if no column tells them apart. */
  lemma {:induction false} EqualInAllColumns<T>(columns: seq<Comparator<T>>, x: T, y: T)
    ensures Compare(columns, x, y) == 0 <==> forall j :: 0 <= j < |columns| ==> columns[j](x, y) == 0
  {
    if columns != [] {
      EqualInAllColumns(columns[1..], x, y);
      assert forall j :: 0 < j < |columns| ==> columns[j] == columns[1..][j - 1];
      if forall j :: 0 <= j < |columns[1..]| ==> columns[1..][j](x, y) == 0 {
        forall j | 0 < j < |columns| ensures columns[j](x, y) == 0 { assert columns[1..][j - 1](x, y) == 0; }
      }
    }
  }

  /** Comparing by several columns is a preorder again. */
  lemma {:induction false} CompareIsPreorder<T(!new)>(columns: seq<Comparator<T>>, x: T, y: T, z: T)
    requires forall c :: c in columns ==> Preorder(c)
    ensures Compare(columns, x, y) < 0 <==> Compare(columns, y, x) > 0
    ensures Compare(columns, x, y) <= 0 && Compare(columns, y, z) <= 0 ==> Compare(columns, x, z) <= 0
    ensures Compare(columns, x, y) <= 0 && Compare(columns, y, z) < 0 ==> Compare(columns, x, z) < 0
    ensures Compare(columns, x, y) < 0 && Compare(columns, y, z) <= 0 ==> Compare(columns, x, z) < 0
  {
    if columns != [] {
      var c := columns[0];
      assert Preorder(c);
      CompareIsPreorder(columns[1..], x, y, z);
      assert c(x, y) < 0 <==> c(y, x) > 0;
      assert c(y, x) < 0 <==> c(x, y) > 0;
      if c(x, y) <= 0 && c(y, z) <= 0 { PreorderIsStrict(c, x, y, z); }
    }
  }

  lemma PreorderIsStrict<T(!new)>(c: Comparator<T>, x: T, y: T, z: T)
    requires Preorder(c) && c(x, y) <= 0 && c(y, z) <= 0
    ensures c(x, z) <= 0
    ensures c(x, y) < 0 || c(y, z) < 0 ==> c(x, z) < 0
    ensures c(x, y) == 0 && c(y, z) == 0 ==> c(x, z) == 0
  {
    if c(x, z) >= 0 {
      assert c(z, x) <= 0;
      assert c(y, x) <= 0 && c(z, y) <= 0;
    }
  }

  /** With the places as a tie-break the comparison of row indices is a strict total order. */
  lemma LocalIsStrict<T(!new)>(rows: seq<T>, columns: seq<Comparator<T>>, aiOrig: seq<nat>, master: seq<nat>)
    requires (forall c :: c in columns ==> Preorder(c)) && |rows| == |master| && Places(aiOrig, master)
    ensures StrictOrder(RowOrder(rows, columns, aiOrig), master)
  {
    forall x, y | x in master && y in master
      ensures Local(rows, columns, aiOrig, x, y) < 0 <==> Local(rows, columns, aiOrig, y, x) > 0
      ensures x != y ==> Local(rows, columns, aiOrig, x, y) != 0
    {
      CompareIsPreorder(columns, rows[x], rows[y], rows[x]);
      CompareIsPreorder(columns, rows[y], rows[x], rows[y]);
      var i :| 0 <= i < |master| && master[i] == x;
      var j :| 0 <= j < |master| && master[j] == y;
    }
    forall x, y, z | x in master && y in master && z in master
                     && Local(rows, columns, aiOrig, x, y) < 0 && Local(rows, columns, aiOrig, y, z) < 0
      ensures Local(rows, columns, aiOrig, x, z) < 0
    {
      CompareIsPreorder(columns, rows[x], rows[y], rows[z]);
      CompareIsPreorder(columns, rows[z], rows[y], rows[x]);
    }
  }

  // ------------------------------------------------------------------ sorting

  function Insert(x: nat, s: seq<nat>, less: Comparator<nat>): seq<nat> {
    if s == [] || less(x, s[0]) < 0 then [x] + s else [s[0]] + Insert(x, s[1..], less)
  }

  /** One way to sort; any other gives the same. */
  function Arrange(s: seq<nat>, less: Comparator<nat>): seq<nat> {
    if s == [] then [] else Insert(s[0], Arrange(s[1..], less), less)
  }

  lemma {:induction false} InsertElements(x: nat, s: seq<nat>, less: Comparator<nat>, y: nat)
    ensures |Insert(x, s, less)| == |s| + 1
    ensures y in Insert(x, s, less) <==> y == x || y in s
  {
    if s != [] && less(x, s[0]) >= 0 {
      InsertElements(x, s[1..], less, y);
      assert s == [s[0]] + s[1..];
    }
  }

  lemma {:induction false} InsertDistinct(x: nat, s: seq<nat>, less: Comparator<nat>)
    requires Distinct(s) && x !in s
    ensures Distinct(Insert(x, s, less))
  {
    DistinctFront([x] + s);
    assert ([x] + s)[1..] == s;
    if s != [] && less(x, s[0]) >= 0 {
      DistinctFront(s);
      assert s == [s[0]] + s[1..];
      InsertDistinct(x, s[1..], less);
      InsertElements(x, s[1..], less, s[0]);
      assert Insert(x, s, less)[1..] == Insert(x, s[1..], less);
      DistinctFront(Insert(x, s, less));
    }
  }

  lemma {:induction false} ArrangeElements(s: seq<nat>, less: Comparator<nat>, y: nat)
    ensures |Arrange(s, less)| == |s|
    ensures y in Arrange(s, less) <==> y in s
  {
    if s != [] {
      ArrangeElements(s[1..], less, y);
      InsertElements(s[0], Arrange(s[1..], less), less, y);
      assert s == [s[0]] + s[1..];
    }
  }

  lemma {:induction false} ArrangeDistinct(s: seq<nat>, less: Comparator<nat>)
    requires Distinct(s)
    ensures Distinct(Arrange(s, less))
  {
    if s != [] {
      DistinctFront(s);
      ArrangeElements(s[1..], less, s[0]);
      ArrangeDistinct(s[1..], less);
      InsertDistinct(s[0], Arrange(s[1..], less), less);
    }
  }

  /** Sorting permutes. */
  lemma ArrangeKeepsOrder(m: seq<nat>, n: nat, less: Comparator<nat>)
    requires IsOrder(m, n)
    ensures IsOrder(Arrange(m, less), n)
  {
    ArrangeDistinct(m, less);
    ArrangeElements(m, less, 0);
    forall y: nat ensures y in Arrange(m, less) <==> y < n {
      ArrangeElements(m, less, y);
    }
  }

  lemma SortedFront(x: nat, s: seq<nat>, less: Comparator<nat>)
    requires SortedBy(s, less) && forall y :: y in s ==> less(x, y) < 0
    ensures SortedBy([x] + s, less)
  {
    var t := [x] + s;
    forall i, j | 0 <= i < j < |t| ensures less(t[i], t[j]) < 0 {
      assert t[j] == s[j - 1] && s[j - 1] in s;
      assert i > 0 ==> t[i] == s[i - 1];
    }
  }

  lemma FirstIsLeast(s: seq<nat>, less: Comparator<nat>, y: nat)
    requires SortedBy(s, less) && y in s
    ensures y == s[0] || less(s[0], y) < 0
  {
    var i :| 0 <= i < |s| && s[i] == y;
  }

  lemma StrictChain(less: Comparator<nat>, all: seq<nat>, x: nat, y: nat, z: nat)
    requires StrictOrder(less, all) && x in all && y in all && z in all
    ensures less(x, y) < 0 && less(y, z) < 0 ==> less(x, z) < 0
    ensures x == y || less(x, y) < 0 || less(y, x) < 0
  {
  }

  lemma {:induction false} InsertSorts(x: nat, s: seq<nat>, less: Comparator<nat>, all: seq<nat>)
    requires StrictOrder(less, all) && SortedBy(s, less) && x in all && x !in s && Among(s, all)
    ensures SortedBy(Insert(x, s, less), less)
  {
    if s == [] {
    } else if less(x, s[0]) < 0 {
      forall y | y in s ensures less(x, y) < 0 {
        FirstIsLeast(s, less, y);
        StrictChain(less, all, x, s[0], y);
      }
      SortedFront(x, s, less);
    } else {
      var tail := s[1..];
      assert s == [s[0]] + tail;
      InsertSorts(x, tail, less, all);
      forall y | y in Insert(x, tail, less) ensures less(s[0], y) < 0 {
        InsertElements(x, tail, less, y);
        InsertedAfter(x, s, less, all, y);
      }
      SortedFront(s[0], Insert(x, tail, less), less);
    }
  }

  lemma InsertedAfter(x: nat, s: seq<nat>, less: Comparator<nat>, all: seq<nat>, y: nat)
    requires StrictOrder(less, all) && SortedBy(s, less) && x in all && s != [] && x !in s && Among(s, all)
    requires less(x, s[0]) >= 0 && (y == x || y in s[1..])
    ensures less(s[0], y) < 0
  {
    StrictChain(less, all, x, s[0], x);
    if y != x {
      var i :| 0 < i < |s| && s[i] == y;
    }
  }

  lemma {:induction false} ArrangeSorts(s: seq<nat>, less: Comparator<nat>, all: seq<nat>)
    requires StrictOrder(less, all) && Distinct(s) && Among(s, all)
    ensures SortedBy(Arrange(s, less), less)
  {
    if s != [] {
      DistinctFront(s);
      assert s[0] in s;
      ArrangeSorts(s[1..], less, all);
      var t := Arrange(s[1..], less);
      forall y: nat ensures y in t <==> y in s[1..] { ArrangeElements(s[1..], less, y); }
      InsertSorts(s[0], t, less, all);
    }
  }

  /** Two sorted sequences of the same rows are equal: the order leaves a sort no choice. */
  lemma {:induction false} SortIsUnique(s: seq<nat>, t: seq<nat>, less: Comparator<nat>, all: seq<nat>)
    requires StrictOrder(less, all) && SameElements(s, t) && SortedAmong(s, less, all) && SortedAmong(t, less, all)
    ensures s == t
  {
    EmptyTogether(s, t);
    if s != [] {
      SameFirst(s, t, less, all);
      SameTails(s, t, less, all);
      SortIsUnique(s[1..], t[1..], less, all);
      SameParts(s, t);
    }
  }

  lemma SameParts(s: seq<nat>, t: seq<nat>)
    requires s != [] && t != [] && s[0] == t[0] && s[1..] == t[1..]
    ensures s == t
  {
    assert s == [s[0]] + s[1..] && t == [t[0]] + t[1..];
  }

  lemma EmptyTogether(s: seq<nat>, t: seq<nat>)
    requires SameElements(s, t)
    ensures s == [] <==> t == []
  {
    if s != [] { assert s[0] in s; }
    if t != [] { assert t[0] in t; }
  }

  lemma SameTails(s: seq<nat>, t: seq<nat>, less: Comparator<nat>, all: seq<nat>)
    requires StrictOrder(less, all) && s != [] && t != [] && s[0] == t[0]
    requires SameElements(s, t) && SortedAmong(s, less, all) && SortedAmong(t, less, all)
    ensures SameElements(s[1..], t[1..]) && SortedAmong(s[1..], less, all) && SortedAmong(t[1..], less, all)
  {
    forall x: nat ensures x in s[1..] <==> x in t[1..] {
      TailElement(s, less, all, x);
      TailElement(t, less, all, x);
    }
  }

  lemma SameFirst(s: seq<nat>, t: seq<nat>, less: Comparator<nat>, all: seq<nat>)
    requires StrictOrder(less, all) && s != [] && t != []
    requires SameElements(s, t) && SortedAmong(s, less, all) && SortedAmong(t, less, all)
    ensures s[0] == t[0]
  {
    assert s[0] in s && t[0] in t;
    FirstIsLeast(s, less, t[0]);
    FirstIsLeast(t, less, s[0]);
  }

  lemma TailElement(s: seq<nat>, less: Comparator<nat>, all: seq<nat>, x: nat)
    requires StrictOrder(less, all) && SortedBy(s, less) && s != [] && Among(s, all)
    ensures x in s[1..] <==> x in s && x != s[0]
  {
    assert s == [s[0]] + s[1..];
    if x in s[1..] {
      var i :| 0 < i < |s| && s[i] == x;
      assert less(s[0], s[i]) < 0;
      assert s[0] in s;
    }
  }

  /** The rows in the order of `s`, which sorts those of `master`: by the columns first, and equal
      rows in the order they had. */
  ghost predicate StablySorted<T(!new)>(rows: seq<T>, columns: seq<Comparator<T>>, master: seq<nat>, s: seq<nat>) {
    && IsOrder(s, |rows|)
    && forall i, j :: 0 <= i < j < |s| ==> Precedes(rows, columns, master, s[i], s[j])
  }

  ghost predicate Precedes<T(!new)>(rows: seq<T>, columns: seq<Comparator<T>>, master: seq<nat>, a: nat, b: nat) {
    a < |rows| && b < |rows| &&
    (Compare(columns, rows[a], rows[b]) < 0 || (Compare(columns, rows[a], rows[b]) == 0 && Earlier(master, a, b)))
  }

  ghost predicate Earlier(master: seq<nat>, a: nat, b: nat) {
    exists i, j :: 0 <= i < j < |master| && master[i] == a && master[j] == b
  }

  lemma LocalPrecedes<T(!new)>(rows: seq<T>, columns: seq<Comparator<T>>, aiOrig: seq<nat>, master: seq<nat>, a: nat,
                               b: nat)
    requires IsOrder(master, |rows|) && Places(aiOrig, master) && a < |rows| && b < |rows|
    ensures Local(rows, columns, aiOrig, a, b) < 0 <==> Precedes(rows, columns, master, a, b)
  {
    assert a in master && b in master;
    var i :| 0 <= i < |master| && master[i] == a;
    var j :| 0 <= j < |master| && master[j] == b;
    assert Placed(aiOrig, master[i], i) && Placed(aiOrig, master[j], j);
    if Earlier(master, a, b) {
      var i', j' :| 0 <= i' < j' < |master| && master[i'] == a && master[j'] == b;
      assert Placed(aiOrig, master[i'], i') && Placed(aiOrig, master[j'], j');
    }
  }

  /** Sorting any permutation of the rows: the result exists and is the only one. */
  lemma SortIsStable<T(!new)>(rows: seq<T>, columns: seq<Comparator<T>>, aiOrig: seq<nat>, master: seq<nat>)
    requires (forall c :: c in columns ==> Preorder(c)) && IsOrder(master, |rows|) && Places(aiOrig, master)
    ensures forall s :: StablySorted(rows, columns, master, s)
              <==> s == Arrange(master, RowOrder(rows, columns, aiOrig))
  {
    var less := RowOrder(rows, columns, aiOrig);
    LocalIsStrict(rows, columns, aiOrig, master);
    ArrangeSorts(master, less, master);
    ArrangeKeepsOrder(master, |rows|, less);
    var sorted := Arrange(master, less);
    forall i, j | 0 <= i < j < |sorted| ensures Precedes(rows, columns, master, sorted[i], sorted[j]) {
      assert sorted[i] in sorted && sorted[j] in sorted;
      LocalPrecedes(rows, columns, aiOrig, master, sorted[i], sorted[j]);
    }
    forall s | StablySorted(rows, columns, master, s) ensures s == sorted {
      forall i, j | 0 <= i < j < |s| ensures less(s[i], s[j]) < 0 {
        assert Precedes(rows, columns, master, s[i], s[j]);
        LocalPrecedes(rows, columns, aiOrig, master, s[i], s[j]);
      }
      SortIsUnique(s, sorted, less, master);
    }
  }
}

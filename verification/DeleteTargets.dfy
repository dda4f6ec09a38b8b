/** What `fnDeleteRow` does to the index arrays for a target that is not the number of a row. */
module DeleteTargets {
  import opened IndexArrays
  import opened Sequences

  /** A number, or the null that `_fnNodeToDataIndex` gives for a node that is in no row. */
  datatype Target = Number(k: int) | NoRow

  /** `x > target`; null counts as 0. */
  predicate IsAbove(x: int, target: Target) {
    x > if target.Number? then target.k else 0
  }

  function Lowered(x: int, target: Target): int {
    if IsAbove(x, target) then x - 1 else x
  }

  /** `_fnDeleteIndex` on an array without repetitions; null equals no number. */
  function DeletedTarget(a: seq<int>, target: Target): seq<int> {
    if a == [] then []
    else (if target == Number(a[0]) then [] else [Lowered(a[0], target)]) + DeletedTarget(a[1..], target)
  }

  /** `splice(target, 1)`: a number below 0 counts from the end, null is 0. */
  function SplicedRows<T>(rows: seq<T>, target: Target): seq<T> {
    var k :=
      if target.NoRow? then 0
      else if target.k >= 0 then target.k
      else if |rows| + target.k > 0 then |rows| + target.k
      else 0;
    if k < |rows| then rows[..k] + rows[k + 1..] else rows
  }

  /** The numbers below `n`, each once. */
  ghost predicate IsRowOrder(a: seq<int>, n: nat) {
    (forall i :: 0 <= i < |a| ==> a[i] >= 0) && IsOrder(a, n)
  }

  lemma {:induction false} DeletedNumber(a: seq<nat>, k: nat)
    ensures DeletedTarget(a, Number(k)) == Deleted(a, k)
  {
    if a != [] { DeletedNumber(a[1..], k); }
  }

  lemma {:induction false} NothingGoes(a: seq<int>, target: Target)
    requires target.Number? ==> target.k !in a
    ensures |DeletedTarget(a, target)| == |a|
  {
    if a != [] {
      assert a[0] in a;
      NothingGoes(a[1..], target);
    }
  }

  /** The index array of all rows stays one exactly if the target is a number that is not below 0, or
      there is no row: in every other case a row goes whose number stays. */
  lemma DeletingKeepsOrder<T>(rows: seq<T>, master: seq<nat>, target: Target)
    requires IsOrder(master, |rows|)
    ensures IsRowOrder(DeletedTarget(master, target), |SplicedRows(rows, target)|)
       <==> rows == [] || (target.Number? && target.k >= 0)
  {
    if target.Number? && target.k >= 0 {
      DeletedNumber(master, target.k);
      if target.k < |rows| {
        OrderDeleted(master, |rows|, target.k);
      } else {
        forall i | 0 <= i < |master| ensures master[i] < |rows| { assert master[i] in master; }
        NothingDeleted(master, |rows|, target.k);
      }
    } else {
      NothingGoes(master, target);
    }
  }

  /** Deleting a node that is in no row removes the first of two rows, and leaves the number 0 twice. */
  lemma UnknownNodeRemovesRow()
    ensures SplicedRows(["a", "b"], NoRow) == ["b"] && DeletedTarget([0, 1], NoRow) == [0, 0]
  {
    assert [0, 1][1..] == [1] && [1][1..] == [];
    assert DeletedTarget([1], NoRow) == [0];
  }

  /** A number below 0 removes a row counted from the end, and moves all numbers down. */
  lemma NegativeNumberCountsFromEnd()
    ensures SplicedRows(["a", "b", "c"], Number(-1)) == ["a", "b"] && DeletedTarget([0, 1, 2], Number(-1)) == [-1, 0, 1]
  {
    assert [0, 1, 2][1..] == [1, 2] && [1, 2][1..] == [2] && [2][1..] == [];
    assert DeletedTarget([2], Number(-1)) == [1];
    assert DeletedTarget([1, 2], Number(-1)) == [0, 1];
  }
}

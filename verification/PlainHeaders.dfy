/** Headers without span attributes: a missing attribute counts as 1. */
module PlainHeaders {
  import opened Wrappers
  import opened Header

  // ------------------------------------------------------------------ attributes written out

  /** The cell with its missing attributes written out as 1. */
  function WrittenOut(th: Th): Th {
    Th(th.cell, if th.colspan == 0 then 1 else th.colspan, if th.rowspan == 0 then 1 else th.rowspan)
  }

  function RowWrittenOut(row: seq<Th>): (r: seq<Th>)
    ensures |r| == |row| && forall k :: 0 <= k < |row| ==> r[k] == WrittenOut(row[k])
  {
    seq(|row|, k requires 0 <= k < |row| => WrittenOut(row[k]))
  }

  function HeaderWrittenOut(rows: seq<seq<Th>>): (r: seq<seq<Th>>)
    ensures |r| == |rows| && forall k :: 0 <= k < |rows| ==> r[k] == RowWrittenOut(rows[k])
  {
    seq(|rows|, k requires 0 <= k < |rows| => RowWrittenOut(rows[k]))
  }

  lemma {:induction false} RowAsWrittenOut(lay: Layout, i: nat, row: seq<Th>)
    requires i < |lay.rows| == |lay.nTr|
    ensures PlaceRow(lay, i, RowWrittenOut(row)) == PlaceRow(lay, i, row)
    decreases |row|
  {
    if row != [] {
      assert RowWrittenOut(row)[1..] == RowWrittenOut(row[1..]);
      assert Place(lay, i, RowWrittenOut(row)[0]) == Place(lay, i, row[0]);
      if Place(lay, i, row[0]).Some? { RowAsWrittenOut(Place(lay, i, row[0]).value, i, row[1..]); }
    }
  }

  lemma {:induction false} RowsAsWrittenOut(lay: Layout, i: nat, rows: seq<seq<Th>>)
    requires i <= |lay.rows| == |lay.nTr| == |rows|
    ensures PlaceRows(lay, i, HeaderWrittenOut(rows)) == PlaceRows(lay, i, rows)
    decreases |rows| - i
  {
    if i < |rows| {
      RowAsWrittenOut(lay, i, rows[i]);
      if PlaceRow(lay, i, rows[i]).Some? { RowsAsWrittenOut(PlaceRow(lay, i, rows[i]).value, i + 1, rows); }
    }
  }

  /** Writing out missing attributes as 1 leaves what is decoded as it is. */
  lemma MissingIsOne(rows: seq<seq<Th>>)
    ensures Detect(HeaderWrittenOut(rows)) == Detect(rows)
  {
    RowsAsWrittenOut(Empty(|rows|), 0, rows);
  }

  // ------------------------------------------------------------------ one square each

  predicate Plain(th: Th) {
    th.colspan <= 1 && th.rowspan <= 1
  }

  ghost predicate PlainRow(row: seq<Th>) {
    forall k :: 0 <= k < |row| ==> Plain(row[k])
  }

  /** The row has exactly the columns below `n`, with the first `n` of the cells in them. */
  ghost predicate Shows(row: map<nat, nat>, cells: seq<Th>, n: nat) {
    n <= |cells| && forall c: nat :: (c in row <==> c < n) && (c in row ==> row[c] == cells[c].cell)
  }

  lemma PlacePlain(lay: Layout, i: nat, cells: seq<Th>, j: nat)
    requires i < |lay.rows| == |lay.nTr| && j < |cells| && Plain(cells[j]) && Shows(lay.rows[i], cells, j)
    ensures var next := Place(lay, i, cells[j]);
            && next.Some? && |next.value.rows| == |lay.rows| && Shows(next.value.rows[i], cells, j + 1)
            && forall r :: 0 <= r < |lay.rows| && r != i ==> next.value.rows[r] == lay.rows[r]
  {
    assert FirstFree(lay.rows[i], 0) == j;
  }

  lemma {:induction false} PlacePlainRow(lay: Layout, i: nat, cells: seq<Th>, j: nat)
    requires i < |lay.rows| == |lay.nTr| && j <= |cells| && PlainRow(cells) && Shows(lay.rows[i], cells, j)
    ensures var next := PlaceRow(lay, i, cells[j..]);
            && next.Some? && |next.value.rows| == |lay.rows| && Shows(next.value.rows[i], cells, |cells|)
            && forall r :: 0 <= r < |lay.rows| && r != i ==> next.value.rows[r] == lay.rows[r]
    decreases |cells| - j
  {
    if j < |cells| {
      assert cells[j..][0] == cells[j] && cells[j..][1..] == cells[j + 1..];
      PlacePlain(lay, i, cells, j);
      PlacePlainRow(Place(lay, i, cells[j]).value, i, cells, j + 1);
    }
  }

  /** The first `k` rows are placed. */
  ghost predicate ShowsRows(lay: Layout, rows: seq<seq<Th>>, k: nat) {
    |lay.rows| == |rows| && forall r :: 0 <= r < |rows| ==> Shows(lay.rows[r], rows[r], if r < k then |rows[r]| else 0)
  }

  /** A header without spans decodes to its rows: the cell in place `c` gets column `c`. */
  lemma PlainIsItself(rows: seq<seq<Th>>)
    requires forall r :: 0 <= r < |rows| ==> PlainRow(rows[r])
    ensures Detect(rows).Some? && |Detect(rows).value.rows| == |rows|
    ensures forall r :: 0 <= r < |rows| ==>
              forall c: nat :: (c in Detect(rows).value.rows[r] <==> c < |rows[r]|)
                               && (c < |rows[r]| ==> Detect(rows).value.rows[r][c] == rows[r][c].cell)
  {
    var keeps := (l: Layout, k: nat) => ShowsRows(l, rows, k);
    forall l: Layout, k: nat | k < |rows| && Shaped(l, |rows|) && keeps(l, k)
      ensures PlaceRow(l, k, rows[k]).Some? && keeps(PlaceRow(l, k, rows[k]).value, k + 1)
    {
      assert rows[k][0..] == rows[k];
      PlacePlainRow(l, k, rows[k], 0);
    }
    PlaceRowsKeep(Empty(|rows|), 0, rows, keeps);
    assert ShowsRows(Detect(rows).value, rows, |rows|);
    forall r | 0 <= r < |rows| ensures Shows(Detect(rows).value.rows[r], rows[r], |rows[r]|) {}
  }

  // ------------------------------------------------------------------ spans that leave the header

  /** The row spans of the row stay among the `n` rows of the header. */
  ghost predicate Inside(row: seq<Th>, i: nat, n: nat) {
    forall k :: 0 <= k < |row| ==> i + row[k].rowspan <= n
  }

  lemma {:induction false} RowThrowsExactly(lay: Layout, i: nat, row: seq<Th>)
    requires i < |lay.rows| == |lay.nTr|
    ensures PlaceRow(lay, i, row).Some? <==> Inside(row, i, |lay.rows|)
    decreases |row|
  {
    if row != [] {
      assert Place(lay, i, row[0]).Some? <==> i + row[0].rowspan <= |lay.rows|;
      if Place(lay, i, row[0]).Some? {
        RowThrowsExactly(Place(lay, i, row[0]).value, i, row[1..]);
        assert Inside(row, i, |lay.rows|) <==> Inside(row[1..], i, |lay.rows|) by {
          assert row == [row[0]] + row[1..];
        }
      }
    }
  }

  ghost predicate InsideFrom(rows: seq<seq<Th>>, i: nat) {
    forall r: nat :: i <= r < |rows| ==> Inside(rows[r], r, |rows|)
  }

  lemma InsideNext(rows: seq<seq<Th>>, i: nat)
    requires i < |rows|
    ensures InsideFrom(rows, i) <==> Inside(rows[i], i, |rows|) && InsideFrom(rows, i + 1)
  {
  }

  lemma {:induction false} RowsThrowExactly(lay: Layout, i: nat, rows: seq<seq<Th>>)
    requires i <= |lay.rows| == |lay.nTr| == |rows|
    ensures PlaceRows(lay, i, rows).Some? <==> InsideFrom(rows, i)
    decreases |rows| - i
  {
    if i < |rows| {
      InsideNext(rows, i);
      RowThrowsExactly(lay, i, rows[i]);
      if PlaceRow(lay, i, rows[i]).Some? { RowsThrowExactly(PlaceRow(lay, i, rows[i]).value, i + 1, rows); }
    }
  }

  /** Decoding throws exactly if a cell spans more rows than there are from its own on. */
  lemma ThrowsExactly(rows: seq<seq<Th>>)
    ensures Detect(rows) == None <==>
              exists r, k :: 0 <= r < |rows| && 0 <= k < |rows[r]| && rows[r][k].rowspan > |rows| - r
  {
    RowsThrowExactly(Empty(|rows|), 0, rows);
    if r, k :| 0 <= r < |rows| && 0 <= k < |rows[r]| && rows[r][k].rowspan > |rows| - r {
      assert !Inside(rows[r], r, |rows|);
    }
  }
}

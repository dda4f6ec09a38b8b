/** Rows of a header that own no cell: which TR their squares are drawn into, and exactly when the
    header drawn again shows its visible columns. */
module HeaderOwners {
  import opened Wrappers
  import opened Header
  import opened HeaderRoundTrip

  // ------------------------------------------------------------------ squares that hang down

  /** From row `i` on every square belongs to a cell that is also in the square above. */
  ghost predicate Hanging(lay: Layout, i: nat) {
    forall r: nat, c: nat :: i <= r < |lay.rows| && r > 0 && c in lay.rows[r] ==> SameIn(lay, r, c, r - 1, c)
  }

  lemma PlaceHangs(lay: Layout, i: nat, th: Th)
    requires i < |lay.rows| == |lay.nTr| && Fits(lay, i, th) && Hanging(lay, i + 1)
    ensures Place(lay, i, th).Some? && Hanging(Place(lay, i, th).value, i + 1)
  {
    PlacedSquares(lay, i, th, 0, 0, 0, 0);
    var next := Place(lay, i, th).value;
    forall r: nat, c: nat | i + 1 <= r < |next.rows| && r > 0 && c in next.rows[r]
      ensures SameIn(next, r, c, r - 1, c) {
      SquareHangs(lay, i, th, r, c);
    }
  }

  lemma SquareHangs(lay: Layout, i: nat, th: Th, r: nat, c: nat)
    requires i < r < |lay.rows| == |lay.nTr| && Fits(lay, i, th)
    requires c in lay.rows[r] ==> SameIn(lay, r, c, r - 1, c)
    ensures Place(lay, i, th).Some?
    ensures c in Place(lay, i, th).value.rows[r] ==> SameIn(Place(lay, i, th).value, r, c, r - 1, c)
  {
    PlacedSquare(lay, i, th, r, c);
    PlacedSquares(lay, i, th, r, c, r - 1, c);
  }

  lemma {:induction false} RowHangs(lay: Layout, i: nat, row: seq<Th>)
    requires i < |lay.rows| == |lay.nTr| && RowFits(lay, i, row) && Hanging(lay, i + 1)
    ensures PlaceRow(lay, i, row).Some? && Hanging(PlaceRow(lay, i, row).value, i + 1)
    decreases |row|
  {
    if row != [] {
      PlaceHangs(lay, i, row[0]);
      RowHangs(Place(lay, i, row[0]).value, i, row[1..]);
    }
  }

  // ------------------------------------------------------------------ squares that stay

  /** The squares of `lay` are in `next`, with the same cells, and the rows above `i` are the same. */
  ghost predicate Extends(lay: Layout, next: Layout, i: nat) {
    && |next.rows| == |lay.rows|
    && (forall r: nat :: r < i && r < |lay.rows| ==> next.rows[r] == lay.rows[r])
    && forall r: nat, c: nat :: r < |lay.rows| && c in lay.rows[r]
         ==> c in next.rows[r] && next.rows[r][c] == lay.rows[r][c]
  }

  lemma PlaceExtends(lay: Layout, i: nat, th: Th)
    requires i < |lay.rows| == |lay.nTr| && Fits(lay, i, th)
    ensures Place(lay, i, th).Some? && Extends(lay, Place(lay, i, th).value, i)
  {
    PlacedSquares(lay, i, th, 0, 0, 0, 0);
    forall r: nat, c: nat | r < |lay.rows| && c in lay.rows[r]
      ensures c in Place(lay, i, th).value.rows[r] && Place(lay, i, th).value.rows[r][c] == lay.rows[r][c]
    {
      PlacedSquare(lay, i, th, r, c);
    }
  }

  lemma {:induction false} RowExtends(lay: Layout, i: nat, row: seq<Th>)
    requires i < |lay.rows| == |lay.nTr| && RowFits(lay, i, row)
    ensures PlaceRow(lay, i, row).Some? && Extends(lay, PlaceRow(lay, i, row).value, i)
    decreases |row|
  {
    if row != [] {
      PlaceExtends(lay, i, row[0]);
      RowExtends(Place(lay, i, row[0]).value, i, row[1..]);
    }
  }

  lemma {:induction false} RowsExtend(lay: Layout, i: nat, rows: seq<seq<Th>>)
    requires i <= |lay.rows| == |lay.nTr| == |rows| && RowsFit(lay, i, rows)
    ensures PlaceRows(lay, i, rows).Some? && Extends(lay, PlaceRows(lay, i, rows).value, i)
    decreases |rows| - i
  {
    if i < |rows| {
      RowExtends(lay, i, rows[i]);
      RowsExtend(PlaceRow(lay, i, rows[i]).value, i + 1, rows);
    }
  }

  // ------------------------------------------------------------------ rows without a cell

  /** All squares of a row that owns no cell continue those of the row above. */
  lemma {:induction false} EmptyRowContinues(lay: Layout, i: nat, rows: seq<seq<Th>>, r: nat)
    requires i <= r < |rows| && |lay.rows| == |lay.nTr| == |rows| && RowsFit(lay, i, rows)
    requires Hanging(lay, i) && rows[r] == [] && r > 0
    ensures PlaceRows(lay, i, rows).Some?
    ensures var all := PlaceRows(lay, i, rows).value;
            forall c: nat :: c in all.rows[r] ==> SameIn(all, r, c, r - 1, c)
    decreases r - i
  {
    RowsExtend(lay, i, rows);
    if i < r {
      RowHangs(lay, i, rows[i]);
      EmptyRowContinues(PlaceRow(lay, i, rows[i]).value, i + 1, rows, r);
    } else {
      RowsExtend(lay, i + 1, rows);
    }
  }

  lemma FirstRowOwns(rows: seq<seq<Th>>, columns: nat)
    requires Sound(rows, columns) && columns > 0 && rows != []
    ensures rows[0] != []
  {
    assert 0 in Detect(rows).value.rows[0];
    if rows[0] == [] { RowsExtend(Empty(|rows|), 1, rows); }
  }

  /** No cell starts in such a row, whichever columns are hidden. */
  lemma EmptyRowStartsNothing(rows: seq<seq<Th>>, vis: seq<bool>, r: nat)
    requires Sound(rows, |vis|) && r < |rows| && rows[r] == [] && |vis| > 0
    ensures var v, n := Hide(GridOf(Detect(rows).value, |vis|), vis), |Columns(vis, 0)|;
            Dense(v, n) && DrawnRow(v, n, r, 0) == []
  {
    var lay, g := Detect(rows).value, GridOf(Detect(rows).value, |vis|);
    FirstRowOwns(rows, |vis|);
    EmptyRowContinues(Empty(|rows|), 0, rows, r);
    HideByColumns(g, vis);
    var v, n := Hide(g, vis), |Columns(vis, 0)|;
    forall k | 0 <= k < n ensures v[r][k] == v[r - 1][k] {
      var c := Columns(vis, 0)[k];
      assert SameIn(lay, r, c, r - 1, c);
    }
    ContinuedRowIsEmpty(v, n, r, 0);
  }

  lemma {:induction false} ContinuedRowIsEmpty(g: Grid, columns: nat, r: nat, c: nat)
    requires Dense(g, columns) && 0 < r < |g| && c <= columns && forall k :: 0 <= k < columns ==> g[r][k] == g[r - 1][k]
    ensures DrawnRow(g, columns, r, c) == []
    decreases columns - c
  {
    if c < columns {
      assert Top(g, columns, r, c) < r;
      ContinuedRowIsEmpty(g, columns, r, c + 1);
    }
  }

  // ------------------------------------------------------------------ rows with a cell

  /** The rows from `i` on still have to be placed, which leads to `all`. */
  ghost predicate Ahead(lay: Layout, i: nat, rows: seq<seq<Th>>, all: Layout) {
    i <= |lay.rows| && |lay.rows| == |lay.nTr| == |rows| == |all.rows| && RowsFit(lay, i, rows)
      && PlaceRows(lay, i, rows) == Some(all)
  }

  /** A cell has its left upper square at column `left` of row `r`. */
  ghost predicate StartsAt(all: Layout, r: nat, left: nat) {
    && r < |all.rows| && left in all.rows[r]
    && (r > 0 && left in all.rows[r - 1] ==> all.rows[r - 1][left] != all.rows[r][left])
    && (left > 0 ==> left - 1 in all.rows[r] && all.rows[r][left - 1] != all.rows[r][left])
  }

  lemma NextAhead(lay: Layout, i: nat, rows: seq<seq<Th>>, all: Layout)
    requires i < |rows| && Ahead(lay, i, rows, all)
    ensures PlaceRow(lay, i, rows[i]).Some? && Ahead(PlaceRow(lay, i, rows[i]).value, i + 1, rows, all)
  {
  }

  /** The first cell of a row starts there. */
  lemma FirstCellStarts(lay: Layout, i: nat, rows: seq<seq<Th>>, all: Layout)
    requires i < |rows| && rows[i] != [] && Ahead(lay, i, rows, all)
    ensures StartsAt(all, i, FirstFree(lay.rows[i], 0))
  {
    var th, left := rows[i][0], FirstFree(lay.rows[i], 0);
    PlaceExtends(lay, i, th);
    PlacedSquare(lay, i, th, i, left);
    RowExtends(Place(lay, i, th).value, i, rows[i][1..]);
    RowsExtend(PlaceRow(lay, i, rows[i]).value, i + 1, rows);
    RowsExtend(lay, i, rows);
  }

  lemma {:induction false} FirstCellStartsIn(lay: Layout, i: nat, rows: seq<seq<Th>>, all: Layout, r: nat)
    returns (left: nat)
    requires i <= r < |rows| && rows[r] != [] && Ahead(lay, i, rows, all)
    ensures StartsAt(all, r, left)
    decreases r - i
  {
    if i == r {
      FirstCellStarts(lay, i, rows, all);
      return FirstFree(lay.rows[i], 0);
    } else {
      NextAhead(lay, i, rows, all);
      left := FirstCellStartsIn(PlaceRow(lay, i, rows[i]).value, i + 1, rows, all, r);
    }
  }

  /** With all columns visible something is drawn into the TR of a row with a cell. */
  lemma OwnerRowStartsCell(rows: seq<seq<Th>>, columns: nat, r: nat)
    requires Sound(rows, columns) && r < |rows| && rows[r] != []
    ensures DrawnRow(GridOf(Detect(rows).value, columns), columns, r, 0) != []
  {
    var lay, g := Detect(rows).value, GridOf(Detect(rows).value, columns);
    var left := FirstCellStartsIn(Empty(|rows|), 0, rows, lay, r);
    assert left < columns;
    assert IsCorner(g, columns, r, left);
    CornerIsDrawn(g, columns, r, 0, left);
  }

  lemma {:induction false} CornerIsDrawn(g: Grid, columns: nat, r: nat, c: nat, k: nat)
    requires Dense(g, columns) && r < |g| && c <= k < columns && IsCorner(g, columns, r, k)
    ensures DrawnRow(g, columns, r, c) != []
    decreases columns - c
  {
    if c < k { CornerIsDrawn(g, columns, r, c + 1, k); }
  }

  // ------------------------------------------------------------------ owners

  /** Every row with a square has a TR, that of a row with a cell. */
  ghost predicate OwnedRows(lay: Layout, rows: seq<seq<Th>>, i: nat) {
    && |lay.rows| == |lay.nTr| == |rows|
    && forall r: nat :: r < |rows| ==> OwnedRow(lay, rows, i, r)
  }

  ghost predicate OwnedRow(lay: Layout, rows: seq<seq<Th>>, i: nat, r: nat)
    requires r < |lay.rows| == |lay.nTr| == |rows|
  {
    && (lay.nTr[r].Some?
        ==> lay.nTr[r].value <= r && lay.nTr[r].value < i && lay.nTr[r].value < |rows| && rows[lay.nTr[r].value] != [])
    && (lay.rows[r] != map[] ==> lay.nTr[r].Some?)
  }

  lemma PlaceOwned(lay: Layout, rows: seq<seq<Th>>, i: nat, th: Th)
    requires OwnedRows(lay, rows, i + 1) && i < |rows| && rows[i] != [] && Place(lay, i, th).Some?
    ensures OwnedRows(Place(lay, i, th).value, rows, i + 1)
  {
    var next, m := Place(lay, i, th).value, i + 1;
    forall r: nat | r < |rows| ensures OwnedRow(next, rows, m, r) {
      assert OwnedRow(lay, rows, m, r);
    }
  }

  lemma {:induction false} RowOwned(lay: Layout, rows: seq<seq<Th>>, i: nat, row: seq<Th>)
    requires OwnedRows(lay, rows, i + 1) && i < |rows| && (row != [] ==> rows[i] != []) && PlaceRow(lay, i, row).Some?
    ensures OwnedRows(PlaceRow(lay, i, row).value, rows, i + 1)
    decreases |row|
  {
    if row != [] {
      PlaceOwned(lay, rows, i, row[0]);
      RowOwned(Place(lay, i, row[0]).value, rows, i, row[1..]);
    }
  }

  lemma {:induction false} RowsOwned(lay: Layout, rows: seq<seq<Th>>, i: nat)
    requires OwnedRows(lay, rows, i) && i <= |rows| && PlaceRows(lay, i, rows).Some?
    ensures OwnedRows(PlaceRows(lay, i, rows).value, rows, |rows|)
    decreases |rows| - i
  {
    if i < |rows| {
      var m := i + 1;
      forall r: nat | r < |rows| ensures OwnedRow(lay, rows, m, r) { assert OwnedRow(lay, rows, i, r); }
      RowOwned(lay, rows, i, rows[i]);
      RowsOwned(PlaceRow(lay, i, rows[i]).value, rows, i + 1);
    }
  }

  /** Who draws what in a header with columns: a row with a cell is its own TR, any other row draws
      into the TR of a row with a cell. */
  ghost predicate Owners(rows: seq<seq<Th>>, nTr: seq<Option<nat>>) {
    && |nTr| == |rows| && Targets(nTr, |rows|)
    && forall r :: 0 <= r < |rows| ==> HasOwner(rows, nTr, r)
  }

  ghost predicate HasOwner(rows: seq<seq<Th>>, nTr: seq<Option<nat>>, r: nat)
    requires r < |rows| == |nTr| && Targets(nTr, |rows|)
  {
    nTr[r].Some? && if rows[r] != [] then nTr[r].value == r else nTr[r].value < r && rows[nTr[r].value] != []
  }

  lemma SoundHasOwners(rows: seq<seq<Th>>, columns: nat)
    requires Sound(rows, columns) && columns > 0
    ensures Owners(rows, Detect(rows).value.nTr)
  {
    var lay := Detect(rows).value;
    RowsOwned(Empty(|rows|), rows, 0);
    forall r: nat | r < |rows| ensures lay.nTr[r].Some? && lay.nTr[r].value <= r && rows[lay.nTr[r].value] != [] {
      assert OwnedRow(lay, rows, |rows|, r);
      assert 0 in lay.rows[r];
    }
    forall r: nat | r < |rows| && rows[r] != [] ensures lay.nTr[r] == Some(r) {
      PlaceRowsOwner(Empty(|rows|), 0, rows, r);
    }
  }

  // ------------------------------------------------------------------ the TRs in the end

  /** Among the first `m` rows one without a cell draws into the TR of row `k`. */
  ghost predicate Overdrawn(rows: seq<seq<Th>>, nTr: seq<Option<nat>>, k: nat, m: nat) {
    exists r :: 0 <= r < m && r < |rows| && r < |nTr| && rows[r] == [] && nTr[r] == Some(k)
  }

  lemma {:induction false} TrAfter(rows: seq<seq<Th>>, g: Grid, columns: nat, nTr: seq<Option<nat>>, k: nat, m: nat)
    requires Dense(g, columns) && m <= |g| == |rows| && k < |rows| && Owners(rows, nTr)
    requires forall r :: 0 <= r < |rows| && rows[r] == [] ==> DrawnRow(g, columns, r, 0) == []
    ensures DrawnInto(rows, g, columns, nTr, m)[k]
         == if rows[k] == [] || Overdrawn(rows, nTr, k, m) then [] else if m <= k then rows[k]
            else DrawnRow(g, columns, k, 0)
  {
    if m > 0 {
      TrAfter(rows, g, columns, nTr, k, m - 1);
      assert HasOwner(rows, nTr, m - 1);
      assert Overdrawn(rows, nTr, k, m)
             <==> Overdrawn(rows, nTr, k, m - 1) || (rows[m - 1] == [] && nTr[m - 1] == Some(k)) by {
        if r :| 0 <= r < m && r < |rows| && r < |nTr| && rows[r] == [] && nTr[r] == Some(k) {
          assert r < m - 1 ==> Overdrawn(rows, nTr, k, m - 1);
        }
      }
      if Overdrawn(rows, nTr, k, m - 1) {
        var r :| 0 <= r < m - 1 && r < |rows| && r < |nTr| && rows[r] == [] && nTr[r] == Some(k);
        assert HasOwner(rows, nTr, r);
      }
    }
  }

  /** The header after decoding it and drawing it again. */
  function Redrawn(rows: seq<seq<Th>>, vis: seq<bool>): (r: seq<seq<Th>>)
    requires Sound(rows, |vis|) && |vis| > 0
    ensures |r| == |rows|
  {
    var lay := Detect(rows).value;
    var g := GridOf(lay, |vis|);
    HideByColumns(g, vis);
    SoundHasOwners(rows, |vis|);
    DrawnInto(rows, Hide(g, vis), |Columns(vis, 0)|, lay.nTr, |rows|)
  }

  /** The row draws into a TR that keeps something to show. */
  ghost predicate Empties(rows: seq<seq<Th>>, vis: seq<bool>, r: nat)
    requires Sound(rows, |vis|) && |vis| > 0 && r < |rows|
  {
    var v, n, nTr := Hide(GridOf(Detect(rows).value, |vis|), vis), |Columns(vis, 0)|, Detect(rows).value.nTr;
    HideByColumns(GridOf(Detect(rows).value, |vis|), vis);
    rows[r] == [] && nTr[r].Some? && nTr[r].value < |rows| && DrawnRow(v, n, nTr[r].value, 0) != []
  }

  /** For one choice of hidden columns the header drawn again shows the visible columns exactly if no
      row without a cell empties a TR that has something to show. */
  lemma RedrawnExactly(rows: seq<seq<Th>>, vis: seq<bool>)
    requires Sound(rows, |vis|) && |vis| > 0
    ensures Redrawn(rows, vis) == VisibleHeader(rows, vis) <==> forall r: nat :: r < |rows| ==> !Empties(rows, vis, r)
  {
    var nTr, g := Detect(rows).value.nTr, GridOf(Detect(rows).value, |vis|);
    HideByColumns(g, vis);
    SoundHasOwners(rows, |vis|);
    var v, n := Hide(g, vis), |Columns(vis, 0)|;
    forall r | 0 <= r < |rows| && rows[r] == [] ensures DrawnRow(v, n, r, 0) == [] {
      EmptyRowStartsNothing(rows, vis, r);
    }
    forall k: nat | k < |rows|
      ensures Redrawn(rows, vis)[k] == VisibleHeader(rows, vis)[k] <==>
              rows[k] == [] || !Overdrawn(rows, nTr, k, |rows|) || DrawnRow(v, n, k, 0) == []
    {
      TrAfter(rows, v, n, nTr, k, |rows|);
    }
    RowByRow(Redrawn(rows, vis), VisibleHeader(rows, vis));
    EmptiesExactly(rows, vis);
  }

  lemma RowByRow(a: seq<seq<Th>>, b: seq<seq<Th>>)
    requires |a| == |b|
    ensures a == b <==> forall k: nat :: k < |a| ==> a[k] == b[k]
  {
  }

  /** A TR with something to show is overdrawn exactly if some row empties it. */
  lemma EmptiesExactly(rows: seq<seq<Th>>, vis: seq<bool>)
    requires Sound(rows, |vis|) && |vis| > 0
    ensures var v, n, nTr := Hide(GridOf(Detect(rows).value, |vis|), vis), |Columns(vis, 0)|, Detect(rows).value.nTr;
            && Dense(v, n)
            && ((forall r: nat :: r < |rows| ==> !Empties(rows, vis, r))
                <==> forall k: nat :: k < |rows|
                       ==> rows[k] == [] || !Overdrawn(rows, nTr, k, |rows|) || DrawnRow(v, n, k, 0) == [])
  {
    var nTr, g := Detect(rows).value.nTr, GridOf(Detect(rows).value, |vis|);
    HideByColumns(g, vis);
    SoundHasOwners(rows, |vis|);
    var v, n := Hide(g, vis), |Columns(vis, 0)|;
    forall r: nat | r < |rows| && Empties(rows, vis, r)
      ensures var k := nTr[r].value; rows[k] != [] && Overdrawn(rows, nTr, k, |rows|) && DrawnRow(v, n, k, 0) != []
    {
      assert HasOwner(rows, nTr, r);
    }
    forall k: nat | k < |rows| && rows[k] != [] && Overdrawn(rows, nTr, k, |rows|) && DrawnRow(v, n, k, 0) != []
      ensures exists r: nat :: r < |rows| && Empties(rows, vis, r)
    {
      var r: nat :| r < |rows| && r < |nTr| && rows[r] == [] && nTr[r] == Some(k);
      assert Empties(rows, vis, r);
    }
  }

  lemma HideNothing(g: Grid, vis: seq<bool>)
    requires Dense(g, |vis|) && forall c :: 0 <= c < |vis| ==> vis[c]
    ensures Hide(g, vis) == g && |Columns(vis, 0)| == |vis|
  {
    forall r | 0 <= r < |g| ensures Visible(g[r], vis) == g[r] { VisibleAll(g[r], vis); }
    ColumnsAll(vis, 0);
  }

  lemma {:induction false} VisibleAll(row: seq<nat>, vis: seq<bool>)
    requires |row| == |vis| && forall c :: 0 <= c < |vis| ==> vis[c]
    ensures Visible(row, vis) == row
  {
    if row != [] {
      VisibleAll(row[1..], vis[1..]);
    }
  }

  lemma {:induction false} ColumnsAll(vis: seq<bool>, j: nat)
    requires j <= |vis| && forall c :: 0 <= c < |vis| ==> vis[c]
    ensures |Columns(vis, j)| == |vis| - j
    decreases |vis| - j
  {
    if j < |vis| { ColumnsAll(vis, j + 1); }
  }

  /** A sound header survives every choice of hidden columns if and only if each of its rows owns a
      cell. */
  lemma OwnersAreExact(rows: seq<seq<Th>>, columns: nat)
    requires Sound(rows, columns) && columns > 0
    ensures (forall r :: 0 <= r < |rows| ==> rows[r] != [])
       <==> forall vis: seq<bool> :: |vis| == columns ==> Redrawn(rows, vis) == VisibleHeader(rows, vis)
  {
    forall vis: seq<bool> | |vis| == columns
      ensures Redrawn(rows, vis) == VisibleHeader(rows, vis) <==> forall r: nat :: r < |rows| ==> !Empties(rows, vis, r)
    {
      RedrawnExactly(rows, vis);
    }
    if r: nat :| r < |rows| && rows[r] == [] {
      var vis := seq(columns, _ => true);
      var nTr := Detect(rows).value.nTr;
      SoundHasOwners(rows, columns);
      assert HasOwner(rows, nTr, r);
      HideNothing(GridOf(Detect(rows).value, columns), vis);
      OwnerRowStartsCell(rows, columns, nTr[r].value);
      assert Empties(rows, vis, r);
    }
  }

  // ------------------------------------------------------------------ the whole redraw

  /** Every row has a TR to draw into. */
  lemma NobodyIsHomeless(rows: seq<seq<Th>>, vis: seq<bool>)
    requires Sound(rows, |vis|) && |vis| > 0
    ensures var lay := Detect(rows).value; var v := Hide(GridOf(lay, |vis|), vis);
            && Targets(lay.nTr, |rows|) && Dense(v, |Columns(vis, 0)|)
            && Homeless(v, |Columns(vis, 0)|, lay.nTr, 0) == |rows|
  {
    var nTr := Detect(rows).value.nTr;
    HideByColumns(GridOf(Detect(rows).value, |vis|), vis);
    SoundHasOwners(rows, |vis|);
    forall r: nat | r < |rows| ensures nTr[r].Some? { assert HasOwner(rows, nTr, r); }
  }

  /** Decode the header, then draw it again without its hidden columns. */
  method Redraw(head: Thead, vis: seq<bool>) returns (threw: bool)
    requires Sound(head.rows, |vis|) && |vis| > 0
    modifies head
    ensures !threw && head.rows == Redrawn(old(head.rows), vis)
    ensures (forall r :: 0 <= r < |old(head.rows)| ==> old(head.rows)[r] != [])
            ==> head.rows == VisibleHeader(old(head.rows), vis)
  {
    ghost var rows := head.rows;
    var layout := head.DetectHeader();
    SoundIsTiled(rows, |vis|);
    NobodyIsHomeless(rows, vis);
    threw := head.DrawHead(GridOf(layout.value, |vis|), layout.value.nTr, vis);
    OwnersAreExact(rows, |vis|);
  }
}

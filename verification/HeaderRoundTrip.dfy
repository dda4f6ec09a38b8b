/** `_fnDetectHeader` and `_fnDrawHead` as they run, and what they do together: a header without
    overlaps and gaps decodes to a tiled grid, hiding columns keeps it tiled, and the header
    drawn from it decodes to the grid without the hidden columns. */
module HeaderRoundTrip {
  import opened Wrappers
  import opened Header

  // ------------------------------------------------------------------ hiding columns

  /** A row without the squares of its hidden columns. */
  function Visible(row: seq<nat>, vis: seq<bool>): seq<nat>
    requires |row| == |vis|
  {
    if row == [] then []
    else (if vis[0] then [row[0]] else []) + Visible(row[1..], vis[1..])
  }

  /** The visible columns from `j` on. */
  function Columns(vis: seq<bool>, j: nat): (cs: seq<nat>)
    requires j <= |vis|
    ensures forall k :: 0 <= k < |cs| ==> j <= cs[k] < |vis| && vis[cs[k]]
    ensures forall k, m :: 0 <= k < m < |cs| ==> cs[k] < cs[m]
    decreases |vis| - j
  {
    if j == |vis| then [] else (if vis[j] then [j] else []) + Columns(vis, j + 1)
  }

  /** No visible column is left out. */
  lemma {:induction false} ColumnsAreAll(vis: seq<bool>, j: nat, c: nat)
    requires j <= c < |vis| && vis[c]
    ensures c in Columns(vis, j)
    decreases |vis| - j
  {
    if j < c { ColumnsAreAll(vis, j + 1, c); }
  }

  lemma {:induction false} VisibleAt(row: seq<nat>, vis: seq<bool>, j: nat)
    requires |row| == |vis| && j <= |row|
    ensures var cs, v := Columns(vis, j), Visible(row[j..], vis[j..]);
            |v| == |cs| && forall k :: 0 <= k < |cs| ==> v[k] == row[cs[k]]
    decreases |row| - j
  {
    if j < |row| {
      VisibleAt(row, vis, j + 1);
      assert row[j..][1..] == row[j + 1..] && vis[j..][1..] == vis[j + 1..];
    }
  }

  /** The grid without its hidden columns. */
  function Hide(g: Grid, vis: seq<bool>): (v: Grid)
    requires Dense(g, |vis|)
    ensures |v| == |g| && forall r :: 0 <= r < |g| ==> v[r] == Visible(g[r], vis)
  {
    seq(|g|, r requires 0 <= r < |g| => Visible(g[r], vis))
  }

  lemma HideByColumns(g: Grid, vis: seq<bool>)
    requires Dense(g, |vis|)
    ensures var cs := Columns(vis, 0);
            && Dense(Hide(g, vis), |cs|)
            && forall r, k :: 0 <= r < |g| && 0 <= k < |cs| ==> Hide(g, vis)[r][k] == g[r][cs[k]]
  {
    forall r | 0 <= r < |g|
      ensures |Hide(g, vis)[r]| == |Columns(vis, 0)|
      ensures forall k :: 0 <= k < |Columns(vis, 0)| ==> Hide(g, vis)[r][k] == g[r][Columns(vis, 0)[k]]
    {
      VisibleAt(g[r], vis, 0);
      assert g[r][0..] == g[r] && vis[0..] == vis;
    }
  }

  /** Removing columns leaves every cell a rectangle. */
  lemma HideKeepsTiled(g: Grid, vis: seq<bool>)
    requires Dense(g, |vis|) && Tiled(g)
    ensures Tiled(Hide(g, vis))
  {
    var v, cs := Hide(g, vis), Columns(vis, 0);
    HideByColumns(g, vis);
    forall r, c, r', c' ensures SameCell(v, r, c, r', c') ==> SameCell(v, r, c, r, c') {
      if SameCell(v, r, c, r', c') { assert SameCell(g, r, cs[c], r', cs[c']) && SameCell(g, r, cs[c], r, cs[c']); }
    }
    forall r, c, r', m ensures SameCell(v, r, c, r', c) && r <= m <= r' ==> SameCell(v, r, c, m, c) {
      if SameCell(v, r, c, r', c) && r <= m <= r' {
        assert SameCell(g, r, cs[c], r', cs[c]);
        Column(g, r, cs[c], r', m);
      }
    }
    forall r, c, c', m ensures SameCell(v, r, c, r, c') && c <= m <= c' ==> SameCell(v, r, c, r, m) {
      if SameCell(v, r, c, r, c') && c <= m <= c' {
        assert SameCell(g, r, cs[c], r, cs[c']);
        Row(g, r, cs[c], cs[c'], cs[m]);
      }
    }
  }

  // ------------------------------------------------------------------ sound headers

  /** The cell fits where it is put: its block lies in the header and on free squares, and it is
      not yet in the layout. */
  ghost predicate Fits(lay: Layout, i: nat, th: Th)
    requires i < |lay.rows| == |lay.nTr|
  {
    var left := FirstFree(lay.rows[i], 0);
    && i + Span(th.rowspan) <= |lay.rows|
    && (forall r, c :: i <= r < i + Span(th.rowspan) && left <= c < left + Span(th.colspan) ==> c !in lay.rows[r])
    && (forall r, c :: 0 <= r < |lay.rows| && c in lay.rows[r] ==> lay.rows[r][c] != th.cell)
  }

  ghost predicate RowFits(lay: Layout, i: nat, row: seq<Th>)
    requires i < |lay.rows| == |lay.nTr|
    decreases |row|
  {
    row != [] ==> Fits(lay, i, row[0]) && RowFits(Place(lay, i, row[0]).value, i, row[1..])
  }

  ghost predicate RowsFit(lay: Layout, i: nat, rows: seq<seq<Th>>)
    requires i <= |lay.rows| == |lay.nTr| == |rows|
    decreases |rows| - i
  {
    i < |rows| ==>
      RowFits(lay, i, rows[i]) && PlaceRow(lay, i, rows[i]).Some?
      && RowsFit(PlaceRow(lay, i, rows[i]).value, i + 1, rows)
  }

  /** A header whose cells do not overlap and leave no gap in a grid of so many columns. */
  ghost predicate Sound(rows: seq<seq<Th>>, columns: nat) {
    && RowsFit(Empty(|rows|), 0, rows) && Detect(rows).Some?
    && forall r :: 0 <= r < |rows| ==> forall c: nat :: c in Detect(rows).value.rows[r] <==> c < columns
  }

  ghost predicate SameIn(lay: Layout, r: int, c: int, r': int, c': int) {
    && 0 <= r < |lay.rows| && 0 <= r' < |lay.rows| && c >= 0 && c' >= 0
    && c in lay.rows[r] && c' in lay.rows[r'] && lay.rows[r][c] == lay.rows[r'][c']
  }

  ghost predicate PartTiled(lay: Layout) {
    && (forall r, c, r', c' :: SameIn(lay, r, c, r', c') ==> SameIn(lay, r, c, r, c'))
    && (forall r, c, r', m :: SameIn(lay, r, c, r', c) && r <= m <= r' ==> SameIn(lay, r, c, m, c))
    && (forall r, c, c', m :: SameIn(lay, r, c, r, c') && c <= m <= c' ==> SameIn(lay, r, c, r, m))
  }

  ghost predicate InBlock(lay: Layout, i: nat, th: Th, r: int, c: int)
    requires i < |lay.rows|
  {
    i <= r < i + Span(th.rowspan) && FirstFree(lay.rows[i], 0) <= c < FirstFree(lay.rows[i], 0) + Span(th.colspan)
  }

  lemma PlacedSquare(lay: Layout, i: nat, th: Th, r: nat, c: nat)
    requires i < |lay.rows| == |lay.nTr| && Fits(lay, i, th) && r < |lay.rows|
    ensures var next := Place(lay, i, th);
            && next.Some?
            && (c in next.value.rows[r] <==> c in lay.rows[r] || InBlock(lay, i, th, r, c))
            && (InBlock(lay, i, th, r, c) ==> c !in lay.rows[r] && next.value.rows[r][c] == th.cell)
            && (c in lay.rows[r] ==> next.value.rows[r][c] == lay.rows[r][c] != th.cell)
  {
  }

  lemma PlacedSquares(lay: Layout, i: nat, th: Th, r: int, c: int, r': int, c': int)
    requires i < |lay.rows| == |lay.nTr| && Fits(lay, i, th)
    ensures var next := Place(lay, i, th);
            && next.Some?
            && (SameIn(next.value, r, c, r', c') <==>
                  SameIn(lay, r, c, r', c') || (InBlock(lay, i, th, r, c) && InBlock(lay, i, th, r', c')))
  {
    if 0 <= r < |lay.rows| && c >= 0 { PlacedSquare(lay, i, th, r, c); }
    if 0 <= r' < |lay.rows| && c' >= 0 { PlacedSquare(lay, i, th, r', c'); }
  }

  lemma PlaceKeepsTiled(lay: Layout, i: nat, th: Th)
    requires i < |lay.rows| == |lay.nTr| && Fits(lay, i, th) && PartTiled(lay)
    ensures Place(lay, i, th).Some? && PartTiled(Place(lay, i, th).value)
  {
    PlacedSquares(lay, i, th, 0, 0, 0, 0);
    var next := Place(lay, i, th).value;
    forall r, c, r', c' ensures SameIn(next, r, c, r', c') ==> SameIn(next, r, c, r, c') {
      PlacedSquares(lay, i, th, r, c, r', c');
      PlacedSquares(lay, i, th, r, c, r, c');
    }
    forall r, c, r', m ensures SameIn(next, r, c, r', c) && r <= m <= r' ==> SameIn(next, r, c, m, c) {
      PlacedSquares(lay, i, th, r, c, r', c);
      PlacedSquares(lay, i, th, r, c, m, c);
    }
    forall r, c, c', m ensures SameIn(next, r, c, r, c') && c <= m <= c' ==> SameIn(next, r, c, r, m) {
      PlacedSquares(lay, i, th, r, c, r, c');
      PlacedSquares(lay, i, th, r, c, r, m);
    }
  }

  lemma {:induction false} RowKeepsTiled(lay: Layout, i: nat, row: seq<Th>)
    requires i < |lay.rows| == |lay.nTr| && RowFits(lay, i, row) && PartTiled(lay)
    ensures PlaceRow(lay, i, row).Some? && PartTiled(PlaceRow(lay, i, row).value)
    decreases |row|
  {
    if row != [] {
      PlaceKeepsTiled(lay, i, row[0]);
      RowKeepsTiled(Place(lay, i, row[0]).value, i, row[1..]);
    }
  }

  lemma {:induction false} RowsKeepTiled(lay: Layout, i: nat, rows: seq<seq<Th>>)
    requires i <= |lay.rows| == |lay.nTr| == |rows| && RowsFit(lay, i, rows) && PartTiled(lay)
    ensures PlaceRows(lay, i, rows).Some? && PartTiled(PlaceRows(lay, i, rows).value)
    decreases |rows| - i
  {
    if i < |rows| {
      RowKeepsTiled(lay, i, rows[i]);
      RowsKeepTiled(PlaceRow(lay, i, rows[i]).value, i + 1, rows);
    }
  }

  /** The grid of a sound header. */
  function GridOf(lay: Layout, columns: nat): (g: Grid)
    requires forall r :: 0 <= r < |lay.rows| ==> forall c: nat :: c in lay.rows[r] <==> c < columns
    ensures Dense(g, columns) && Depicts(lay, g)
  {
    seq(|lay.rows|, r requires 0 <= r < |lay.rows| => seq(columns, c requires 0 <= c < columns => lay.rows[r][c]))
  }

  lemma SoundIsTiled(rows: seq<seq<Th>>, columns: nat)
    requires Sound(rows, columns)
    ensures Tiled(GridOf(Detect(rows).value, columns))
  {
    RowsKeepTiled(Empty(|rows|), 0, rows);
    var lay, g := Detect(rows).value, GridOf(Detect(rows).value, columns);
    forall r, c, r', c' ensures SameIn(lay, r, c, r', c') <==> SameCell(g, r, c, r', c') {}
  }

  // ------------------------------------------------------------------ the rows of the thead

  function Owner(o: Option<Layout>, r: nat): Option<nat> {
    if o.Some? && r < |o.value.nTr| then o.value.nTr[r] else None
  }

  lemma PlaceOwner(lay: Layout, i: nat, th: Th, r: nat)
    requires r <= i < |lay.rows| == |lay.nTr| && Place(lay, i, th).Some?
    ensures Owner(Place(lay, i, th), r) == if r == i then Some(i) else lay.nTr[r]
  {
  }

  lemma {:induction false} PlaceRowOwner(lay: Layout, i: nat, row: seq<Th>, r: nat)
    requires r <= i < |lay.rows| == |lay.nTr| && PlaceRow(lay, i, row).Some?
    ensures Owner(PlaceRow(lay, i, row), r) == if r == i && row != [] then Some(i) else lay.nTr[r]
    decreases |row|
  {
    if row != [] {
      PlaceOwner(lay, i, row[0], r);
      PlaceRowOwner(Place(lay, i, row[0]).value, i, row[1..], r);
    }
  }

  /** A row that owns a cell is the TR its squares are drawn into. */
  lemma {:induction false} PlaceRowsOwner(lay: Layout, i: nat, rows: seq<seq<Th>>, r: nat)
    requires i <= |lay.rows| == |lay.nTr| == |rows| && PlaceRows(lay, i, rows).Some? && r < |rows|
    requires r < i || rows[r] != []
    ensures Owner(PlaceRows(lay, i, rows), r) == if r < i then lay.nTr[r] else Some(r)
    decreases |rows| - i
  {
    if i < |rows| {
      if r <= i { PlaceRowOwner(lay, i, rows[i], r); }
      PlaceRowsOwner(PlaceRow(lay, i, rows[i]).value, i + 1, rows, r);
    }
  }

  lemma FilledNoColumn(rows: seq<map<nat, nat>>, i: nat, left: nat, cell: nat, h: nat)
    ensures Filled(rows, i, left, 0, cell, h) == rows
  {
    forall r | 0 <= r < |rows| ensures rows[r] + Band(left, 0, cell) == rows[r] {}
  }

  lemma FilledOneMore(rows: seq<map<nat, nat>>, i: nat, x: nat, cell: nat, k: nat)
    requires i + k < |rows|
    ensures var f := Filled(rows, i, x, 1, cell, k);
            var row: map<nat, nat> := f[i + k][x := cell];
            f[i + k := row] == Filled(rows, i, x, 1, cell, k + 1)
  {
    assert rows[i + k][x := cell] == rows[i + k] + Band(x, 1, cell);
  }

  lemma BandOneWider(row: map<nat, nat>, left: nat, w: nat, cell: nat)
    ensures row + Band(left, w, cell) + Band(left + w, 1, cell) == row + Band(left, w + 1, cell)
  {
  }

  lemma FilledOneWider(rows: seq<map<nat, nat>>, narrow: seq<map<nat, nat>>, i: nat, left: nat, w: nat, cell: nat,
                       h: nat)
    requires narrow == Filled(rows, i, left, w, cell, h)
    ensures Filled(narrow, i, left + w, 1, cell, h) == Filled(rows, i, left, w + 1, cell, h)
  {
    var a, b := Filled(narrow, i, left + w, 1, cell, h), Filled(rows, i, left, w + 1, cell, h);
    forall r | 0 <= r < |rows| ensures a[r] == b[r] {
      BandOneWider(rows[r], left, w, cell);
    }
  }

  /** The layout while `l` of the columns of a cell's block are filled. */
  ghost predicate Filling(lay: Layout, i: nat, left: nat, l: nat, cell: nat, h: nat, rows: seq<map<nat, nat>>,
                          nTr: seq<Option<nat>>) {
    rows == Filled(lay.rows, i, left, l, cell, h) && nTr == (if l > 0 then Owned(lay.nTr, i, h) else lay.nTr)
  }

  lemma FillingStep(lay: Layout, i: nat, left: nat, l: nat, cell: nat, h: nat, rows: seq<map<nat, nat>>,
                    nTr: seq<Option<nat>>)
    requires Filling(lay, i, left, l, cell, h, rows, nTr)
    ensures Filling(lay, i, left, l + 1, cell, h, Filled(rows, i, left + l, 1, cell, h), Owned(nTr, i, h))
  {
    FilledOneWider(lay.rows, rows, i, left, l, cell, h);
    assert Owned(Owned(lay.nTr, i, h), i, h) == Owned(lay.nTr, i, h);
  }

  /** The TR elements of a header and the cells in them. */
  class Thead {
    var rows: seq<seq<Th>>

    constructor (rows: seq<seq<Th>>)
      ensures this.rows == rows
    {
      this.rows := rows;
    }

    /** `_fnDetectHeader`; `None` is the TypeError. */
    method DetectHeader() returns (layout: Option<Layout>)
      ensures layout == Detect(rows)
    {
      var lay := Empty(|rows|);
      var i := 0;
      while i < |rows|
        invariant 0 <= i <= |rows| && Shaped(lay, |rows|)
        invariant Detect(rows) == PlaceRows(lay, i, rows)
      {
        ghost var start := lay;
        var j := 0;
        while j < |rows[i]|
          invariant 0 <= j <= |rows[i]| && Shaped(lay, |rows|)
          invariant PlaceRow(start, i, rows[i]) == PlaceRow(lay, i, rows[i][j..])
        {
          var th := rows[i][j];
          assert rows[i][j..][0] == th && rows[i][j..][1..] == rows[i][j + 1..];
          var placed := PlaceCell(lay, i, th);
          if placed.None? { return None; }
          lay, j := placed.value, j + 1;
        }
        i := i + 1;
      }
      layout := Some(lay);
    }

    /** `fnShiftCol`. */
    static method ShiftColumn(row: map<nat, nat>, j: nat) returns (left: nat)
      ensures left == FirstFree(row, j)
    {
      left := j;
      while left in row
        invariant FirstFree(row, j) == FirstFree(row, left)
        decreases FirstFree(row, j) - left
      {
        left := left + 1;
      }
    }

    /** The inner loop of `_fnDetectHeader`: one column of a cell's block. */
    static method FillColumn(ghost lay: Layout, start: seq<map<nat, nat>>, owners: seq<Option<nat>>,
                             i: nat, left: nat, l: nat, cell: nat, h: nat)
      returns (threw: bool, rows: seq<map<nat, nat>>, nTr: seq<Option<nat>>)
      requires |start| == |owners| && Filling(lay, i, left, l, cell, h, start, owners)
      ensures threw <==> h > 0 && i + h > |start|
      ensures !threw ==> |rows| == |nTr| == |start| && Filling(lay, i, left, l + 1, cell, h, rows, nTr)
    {
      var x := left + l;
      threw, rows, nTr := false, start, owners;
      assert Filled(start, i, x, 1, cell, 0) == start && Owned(owners, i, 0) == owners;
      var k := 0;
      while k < h
        invariant 0 <= k <= h && (k > 0 ==> i + k <= |start|)
        invariant rows == Filled(start, i, x, 1, cell, k) && nTr == Owned(owners, i, k)
      {
        if i + k >= |rows| { return true, rows, nTr; }
        FilledOneMore(start, i, x, cell, k);
        var row: map<nat, nat> := rows[i + k][x := cell];
        rows := rows[i + k := row];
        nTr := nTr[i + k := Some(i)];
        k := k + 1;
      }
      FillingStep(lay, i, left, l, cell, h, start, owners);
    }

    /** The outer loop of `_fnDetectHeader` over the columns of a cell's block. */
    static method FillBlock(lay: Layout, i: nat, left: nat, w: nat, cell: nat, h: nat)
      returns (threw: bool, rows: seq<map<nat, nat>>, nTr: seq<Option<nat>>)
      requires i < |lay.rows| == |lay.nTr| && w > 0 && h > 0
      ensures threw <==> i + h > |lay.rows|
      ensures !threw ==> Filling(lay, i, left, w, cell, h, rows, nTr)
    {
      threw, rows, nTr := false, lay.rows, lay.nTr;
      FilledNoColumn(rows, i, left, cell, h);
      var l := 0;
      while l < w
        invariant 0 <= l <= w && (l > 0 ==> i + h <= |lay.rows|) && !threw
        invariant |rows| == |nTr| == |lay.rows| && Filling(lay, i, left, l, cell, h, rows, nTr)
      {
        threw, rows, nTr := FillColumn(lay, rows, nTr, i, left, l, cell, h);
        if threw { return; }
        l := l + 1;
      }
    }

    /** One cell of `_fnDetectHeader`: shift to the first free column, then copy the cell into
        every square of its block. */
    static method PlaceCell(lay: Layout, i: nat, th: Th) returns (next: Option<Layout>)
      requires i < |lay.rows| == |lay.nTr|
      ensures next == Place(lay, i, th)
    {
      var left := ShiftColumn(lay.rows[i], 0);
      var threw, rows, nTr := FillBlock(lay, i, left, Span(th.colspan), th.cell, Span(th.rowspan));
      next := if threw then None else Some(Layout(rows, nTr));
    }

    /** The splices that remove the hidden columns from a copied row. */
    static method Splice(row: seq<nat>, vis: seq<bool>) returns (kept: seq<nat>)
      requires |row| == |vis|
      ensures kept == Visible(row, vis)
    {
      kept := row;
      var j := |vis|;
      while j > 0
        invariant 0 <= j <= |vis| && |kept| >= j
        invariant kept[..j] == row[..j] && kept[j..] == Visible(row[j..], vis[j..])
      {
        j := j - 1;
        assert row[j..][1..] == row[j + 1..] && vis[j..][1..] == vis[j + 1..];
        ghost var tail := kept[j + 1..];
        assert kept[j] == kept[..j + 1][j] == row[j];
        assert kept[..j] == kept[..j + 1][..j] == row[..j];
        if !vis[j] {
          kept := kept[..j] + kept[j + 1..];
        } else {
          assert kept[j..] == [row[j]] + tail;
        }
      }
      assert row[0..] == row && vis[0..] == vis && kept[0..] == kept;
    }

    /** The copy of the layout without its hidden columns. */
    static method CopyVisible(source: Grid, vis: seq<bool>) returns (local: Grid)
      requires Dense(source, |vis|)
      ensures local == Hide(source, vis)
    {
      local := [];
      while |local| < |source|
        invariant |local| <= |source| && forall r :: 0 <= r < |local| ==> local[r] == Visible(source[r], vis)
      {
        var kept := Splice(source[|local|], vis);
        local := local + [kept];
      }
    }

    /** `_fnDrawHead`: copy the layout without its hidden columns, then visit every square in
        reading order, empty each row's TR and put the cells that start there into it. `threw`
        is the TypeError for a cell in a row without a TR. */
    method DrawHead(source: Grid, nTr: seq<Option<nat>>, vis: seq<bool>) returns (threw: bool)
      requires Dense(source, |vis|) && Tiled(source) && |nTr| == |source| == |rows| && Targets(nTr, |rows|)
      modifies this
      ensures Dense(Hide(source, vis), |Columns(vis, 0)|)
      ensures threw <==> Homeless(Hide(source, vis), |Columns(vis, 0)|, nTr, 0) < |nTr|
      ensures var v, n := Hide(source, vis), |Columns(vis, 0)|;
              rows == DrawnInto(old(rows), v, n, nTr, Homeless(v, n, nTr, 0))
    {
      ghost var columns := |Columns(vis, 0)|;
      HideByColumns(source, vis);
      HideKeepsTiled(source, vis);
      var local := CopyVisible(source, vis);
      threw := false;
      var applied: set<(int, int)> := {};
      var i := 0;
      while i < |local|
        invariant 0 <= i <= |local| && |rows| == |local|
        invariant Applied(applied, local, columns, i, 0)
        invariant DrawnSoFar(old(rows), rows, local, columns, nTr, i)
      {
        threw, applied := DrawRow(local, columns, i, nTr[i], applied);
        if threw { return; }
        i := i + 1;
      }
    }

    /** One row of `_fnDrawHead`. */
    method DrawRow(local: Grid, ghost columns: nat, i: nat, tr: Option<nat>, applied: set<(int, int)>)
      returns (threw: bool, after: set<(int, int)>)
      requires Dense(local, columns) && Tiled(local) && i < |local| == |rows| && Applied(applied, local, columns, i, 0)
      requires tr.Some? ==> tr.value < |rows|
      modifies this
      ensures threw <==> tr.None? && DrawnRow(local, columns, i, 0) != []
      ensures !threw ==> Applied(after, local, columns, i + 1, 0)
      ensures rows == if tr.Some? then old(rows)[tr.value := DrawnRow(local, columns, i, 0)] else old(rows)
    {
      threw, after := false, applied;
      if tr.Some? { rows := rows[tr.value := []]; }
      var j := 0;
      while j < |local[i]|
        invariant 0 <= j <= columns && |rows| == |local| && !threw
        invariant Applied(after, local, columns, i, j)
        invariant tr.None? ==> rows == old(rows) && Drawing([], local, columns, i, j)
        invariant tr.Some? ==>
                    rows == old(rows)[tr.value := rows[tr.value]] && Drawing(rows[tr.value], local, columns, i, j)
      {
        AppliedCorner(after, local, columns, i, j);
        if (i, j) !in after {
          if tr.None? { return true, after; }
          ghost var before := after;
          var rowspan, colspan;
          rowspan, colspan, after := Expand(local, |local[i]|, i, j, after);
          AppliedStep(before, after, local, columns, i, j);
          DrawingCorner(rows[tr.value], local, columns, i, j);
          rows := rows[tr.value := rows[tr.value] + [Th(local[i][j], colspan, rowspan)]];
        } else {
          AppliedSkip(after, local, columns, i, j);
          DrawingSkip(if tr.Some? then rows[tr.value] else [], local, columns, i, j);
        }
        j := j + 1;
      }
      AppliedNextRow(after, local, columns, i);
      DrawingEnds(if tr.Some? then rows[tr.value] else [], local, columns, i);
    }

    /** One cell of `_fnDrawHead`: from the square (i, j) the cell is expanded down, then across;
        its squares are noted in `applied`. */
    static method Expand(g: Grid, columns: nat, i: nat, j: nat, applied: set<(int, int)>)
      returns (rowspan: nat, colspan: nat, after: set<(int, int)>)
      requires Dense(g, columns) && i < |g| && j < columns
      ensures rowspan == Down(g, columns, i, j) && colspan == Across(g, columns, i, j)
      ensures forall r, c :: (r, c) in after <==>
                (r, c) in applied || (i <= r < i + rowspan && j <= c < j + colspan)
    {
      rowspan, colspan, after := 1, 1, applied + {(i, j)};
      while i + rowspan < |g| && g[i][j] == g[i + rowspan][j]
        invariant 1 <= rowspan && i + rowspan <= |g|
        invariant forall m :: i <= m < i + rowspan ==> g[m][j] == g[i][j]
        invariant forall r, c :: (r, c) in after <==> (r, c) in applied || (i <= r < i + rowspan && c == j)
      {
        after := after + {(i + rowspan, j)};
        rowspan := rowspan + 1;
      }
      while j + colspan < columns && g[i][j] == g[i][j + colspan]
        invariant 1 <= colspan && j + colspan <= columns
        invariant forall m :: j <= m < j + colspan ==> g[i][m] == g[i][j]
        invariant forall r, c :: (r, c) in after <==>
                    (r, c) in applied || (i <= r < i + rowspan && j <= c < j + colspan)
      {
        var k := 0;
        ghost var before := after;
        while k < rowspan
          invariant 0 <= k <= rowspan
          invariant forall r, c :: (r, c) in after <==> (r, c) in before || (i <= r < i + k && c == j + colspan)
        {
          after := after + {(i + k, j + colspan)};
          k := k + 1;
        }
        colspan := colspan + 1;
      }
    }
  }

  ghost predicate Targets(nTr: seq<Option<nat>>, n: nat) {
    forall i :: 0 <= i < |nTr| && nTr[i].Some? ==> nTr[i].value < n
  }

  /** The TRs after `n` rows of the grid: each row is drawn into its TR, which is emptied first. */
  function DrawnInto(rows: seq<seq<Th>>, g: Grid, columns: nat, nTr: seq<Option<nat>>, n: nat): (r: seq<seq<Th>>)
    requires Dense(g, columns) && n <= |g| == |nTr| && Targets(nTr, |rows|)
    ensures |r| == |rows|
  {
    if n == 0 then rows
    else
      var before := DrawnInto(rows, g, columns, nTr, n - 1);
      match nTr[n - 1]
      case None => before
      case Some(k) => before[k := DrawnRow(g, columns, n - 1, 0)]
  }

  /** The first row from `i` on that has no TR but a cell to put into it. */
  function Homeless(g: Grid, columns: nat, nTr: seq<Option<nat>>, i: nat): (r: nat)
    requires Dense(g, columns) && i <= |g| == |nTr|
    ensures i <= r <= |g| && (r < |g| ==> nTr[r].None? && DrawnRow(g, columns, r, 0) != [])
    ensures forall k :: i <= k < r ==> nTr[k].Some? || DrawnRow(g, columns, k, 0) == []
    decreases |g| - i
  {
    if i == |g| || (nTr[i].None? && DrawnRow(g, columns, i, 0) != []) then i
    else Homeless(g, columns, nTr, i + 1)
  }

  /** `now` are the TRs after `n` rows, and all of these found a TR for their cells. */
  ghost predicate DrawnSoFar(rows: seq<seq<Th>>, now: seq<seq<Th>>, g: Grid, columns: nat, nTr: seq<Option<nat>>,
                             n: nat) {
    && Dense(g, columns) && n <= |g| == |nTr| && Targets(nTr, |rows|)
    && now == DrawnInto(rows, g, columns, nTr, n)
    && Homeless(g, columns, nTr, 0) == Homeless(g, columns, nTr, n)
  }

  /** When every row has its own TR, the TRs show the grid. */
  lemma {:induction false} DrawnIntoOwners(rows: seq<seq<Th>>, g: Grid, columns: nat, nTr: seq<Option<nat>>, n: nat)
    requires Dense(g, columns) && n <= |g| == |nTr| == |rows|
    requires forall i :: 0 <= i < |nTr| ==> nTr[i] == Some(i)
    ensures DrawnInto(rows, g, columns, nTr, n)[..n] == Drawn(g, columns)[..n]
  {
    if n > 0 { DrawnIntoOwners(rows, g, columns, nTr, n - 1); }
  }

  /** Without its own TR a row is drawn into the TR of the row above, which is emptied again: a
      header with one cell over two rows loses it. */
  lemma OwnerlessRowLosesCells()
    ensures var rows := [[Th(7, 1, 2)], []]; var layout := Detect(rows);
            && Sound(rows, 1) && layout.value.nTr == [Some(0), Some(0)] && Dense([[7], [7]], 1)
            && Depicts(layout.value, [[7], [7]])
            && DrawnInto(rows, [[7], [7]], 1, layout.value.nTr, 2) == [[], []]
  {
    var rows: seq<seq<Th>> := [[Th(7, 1, 2)], []];
    var g: Grid := [[7], [7]];
    var th := Th(7, 1, 2);
    var start := Empty(2);
    var placed := Layout([map[0 := 7], map[0 := 7]], [Some(0), Some(0)]);
    assert FirstFree(start.rows[0], 0) == 0;
    assert Place(start, 0, th) == Some(placed) by {
      var p := Place(start, 0, th).value;
      assert Band(0, 1, 7) == map[0 := 7];
      assert p.rows[0] == map[0 := 7] && p.rows[1] == map[0 := 7] && p.rows == placed.rows;
      assert p.nTr == placed.nTr;
    }
    assert rows[0][1..] == [];
    assert PlaceRow(start, 0, rows[0]) == Some(placed);
    assert PlaceRows(placed, 1, rows) == Some(placed);
    assert Detect(rows) == Some(placed);
    assert DrawnRow(g, 1, 1, 0) == [] by { assert !IsCorner(g, 1, 1, 0); }
  }

  /** The cells of row `i` up to column `j` are drawn. */
  ghost predicate Drawing(row: seq<Th>, g: Grid, columns: nat, i: nat, j: nat)
    requires Dense(g, columns) && i < |g| && j <= columns
  {
    row + DrawnRow(g, columns, i, j) == DrawnRow(g, columns, i, 0)
  }

  lemma DrawingCorner(row: seq<Th>, g: Grid, columns: nat, i: nat, j: nat)
    requires Dense(g, columns) && i < |g| && j < columns && IsCorner(g, columns, i, j) && Drawing(row, g, columns, i, j)
    ensures Drawing(row + [CornerTh(g, columns, i, j)], g, columns, i, j + 1)
  {
    assert row + [CornerTh(g, columns, i, j)] + DrawnRow(g, columns, i, j + 1) == row + DrawnRow(g, columns, i, j);
  }

  lemma DrawingSkip(row: seq<Th>, g: Grid, columns: nat, i: nat, j: nat)
    requires Dense(g, columns) && i < |g| && j < columns && !IsCorner(g, columns, i, j)
             && Drawing(row, g, columns, i, j)
    ensures Drawing(row, g, columns, i, j + 1)
  {
    assert DrawnRow(g, columns, i, j) == DrawnRow(g, columns, i, j + 1);
  }

  lemma DrawingEnds(row: seq<Th>, g: Grid, columns: nat, i: nat)
    requires Dense(g, columns) && i < |g| && Drawing(row, g, columns, i, columns)
    ensures row == DrawnRow(g, columns, i, 0)
  {
    assert row + DrawnRow(g, columns, i, columns) == row;
  }

  /** The squares noted so far are those of the cells that start before square (i, j). */
  ghost predicate Applied(applied: set<(int, int)>, g: Grid, columns: nat, i: nat, j: nat)
    requires Dense(g, columns)
  {
    forall r: nat, c: nat :: r < |g| && c < columns ==> ((r, c) in applied <==> Started(g, columns, i, j, r, c))
  }

  lemma AppliedCorner(applied: set<(int, int)>, g: Grid, columns: nat, i: nat, j: nat)
    requires Dense(g, columns) && Tiled(g) && i < |g| && j < columns && Applied(applied, g, columns, i, j)
    ensures (i, j) !in applied <==> IsCorner(g, columns, i, j)
  {
  }

  lemma AppliedSkip(applied: set<(int, int)>, g: Grid, columns: nat, i: nat, j: nat)
    requires Dense(g, columns) && Tiled(g) && i < |g| && j < columns && Applied(applied, g, columns, i, j)
    requires !IsCorner(g, columns, i, j)
    ensures Applied(applied, g, columns, i, j + 1)
  {
    forall r: nat, c: nat | r < |g| && c < columns
      ensures Started(g, columns, i, j, r, c) <==> Started(g, columns, i, j + 1, r, c)
    {
      SameCorner(g, columns, r, c, r, c);
    }
  }

  lemma AppliedStep(applied: set<(int, int)>, after: set<(int, int)>, g: Grid, columns: nat, i: nat, j: nat)
    requires Dense(g, columns) && Tiled(g) && i < |g| && j < columns && Applied(applied, g, columns, i, j)
    requires IsCorner(g, columns, i, j)
    requires forall r, c :: (r, c) in after <==>
               (r, c) in applied || (i <= r < i + Down(g, columns, i, j) && j <= c < j + Across(g, columns, i, j))
    ensures Applied(after, g, columns, i, j + 1)
  {
    forall r: nat, c: nat | r < |g| && c < columns
      ensures (r, c) in after <==> Started(g, columns, i, j + 1, r, c)
    {
      CornerStarts(g, columns, i, j, r, c);
    }
  }

  lemma AppliedNextRow(applied: set<(int, int)>, g: Grid, columns: nat, i: nat)
    requires Dense(g, columns) && i < |g| && Applied(applied, g, columns, i, columns)
    ensures Applied(applied, g, columns, i + 1, 0)
  {
    assert forall r: nat, c: nat :: r < |g| && c < columns ==>
      (Started(g, columns, i, columns, r, c) <==> Started(g, columns, i + 1, 0, r, c));
  }

  // ------------------------------------------------------------------ the round trip

  /** The header that shows the visible columns of a sound header. */
  function VisibleHeader(rows: seq<seq<Th>>, vis: seq<bool>): (drawn: seq<seq<Th>>)
    requires Sound(rows, |vis|)
  {
    var v := Hide(GridOf(Detect(rows).value, |vis|), vis);
    HideByColumns(GridOf(Detect(rows).value, |vis|), vis);
    Drawn(v, |Columns(vis, 0)|)
  }

  lemma RedrawOfSound(rows: seq<seq<Th>>, vis: seq<bool>)
    requires Sound(rows, |vis|) && forall i :: 0 <= i < |rows| ==> rows[i] != []
    ensures var lay := Detect(rows).value; var g := GridOf(lay, |vis|); var n := |Columns(vis, 0)|;
            && Tiled(g) && Dense(Hide(g, vis), n)
            && (forall i :: 0 <= i < |rows| ==> lay.nTr[i] == Some(i))
            && DrawnInto(rows, Hide(g, vis), n, lay.nTr, |rows|) == VisibleHeader(rows, vis)
  {
    var lay, g, n := Detect(rows).value, GridOf(Detect(rows).value, |vis|), |Columns(vis, 0)|;
    SoundIsTiled(rows, |vis|);
    HideByColumns(g, vis);
    forall i | 0 <= i < |rows| ensures lay.nTr[i] == Some(i) {
      PlaceRowsOwner(Empty(|rows|), 0, rows, i);
    }
    DrawnIntoOwners(rows, Hide(g, vis), n, lay.nTr, |rows|);
    WholePrefix(DrawnInto(rows, Hide(g, vis), n, lay.nTr, |rows|), Drawn(Hide(g, vis), n), |rows|);
  }

  lemma WholePrefix<T>(s: seq<T>, t: seq<T>, n: nat)
    requires |s| == |t| == n && s[..n] == t[..n]
    ensures s == t
  {
    assert s == s[..n] && t == t[..n];
  }

  /** For every sound header and every choice of hidden columns, the header drawn again decodes
      to the source grid without the hidden columns, and the cell of every visible square is
      drawn exactly once, with its rectangle of visible squares as its spans. */
  lemma RedrawTilesTheVisibleGrid(rows: seq<seq<Th>>, vis: seq<bool>)
    requires Sound(rows, |vis|)
    ensures var v := Hide(GridOf(Detect(rows).value, |vis|), vis); var drawn := VisibleHeader(rows, vis);
            var n := |Columns(vis, 0)|;
            && Dense(v, n) && |drawn| == |v|
            && Detect(drawn).Some? && Depicts(Detect(drawn).value, v)
            && forall r, c :: 0 <= r < |v| && 0 <= c < n ==> DrawnExactlyOnce(drawn, v, n, r, c)
  {
    var g := GridOf(Detect(rows).value, |vis|);
    SoundIsTiled(rows, |vis|);
    HideByColumns(g, vis);
    HideKeepsTiled(g, vis);
    var v, n := Hide(g, vis), |Columns(vis, 0)|;
    DetectOfDrawn(v, n);
    forall r, c | 0 <= r < |v| && 0 <= c < n ensures DrawnExactlyOnce(Drawn(v, n), v, n, r, c) {
      DrawnOnce(v, n, r, c);
    }
  }
}

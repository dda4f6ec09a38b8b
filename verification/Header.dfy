/** DataTables' header layout: the rows of a `thead` with their row and column spans are decoded
    into a grid with one cell per square (`_fnDetectHeader`), and the header is drawn again from
    the grid without its hidden columns (`_fnDrawHead`). */
module Header {
  import opened Wrappers

  /** A header cell; its spans are the values of the two attributes, 0 if missing. */
  datatype Th = Th(cell: nat, colspan: nat, rowspan: nat)

  function Span(attribute: nat): nat {
    if attribute <= 1 then 1 else attribute
  }

  /** `aLayout`: sparse rows of cells, and for each row the TR its cells are put into. */
  datatype Layout = Layout(rows: seq<map<nat, nat>>, nTr: seq<Option<nat>>)

  ghost predicate Shaped(lay: Layout, n: nat) {
    |lay.rows| == n == |lay.nTr|
  }

  function Empty(n: nat): (lay: Layout)
    ensures Shaped(lay, n)
  {
    Layout(seq(n, _ => map[]), seq(n, _ => None))
  }

  // ------------------------------------------------------------------ decoding

  lemma FewerLeft(row: map<nat, nat>, j: nat)
    requires j in row
    ensures (set k | k in row && j + 1 <= k) < (set k | k in row && j <= k)
  {
    var all := set k | k in row && j <= k;
    assert j in all;
  }

  /** `fnShiftCol`: the first column from `j` on that is still undefined. */
  function FirstFree(row: map<nat, nat>, j: nat): (c: nat)
    ensures j <= c && c !in row && forall k :: j <= k < c ==> k in row
    decreases set k | k in row && j <= k
  {
    if j in row then
      FewerLeft(row, j);
      FirstFree(row, j + 1)
    else j
  }

  function Band(left: nat, w: nat, cell: nat): (m: map<nat, nat>)
    ensures forall c :: (c in m <==> left <= c < left + w) && (c in m ==> m[c] == cell)
  {
    if w == 0 then map[] else Band(left, w - 1, cell)[left + w - 1 := cell]
  }

  /** Put one cell of row `i` into the layout; `None` is the TypeError when its rowspan leaves
      the header. */
  function Place(lay: Layout, i: nat, th: Th): (r: Option<Layout>)
    requires i < |lay.rows| == |lay.nTr|
    ensures r.Some? ==> Shaped(r.value, |lay.rows|)
  {
    var left, w, h := FirstFree(lay.rows[i], 0), Span(th.colspan), Span(th.rowspan);
    if i + h > |lay.rows| then None
    else Some(Layout(Filled(lay.rows, i, left, w, th.cell, h), Owned(lay.nTr, i, h)))
  }

  /** The first `h` rows from row `i` with `w` squares of the cell in them. */
  function Filled(rows: seq<map<nat, nat>>, i: nat, left: nat, w: nat, cell: nat, h: nat): (f: seq<map<nat, nat>>)
    ensures |f| == |rows|
    ensures forall r :: 0 <= r < |f| ==> f[r] == if i <= r < i + h then rows[r] + Band(left, w, cell) else rows[r]
  {
    seq(|rows|, r requires 0 <= r < |rows| => if i <= r < i + h then rows[r] + Band(left, w, cell) else rows[r])
  }

  function Owned(nTr: seq<Option<nat>>, i: nat, h: nat): (o: seq<Option<nat>>)
    ensures |o| == |nTr| && forall r :: 0 <= r < |o| ==> o[r] == if i <= r < i + h then Some(i) else nTr[r]
  {
    seq(|nTr|, r requires 0 <= r < |nTr| => if i <= r < i + h then Some(i) else nTr[r])
  }

  function PlaceRow(lay: Layout, i: nat, row: seq<Th>): (r: Option<Layout>)
    requires i < |lay.rows| == |lay.nTr|
    ensures r.Some? ==> Shaped(r.value, |lay.rows|)
    decreases |row|
  {
    if row == [] then Some(lay)
    else match Place(lay, i, row[0])
         case None => None
         case Some(next) => PlaceRow(next, i, row[1..])
  }

  function PlaceRows(lay: Layout, i: nat, rows: seq<seq<Th>>): (r: Option<Layout>)
    requires i <= |lay.rows| == |lay.nTr| == |rows|
    ensures r.Some? ==> Shaped(r.value, |rows|)
    decreases |rows| - i
  {
    if i == |rows| then Some(lay)
    else match PlaceRow(lay, i, rows[i])
         case None => None
         case Some(next) => PlaceRows(next, i + 1, rows)
  }

  function Detect(rows: seq<seq<Th>>): (r: Option<Layout>)
    ensures r.Some? ==> Shaped(r.value, |rows|)
  {
    PlaceRows(Empty(|rows|), 0, rows)
  }

  // ------------------------------------------------------------------ grids

  /** A dense layout: one cell per square. */
  type Grid = seq<seq<nat>>

  ghost predicate Dense(g: Grid, columns: nat) {
    forall r :: 0 <= r < |g| ==> |g[r]| == columns
  }

  ghost predicate Square(g: Grid, r: int, c: int) {
    0 <= r < |g| && 0 <= c < |g[r]|
  }

  ghost predicate SameCell(g: Grid, r: int, c: int, r': int, c': int) {
    Square(g, r, c) && Square(g, r', c') && g[r][c] == g[r'][c']
  }

  /** The squares of each cell form one rectangle. */
  ghost predicate Tiled(g: Grid) {
    && (forall r, c, r', c' :: SameCell(g, r, c, r', c') ==> SameCell(g, r, c, r, c'))
    && (forall r, c, r', m :: SameCell(g, r, c, r', c) && r <= m <= r' ==> SameCell(g, r, c, m, c))
    && (forall r, c, c', m :: SameCell(g, r, c, r, c') && c <= m <= c' ==> SameCell(g, r, c, r, m))
  }

  /** `lay` is the grid `g`. */
  ghost predicate Depicts(lay: Layout, g: Grid) {
    && |lay.rows| == |g|
    && forall r :: 0 <= r < |g|
         ==> forall c: nat :: (c in lay.rows[r] <==> c < |g[r]|) && (c in lay.rows[r] ==> lay.rows[r][c] == g[r][c])
  }

  // ------------------------------------------------------------------ the extent of a cell

  function Top(g: Grid, columns: nat, r: nat, c: nat): (t: nat)
    requires Dense(g, columns) && r < |g| && c < columns
    ensures t <= r && forall m :: t <= m <= r ==> g[m][c] == g[r][c]
    ensures t > 0 ==> g[t - 1][c] != g[r][c]
  {
    if r > 0 && g[r - 1][c] == g[r][c] then Top(g, columns, r - 1, c) else r
  }

  function Left(g: Grid, columns: nat, r: nat, c: nat): (l: nat)
    requires Dense(g, columns) && r < |g| && c < columns
    ensures l <= c && forall m :: l <= m <= c ==> g[r][m] == g[r][c]
    ensures l > 0 ==> g[r][l - 1] != g[r][c]
  {
    if c > 0 && g[r][c - 1] == g[r][c] then Left(g, columns, r, c - 1) else c
  }

  /** The rows and columns are counted from the square itself: what the two loops count. */
  function Down(g: Grid, columns: nat, r: nat, c: nat): (h: nat)
    requires Dense(g, columns) && r < |g| && c < columns
    ensures 1 <= h && r + h <= |g| && forall m :: r <= m < r + h ==> g[m][c] == g[r][c]
    ensures r + h < |g| ==> g[r + h][c] != g[r][c]
    decreases |g| - r
  {
    if r + 1 < |g| && g[r + 1][c] == g[r][c] then 1 + Down(g, columns, r + 1, c) else 1
  }

  function Across(g: Grid, columns: nat, r: nat, c: nat): (w: nat)
    requires Dense(g, columns) && r < |g| && c < columns
    ensures 1 <= w && c + w <= columns && forall m :: c <= m < c + w ==> g[r][m] == g[r][c]
    ensures c + w < columns ==> g[r][c + w] != g[r][c]
    decreases columns - c
  {
    if c + 1 < columns && g[r][c + 1] == g[r][c] then 1 + Across(g, columns, r, c + 1) else 1
  }

  predicate IsCorner(g: Grid, columns: nat, r: nat, c: nat)
    requires Dense(g, columns) && r < |g| && c < columns
  {
    Top(g, columns, r, c) == r && Left(g, columns, r, c) == c
  }

  /** `h` by `w` squares with the corner's cell, and another cell above, below and beside. */
  ghost predicate Block(g: Grid, r: nat, c: nat, h: nat, w: nat) {
    && (forall m :: r <= m < r + h ==> SameCell(g, r, c, m, c))
    && (forall m :: c <= m < c + w ==> SameCell(g, r, c, r, m))
    && (r > 0 ==> !SameCell(g, r, c, r - 1, c)) && !SameCell(g, r, c, r + h, c)
    && (c > 0 ==> !SameCell(g, r, c, r, c - 1)) && !SameCell(g, r, c, r, c + w)
  }

  lemma Column(g: Grid, r: int, c: int, r': int, m: int)
    requires Tiled(g) && SameCell(g, r, c, r', c) && r <= m <= r'
    ensures SameCell(g, r, c, m, c)
  {
  }

  lemma Row(g: Grid, r: int, c: int, c': int, m: int)
    requires Tiled(g) && SameCell(g, r, c, r, c') && c <= m <= c'
    ensures SameCell(g, r, c, r, m)
  {
  }

  lemma BlockOwns(g: Grid, r: nat, c: nat, h: nat, w: nat, r': nat, c': nat)
    requires Tiled(g) && Block(g, r, c, h, w) && h >= 1 && w >= 1
    ensures SameCell(g, r, c, r', c') <==> r <= r' < r + h && c <= c' < c + w
  {
    if SameCell(g, r, c, r', c') {
      assert SameCell(g, r, c, r, c') && SameCell(g, r, c', r, c);
      assert SameCell(g, r', c', r, c) && SameCell(g, r', c', r', c) && SameCell(g, r, c, r', c)
             && SameCell(g, r', c, r, c);
      if r' < r { Column(g, r', c, r, r - 1); }
      else if r' >= r + h { Column(g, r, c, r', r + h); }
      else if c' < c { Row(g, r, c', c, c - 1); }
      else if c' >= c + w { Row(g, r, c, c', c + w); }
    }
    if r <= r' < r + h && c <= c' < c + w {
      assert SameCell(g, r, c, r', c) && SameCell(g, r, c, r, c');
      assert SameCell(g, r', c, r, c') && SameCell(g, r', c, r', c');
    }
  }

  lemma CornerIsBlock(g: Grid, columns: nat, r: nat, c: nat)
    requires Dense(g, columns) && r < |g| && c < columns && IsCorner(g, columns, r, c)
    ensures Block(g, r, c, Down(g, columns, r, c), Across(g, columns, r, c))
  {
  }

  /** In a tiled grid the block that starts at a corner holds exactly the cell's squares. */
  lemma CornerOwns(g: Grid, columns: nat, r: nat, c: nat, r': nat, c': nat)
    requires Dense(g, columns) && Tiled(g) && r < |g| && c < columns && r' < |g| && c' < columns
    requires IsCorner(g, columns, r, c)
    ensures g[r'][c'] == g[r][c] <==>
              r <= r' < r + Down(g, columns, r, c) && c <= c' < c + Across(g, columns, r, c)
  {
    CornerIsBlock(g, columns, r, c);
    BlockOwns(g, r, c, Down(g, columns, r, c), Across(g, columns, r, c), r', c');
    assert SameCell(g, r, c, r', c') <==> g[r'][c'] == g[r][c];
  }

  lemma TopIsShared(g: Grid, columns: nat, r: nat, c: nat, r': nat, c': nat)
    requires Dense(g, columns) && Tiled(g) && SameCell(g, r, c, r', c')
    ensures Top(g, columns, r, c) <= Top(g, columns, r', c')
  {
    var t := Top(g, columns, r', c');
    assert SameCell(g, t, c', r, c) && SameCell(g, t, c', t, c) && SameCell(g, t, c, r, c);
    if t < Top(g, columns, r, c) { Column(g, t, c, r, Top(g, columns, r, c) - 1); }
  }

  lemma LeftIsShared(g: Grid, columns: nat, r: nat, c: nat, r': nat, c': nat)
    requires Dense(g, columns) && Tiled(g) && SameCell(g, r, c, r', c')
    ensures Left(g, columns, r, c) <= Left(g, columns, r', c')
  {
    var l := Left(g, columns, r', c');
    assert SameCell(g, r, c, r', l) && SameCell(g, r, c, r, l) && SameCell(g, r, l, r, c);
    if l < Left(g, columns, r, c) { Row(g, r, l, c, Left(g, columns, r, c) - 1); }
  }

  lemma ExtentIsShared(g: Grid, columns: nat, r: nat, c: nat, r': nat, c': nat)
    requires Dense(g, columns) && Tiled(g) && SameCell(g, r, c, r', c')
    ensures Top(g, columns, r, c) == Top(g, columns, r', c') && Left(g, columns, r, c) == Left(g, columns, r', c')
  {
    assert SameCell(g, r', c', r, c);
    TopIsShared(g, columns, r, c, r', c');
    TopIsShared(g, columns, r', c', r, c);
    LeftIsShared(g, columns, r, c, r', c');
    LeftIsShared(g, columns, r', c', r, c);
  }

  /** Two squares of one cell have the same corner, and conversely. */
  lemma SameCorner(g: Grid, columns: nat, r: nat, c: nat, r': nat, c': nat)
    requires Dense(g, columns) && Tiled(g) && r < |g| && c < columns && r' < |g| && c' < columns
    ensures g[r][c] == g[r'][c'] <==>
              Top(g, columns, r, c) == Top(g, columns, r', c') && Left(g, columns, r, c) == Left(g, columns, r', c')
    ensures IsCorner(g, columns, Top(g, columns, r, c), Left(g, columns, r, c))
    ensures g[Top(g, columns, r, c)][Left(g, columns, r, c)] == g[r][c]
  {
    var t, l := Top(g, columns, r, c), Left(g, columns, r, c);
    CornerCell(g, columns, r, c);
    CornerCell(g, columns, r', c');
    assert SameCell(g, r, c, t, l);
    ExtentIsShared(g, columns, r, c, t, l);
    if g[r][c] == g[r'][c'] {
      assert SameCell(g, r, c, r', c');
      ExtentIsShared(g, columns, r, c, r', c');
    }
  }

  lemma CornerCell(g: Grid, columns: nat, r: nat, c: nat)
    requires Dense(g, columns) && Tiled(g) && r < |g| && c < columns
    ensures g[Top(g, columns, r, c)][Left(g, columns, r, c)] == g[r][c]
  {
    var t, l := Top(g, columns, r, c), Left(g, columns, r, c);
    assert SameCell(g, t, c, r, l) && SameCell(g, t, c, t, l);
  }

  // ------------------------------------------------------------------ drawing, as a function

  /** The cell of the square, with the extents from there on as spans. */
  function CornerTh(g: Grid, columns: nat, r: nat, c: nat): Th
    requires Dense(g, columns) && r < |g| && c < columns
  {
    Th(g[r][c], Across(g, columns, r, c), Down(g, columns, r, c))
  }

  /** The cells that start in row `r` from column `c` on, with their extents as spans. */
  function DrawnRow(g: Grid, columns: nat, r: nat, c: nat): seq<Th>
    requires Dense(g, columns) && r < |g| && c <= columns
    decreases columns - c
  {
    if c == columns then []
    else (if IsCorner(g, columns, r, c)
          then [CornerTh(g, columns, r, c)] else [])
         + DrawnRow(g, columns, r, c + 1)
  }

  function Drawn(g: Grid, columns: nat): (rows: seq<seq<Th>>)
    requires Dense(g, columns)
    ensures |rows| == |g| && forall r :: 0 <= r < |g| ==> rows[r] == DrawnRow(g, columns, r, 0)
  {
    seq(|g|, r requires 0 <= r < |g| => DrawnRow(g, columns, r, 0))
  }

  // ------------------------------------------------------------------ decoding a drawn header

  /** The square belongs to a cell that starts before square (i, j) in reading order. */
  predicate Started(g: Grid, columns: nat, i: nat, j: nat, r: nat, c: nat)
    requires Dense(g, columns) && r < |g| && c < columns
  {
    Top(g, columns, r, c) < i || (Top(g, columns, r, c) == i && Left(g, columns, r, c) < j)
  }

  ghost predicate PlacedUpTo(lay: Layout, g: Grid, columns: nat, i: nat, j: nat)
    requires Dense(g, columns)
  {
    Shaped(lay, |g|) && forall r :: 0 <= r < |g| ==> RowUpTo(lay.rows[r], g, columns, i, j, r)
  }

  ghost predicate RowUpTo(row: map<nat, nat>, g: Grid, columns: nat, i: nat, j: nat, r: nat)
    requires Dense(g, columns) && r < |g|
  {
    forall c: nat :: (c in row <==> c < columns && Started(g, columns, i, j, r, c)) && (c in row ==> row[c] == g[r][c])
  }

  lemma CornerStarts(g: Grid, columns: nat, i: nat, j: nat, r: nat, c: nat)
    requires Dense(g, columns) && Tiled(g) && i < |g| && j < columns && IsCorner(g, columns, i, j) && r < |g|
             && c < columns
    ensures var block := i <= r < i + Down(g, columns, i, j) && j <= c < j + Across(g, columns, i, j);
            && (Started(g, columns, i, j + 1, r, c) <==> Started(g, columns, i, j, r, c) || block)
            && (block ==> g[r][c] == g[i][j])
  {
    CornerOwns(g, columns, i, j, r, c);
    SameCorner(g, columns, r, c, i, j);
  }

  lemma CornerIsFree(row: map<nat, nat>, g: Grid, columns: nat, i: nat, j: nat)
    requires Dense(g, columns) && i < |g| && j < columns && IsCorner(g, columns, i, j)
             && RowUpTo(row, g, columns, i, j, i)
    ensures FirstFree(row, 0) == j
  {
    assert forall c :: 0 <= c < j ==> Started(g, columns, i, j, i, c);
    assert j !in row;
  }

  lemma PlaceCorner(lay: Layout, g: Grid, columns: nat, i: nat, j: nat)
    requires Dense(g, columns) && Tiled(g) && i < |g| && j < columns && IsCorner(g, columns, i, j)
    requires PlacedUpTo(lay, g, columns, i, j)
    ensures var next := Place(lay, i, CornerTh(g, columns, i, j));
            next.Some? && PlacedUpTo(next.value, g, columns, i, j + 1)
  {
    var h, w := Down(g, columns, i, j), Across(g, columns, i, j);
    CornerIsFree(lay.rows[i], g, columns, i, j);
    var next := Place(lay, i, CornerTh(g, columns, i, j)).value;
    forall r | 0 <= r < |g| ensures RowUpTo(next.rows[r], g, columns, i, j + 1, r) {
      PlaceCornerRow(lay.rows[r], next.rows[r], g, columns, i, j, r);
    }
  }

  lemma PlaceCornerRow(row: map<nat, nat>, next: map<nat, nat>, g: Grid, columns: nat, i: nat, j: nat, r: nat)
    requires Dense(g, columns) && Tiled(g) && i < |g| && j < columns && IsCorner(g, columns, i, j) && r < |g|
    requires RowUpTo(row, g, columns, i, j, r)
    requires next == if i <= r < i + Down(g, columns, i, j) then row + Band(j, Across(g, columns, i, j), g[i][j])
             else row
    ensures RowUpTo(next, g, columns, i, j + 1, r)
  {
    forall c: nat | c < columns
      ensures (c in next <==> Started(g, columns, i, j + 1, r, c)) && (c in next ==> next[c] == g[r][c])
    {
      CornerStarts(g, columns, i, j, r, c);
    }
  }

  lemma SkipSquare(lay: Layout, g: Grid, columns: nat, i: nat, j: nat)
    requires Dense(g, columns) && Tiled(g) && i < |g| && j < columns && !IsCorner(g, columns, i, j)
    requires PlacedUpTo(lay, g, columns, i, j)
    ensures PlacedUpTo(lay, g, columns, i, j + 1)
  {
    forall r, c | 0 <= r < |g| && 0 <= c < columns
      ensures Started(g, columns, i, j, r, c) <==> Started(g, columns, i, j + 1, r, c)
    {
      SameCorner(g, columns, r, c, r, c);
    }
  }

  lemma NextRow(lay: Layout, g: Grid, columns: nat, i: nat)
    requires Dense(g, columns) && i < |g| && PlacedUpTo(lay, g, columns, i, columns)
    ensures PlacedUpTo(lay, g, columns, i + 1, 0)
  {
    assert forall r, c :: 0 <= r < |g| && 0 <= c < columns ==>
      (Started(g, columns, i, columns, r, c) <==> Started(g, columns, i + 1, 0, r, c));
  }

  lemma {:induction false} DetectDrawnRow(lay: Layout, g: Grid, columns: nat, i: nat, j: nat)
    requires Dense(g, columns) && Tiled(g) && i < |g| && j <= columns && PlacedUpTo(lay, g, columns, i, j)
    ensures var next := PlaceRow(lay, i, DrawnRow(g, columns, i, j));
            next.Some? && PlacedUpTo(next.value, g, columns, i, columns)
    decreases columns - j
  {
    if j < columns {
      var row := DrawnRow(g, columns, i, j);
      if IsCorner(g, columns, i, j) {
        PlaceCorner(lay, g, columns, i, j);
        DetectDrawnRow(Place(lay, i, row[0]).value, g, columns, i, j + 1);
        assert row[1..] == DrawnRow(g, columns, i, j + 1);
      } else {
        SkipSquare(lay, g, columns, i, j);
        DetectDrawnRow(lay, g, columns, i, j + 1);
        assert row == DrawnRow(g, columns, i, j + 1);
      }
    }
  }

  /** The rows are those drawn from the grid. */
  ghost predicate Redrawn(rows: seq<seq<Th>>, g: Grid, columns: nat)
    requires Dense(g, columns)
  {
    |rows| == |g| && forall r :: 0 <= r < |g| ==> rows[r] == DrawnRow(g, columns, r, 0)
  }

  lemma OneRow(lay: Layout, g: Grid, columns: nat, rows: seq<seq<Th>>, i: nat)
    requires Dense(g, columns) && Tiled(g) && i < |g| && Redrawn(rows, g, columns) && PlacedUpTo(lay, g, columns, i, 0)
    ensures PlaceRow(lay, i, rows[i]).Some? && PlacedUpTo(PlaceRow(lay, i, rows[i]).value, g, columns, i + 1, 0)
  {
    DetectDrawnRow(lay, g, columns, i, 0);
    NextRow(PlaceRow(lay, i, rows[i]).value, g, columns, i);
  }

  /** What every row keeps holds of the whole header. */
  lemma {:induction false} PlaceRowsKeep(lay: Layout, i: nat, rows: seq<seq<Th>>, keeps: (Layout, nat) -> bool)
    requires i <= |lay.rows| == |lay.nTr| == |rows| && keeps(lay, i)
    requires forall l: Layout, k: nat :: k < |rows| && Shaped(l, |rows|) && keeps(l, k) ==>
               PlaceRow(l, k, rows[k]).Some? && keeps(PlaceRow(l, k, rows[k]).value, k + 1)
    ensures PlaceRows(lay, i, rows).Some? && keeps(PlaceRows(lay, i, rows).value, |rows|)
    decreases |rows| - i
  {
    if i < |rows| {
      assert Shaped(lay, |rows|);
      PlaceRowsKeep(PlaceRow(lay, i, rows[i]).value, i + 1, rows, keeps);
    }
  }

  lemma DetectDrawnRows(g: Grid, columns: nat, rows: seq<seq<Th>>)
    requires Dense(g, columns) && Tiled(g) && Redrawn(rows, g, columns)
    ensures Detect(rows).Some? && PlacedUpTo(Detect(rows).value, g, columns, |g|, 0)
  {
    var keeps := (l: Layout, k: nat) => PlacedUpTo(l, g, columns, k, 0);
    forall l: Layout, k: nat | k < |rows| && Shaped(l, |rows|) && keeps(l, k)
      ensures PlaceRow(l, k, rows[k]).Some? && keeps(PlaceRow(l, k, rows[k]).value, k + 1)
    {
      OneRow(l, g, columns, rows, k);
    }
    NothingStarted(g, columns);
    PlaceRowsKeep(Empty(|g|), 0, rows, keeps);
  }

  lemma NothingStarted(g: Grid, columns: nat)
    requires Dense(g, columns)
    ensures PlacedUpTo(Empty(|g|), g, columns, 0, 0)
  {
  }

  lemma AllStarted(lay: Layout, g: Grid, columns: nat)
    requires Dense(g, columns) && PlacedUpTo(lay, g, columns, |g|, 0)
    ensures Depicts(lay, g)
  {
    forall r, c: nat | 0 <= r < |g|
      ensures (c in lay.rows[r] <==> c < |g[r]|) && (c in lay.rows[r] ==> lay.rows[r][c] == g[r][c])
    {
      assert RowUpTo(lay.rows[r], g, columns, |g|, 0, r);
    }
  }

  /** Decoding a header drawn from a tiled grid gives the grid back. */
  lemma DetectOfDrawn(g: Grid, columns: nat)
    requires Dense(g, columns) && Tiled(g)
    ensures Detect(Drawn(g, columns)).Some? && Depicts(Detect(Drawn(g, columns)).value, g)
  {
    DetectDrawnRows(g, columns, Drawn(g, columns));
    AllStarted(Detect(Drawn(g, columns)).value, g, columns);
  }

  // ------------------------------------------------------------------ each cell is drawn once

  lemma {:induction false} DrawnFromCorner(g: Grid, columns: nat, r: nat, c: nat, th: Th) returns (k: nat)
    requires Dense(g, columns) && r < |g| && c <= columns && th in DrawnRow(g, columns, r, c)
    ensures c <= k < columns && IsCorner(g, columns, r, k) && th == CornerTh(g, columns, r, k)
    decreases columns - c
  {
    if IsCorner(g, columns, r, c) && th == CornerTh(g, columns, r, c) {
      k := c;
    } else {
      k := DrawnFromCorner(g, columns, r, c + 1, th);
    }
  }

  function Occurrences(s: seq<Th>, x: Th): nat {
    if s == [] then 0 else (if s[0] == x then 1 else 0) + Occurrences(s[1..], x)
  }

  lemma {:induction false} OccursNowhere(s: seq<Th>, x: Th)
    requires x !in s
    ensures Occurrences(s, x) == 0
  {
    if s != [] { OccursNowhere(s[1..], x); }
  }

  lemma OccursSomewhere(s: seq<Th>, x: Th)
    requires Occurrences(s, x) > 0
    ensures x in s
  {
  }

  lemma CornersDiffer(g: Grid, columns: nat, r: nat, k: nat, k': nat)
    requires Dense(g, columns) && Tiled(g) && r < |g| && k < columns && k' < columns && k != k'
    requires IsCorner(g, columns, r, k) && IsCorner(g, columns, r, k')
    ensures CornerTh(g, columns, r, k) != CornerTh(g, columns, r, k')
  {
    SameCorner(g, columns, r, k, r, k');
  }

  lemma NotDrawnAgain(g: Grid, columns: nat, r: nat, k: nat)
    requires Dense(g, columns) && Tiled(g) && r < |g| && k < columns && IsCorner(g, columns, r, k)
    ensures CornerTh(g, columns, r, k) !in DrawnRow(g, columns, r, k + 1)
  {
    if CornerTh(g, columns, r, k) in DrawnRow(g, columns, r, k + 1) {
      var k' := DrawnFromCorner(g, columns, r, k + 1, CornerTh(g, columns, r, k));
      CornersDiffer(g, columns, r, k, k');
    }
  }

  lemma {:induction false} CornerIsDrawnOnce(g: Grid, columns: nat, r: nat, c: nat, k: nat)
    requires Dense(g, columns) && Tiled(g) && r < |g| && c <= k < columns && IsCorner(g, columns, r, k)
    ensures Occurrences(DrawnRow(g, columns, r, c), CornerTh(g, columns, r, k)) == 1
    decreases columns - c
  {
    var th, rest := CornerTh(g, columns, r, k), DrawnRow(g, columns, r, c + 1);
    if c == k {
      NotDrawnAgain(g, columns, r, k);
      OccursNowhere(rest, th);
      assert DrawnRow(g, columns, r, c)[1..] == rest;
    } else {
      CornerIsDrawnOnce(g, columns, r, c + 1, k);
      if IsCorner(g, columns, r, c) {
        CornersDiffer(g, columns, r, c, k);
        assert DrawnRow(g, columns, r, c)[1..] == rest;
      } else {
        assert DrawnRow(g, columns, r, c) == rest;
      }
    }
  }

  /** The cell of square (r, c) is in exactly one row of `drawn`, once, and the block that its
      spans give it, laid at its top left square, is exactly the rectangle of its squares. */
  ghost predicate DrawnExactlyOnce(drawn: seq<seq<Th>>, g: Grid, columns: nat, r: nat, c: nat)
    requires Dense(g, columns) && |drawn| == |g| && r < |g| && c < columns
  {
    var t, l := Top(g, columns, r, c), Left(g, columns, r, c);
    var th := CornerTh(g, columns, t, l);
    && (forall i, th' :: 0 <= i < |g| && th' in drawn[i] && th'.cell == g[r][c] <==> i == t && th' == th)
    && Occurrences(drawn[t], th) == 1
    && (forall r', c' :: 0 <= r' < |g| && 0 <= c' < columns ==>
          (g[r'][c'] == g[r][c] <==> t <= r' < t + th.rowspan && l <= c' < l + th.colspan))
  }

  lemma DrawnOnce(g: Grid, columns: nat, r: nat, c: nat)
    requires Dense(g, columns) && Tiled(g) && r < |g| && c < columns
    ensures DrawnExactlyOnce(Drawn(g, columns), g, columns, r, c)
  {
    var t, l := Top(g, columns, r, c), Left(g, columns, r, c);
    var th := CornerTh(g, columns, t, l);
    SameCorner(g, columns, r, c, r, c);
    CornerIsDrawnOnce(g, columns, t, 0, l);
    OccursSomewhere(Drawn(g, columns)[t], th);
    forall r', c' | 0 <= r' < |g| && 0 <= c' < columns
      ensures g[r'][c'] == g[r][c] <==> t <= r' < t + th.rowspan && l <= c' < l + th.colspan
    {
      CornerOwns(g, columns, t, l, r', c');
    }
    forall i, th' ensures 0 <= i < |g| && th' in Drawn(g, columns)[i] && th'.cell == g[r][c] <==> i == t && th' == th {
      if 0 <= i < |g| {
        if th' in Drawn(g, columns)[i] && th'.cell == g[r][c] {
          var k := DrawnFromCorner(g, columns, i, 0, th');
          SameCorner(g, columns, i, k, r, c);
        }
      }
    }
  }
}

/** What the filters of DataTables keep, and what the fast path of `_fnFilter` keeps. */
module RowFilter {
  import opened IndexArrays
  import opened Sequences
  import opened Searching

  /** An entry of `aoData`: its `_iId` and the text of its cells. */
  datatype Row = Row(id: nat, cells: seq<string>)

  /** Which columns are searchable, which are of the type html, the case folding of the host's
      regular expressions and the text its HTML parser gives. */
  datatype Config = Config(searchable: seq<bool>, html: seq<bool>, fold: char -> char, decode: string -> string)

  ghost predicate WellFormed(rows: seq<Row>, cfg: Config) {
    |cfg.html| == |cfg.searchable| && forall x :: 0 <= x < |rows| ==> |rows[x].cells| == |cfg.searchable|
  }

  ghost predicate Below(d: seq<nat>, n: int) {
    forall i :: 0 <= i < |d| ==> d[i] < n
  }

  function Text(rows: seq<Row>, cfg: Config, x: nat): string {
    if x < |rows| && |rows[x].cells| == |cfg.searchable| == |cfg.html| then
      RowText(rows[x].cells, cfg.searchable, cfg.html, cfg.decode)
    else ""
  }

  predicate GlobalMatch(rows: seq<Row>, cfg: Config, g: Search, x: nat) {
    Matches(g, Text(rows, cfg, x), cfg.fold)
  }

  predicate ColumnMatch(rows: seq<Row>, cfg: Config, cols: seq<Search>, c: nat, x: nat) {
    && x < |rows| && c < |cols| && c < |rows[x].cells| && c < |cfg.html|
    && Matches(cols[c], DataToSearch(rows[x].cells[c], cfg.html[c]), cfg.fold)
  }

  /** The row passes the filters of the first `n` columns. */
  predicate ColumnsMatch(rows: seq<Row>, cfg: Config, cols: seq<Search>, n: nat, x: nat) {
    forall c :: 0 <= c < n ==> ColumnMatch(rows, cfg, cols, c, x)
  }

  /** The filter of a column looks at the cell of that column: a literal search finds the rows whose
      cell has the text in it. */
  lemma ColumnFilterFinds(rows: seq<Row>, cfg: Config, cols: seq<Search>, c: nat, x: nat)
    requires WellFormed(rows, cfg) && x < |rows| && c < |cols| == |cfg.searchable|
    requires !cols[c].smart && '<' !in rows[x].cells[c] && '\n' !in rows[x].cells[c]
    ensures ColumnMatch(rows, cfg, cols, c, x) <==>
              cols[c].text == "" || Found(rows[x].cells[c], cols[c].text, cfg.fold)
  {
    PlainTextStays(rows[x].cells[c], cfg.html[c]);
  }

  /** The global filter finds the rows with the text in a searchable cell. */
  lemma GlobalFilterFinds(rows: seq<Row>, cfg: Config, g: Search, c: nat, x: nat)
    requires WellFormed(rows, cfg) && x < |rows| && c < |cfg.searchable| && cfg.searchable[c] && !g.smart
    requires '<' !in rows[x].cells[c] && '\n' !in rows[x].cells[c] && Found(rows[x].cells[c], g.text, cfg.fold)
    requires forall d :: 0 <= d < |cfg.searchable| && cfg.searchable[d] ==> '&' !in rows[x].cells[d]
    ensures GlobalMatch(rows, cfg, g, x)
  {
    var cells := rows[x].cells;
    PlainTextStays(cells[c], cfg.html[c]);
    CellIsSearched(cells, cfg.searchable, cfg.html, |cells|, c, g.text, cfg.fold);
    PlainRowStays(cells, cfg.searchable, cfg.html, |cells|, cfg.decode);
  }

  function GlobalFits(rows: seq<Row>, cfg: Config, g: Search): nat -> bool {
    (x: nat) => GlobalMatch(rows, cfg, g, x)
  }

  function ColumnFits(rows: seq<Row>, cfg: Config, cols: seq<Search>, c: nat): nat -> bool {
    (x: nat) => ColumnMatch(rows, cfg, cols, c, x)
  }

  function ColumnsFit(rows: seq<Row>, cfg: Config, cols: seq<Search>, n: nat): nat -> bool {
    (x: nat) => ColumnsMatch(rows, cfg, cols, n, x)
  }

  function Fits(rows: seq<Row>, cfg: Config, g: Search, cols: seq<Search>): nat -> bool {
    (x: nat) => GlobalMatch(rows, cfg, g, x) && ColumnsMatch(rows, cfg, cols, |cols|, x)
  }

  /** Full filtering: the rows that pass the global search and every column's. */
  function Shown(rows: seq<Row>, cfg: Config, g: Search, cols: seq<Search>, master: seq<nat>): seq<nat> {
    Keep(master, Fits(rows, cfg, g, cols))
  }

  /** The search texts of the rows of an index array, place by place. */
  function Texts(rows: seq<Row>, cfg: Config, d: seq<nat>): seq<string> {
    seq(|d|, i requires 0 <= i < |d| => Text(rows, cfg, d[i]))
  }

  /** The fast path on the first `n` places: a place goes if its text does not match, and stays if
      it has no text. */
  function Refined(d: seq<nat>, texts: seq<string>, s: Search, fold: char -> char, n: nat): seq<nat>
    requires n <= |d|
  {
    if n == 0 then []
    else if n - 1 < |texts| && !Test(s, texts[n - 1], fold) then Refined(d, texts, s, fold, n - 1)
    else Refined(d, texts, s, fold, n - 1) + [d[n - 1]]
  }

  lemma {:induction false} RefinedTail(d: seq<nat>, texts: seq<string>, s: Search, fold: char -> char, n: nat)
    requires |texts| <= n <= |d|
    ensures Refined(d, texts, s, fold, n) == Refined(d, texts, s, fold, |texts|) + d[|texts|..n]
  {
    if n > |texts| {
      RefinedTail(d, texts, s, fold, n - 1);
    }
  }

  lemma KeepNext(d: seq<nat>, n: nat, p: nat -> bool)
    requires n < |d|
    ensures Keep(d[..n + 1], p) == if p(d[n]) then Keep(d[..n], p) + [d[n]] else Keep(d[..n], p)
  {
    KeepPush(d[..n], d[n], p);
    assert d[..n + 1] == d[..n] + [d[n]];
  }

  /** The texts are those of the first rows. */
  ghost predicate TextsOf(rows: seq<Row>, cfg: Config, d: seq<nat>, texts: seq<string>) {
    |texts| <= |d| && forall i :: 0 <= i < |texts| ==> texts[i] == Text(rows, cfg, d[i])
  }

  /** A place whose text is the row's stays exactly if the row passes. */
  lemma RefinedStep(rows: seq<Row>, cfg: Config, d: seq<nat>, texts: seq<string>, s: Search, n: nat)
    requires 0 < n <= |d| && n <= |texts| && texts[n - 1] == Text(rows, cfg, d[n - 1]) && s.text != ""
    ensures var before := Refined(d, texts, s, cfg.fold, n - 1);
            Refined(d, texts, s, cfg.fold, n)
            == if GlobalFits(rows, cfg, s)(d[n - 1]) then before + [d[n - 1]] else before
  {
  }

  /** On aligned texts the fast path filters. */
  lemma {:induction false} RefinedFilters(rows: seq<Row>, cfg: Config, d: seq<nat>, texts: seq<string>, s: Search,
                                          n: nat)
    requires TextsOf(rows, cfg, d, texts) && n <= |texts| && s.text != ""
    ensures Refined(d, texts, s, cfg.fold, n) == Keep(d[..n], GlobalFits(rows, cfg, s))
  {
    if n > 0 {
      var m := n - 1;
      RefinedFilters(rows, cfg, d, texts, s, m);
      assert texts[m] == Text(rows, cfg, d[m]);
      RefinedStep(rows, cfg, d, texts, s, n);
      KeepNext(d, m, GlobalFits(rows, cfg, s));
    }
  }

  lemma {:induction false} RefinedElements(d: seq<nat>, texts: seq<string>, s: Search, fold: char -> char, n: nat,
                                           x: nat)
    requires n <= |d|
    ensures x in Refined(d, texts, s, fold, n) ==> x in d[..n]
  {
    if n > 0 {
      RefinedElements(d, texts, s, fold, n - 1, x);
      assert d[..n] == d[..n - 1] + [d[n - 1]];
    }
  }

  function MemberOf(s: seq<nat>): nat -> bool {
    (x: nat) => x in s
  }

  /** The fast path keeps the order, whatever the texts are. */
  lemma {:induction false} RefinedInOrder(d: seq<nat>, texts: seq<string>, s: Search, fold: char -> char, n: nat)
    requires n <= |d| && Distinct(d)
    ensures Refined(d, texts, s, fold, n) == Keep(d[..n], MemberOf(Refined(d, texts, s, fold, n)))
  {
    if n > 0 {
      var before, after := Refined(d, texts, s, fold, n - 1), Refined(d, texts, s, fold, n);
      RefinedInOrder(d, texts, s, fold, n - 1);
      RefinedElements(d, texts, s, fold, n - 1, d[n - 1]);
      OthersDiffer(d, n - 1);
      KeepSame(d[..n - 1], MemberOf(before), MemberOf(after));
      KeepPush(d[..n - 1], d[n - 1], MemberOf(after));
      assert d[..n] == d[..n - 1] + [d[n - 1]];
    }
  }

  /** The fast path equals full filtering: the rows shown for the shorter search, refined by the
      longer one. */
  lemma NarrowingIsFiltering(rows: seq<Row>, cfg: Config, before: Search, after: Search, cols: seq<Search>,
                             master: seq<nat>)
    requires before.smart == after.smart && before.text <= after.text
    ensures Keep(Shown(rows, cfg, before, cols, master), GlobalFits(rows, cfg, after))
            == Shown(rows, cfg, after, cols, master)
  {
    forall x | x in master ensures GlobalMatch(rows, cfg, after, x) ==> GlobalMatch(rows, cfg, before, x) {
      if GlobalMatch(rows, cfg, after, x) {
        ExtensionNarrows(before, after, Text(rows, cfg, x), cfg.fold);
      }
    }
    KeepTwice(master, Fits(rows, cfg, before, cols), GlobalFits(rows, cfg, after), Fits(rows, cfg, after, cols));
  }

  /** The rows that pass both global searches and every column's. */
  function FitBoth(rows: seq<Row>, cfg: Config, before: Search, after: Search, cols: seq<Search>): nat -> bool {
    (x: nat) => GlobalMatch(rows, cfg, before, x) && Fits(rows, cfg, after, cols)(x)
  }

  /** Whatever the modes of the two searches are, refining finds the rows that pass both; so it is
      full filtering exactly if each row found by the second passes the first. */
  lemma NarrowingFindsBoth(rows: seq<Row>, cfg: Config, before: Search, after: Search, cols: seq<Search>,
                           master: seq<nat>)
    ensures var refined := Keep(Shown(rows, cfg, before, cols, master), GlobalFits(rows, cfg, after));
            && refined == Keep(master, FitBoth(rows, cfg, before, after, cols))
            && (refined == Shown(rows, cfg, after, cols, master) <==>
                  forall x :: x in Shown(rows, cfg, after, cols, master) ==> GlobalMatch(rows, cfg, before, x))
  {
    var both, fits := FitBoth(rows, cfg, before, after, cols), Fits(rows, cfg, after, cols);
    KeepTwice(master, Fits(rows, cfg, before, cols), GlobalFits(rows, cfg, after), both);
    KeepContents(master, both);
    KeepContents(master, fits);
    if forall x :: x in Keep(master, fits) ==> GlobalMatch(rows, cfg, before, x) {
      forall x | x in master ensures both(x) == fits(x) {
        assert fits(x) ==> x in Keep(master, fits);
      }
      KeepSame(master, both, fits);
    }
  }

  /** The column filters applied to a fully filtered list change nothing, and complete a list that
      only the global search has filtered. */
  lemma ColumnsComplete(rows: seq<Row>, cfg: Config, g: Search, cols: seq<Search>, master: seq<nat>, start: seq<nat>)
    requires start == Keep(master, GlobalFits(rows, cfg, g)) || start == Shown(rows, cfg, g, cols, master)
    ensures Keep(start, ColumnsFit(rows, cfg, cols, |cols|)) == Shown(rows, cfg, g, cols, master)
  {
    if start == Keep(master, GlobalFits(rows, cfg, g)) {
      KeepTwice(master, GlobalFits(rows, cfg, g), ColumnsFit(rows, cfg, cols, |cols|), Fits(rows, cfg, g, cols));
    } else {
      KeepTwice(master, Fits(rows, cfg, g, cols), ColumnsFit(rows, cfg, cols, |cols|), Fits(rows, cfg, g, cols));
    }
  }

  lemma ColumnsCompleteBoth(rows: seq<Row>, cfg: Config, before: Search, after: Search, cols: seq<Search>,
                            master: seq<nat>)
    ensures Keep(Keep(Shown(rows, cfg, before, cols, master), GlobalFits(rows, cfg, after)),
                 ColumnsFit(rows, cfg, cols, |cols|))
         == Keep(master, FitBoth(rows, cfg, before, after, cols))
  {
    var both := FitBoth(rows, cfg, before, after, cols);
    NarrowingFindsBoth(rows, cfg, before, after, cols, master);
    KeepTwice(master, both, ColumnsFit(rows, cfg, cols, |cols|), both);
  }

  // ------------------------------------------------------------------ after deleting a row

  /** `splice(at, 1)`, where a negative place counts from the end. */
  function Splice<T>(s: seq<T>, at: int): seq<T>
    requires -1 <= at
  {
    if at == -1 then (if s == [] then s else s[..|s| - 1])
    else if at < |s| then s[..at] + s[at + 1..]
    else s
  }

  lemma DeletedText(rows: seq<Row>, cfg: Config, k: nat, x: nat)
    requires k < |rows| && x < |rows| && x != k
    ensures Text(Splice(rows, k), cfg, Low(x, k)) == Text(rows, cfg, x)
  {
    assert Splice(rows, k)[Low(x, k)] == rows[x];
  }

  lemma DeletedFits(rows: seq<Row>, cfg: Config, g: Search, cols: seq<Search>, k: nat, x: nat)
    requires k < |rows| && x < |rows| && x != k
    ensures Fits(Splice(rows, k), cfg, g, cols)(Low(x, k)) == Fits(rows, cfg, g, cols)(x)
  {
    DeletedText(rows, cfg, k, x);
    assert Splice(rows, k)[Low(x, k)] == rows[x];
    forall c | 0 <= c < |cols|
      ensures ColumnMatch(Splice(rows, k), cfg, cols, c, Low(x, k)) == ColumnMatch(rows, cfg, cols, c, x) {
    }
  }

  /** Full filtering commutes with deleting a row. */
  lemma ShownDeleted(rows: seq<Row>, cfg: Config, g: Search, cols: seq<Search>, master: seq<nat>, k: nat)
    requires IsOrder(master, |rows|) && k < |rows|
    ensures Shown(Splice(rows, k), cfg, g, cols, Deleted(master, k)) == Deleted(Shown(rows, cfg, g, cols, master), k)
  {
    forall x | x in master && x != k
      ensures Fits(Splice(rows, k), cfg, g, cols)(Low(x, k)) == Fits(rows, cfg, g, cols)(x)
    {
      DeletedFits(rows, cfg, g, cols, k, x);
    }
    KeepDeleted(master, k, Fits(rows, cfg, g, cols), Fits(Splice(rows, k), cfg, g, cols));
  }

  /** The texts after deleting a row that is not displayed. */
  lemma TextsOfOthers(rows: seq<Row>, cfg: Config, d: seq<nat>, k: nat)
    requires k < |rows| && k !in d && Below(d, |rows|)
    ensures Texts(Splice(rows, k), cfg, Deleted(d, k)) == Texts(rows, cfg, d)
  {
    DeletedLow(d, k);
    forall i | 0 <= i < |d| ensures Text(Splice(rows, k), cfg, Deleted(d, k)[i]) == Text(rows, cfg, d[i]) {
      DeletedText(rows, cfg, k, d[i]);
    }
  }

  lemma TextsJoin(rows: seq<Row>, cfg: Config, a: seq<nat>, b: seq<nat>)
    ensures Texts(rows, cfg, a + b) == Texts(rows, cfg, a) + Texts(rows, cfg, b)
  {
  }

  lemma TextsSlice(rows: seq<Row>, cfg: Config, d: seq<nat>, t: nat)
    requires t < |d|
    ensures Splice(Texts(rows, cfg, d), t) == Texts(rows, cfg, d[..t]) + Texts(rows, cfg, d[t + 1..])
  {
    var all := Texts(rows, cfg, d);
    assert all[..t] == Texts(rows, cfg, d[..t]);
    assert all[t + 1..] == Texts(rows, cfg, d[t + 1..]);
  }

  /** The texts of the displayed rows after deleting a displayed row: the place of that row goes. */
  lemma TextsDeleted(rows: seq<Row>, cfg: Config, d: seq<nat>, k: nat, t: nat)
    requires Distinct(d) && k < |rows| && Below(d, |rows|) && t < |d| && d[t] == k
    ensures Texts(Splice(rows, k), cfg, Deleted(d, k)) == Splice(Texts(rows, cfg, d), t)
  {
    var a, b := d[..t], d[t + 1..];
    DeletedAt(d, k, t);
    OthersDiffer(d, t);
    TextsJoin(Splice(rows, k), cfg, Deleted(a, k), Deleted(b, k));
    TextsOfOthers(rows, cfg, a, k);
    TextsOfOthers(rows, cfg, b, k);
    TextsSlice(rows, cfg, d, t);
  }

  /** After deleting a row, the search texts are those of the displayed rows exactly if it was
      displayed or nothing is: otherwise the text of the last displayed row is lost. */
  lemma AlignedAfterDeleting(rows: seq<Row>, cfg: Config, d: seq<nat>, k: nat, at: int)
    requires Distinct(d) && k < |rows| && Below(d, |rows|)
    requires if k in d then 0 <= at < |d| && d[at] == k else at == -1
    ensures Splice(Texts(rows, cfg, d), at) == Texts(Splice(rows, k), cfg, Deleted(d, k)) <==> k in d || d == []
  {
    if k in d {
      TextsDeleted(rows, cfg, d, k, at);
    } else {
      DeletedLow(d, k);
      TextsOfOthers(rows, cfg, d, k);
    }
  }

  /** What a narrower search then shows is right exactly if the last displayed row matches it. */
  lemma StaleNarrowing(rows: seq<Row>, cfg: Config, d: seq<nat>, s: Search)
    requires d != [] && s.text != ""
    ensures Refined(d, Splice(Texts(rows, cfg, d), -1), s, cfg.fold, |d|) == Keep(d, GlobalFits(rows, cfg, s))
       <==> GlobalMatch(rows, cfg, s, d[|d| - 1])
  {
    var n := |d| - 1;
    var all := Texts(rows, cfg, d);
    RefinedFilters(rows, cfg, d, all[..n], s, n);
    PushLast(d, n);
    KeepLast(d, d[..n], d[n], GlobalFits(rows, cfg, s));
    assert Refined(d, all[..n], s, cfg.fold, |d|) == Refined(d, all[..n], s, cfg.fold, n) + [d[n]];
  }

  lemma PushLast(d: seq<nat>, n: nat)
    requires n + 1 == |d|
    ensures d == d[..n] + [d[n]]
  {
  }

  lemma KeepLast(d: seq<nat>, front: seq<nat>, x: nat, p: nat -> bool)
    requires d == front + [x]
    ensures Keep(d, p) == if p(x) then Keep(front, p) + [x] else Keep(front, p)
  {
    KeepPush(front, x, p);
  }

  // ------------------------------------------------------------------ the displayed objects

  function Objects(rows: seq<Row>, d: seq<nat>): seq<Row>
    requires Below(d, |rows|)
  {
    if d == [] then []
    else [rows[d[0]]] + Objects(rows, d[1..])
  }

  function Without(objects: seq<Row>, gone: Row): seq<Row> {
    Keep(objects, (r: Row) => r != gone)
  }

  /** Deleting a row leaves the displayed objects, but for that one, in their order. */
  lemma {:induction false} ObjectsAfterDeleting(rows: seq<Row>, d: seq<nat>, k: nat)
    requires k < |rows| && Below(d, |rows|)
    requires forall i, j :: 0 <= i < j < |rows| ==> rows[i].id != rows[j].id
    ensures Below(Deleted(d, k), |rows| - 1)
    ensures Objects(Splice(rows, k), Deleted(d, k)) == Without(Objects(rows, d), rows[k])
  {
    if d != [] {
      ObjectsAfterDeleting(rows, d[1..], k);
      WithoutFront(rows[d[0]], Objects(rows, d[1..]), rows[k]);
      if d[0] != k {
        ObjectMoves(rows, d[0], k);
        ObjectsFront(Splice(rows, k), Low(d[0], k), Deleted(d[1..], k));
      }
    }
  }

  lemma WithoutFront(x: Row, rest: seq<Row>, gone: Row)
    ensures Without([x] + rest, gone) == if x != gone then [x] + Without(rest, gone) else Without(rest, gone)
  {
    KeepFront(x, rest, (r: Row) => r != gone);
  }

  lemma ObjectsFront(rows: seq<Row>, x: nat, rest: seq<nat>)
    requires x < |rows| && Below(rest, |rows|)
    ensures Below([x] + rest, |rows|) && Objects(rows, [x] + rest) == [rows[x]] + Objects(rows, rest)
  {
    assert ([x] + rest)[1..] == rest;
  }

  lemma ObjectMoves(rows: seq<Row>, x: nat, k: nat)
    requires k < |rows| && x < |rows| && x != k
    requires forall i, j :: 0 <= i < j < |rows| ==> rows[i].id != rows[j].id
    ensures |Splice(rows, k)| == |rows| - 1 && Low(x, k) < |rows| - 1
    ensures Splice(rows, k)[Low(x, k)] == rows[x] && rows[x] != rows[k]
  {
  }
}

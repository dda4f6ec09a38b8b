/** The row indices of a DataTables table under adding, deleting, clearing, sorting and filtering. */
module DataTable {
  import opened IndexArrays
  import opened Sequences
  import opened Searching
  import opened RowFilter
  import opened RowSorting
  import opened Wrappers

  /** What `fnAddData` is given: the cells of one row, or a list of rows. */
  datatype Added = OneRow(cells: seq<string>) | ManyRows(rows: seq<seq<string>>)
  {
    /** The rows to add; a row without cells is no row. */
    function Rows(): seq<seq<string>> {
      match this
      case OneRow(cells) => if cells == [] then [] else [cells]
      case ManyRows(rows) => rows
    }
  }

  ghost predicate UniqueIds(rows: seq<Row>, next: nat) {
    && (forall i :: 0 <= i < |rows| ==> rows[i].id < next)
    && forall i, j :: 0 <= i < j < |rows| ==> rows[i].id != rows[j].id
  }

  /** `aiDisplayMaster` is a permutation of the row numbers and `aiDisplay` lists some of it in its
      order. */
  ghost predicate Indexed(rows: seq<Row>, master: seq<nat>, display: seq<nat>) {
    IsOrder(master, |rows|) && InOrder(display, master)
  }

  /** While rows are hidden there are no more search texts than displayed rows. */
  ghost predicate Covered(master: seq<nat>, display: seq<nat>, texts: seq<string>) {
    |display| < |master| ==> |texts| <= |display|
  }

  /** While rows are hidden, the displayed ones are those that full filtering shows, and the search
      texts are theirs. */
  ghost predicate Aligned(rows: seq<Row>, cfg: Config, g: Search, cols: seq<Search>,
                          master: seq<nat>, display: seq<nat>, texts: seq<string>) {
    |display| < |master| ==> display == Shown(rows, cfg, g, cols, master) && texts == Texts(rows, cfg, display)
  }

  /** The entry at the place of the displayed row `k` is gone, or the last one if `k` is not displayed. */
  ghost predicate Spliced(display: seq<nat>, k: nat, before: seq<string>, after: seq<string>) {
    if k in display then exists at: nat :: at < |display| && display[at] == k && after == Splice(before, at)
    else after == Splice(before, -1)
  }

  /** `_fnFilter` refines the rows it shows instead of searching all rows. */
  predicate Refines(prev: Search, input: Search, iForce: bool, master: seq<nat>, display: seq<nat>) {
    input.text != "" && |display| != |master| && |prev.text| <= |input.text| && !iForce && prev.text <= input.text
  }

  // ------------------------------------------------------------------ facts about the arrays

  lemma DisplayOf(rows: seq<Row>, master: seq<nat>, display: seq<nat>)
    requires IsOrder(master, |rows|) && InOrder(display, master)
    ensures Distinct(display) && Below(display, |rows|) && |display| <= |master|
    ensures |display| == |master| ==> display == master
    ensures forall x :: x in display ==> x < |rows|
  {
    var p: nat -> bool :| display == Keep(master, p);
    KeepContents(master, p);
    KeepDistinct(master, p);
    forall i | 0 <= i < |display| ensures display[i] < |rows| { assert display[i] in display; }
    if |display| == |master| { KeepWhole(master, p); }
  }

  lemma DisplayIsDistinct(rows: seq<Row>, master: seq<nat>, display: seq<nat>)
    requires Indexed(rows, master, display)
    ensures Distinct(master) && Distinct(display)
  {
    DisplayOf(rows, master, display);
  }

  lemma KeptInOrder(master: seq<nat>, display: seq<nat>, p: nat -> bool)
    requires InOrder(display, master)
    ensures InOrder(Keep(display, p), master)
  {
    var q: nat -> bool :| display == Keep(master, q);
    KeepTwice(master, q, p, x => q(x) && p(x));
  }

  lemma WholeInOrder(master: seq<nat>)
    ensures InOrder(master, master)
  {
    KeepAll(master, _ => true);
  }

  lemma RefinedDisplay(rows: seq<Row>, master: seq<nat>, display: seq<nat>, texts: seq<string>, s: Search,
                       fold: char -> char)
    requires IsOrder(master, |rows|) && InOrder(display, master)
    ensures InOrder(Refined(display, texts, s, fold, |display|), master)
  {
    DisplayOf(rows, master, display);
    RefinedInOrder(display, texts, s, fold, |display|);
    assert display[..|display|] == display;
    var kept := Refined(display, texts, s, fold, |display|);
    KeptInOrder(master, display, MemberOf(kept));
  }

  /** Deleting keeps the order of the displayed rows. */
  lemma DeletedInOrder(master: seq<nat>, display: seq<nat>, k: nat)
    requires InOrder(display, master)
    ensures InOrder(Deleted(display, k), Deleted(master, k))
  {
    var p: nat -> bool :| display == Keep(master, p);
    var p': nat -> bool := (y: nat) => p(High(y, k));
    forall x: nat | x in master && x != k ensures p'(Low(x, k)) == p(x) {
      assert High(Low(x, k), k) == x;
    }
    KeepDeleted(master, k, p, p');
  }

  /** Deleting a row keeps the fast path right exactly if the row was displayed, no row is, or no
      other row is hidden. */
  lemma AlignedExactly(rows: seq<Row>, cfg: Config, g: Search, cols: seq<Search>,
                       master: seq<nat>, display: seq<nat>, texts: seq<string>, k: nat, at: int)
    requires Indexed(rows, master, display) && k < |rows|
    requires if k in display then 0 <= at < |display| && display[at] == k else at == -1
    ensures Aligned(rows, cfg, g, cols, master, display, texts)
            ==> (Aligned(Splice(rows, k), cfg, g, cols, Deleted(master, k), Deleted(display, k), Splice(texts, at))
                 <==> k in display || display == [] || |display| + 1 == |master|)
  {
    if Aligned(rows, cfg, g, cols, master, display, texts) {
      DisplayOf(rows, master, display);
      DeletedDistinct(master, k);
      DeletedDistinct(display, k);
      ShownDeleted(rows, cfg, g, cols, master, k);
      AlignedAfterDeleting(rows, cfg, display, k, at);
    }
  }

  /** A number that is no row's: only a search text is lost, and it is missed if rows are hidden. */
  lemma AlignedWithoutRow(rows: seq<Row>, cfg: Config, g: Search, cols: seq<Search>,
                          master: seq<nat>, display: seq<nat>, texts: seq<string>)
    requires Indexed(rows, master, display)
    ensures Aligned(rows, cfg, g, cols, master, display, texts)
            ==> (Aligned(rows, cfg, g, cols, master, display, Splice(texts, -1))
                 <==> display == [] || display == master)
  {
    DisplayOf(rows, master, display);
  }

  /** The fast path has looked at the first `i` of the shown rows and dropped `corrector` of them. */
  ghost predicate Searched(shown: seq<nat>, texts: seq<string>, input: Search, fold: char -> char, i: nat,
                           corrector: int, display: seq<nat>) {
    && i <= |texts| <= |shown|
    && display == Refined(shown, texts, input, fold, i) + shown[i..]
    && i - corrector == |Refined(shown, texts, input, fold, i)|
  }

  lemma SearchedMore(shown: seq<nat>, texts: seq<string>, input: Search, fold: char -> char, i: nat, corrector: int,
                     display: seq<nat>)
    requires Searched(shown, texts, input, fold, i, corrector, display) && i < |texts|
    ensures 0 <= i - corrector
    ensures if Test(input, texts[i], fold)
            then Searched(shown, texts, input, fold, i + 1, corrector, display)
            else Searched(shown, texts, input, fold, i + 1, corrector + 1, Splice(display, i - corrector))
  {
    assert shown[i..] == [shown[i]] + shown[i + 1..];
    SpliceBetween(Refined(shown, texts, input, fold, i), shown[i], shown[i + 1..]);
  }

  class Table {
    const cfg: Config
    var aoData: seq<Row>
    var iNextId: nat
    var aiDisplayMaster: seq<nat>
    var aiDisplay: seq<nat>
    var asDataSearch: seq<string>
    var oPreviousSearch: Search
    var aoPreSearchCols: seq<Search>
    var aaSorting: seq<Comparator<Row>>

    ghost predicate SoundRows()
      reads this
    {
      && WellFormed(aoData, cfg)
      && UniqueIds(aoData, iNextId)
      && |aoPreSearchCols| == |cfg.searchable|
      && IsOrder(aiDisplayMaster, |aoData|)
    }

    ghost predicate Sound()
      reads this
    {
      SoundRows() && Indexed(aoData, aiDisplayMaster, aiDisplay)
    }

    ghost predicate Valid()
      reads this
    {
      Sound() && Covered(aiDisplayMaster, aiDisplay, asDataSearch)
    }

    /** What the fast path of the filter relies on. */
    ghost predicate Ready()
      reads this
    {
      Aligned(aoData, cfg, oPreviousSearch, aoPreSearchCols, aiDisplayMaster, aiDisplay, asDataSearch)
    }

    constructor (cfg: Config)
      requires |cfg.html| == |cfg.searchable|
      ensures Valid() && Ready()
      ensures this.cfg == cfg && aoData == [] && aaSorting == []
    {
      this.cfg := cfg;
      aoData, iNextId := [], 0;
      aiDisplayMaster, aiDisplay, asDataSearch := [], [], [];
      oPreviousSearch := Search("", true);
      aoPreSearchCols := seq(|cfg.searchable|, _ => Search("", true));
      aaSorting := [];
      new;
      WholeInOrder([]);
    }

    // ---------------------------------------------------------------- filtering

    /** `_fnBuildSearchArray`. */
    method BuildSearchArray(iMaster: bool)
      requires WellFormed(aoData, cfg)
      requires Below(if iMaster then aiDisplayMaster else aiDisplay, |aoData|)
      modifies `asDataSearch
      ensures asDataSearch == Texts(aoData, cfg, if iMaster then aiDisplayMaster else aiDisplay)
    {
      asDataSearch := [];
      var aArray := if iMaster then aiDisplayMaster else aiDisplay;
      for i := 0 to |aArray|
        invariant asDataSearch == Texts(aoData, cfg, aArray[..i])
      {
        var text := BuildSearchRow(aoData[aArray[i]].cells, cfg.searchable, cfg.html, cfg.decode);
        assert text == Text(aoData, cfg, aArray[i]);
        assert aArray[..i + 1] == aArray[..i] + [aArray[i]];
        asDataSearch := asDataSearch + [text];
      }
      assert aArray[..|aArray|] == aArray;
    }

    /** The loop of `_fnFilter` over all rows. */
    method SearchAll(input: Search)
      requires asDataSearch == Texts(aoData, cfg, aiDisplayMaster) && input.text != ""
      modifies `aiDisplay
      ensures aiDisplay == Keep(aiDisplayMaster, GlobalFits(aoData, cfg, input))
    {
      aiDisplay := [];
      for i := 0 to |aiDisplayMaster|
        invariant aiDisplay == Keep(aiDisplayMaster[..i], GlobalFits(aoData, cfg, input))
      {
        KeepPush(aiDisplayMaster[..i], aiDisplayMaster[i], GlobalFits(aoData, cfg, input));
        assert aiDisplayMaster[..i + 1] == aiDisplayMaster[..i] + [aiDisplayMaster[i]];
        if Test(input, asDataSearch[i], cfg.fold) {
          aiDisplay := aiDisplay + [aiDisplayMaster[i]];
        }
      }
      assert aiDisplayMaster[..|aiDisplayMaster|] == aiDisplayMaster;
    }

    /** The loop of `_fnFilter` over the rows already shown. */
    method SearchShown(input: Search)
      requires |asDataSearch| <= |aiDisplay|
      modifies `aiDisplay
      ensures aiDisplay == Refined(old(aiDisplay), asDataSearch, input, cfg.fold, |old(aiDisplay)|)
    {
      ghost var shown := aiDisplay;
      var iIndexCorrector := 0;
      for i := 0 to |asDataSearch|
        invariant Searched(shown, asDataSearch, input, cfg.fold, i, iIndexCorrector, aiDisplay)
      {
        SearchedMore(shown, asDataSearch, input, cfg.fold, i, iIndexCorrector, aiDisplay);
        if !Test(input, asDataSearch[i], cfg.fold) {
          aiDisplay := Splice(aiDisplay, i - iIndexCorrector);
          iIndexCorrector := iIndexCorrector + 1;
        }
      }
      RefinedTail(shown, asDataSearch, input, cfg.fold, |shown|);
    }

    /** `_fnFilter`. */
    method Filter(input: Search, iForce: bool)
      requires SoundRows() && (iForce || Valid())
      modifies `aiDisplay, `asDataSearch, `oPreviousSearch
      ensures Sound() && oPreviousSearch == input
      ensures aiDisplay == if Refines(old(oPreviousSearch), input, iForce, aiDisplayMaster, old(aiDisplay))
                           then Refined(old(aiDisplay), old(asDataSearch), input, cfg.fold, |old(aiDisplay)|)
                           else Keep(aiDisplayMaster, GlobalFits(aoData, cfg, input))
    {
      if !iForce { DisplayOf(aoData, aiDisplayMaster, aiDisplay); }
      WholeInOrder(aiDisplayMaster);
      DisplayOf(aoData, aiDisplayMaster, aiDisplayMaster);
      if |input.text| <= 0 {
        aiDisplay := aiDisplayMaster;
        KeepAll(aiDisplayMaster, GlobalFits(aoData, cfg, input));
      } else if |aiDisplay| == |aiDisplayMaster| || |oPreviousSearch.text| > |input.text| || iForce
                || !(oPreviousSearch.text <= input.text) {
        BuildSearchArray(true);
        SearchAll(input);
        KeptInOrder(aiDisplayMaster, aiDisplayMaster, GlobalFits(aoData, cfg, input));
      } else {
        RefinedDisplay(aoData, aiDisplayMaster, aiDisplay, asDataSearch, input, cfg.fold);
        SearchShown(input);
      }
      oPreviousSearch := input;
    }

    /** `_fnFilterColumn`: from the last displayed row to the first. */
    method FilterColumn(c: nat)
      requires WellFormed(aoData, cfg) && Below(aiDisplay, |aoData|) && c < |aoPreSearchCols| == |cfg.searchable|
      modifies `aiDisplay
      ensures aiDisplay == Keep(old(aiDisplay), ColumnFits(aoData, cfg, aoPreSearchCols, c))
    {
      ghost var shown, p := aiDisplay, ColumnFits(aoData, cfg, aoPreSearchCols, c);
      var search := aoPreSearchCols[c];
      if search.text == "" {
        forall x | x in shown ensures p(x) {}
        KeepAll(shown, p);
        return;
      }
      var i := |aiDisplay|;
      assert shown[..i] == shown;
      while i > 0
        invariant 0 <= i <= |shown|
        invariant aiDisplay == shown[..i] + Keep(shown[i..], p)
      {
        i := i - 1;
        ghost var tail := Keep(shown[i + 1..], p);
        assert shown[..i + 1] + tail == shown[..i] + ([shown[i]] + tail);
        assert shown[i..] == [shown[i]] + shown[i + 1..];
        KeepFront(shown[i], shown[i + 1..], p);
        var sData := DataToSearch(aoData[aiDisplay[i]].cells[c], cfg.html[c]);
        if !Test(search, sData, cfg.fold) {
          SpliceBetween(shown[..i], shown[i], tail);
          aiDisplay := Splice(aiDisplay, i);
        }
      }
    }

    method FilterColumns()
      requires Sound()
      modifies `aiDisplay
      ensures Sound()
      ensures aiDisplay == Keep(old(aiDisplay), ColumnsFit(aoData, cfg, aoPreSearchCols, |aoPreSearchCols|))
    {
      ghost var start := aiDisplay;
      KeepAll(start, ColumnsFit(aoData, cfg, aoPreSearchCols, 0));
      for i := 0 to |aoPreSearchCols|
        invariant Sound()
        invariant aiDisplay == Keep(start, ColumnsFit(aoData, cfg, aoPreSearchCols, i))
      {
        DisplayOf(aoData, aiDisplayMaster, aiDisplay);
        KeptInOrder(aiDisplayMaster, aiDisplay, ColumnFits(aoData, cfg, aoPreSearchCols, i));
        OneMoreColumn(aoData, cfg, aoPreSearchCols, i, start);
        FilterColumn(i);
      }
    }

    /** `_fnFilterComplete`. An unforced call with another mode than the last search, which no caller
        in the file makes, may take the fast path and then shows what passes both searches. */
    method FilterComplete(oInput: Search, iForce: bool)
      requires SoundRows() && (iForce || Valid())
      modifies `aiDisplay, `asDataSearch, `oPreviousSearch
      ensures Valid() && oPreviousSearch == oInput
      ensures asDataSearch == Texts(aoData, cfg, aiDisplay)
      ensures iForce || (old(Ready()) && oInput.smart == old(oPreviousSearch).smart)
              ==> aiDisplay == Shown(aoData, cfg, oInput, aoPreSearchCols, aiDisplayMaster)
      ensures old(Ready()) && !Refines(old(oPreviousSearch), oInput, iForce, aiDisplayMaster, old(aiDisplay))
              ==> aiDisplay == Shown(aoData, cfg, oInput, aoPreSearchCols, aiDisplayMaster)
      ensures old(Ready()) && Refines(old(oPreviousSearch), oInput, iForce, aiDisplayMaster, old(aiDisplay))
              ==> aiDisplay
                  == Keep(aiDisplayMaster, FitBoth(aoData, cfg, old(oPreviousSearch), oInput, aoPreSearchCols))
    {
      ghost var prev, display, texts := oPreviousSearch, aiDisplay, asDataSearch;
      ghost var ready := Ready();
      if !iForce { DisplayOf(aoData, aiDisplayMaster, aiDisplay); }
      Filter(oInput, iForce);
      if iForce || ready {
        FilteredStart(aoData, cfg, prev, oInput, iForce, aoPreSearchCols, aiDisplayMaster, display, texts);
        if Refines(prev, oInput, iForce, aiDisplayMaster, display) {
          ColumnsCompleteBoth(aoData, cfg, prev, oInput, aoPreSearchCols, aiDisplayMaster);
        }
        if oInput.smart == prev.smart || !Refines(prev, oInput, iForce, aiDisplayMaster, display) {
          ColumnsComplete(aoData, cfg, oInput, aoPreSearchCols, aiDisplayMaster, aiDisplay);
        }
      }
      FilterColumns();
      DisplayOf(aoData, aiDisplayMaster, aiDisplay);
      BuildSearchArray(false);
    }

    /** `fnFilter` on the whole table. */
    method FnFilter(sInput: string, bSmart: bool)
      requires Valid()
      modifies `aiDisplay, `asDataSearch, `oPreviousSearch
      ensures Valid() && Ready() && oPreviousSearch == Search(sInput, bSmart)
      ensures aiDisplay == Shown(aoData, cfg, Search(sInput, bSmart), aoPreSearchCols, aiDisplayMaster)
      ensures asDataSearch == Texts(aoData, cfg, aiDisplay)
    {
      FilterComplete(Search(sInput, bSmart), true);
    }

    /** `fnFilter` on one column. */
    method FnFilterColumn(sInput: string, iColumn: nat, bSmart: bool)
      requires Valid() && iColumn < |aoPreSearchCols|
      modifies `aiDisplay, `asDataSearch, `oPreviousSearch, `aoPreSearchCols
      ensures Valid() && Ready() && oPreviousSearch == old(oPreviousSearch)
      ensures aoPreSearchCols == old(aoPreSearchCols)[iColumn := Search(sInput, bSmart)]
      ensures aiDisplay == Shown(aoData, cfg, oPreviousSearch, aoPreSearchCols, aiDisplayMaster)
      ensures asDataSearch == Texts(aoData, cfg, aiDisplay)
    {
      aoPreSearchCols := aoPreSearchCols[iColumn := Search(sInput, bSmart)];
      FilterComplete(oPreviousSearch, true);
    }

    /** The handler of the search box. */
    method Keyup(value: string)
      requires Valid()
      modifies `aiDisplay, `asDataSearch, `oPreviousSearch
      ensures Valid() && oPreviousSearch == Search(value, old(oPreviousSearch).smart)
      ensures old(Ready()) ==> Ready()
      ensures old(Ready()) && value != old(oPreviousSearch).text
              ==> aiDisplay == Shown(aoData, cfg, oPreviousSearch, aoPreSearchCols, aiDisplayMaster)
      ensures value != old(oPreviousSearch).text ==> asDataSearch == Texts(aoData, cfg, aiDisplay)
      ensures value == old(oPreviousSearch).text ==> aiDisplay == old(aiDisplay) && asDataSearch == old(asDataSearch)
    {
      if value != oPreviousSearch.text {
        FilterComplete(Search(value, oPreviousSearch.smart), false);
      }
    }

    // ---------------------------------------------------------------- sorting

    /** `_fnSort`; `Arrange` stands for the host's sort. */
    method Sort()
      requires SoundRows()
      modifies `aiDisplayMaster, `aiDisplay, `asDataSearch
      modifies `oPreviousSearch
      ensures Valid() && Ready() && oPreviousSearch == old(oPreviousSearch)
      ensures aaSorting == [] ==> aiDisplayMaster == old(aiDisplayMaster)
      ensures aaSorting != [] && (forall c :: c in aaSorting ==> Preorder(c))
              ==> StablySorted(aoData, aaSorting, old(aiDisplayMaster), aiDisplayMaster)
      ensures aiDisplay == Shown(aoData, cfg, oPreviousSearch, aoPreSearchCols, aiDisplayMaster)
      ensures asDataSearch == Texts(aoData, cfg, aiDisplay)
    {
      ghost var before := aiDisplayMaster;
      if aaSorting != [] {
        var aiOrig := FillOrig(aiDisplayMaster);
        var order := RowOrder(aoData, aaSorting, aiOrig);
        ArrangeKeepsOrder(aiDisplayMaster, |aoData|, order);
        if forall c :: c in aaSorting ==> Preorder(c) {
          SortIsStable(aoData, aaSorting, aiOrig, aiDisplayMaster);
        }
        aiDisplayMaster := Arrange(aiDisplayMaster, order);
      }
      FilterComplete(oPreviousSearch, true);
    }

    /** `fnSort`. */
    method FnSort(aaSort: seq<Comparator<Row>>)
      requires Valid()
      modifies `aaSorting, `aiDisplayMaster, `aiDisplay, `asDataSearch, `oPreviousSearch
      ensures Valid() && Ready() && aaSorting == aaSort && oPreviousSearch == old(oPreviousSearch)
      ensures aaSort == [] ==> aiDisplayMaster == old(aiDisplayMaster)
      ensures aaSort != [] && (forall c :: c in aaSort ==> Preorder(c))
              ==> StablySorted(aoData, aaSort, old(aiDisplayMaster), aiDisplayMaster)
      ensures aiDisplay == Shown(aoData, cfg, oPreviousSearch, aoPreSearchCols, aiDisplayMaster)
      ensures asDataSearch == Texts(aoData, cfg, aiDisplay)
    {
      aaSorting := aaSort;
      Sort();
    }

    // ---------------------------------------------------------------- adding and removing rows

    /** `_fnAddData`. */
    method AddRow(aDataIn: seq<string>) returns (iRow: nat)
      requires SoundRows() && |aDataIn| == |cfg.searchable|
      modifies `aoData, `iNextId, `aiDisplayMaster
      ensures SoundRows() && iRow == |old(aoData)| && iNextId == old(iNextId) + 1
      ensures aoData == old(aoData) + [Row(old(iNextId), aDataIn)]
      ensures aiDisplayMaster == old(aiDisplayMaster) + [iRow]
    {
      iRow := |aoData|;
      aoData := aoData + [Row(iNextId, aDataIn)];
      iNextId := iNextId + 1;
      OrderGrows(aiDisplayMaster, iRow);
      aiDisplayMaster := aiDisplayMaster + [iRow];
    }

    /** `fnAddData` with one row or a list of rows. */
    method AddData(data: Added, bRedraw: bool) returns (aiReturn: seq<nat>)
      requires Valid() && forall i :: 0 <= i < |data.Rows()| ==> |data.Rows()[i]| == |cfg.searchable|
      modifies `aoData, `iNextId, `aiDisplayMaster, `aiDisplay, `asDataSearch, `oPreviousSearch
      ensures Valid() && oPreviousSearch == old(oPreviousSearch)
      ensures aiReturn == Numbers(|old(aoData)|, |data.Rows()|)
      ensures aoData == old(aoData) + NewRows(old(iNextId), data.Rows(), |data.Rows()|)
      ensures data.Rows() == [] ==>
                && aiDisplayMaster == old(aiDisplayMaster) && aiDisplay == old(aiDisplay)
                && asDataSearch == old(asDataSearch)
      ensures data.Rows() != [] ==> Ready()
      ensures data.Rows() != [] && !bRedraw ==> aiDisplay == aiDisplayMaster == old(aiDisplayMaster) + aiReturn
      ensures data.Rows() != [] && bRedraw
              ==> aiDisplay == Shown(aoData, cfg, oPreviousSearch, aoPreSearchCols, aiDisplayMaster)
                  && asDataSearch == Texts(aoData, cfg, aiDisplay)
      ensures data.Rows() != [] && bRedraw && aaSorting == [] ==> aiDisplayMaster == old(aiDisplayMaster) + aiReturn
      ensures data.Rows() != [] && bRedraw && aaSorting != [] && (forall c :: c in aaSorting ==> Preorder(c))
              ==> StablySorted(aoData, aaSorting, old(aiDisplayMaster) + aiReturn, aiDisplayMaster)
    {
      aiReturn := [];
      var mData := data.Rows();
      if |mData| == 0 {
        return;
      }
      for i := 0 to |mData|
        invariant SoundRows() && iNextId == old(iNextId) + i && oPreviousSearch == old(oPreviousSearch)
        invariant aiReturn == Numbers(|old(aoData)|, i)
        invariant aoData == old(aoData) + NewRows(old(iNextId), mData, i)
        invariant aiDisplayMaster == old(aiDisplayMaster) + aiReturn
      {
        var iTest := AddRow(mData[i]);
        aiReturn := aiReturn + [iTest];
      }
      aiDisplay := aiDisplayMaster;
      WholeInOrder(aiDisplayMaster);
      if bRedraw {
        Sort();
      }
    }

    /** `fnDeleteRow` with a row number; drawing does not filter. */
    method DeleteRow(mTarget: nat) returns (oData: seq<Row>)
      requires Valid()
      modifies `aoData, `aiDisplayMaster, `aiDisplay, `asDataSearch
      ensures Valid()
      ensures mTarget < |old(aoData)| ==>
                && oData == [old(aoData)[mTarget]]
                && aoData == Splice(old(aoData), mTarget)
                && aiDisplayMaster == Deleted(old(aiDisplayMaster), mTarget)
                && aiDisplay == Deleted(old(aiDisplay), mTarget)
      ensures mTarget < |old(aoData)| ==>
                && Below(aiDisplay, |aoData|) && Below(old(aiDisplay), |old(aoData)|)
                && Objects(aoData, aiDisplay) == Without(Objects(old(aoData), old(aiDisplay)), old(aoData)[mTarget])
      ensures old(Ready()) && mTarget < |old(aoData)| ==>
                (Ready() <==>
                              || mTarget in old(aiDisplay) || old(aiDisplay) == []
                              || |old(aiDisplay)| + 1 == |old(aiDisplayMaster)|)
      ensures Spliced(old(aiDisplay), mTarget, old(asDataSearch), asDataSearch)
      ensures mTarget >= |old(aoData)| ==>
                && oData == [] && aoData == old(aoData)
                && aiDisplayMaster == old(aiDisplayMaster) && aiDisplay == old(aiDisplay)
      ensures old(Ready()) && mTarget >= |old(aoData)|
              ==> (Ready() <==> aiDisplay == [] || aiDisplay == aiDisplayMaster)
    {
      ghost var rows, master, display, texts := aoData, aiDisplayMaster, aiDisplay, asDataSearch;
      ghost var at;
      oData, at := Remove(mTarget);
      if mTarget < |rows| {
        RowDeleted(rows, cfg, iNextId, master, display, texts, mTarget, at);
        AlignedExactly(rows, cfg, oPreviousSearch, aoPreSearchCols, master, display, texts, mTarget, at);
      } else {
        NoRowDeleted(rows, master, display, mTarget);
        AlignedWithoutRow(rows, cfg, oPreviousSearch, aoPreSearchCols, master, display, texts);
      }
    }

    /** `_fnNodeToDataIndex`: the rows of the page from `start` to `end` first, then all of them. A node
        is known by the id of its row. */
    method NodeToDataIndex(id: nat, start: nat, end: nat) returns (iRow: Option<nat>)
      requires Sound() && end <= |aiDisplay|
      ensures iRow.Some? ==> iRow.value < |aoData| && aoData[iRow.value].id == id
      ensures iRow.None? ==> forall x :: 0 <= x < |aoData| ==> aoData[x].id != id
    {
      DisplayOf(aoData, aiDisplayMaster, aiDisplay);
      var i := start;
      while i < end {
        if aoData[aiDisplay[i]].id == id { return Some(aiDisplay[i]); }
        i := i + 1;
      }
      for x := 0 to |aoData|
        invariant forall y :: 0 <= y < x ==> aoData[y].id != id
      {
        if aoData[x].id == id { return Some(x); }
      }
      iRow := None;
    }

    /** `fnDeleteRow` with the node of a row. */
    method DeleteNode(id: nat, start: nat, end: nat) returns (oData: seq<Row>)
      requires Valid() && end <= |aiDisplay| && exists x :: 0 <= x < |aoData| && aoData[x].id == id
      modifies `aoData, `aiDisplayMaster, `aiDisplay, `asDataSearch
      ensures Valid() && |oData| == 1 && oData[0] in old(aoData) && oData[0].id == id
      ensures |aoData| == |old(aoData)| - 1 && forall r :: r in aoData <==> r in old(aoData) && r.id != id
      ensures Below(aiDisplay, |aoData|) && Below(old(aiDisplay), |old(aoData)|)
      ensures Objects(aoData, aiDisplay) == Without(Objects(old(aoData), old(aiDisplay)), oData[0])
    {
      var iRow := NodeToDataIndex(id, start, end);
      OthersStay(aoData, iNextId, iRow.value);
      oData := DeleteRow(iRow.value);
    }

    /** The part of `fnDeleteRow` that changes the arrays. */
    method Remove(mTarget: nat) returns (oData: seq<Row>, ghost at: int)
      requires Valid()
      modifies `aoData, `aiDisplayMaster, `aiDisplay, `asDataSearch
      ensures aoData == Splice(old(aoData), mTarget)
      ensures oData == if mTarget < |old(aoData)| then [old(aoData)[mTarget]] else []
      ensures aiDisplayMaster == Deleted(old(aiDisplayMaster), mTarget) && aiDisplay == Deleted(old(aiDisplay), mTarget)
      ensures if mTarget in old(aiDisplay) then 0 <= at < |old(aiDisplay)| && old(aiDisplay)[at] == mTarget
              else at == -1
      ensures asDataSearch == Splice(old(asDataSearch), at)
              && Spliced(old(aiDisplay), mTarget, old(asDataSearch), asDataSearch)
    {
      DisplayIsDistinct(aoData, aiDisplayMaster, aiDisplay);
      oData := if mTarget < |aoData| then [aoData[mTarget]] else [];
      aoData := Splice(aoData, mTarget);
      var iDisplayIndex := InArray(mTarget, aiDisplay);
      at := iDisplayIndex;
      asDataSearch := Splice(asDataSearch, iDisplayIndex);
      aiDisplayMaster := DeleteIndex(aiDisplayMaster, mTarget);
      aiDisplay := DeleteIndex(aiDisplay, mTarget);
    }

    /** `fnClearTable`. */
    method ClearTable()
      requires Valid()
      modifies `aoData, `aiDisplayMaster, `aiDisplay
      ensures Valid() && Ready()
      ensures aoData == [] && aiDisplayMaster == [] && aiDisplay == []
    {
      aoData := [];
      aiDisplayMaster := [];
      aiDisplay := [];
      WholeInOrder([]);
    }
  }

  // ------------------------------------------------------------------ lemmas of the methods

  function Numbers(n: nat, k: nat): seq<nat> {
    seq(k, i requires i >= 0 => n + i)
  }

  function NewRows(next: nat, mData: seq<seq<string>>, k: nat): seq<Row>
    requires k <= |mData|
  {
    seq(k, i requires 0 <= i < k => Row(next + i, mData[i]))
  }

  /** What `AddData` puts behind the rows there are: the cells of one row, unless it has none, or each
      of the rows. */
  lemma AddedExactly(before: seq<Row>, next: nat, data: Added)
    ensures var rows := before + NewRows(next, data.Rows(), |data.Rows()|);
            && (data.OneRow? && data.cells == [] ==> rows == before)
            && (data.OneRow? && data.cells != [] ==> rows == before + [Row(next, data.cells)])
            && (data.ManyRows? ==> |rows| == |before| + |data.rows|)
            && (data.ManyRows? ==>
                  forall i :: 0 <= i < |data.rows| ==> rows[|before| + i] == Row(next + i, data.rows[i]))
  {
    if data.OneRow? && data.cells != [] { assert NewRows(next, [data.cells], 1) == [Row(next, data.cells)]; }
    if data.OneRow? && data.cells == [] { assert NewRows(next, [], 0) == []; }
  }

  lemma OrderGrows(master: seq<nat>, n: nat)
    requires IsOrder(master, n)
    ensures IsOrder(master + [n], n + 1)
  {
    forall i, j ensures Differ(master + [n], i, j) {
      assert Differ(master, i, j);
      assert 0 <= i < |master| ==> master[i] in master;
    }
  }

  /** Deleting a row keeps what `Valid` says. */
  lemma RowDeleted(rows: seq<Row>, cfg: Config, next: nat, master: seq<nat>, display: seq<nat>, texts: seq<string>,
                   k: nat, at: int)
    requires WellFormed(rows, cfg) && UniqueIds(rows, next) && Indexed(rows, master, display)
             && Covered(master, display, texts)
    requires k < |rows|
    requires if k in display then 0 <= at < |display| && display[at] == k else at == -1
    ensures WellFormed(Splice(rows, k), cfg) && UniqueIds(Splice(rows, k), next)
    ensures Indexed(Splice(rows, k), Deleted(master, k), Deleted(display, k))
    ensures Covered(Deleted(master, k), Deleted(display, k), Splice(texts, at))
    ensures Below(display, |rows|) && Below(Deleted(display, k), |Splice(rows, k)|)
    ensures Objects(Splice(rows, k), Deleted(display, k)) == Without(Objects(rows, display), rows[k])
  {
    ObjectsDeleted(rows, next, master, display, k);
    OrderDeleted(master, |rows|, k);
    DeletedInOrder(master, display, k);
    DisplayOf(rows, master, display);
    IdsAfterDeleting(rows, cfg, next, k);
    CoveredAfterDeleting(master, display, texts, k, at);
  }

  lemma ObjectsDeleted(rows: seq<Row>, next: nat, master: seq<nat>, display: seq<nat>, k: nat)
    requires UniqueIds(rows, next) && Indexed(rows, master, display) && k < |rows|
    ensures Below(display, |rows|) && Below(Deleted(display, k), |Splice(rows, k)|)
    ensures Objects(Splice(rows, k), Deleted(display, k)) == Without(Objects(rows, display), rows[k])
  {
    DisplayOf(rows, master, display);
    ObjectsAfterDeleting(rows, display, k);
  }

  lemma IdsAfterDeleting(rows: seq<Row>, cfg: Config, next: nat, k: nat)
    requires WellFormed(rows, cfg) && UniqueIds(rows, next) && k < |rows|
    ensures |Splice(rows, k)| == |rows| - 1 && WellFormed(Splice(rows, k), cfg) && UniqueIds(Splice(rows, k), next)
  {
    var left := Splice(rows, k);
    forall i | 0 <= i < |left| ensures left[i] == rows[High(i, k)] {}
  }

  lemma SplicedAt<T>(rows: seq<T>, k: nat, i: nat)
    requires k < |rows| && i < |rows| - 1
    ensures i < |Splice(rows, k)| == |rows| - 1 && Splice(rows, k)[i] == rows[High(i, k)]
  {
  }

  lemma LeftIsOther(rows: seq<Row>, next: nat, k: nat, i: nat)
    requires UniqueIds(rows, next) && k < |rows| && i < |Splice(rows, k)|
    ensures Splice(rows, k)[i] in rows && Splice(rows, k)[i].id != rows[k].id
  {
    SplicedAt(rows, k, i);
    var x := High(i, k);
    assert if x < k then rows[x].id != rows[k].id else rows[k].id != rows[x].id;
  }

  lemma OtherIsLeft(rows: seq<Row>, k: nat, x: nat)
    requires k < |rows| && x < |rows| && x != k
    ensures rows[x] in Splice(rows, k)
  {
    SplicedAt(rows, k, Low(x, k));
  }

  lemma OthersStay(rows: seq<Row>, next: nat, k: nat)
    requires UniqueIds(rows, next) && k < |rows|
    ensures forall r :: r in Splice(rows, k) <==> r in rows && r.id != rows[k].id
  {
    var left := Splice(rows, k);
    forall r | r in left ensures r in rows && r.id != rows[k].id {
      var i: nat :| i < |left| && left[i] == r;
      LeftIsOther(rows, next, k, i);
    }
    forall r | r in rows && r.id != rows[k].id ensures r in left {
      var x: nat :| x < |rows| && rows[x] == r;
      OtherIsLeft(rows, k, x);
    }
  }

  lemma CoveredAfterDeleting(master: seq<nat>, display: seq<nat>, texts: seq<string>, k: nat, at: int)
    requires Distinct(master) && Distinct(display) && k in master && Covered(master, display, texts)
    requires |display| == |master| ==> display == master
    requires if k in display then 0 <= at < |display| && display[at] == k else at == -1
    ensures Covered(Deleted(master, k), Deleted(display, k), Splice(texts, at))
  {
    DeletedDistinct(master, k);
    DeletedDistinct(display, k);
  }

  lemma NoRowDeleted(rows: seq<Row>, master: seq<nat>, display: seq<nat>, k: nat)
    requires Indexed(rows, master, display) && k >= |rows|
    ensures Deleted(master, k) == master && Deleted(display, k) == display && k !in display
  {
    WholeInOrder(master);
    DisplayOf(rows, master, master);
    DisplayOf(rows, master, display);
    NothingDeleted(master, |rows|, k);
    NothingDeleted(display, |rows|, k);
  }

  lemma OneMoreColumn(rows: seq<Row>, cfg: Config, cols: seq<Search>, c: nat, start: seq<nat>)
    ensures Keep(Keep(start, ColumnsFit(rows, cfg, cols, c)), ColumnFits(rows, cfg, cols, c))
            == Keep(start, ColumnsFit(rows, cfg, cols, c + 1))
  {
    KeepTwice(start, ColumnsFit(rows, cfg, cols, c), ColumnFits(rows, cfg, cols, c),
              ColumnsFit(rows, cfg, cols, c + 1));
  }

  /** Both paths of `_fnFilter` leave a list that the column filters complete. */
  lemma FilteredStart(rows: seq<Row>, cfg: Config, prev: Search, input: Search, iForce: bool, cols: seq<Search>,
                      master: seq<nat>, display: seq<nat>, texts: seq<string>)
    requires iForce || |display| <= |master|
    requires iForce || Aligned(rows, cfg, prev, cols, master, display, texts)
    ensures var start := if Refines(prev, input, iForce, master, display)
                         then Refined(display, texts, input, cfg.fold, |display|)
                         else Keep(master, GlobalFits(rows, cfg, input));
            && (Refines(prev, input, iForce, master, display) ==>
                  start == Keep(Shown(rows, cfg, prev, cols, master), GlobalFits(rows, cfg, input)))
            && (input.smart == prev.smart || !Refines(prev, input, iForce, master, display) ==>
                  start == Keep(master, GlobalFits(rows, cfg, input)) || start == Shown(rows, cfg, input, cols, master))
  {
    if Refines(prev, input, iForce, master, display) {
      RefinedFilters(rows, cfg, display, texts, input, |display|);
      assert display[..|display|] == display;
      if input.smart == prev.smart { NarrowingIsFiltering(rows, cfg, prev, input, cols, master); }
    }
  }

  lemma SpliceBetween<T>(a: seq<T>, x: T, b: seq<T>)
    ensures Splice(a + ([x] + b), |a|) == a + b
  {
  }

  // ------------------------------------------------------------------ deleting a hidden row

  /** Four rows with one searchable column. */
  function Letters(): seq<Row> {
    [Row(0, ["ab"]), Row(1, ["a"]), Row(2, ["b"]), Row(3, ["c"])]
  }

  function OneColumn(): Config {
    Config([true], [false], c => c, s => s)
  }

  lemma LetterTexts()
    ensures Text(Letters(), OneColumn(), 0) == "ab  " && Text(Letters(), OneColumn(), 1) == "a  "
  {
    PlainTextStays("ab", false);
    PlainTextStays("a", false);
    var cfg := OneColumn();
    assert SearchText(["ab"], cfg.searchable, cfg.html, 1) == "" + ("ab" + "  ");
    assert SearchText(["a"], cfg.searchable, cfg.html, 1) == "" + ("a" + "  ");
  }

  /** With "a" searched for, rows 0 and 1 are shown. After deleting row 2, which is not, typing on to
      "ab" still shows row 1, although its text does not match. */
  lemma HiddenDeletionMisleads()
    ensures Refines(Search("a", false), Search("ab", false), false, Deleted([0, 1, 2, 3], 2), Deleted([0, 1], 2))
    ensures Refined([0, 1], Splice(Texts(Letters(), OneColumn(), [0, 1]), -1), Search("ab", false), OneColumn().fold, 2)
            == [0, 1]
    ensures !GlobalMatch(Splice(Letters(), 2), OneColumn(), Search("ab", false), 1)
  {
    LettersRefine();
    LetterTexts();
    LetterTests();
    StaysWithoutText([0, 1], Texts(Letters(), OneColumn(), [0, 1]), Search("ab", false), OneColumn().fold);
    RowStaysWrong(Letters(), OneColumn(), Search("ab", false));
  }

  lemma LettersRefine()
    ensures Refines(Search("a", false), Search("ab", false), false, Deleted([0, 1, 2, 3], 2), Deleted([0, 1], 2))
  {
    DeletedDistinct([0, 1, 2, 3], 2);
    DeletedDistinct([0, 1], 2);
    assert 2 in [0, 1, 2, 3] && 2 !in [0, 1];
    assert "a" <= "ab";
  }

  /** Of two places the last one, whose text is lost, stays. */
  lemma StaysWithoutText(d: seq<nat>, texts: seq<string>, s: Search, fold: char -> char)
    requires |d| == |texts| == 2 && Test(s, texts[0], fold)
    ensures Refined(d, Splice(texts, -1), s, fold, 2) == d
  {
    assert Refined(d, Splice(texts, -1), s, fold, 1) == [] + [d[0]];
  }

  lemma LetterTests()
    ensures Test(Search("ab", false), "ab  ", OneColumn().fold) && !Test(Search("ab", false), "a  ", OneColumn().fold)
  {
    var fold := OneColumn().fold;
    assert FoundAt("ab  ", "ab", 0, fold);
    forall i: nat ensures !FoundAt("a  ", "ab", i, fold) {
      if i + 2 <= 3 {
        assert "ab"[0] == 'a' && "ab"[1] == 'b';
        assert "a  "[i] != 'a' || "a  "[i + 1] != 'b';
      }
    }
  }

  /** Row 1 keeps its number when row 2 goes, and does not match. */
  lemma RowStaysWrong(rows: seq<Row>, cfg: Config, s: Search)
    requires |rows| > 2 && s.text != "" && !Test(s, Text(rows, cfg, 1), cfg.fold)
    ensures !GlobalMatch(Splice(rows, 2), cfg, s, 1)
  {
    DeletedText(rows, cfg, 2, 1);
  }
}

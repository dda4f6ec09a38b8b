/** The search strings of DataTables: how `_fnFilterCreateSearch` reads them and what
    `_fnBuildSearchRow` searches. */
module Searching {
  import opened Sequences
  import opened Wrappers

  /** A search without regular expressions: smart searches look for each word. */
  datatype Search = Search(text: string, smart: bool)

  /** The white space that `.` does not match. */
  predicate HasLineBreak(text: string) {
    '\n' in text || '\r' in text || '\U{2028}' in text || '\U{2029}' in text
  }

  /** `pattern` is found at index `i`; `fold` is the case folding of the flag `i`. */
  predicate FoundAt(text: string, pattern: string, i: nat, fold: char -> char) {
    i + |pattern| <= |text| && forall j :: 0 <= j < |pattern| ==> fold(text[i + j]) == fold(pattern[j])
  }

  predicate Found(text: string, pattern: string, fold: char -> char) {
    exists i :: 0 <= i <= |text| && FoundAt(text, pattern, i, fold)
  }

  ghost predicate SameFolded(a: string, b: string, fold: char -> char) {
    |a| == |b| && forall i :: 0 <= i < |a| ==> fold(a[i]) == fold(b[i])
  }

  /** Texts and patterns that differ in their case only are found alike. */
  lemma FoldedAlike(text: string, text': string, pattern: string, pattern': string, fold: char -> char)
    requires SameFolded(text, text', fold) && SameFolded(pattern, pattern', fold)
    ensures Found(text, pattern, fold) <==> Found(text', pattern', fold)
  {
    forall i: nat ensures FoundAt(text, pattern, i, fold) <==> FoundAt(text', pattern', i, fold) {}
  }

  /** Where nothing is folded, what is found is a part of the text. */
  lemma FoundIsPart(text: string, pattern: string, fold: char -> char)
    requires forall c :: fold(c) == c
    ensures Found(text, pattern, fold) <==> exists before, after :: text == before + pattern + after
  {
    if i :| 0 <= i <= |text| && FoundAt(text, pattern, i, fold) {
      assert text == text[..i] + pattern + text[i + |pattern|..];
    }
    if before, after :| text == before + pattern + after {
      forall j | 0 <= j < |pattern| ensures text[|before| + j] == pattern[j] {}
      assert FoundAt(text, pattern, |before|, fold);
    }
  }

  /** `split(' ')`. */
  function Words(s: string): (words: seq<string>)
    ensures |words| > 0
  {
    if s == "" then [""]
    else if s[0] == ' ' then [""] + Words(s[1..])
    else
      var rest := Words(s[1..]);
      [[s[0]] + rest[0]] + rest[1..]
  }

  /** `rpSearch.test(text)`. */
  predicate Test(search: Search, text: string, fold: char -> char) {
    if search.smart then
      var words := Words(search.text);
      !HasLineBreak(text) && forall k :: 0 <= k < |words| ==> Found(text, words[k], fold)
    else
      Found(text, search.text, fold)
  }

  /** What the search keeps: an empty one is not applied. */
  predicate Matches(search: Search, text: string, fold: char -> char) {
    search.text == "" || Test(search, text, fold)
  }

  /** The words are separated by single spaces and contain none. */
  lemma {:induction false} WordsAreSplit(s: string)
    ensures Joined(Words(s)) == s
    ensures forall k :: 0 <= k < |Words(s)| ==> ' ' !in Words(s)[k]
  {
    if s != "" {
      WordsAreSplit(s[1..]);
      var rest := Words(s[1..]);
      if s[0] == ' ' {
        assert Words(s)[1..] == rest;
      } else {
        assert Words(s)[1..] == rest[1..];
      }
    }
  }

  function Joined(words: seq<string>): string
    requires words != []
  {
    if |words| == 1 then words[0] else words[0] + " " + Joined(words[1..])
  }

  /** Typing on extends the last word and adds words. */
  lemma {:induction false} WordsExtend(s: string, more: string)
    ensures |Words(s)| <= |Words(s + more)|
    ensures forall k :: 0 <= k < |Words(s)| ==> Words(s)[k] <= Words(s + more)[k]
  {
    if s != "" {
      WordsExtend(s[1..], more);
      assert (s + more)[1..] == s[1..] + more;
    }
  }

  lemma PrefixFound(text: string, pattern: string, longer: string, fold: char -> char)
    requires pattern <= longer && Found(text, longer, fold)
    ensures Found(text, pattern, fold)
  {
    var i :| 0 <= i <= |text| && FoundAt(text, longer, i, fold);
    forall j | 0 <= j < |pattern| ensures fold(text[i + j]) == fold(pattern[j]) {
      assert pattern[j] == longer[j];
    }
    assert FoundAt(text, pattern, i, fold);
  }

  /** Extending a search string only narrows what it matches. */
  lemma ExtensionNarrows(before: Search, after: Search, text: string, fold: char -> char)
    requires before.smart == after.smart && before.text <= after.text
    requires Matches(after, text, fold)
    ensures Matches(before, text, fold)
  {
    if before.text != "" {
      if before.smart {
        WordsExtend(before.text, after.text[|before.text|..]);
        assert before.text + after.text[|before.text|..] == after.text;
        var words, longer := Words(before.text), Words(after.text);
        forall k | 0 <= k < |words| ensures Found(text, words[k], fold) {
          PrefixFound(text, words[k], longer[k], fold);
        }
      } else {
        PrefixFound(text, before.text, after.text, fold);
      }
    }
  }

  lemma {:induction false} OneWord(s: string)
    requires ' ' !in s
    ensures Words(s) == [s]
  {
    if s != "" {
      OneWord(s[1..]);
      assert s == [s[0]] + s[1..] && [s[1..]][1..] == [];
    }
  }

  /** For one word the two modes agree, but for texts with line breaks. */
  lemma OneWordAlike(word: string, text: string, fold: char -> char)
    requires ' ' !in word && !HasLineBreak(text)
    ensures Test(Search(word, true), text, fold) <==> Test(Search(word, false), text, fold)
  {
    OneWord(word);
    assert Words(word)[0] == word;
  }

  /** Smart searches find nothing in texts of more than one line. */
  lemma SmartNeedsOneLine(text: string, search: Search, fold: char -> char, i: nat)
    requires i < |text| && text[i] in "\n\r\U{2028}\U{2029}" && search.smart
    ensures !Test(search, text, fold)
  {
    assert text[i] in text;
  }

  /** Smart searches find words in any order, other searches do not: neither mode narrows the other. */
  lemma OrderOfWords(fold: char -> char)
    requires fold('a') != fold('b')
    ensures Matches(Search("a b", true), "b a", fold) && !Matches(Search("a b", false), "b a", fold)
  {
    var text := "b a";
    assert "a b"[1..] == " b" && " b"[1..] == "b" && "b"[1..] == "";
    assert Words("b") == ["b"] by { assert ['b'] + "" == "b" && [""][1..] == []; }
    assert Words(" b") == ["", "b"];
    assert Words("a b") == ["a", "b"] by { assert ['a'] + "" == "a" && ["", "b"][1..] == ["b"]; }
    assert FoundAt(text, "a", 2, fold) && FoundAt(text, "b", 0, fold);
    forall i: nat ensures !FoundAt(text, "a b", i, fold) {
      if i + 3 <= |text| { assert "a b"[0] == 'a' && text[0] == 'b'; }
    }
  }

  // ------------------------------------------------------------------ the text of a cell

  /** `.replace(/\n/g, " ")`. */
  function Spaced(s: string): (r: string)
    ensures |r| == |s| && '\n' !in r
    ensures forall i :: 0 <= i < |s| && s[i] != '\n' ==> r[i] == s[i]
  {
    if s == "" then "" else [if s[0] == '\n' then ' ' else s[0]] + Spaced(s[1..])
  }

  /** Where a tag that has begun in front of `i` ends: behind the next `>`, unless a line ends first. */
  function TagEnd(s: string, i: nat): (end: Option<nat>)
    requires i <= |s|
    ensures end.Some? ==> i < end.value <= |s| && s[end.value - 1] == '>'
    decreases |s| - i
  {
    if i == |s| || (s[i] != '>' && HasLineBreak([s[i]])) then None
    else if s[i] == '>' then Some(i + 1)
    else TagEnd(s, i + 1)
  }

  /** `.replace(/<.*?>/g, "")`. */
  function Untagged(s: string): (r: string)
    ensures |r| <= |s|
    decreases |s|
  {
    if s == "" then ""
    else if s[0] == '<' && TagEnd(s, 1).Some? then Untagged(s[TagEnd(s, 1).value..])
    else [s[0]] + Untagged(s[1..])
  }

  /** Nothing is added. */
  lemma {:induction false} UntaggedIsLess(s: string, c: char)
    requires c in Untagged(s)
    ensures c in s
    decreases |s|
  {
    if s[0] == '<' && TagEnd(s, 1).Some? {
      UntaggedIsLess(s[TagEnd(s, 1).value..], c);
    } else if c != s[0] {
      UntaggedIsLess(s[1..], c);
    }
  }

  /** `_fnDataToSearch` on the text of a cell, a null cell being empty. */
  function DataToSearch(data: string, html: bool): string {
    if html then Untagged(Spaced(data)) else Spaced(data)
  }

  /** Smart searches do not stumble over new lines. */
  lemma NoNewLines(data: string, html: bool)
    ensures '\n' !in DataToSearch(data, html)
  {
    if html && '\n' in DataToSearch(data, html) { UntaggedIsLess(Spaced(data), '\n'); }
  }

  /** Text without tags and new lines is searched as it is. */
  lemma PlainTextStays(data: string, html: bool)
    requires '<' !in data && '\n' !in data
    ensures DataToSearch(data, html) == data
  {
    assert Spaced(data) == data by {
      forall i | 0 <= i < |data| ensures Spaced(data)[i] == data[i] { assert data[i] in data; }
    }
    UntaggedStays(data);
  }

  /** What is not closed is no tag. */
  lemma {:induction false} UnclosedStays(s: string)
    requires '>' !in s
    ensures Untagged(s) == s
  {
    if s != "" {
      forall i | 0 <= i < |s| ensures s[i] != '>' { assert s[i] in s; }
      UnclosedStays(s[1..]);
    }
  }

  lemma {:induction false} UntaggedStays(s: string)
    requires '<' !in s
    ensures Untagged(s) == s
  {
    if s != "" {
      assert s[0] in s;
      UntaggedStays(s[1..]);
    }
  }

  /** One tag, from `<` to the next `>`. */
  predicate IsTag(tag: string) {
    tag != "" && tag[0] == '<' && TagEnd(tag, 1) == Some(|tag|)
  }

  /** What may stand between the `<` and the `>` of a tag. */
  predicate InTag(s: string, k: nat)
    requires k < |s|
  {
    s[k] != '>' && !HasLineBreak([s[k]])
  }

  /** A tag begins with `<` and ends with the first `>`, in the same line. */
  lemma TagsExactly(tag: string)
    ensures IsTag(tag) <==>
              && |tag| >= 2 && tag[0] == '<' && tag[|tag| - 1] == '>'
              && forall k :: 1 <= k < |tag| - 1 ==> InTag(tag, k)
  {
    if |tag| >= 2 && tag[|tag| - 1] == '>' && forall k :: 1 <= k < |tag| - 1 ==> InTag(tag, k) {
      TagEndsAt(tag, 1);
    }
    if IsTag(tag) {
      forall k | 1 <= k < |tag| - 1 ensures InTag(tag, k) { TagEndsLater(tag, 1, k); }
    }
  }

  lemma {:induction false} TagEndsLater(s: string, i: nat, k: nat)
    requires i <= k < |s| && TagEnd(s, i).Some? && k < TagEnd(s, i).value - 1
    ensures InTag(s, k)
    decreases |s| - i
  {
    if i < k { TagEndsLater(s, i + 1, k); }
  }

  lemma {:induction false} TagEndsAt(tag: string, i: nat)
    requires i < |tag| && tag[|tag| - 1] == '>'
    requires forall k :: i <= k < |tag| - 1 ==> InTag(tag, k)
    ensures TagEnd(tag, i) == Some(|tag|)
    decreases |tag| - i
  {
    assert i < |tag| - 1 ==> InTag(tag, i);
    if i < |tag| - 1 { TagEndsAt(tag, i + 1); }
  }

  /** A tag goes, with what is written in it, and nothing in front of it. */
  lemma TagGoes(before: string, tag: string, after: string)
    requires '<' !in before && IsTag(tag)
    ensures Untagged(before + tag + after) == before + Untagged(after)
  {
    var rest := tag + after;
    assert Untagged(before + rest) == before + Untagged(after) by {
      FirstTagGoes(tag, after);
      TextInFront(before, rest);
    }
    assert before + tag + after == before + rest;
  }

  lemma {:induction false} TextInFront(before: string, rest: string)
    requires '<' !in before
    ensures Untagged(before + rest) == before + Untagged(rest)
  {
    if before == "" {
      assert before + rest == rest;
    } else {
      var c, more := before[0], before[1..];
      assert c in before && before == [c] + more;
      TextInFront(more, rest);
      assert before + rest == [c] + (more + rest);
      LetterInFront(c, more + rest);
      JoinAgain([c], more, Untagged(rest));
    }
  }

  lemma LetterInFront(c: char, rest: string)
    requires c != '<'
    ensures Untagged([c] + rest) == [c] + Untagged(rest)
  {
    assert ([c] + rest)[1..] == rest;
  }

  lemma FirstTagGoes(tag: string, after: string)
    requires IsTag(tag)
    ensures Untagged(tag + after) == Untagged(after)
  {
    TagEndStays(tag, after, 1);
    assert (tag + after)[0] == '<' && (tag + after)[|tag|..] == after;
  }

  lemma {:induction false} TagEndStays(tag: string, after: string, i: nat)
    requires i <= |tag| && TagEnd(tag, i).Some?
    ensures TagEnd(tag + after, i) == TagEnd(tag, i)
    decreases |tag| - i
  {
    assert i < |tag| && (tag + after)[i] == tag[i];
    if tag[i] != '>' { TagEndStays(tag, after, i + 1); }
  }

  // ------------------------------------------------------------------ the text of a row

  /** What is searched of the searchable columns among the first `n`, each followed by two spaces. */
  function SearchText(cells: seq<string>, searchable: seq<bool>, html: seq<bool>, n: nat): string
    requires n <= |cells| == |searchable| == |html|
  {
    if n == 0 then ""
    else
      SearchText(cells, searchable, html, n - 1)
      + if searchable[n - 1] then DataToSearch(cells[n - 1], html[n - 1]) + "  " else ""
  }

  /** `.replace(/\r/g, "")`. */
  function WithoutReturns(s: string): (r: string)
    ensures '\r' !in r && (forall c :: c in r ==> c in s) && ('\r' !in s ==> r == s)
  {
    if s == "" then ""
    else if s[0] == '\r' then WithoutReturns(s[1..])
    else [s[0]] + WithoutReturns(s[1..])
  }

  /** A text with an `&` goes through the host's HTML parser, `decode`. */
  function Decoded(s: string, decode: string -> string): string {
    if '&' in s then WithoutReturns(Spaced(decode(s))) else s
  }

  /** What the global search looks at in a row. */
  function RowText(cells: seq<string>, searchable: seq<bool>, html: seq<bool>, decode: string -> string): string
    requires |cells| == |searchable| == |html|
  {
    Decoded(SearchText(cells, searchable, html, |cells|), decode)
  }

  /** `_fnBuildSearchRow`. */
  method BuildSearchRow(cells: seq<string>, searchable: seq<bool>, html: seq<bool>, decode: string -> string)
    returns (sSearch: string)
    requires |cells| == |searchable| == |html|
    ensures sSearch == RowText(cells, searchable, html, decode)
  {
    sSearch := "";
    for j := 0 to |searchable|
      invariant sSearch == SearchText(cells, searchable, html, j)
    {
      if searchable[j] {
        sSearch := sSearch + (DataToSearch(cells[j], html[j]) + "  ");
      }
    }
    if '&' in sSearch {
      sSearch := WithoutReturns(Spaced(decode(sSearch)));
    }
  }

  lemma FoundInFront(a: string, b: string, pattern: string, fold: char -> char)
    requires Found(a, pattern, fold)
    ensures Found(a + b, pattern, fold)
  {
    var i :| 0 <= i <= |a| && FoundAt(a, pattern, i, fold);
    assert FoundAt(a + b, pattern, i, fold);
  }

  lemma FoundBehind(a: string, b: string, pattern: string, fold: char -> char)
    requires Found(b, pattern, fold)
    ensures Found(a + b, pattern, fold)
  {
    var i :| 0 <= i <= |b| && FoundAt(b, pattern, i, fold);
    forall j | 0 <= j < |pattern| ensures fold((a + b)[|a| + i + j]) == fold(pattern[j]) {
      assert (a + b)[|a| + i + j] == b[i + j];
    }
    assert FoundAt(a + b, pattern, |a| + i, fold);
  }

  /** What is in the other columns is not searched. */
  lemma {:induction false} OnlySearchable(cells: seq<string>, cells': seq<string>, searchable: seq<bool>,
                                          html: seq<bool>, n: nat)
    requires n <= |cells| == |cells'| == |searchable| == |html|
    requires forall c :: 0 <= c < n && searchable[c] ==> cells[c] == cells'[c]
    ensures SearchText(cells, searchable, html, n) == SearchText(cells', searchable, html, n)
  {
    if n > 0 { OnlySearchable(cells, cells', searchable, html, n - 1); }
  }

  /** A row with an `&` in what is searched shows what the decoder makes of it. */
  lemma DecodedRow(cells: seq<string>, searchable: seq<bool>, html: seq<bool>, decode: string -> string)
    requires |cells| == |searchable| == |html| && '&' in SearchText(cells, searchable, html, |cells|)
    requires var text := decode(SearchText(cells, searchable, html, |cells|)); '\n' !in text && '\r' !in text
    ensures RowText(cells, searchable, html, decode) == decode(SearchText(cells, searchable, html, |cells|))
  {
    var text := decode(SearchText(cells, searchable, html, |cells|));
    forall i | 0 <= i < |text| ensures Spaced(text)[i] == text[i] { assert text[i] in text; }
    assert Spaced(text) == text;
  }

  /** Rows without `&` in what is searched are not decoded. */
  lemma PlainRowStays(cells: seq<string>, searchable: seq<bool>, html: seq<bool>, n: nat, decode: string -> string)
    requires n <= |cells| == |searchable| == |html|
    requires forall c :: 0 <= c < n && searchable[c] ==> '&' !in cells[c]
    ensures '&' !in SearchText(cells, searchable, html, n)
    ensures n == |cells| ==> RowText(cells, searchable, html, decode) == SearchText(cells, searchable, html, n)
  {
    if n > 0 {
      PlainRowStays(cells, searchable, html, n - 1, decode);
      if searchable[n - 1] && '&' in DataToSearch(cells[n - 1], html[n - 1]) {
        if html[n - 1] { UntaggedIsLess(Spaced(cells[n - 1]), '&'); }
        SpacedAdds(cells[n - 1], '&');
      }
    }
  }

  /** Only spaces are new. */
  lemma {:induction false} SpacedAdds(s: string, c: char)
    requires c in Spaced(s) && c != ' '
    ensures c in s
  {
    if s != "" && c != (if s[0] == '\n' then ' ' else s[0]) { SpacedAdds(s[1..], c); }
  }

  /** The text of the column `n`. */
  function ColumnText(cells: seq<string>, searchable: seq<bool>, html: seq<bool>, n: nat): string
    requires n < |cells| == |searchable| == |html|
  {
    if searchable[n] then DataToSearch(cells[n], html[n]) + "  " else ""
  }

  lemma TextGrows(cells: seq<string>, searchable: seq<bool>, html: seq<bool>, n: nat)
    requires n < |cells| == |searchable| == |html|
    ensures SearchText(cells, searchable, html, n + 1)
            == SearchText(cells, searchable, html, n) + ColumnText(cells, searchable, html, n)
  {
  }

  lemma FoundInColumn(cells: seq<string>, searchable: seq<bool>, html: seq<bool>, c: nat, word: string,
                      fold: char -> char)
    requires c < |cells| == |searchable| == |html| && searchable[c]
    requires Found(DataToSearch(cells[c], html[c]), word, fold)
    ensures Found(ColumnText(cells, searchable, html, c), word, fold)
  {
    FoundInFront(DataToSearch(cells[c], html[c]), "  ", word, fold);
  }

  /** What is found in the text of a column is found in the row. */
  lemma {:induction false} ColumnIsSearched(cells: seq<string>, searchable: seq<bool>, html: seq<bool>, n: nat, c: nat,
                                            word: string, fold: char -> char)
    requires c < n <= |cells| == |searchable| == |html| && Found(ColumnText(cells, searchable, html, c), word, fold)
    ensures Found(SearchText(cells, searchable, html, n), word, fold)
  {
    var m: nat := n - 1;
    var before, last := SearchText(cells, searchable, html, m), ColumnText(cells, searchable, html, m);
    TextGrows(cells, searchable, html, m);
    if c == m {
      FoundBehind(before, last, word, fold);
    } else {
      ColumnIsSearched(cells, searchable, html, m, c, word, fold);
      FoundInFront(before, last, word, fold);
    }
  }

  /** A word in the text of a searchable cell is found in the row, before anything is decoded. */
  lemma CellIsSearched(cells: seq<string>, searchable: seq<bool>, html: seq<bool>, n: nat, c: nat, word: string,
                       fold: char -> char)
    requires c < n <= |cells| == |searchable| == |html| && searchable[c]
    requires Found(DataToSearch(cells[c], html[c]), word, fold)
    ensures Found(SearchText(cells, searchable, html, n), word, fold)
  {
    FoundInColumn(cells, searchable, html, c, word, fold);
    ColumnIsSearched(cells, searchable, html, n, c, word, fold);
  }
}

/** jsTree's flat XML: `get_xml` lists the items of a forest in preorder with the id of their
    parent, and the `flat` stylesheet rebuilds the forest by selecting items by parent id. */
module FlatXml {
  import opened Sequences
  import opened Wrappers
  import opened Trees
  import opened XPathNumbers

  /** The items of a tree with their id attributes, which may be empty. */
  type Forest = seq<Tree<string>>

  datatype Item = Item(id: string, parent_id: string)

  // ------------------------------------------------------------------ the id attribute

  /** The white space of the pattern `\\s`. */
  predicate IsSpace(c: char) {
    c in " \t\n\r\U{B}\U{C}\U{A0}\U{1680}\U{2028}\U{2029}\U{202F}\U{205F}\U{3000}\U{FEFF}"
      || '\U{2000}' <= c <= '\U{200A}'
  }

  function Lower(c: char): char {
    if 'A' <= c <= 'Z' then c - 'A' + 'a' else c
  }

  /** The text starts with " jstree", whatever the case. */
  predicate StartsWithClass(s: string) {
    |s| >= 7 && s[0] == ' ' && Lower(s[1]) == 'j' && Lower(s[2]) == 's' && Lower(s[3]) == 't'
    && Lower(s[4]) == 'r' && Lower(s[5]) == 'e' && Lower(s[6]) == 'e'
  }

  function SkipWord(s: string): (r: string)
    ensures |r| <= |s|
  {
    if s == "" || s[0] == ' ' then s else SkipWord(s[1..])
  }

  /** `.replace(/ jstree[^ ]*&#47;ig, '')`. */
  function RemoveClasses(s: string): (r: string)
    ensures |r| <= |s|
    decreases |s|
  {
    if s == "" then ""
    else if StartsWithClass(s) then RemoveClasses(SkipWord(s[7..]))
    else [s[0]] + RemoveClasses(s[1..])
  }

  function TrimEnd(s: string): (r: string)
    ensures |r| <= |s|
  {
    if s != "" && IsSpace(s[|s| - 1]) then TrimEnd(s[..|s| - 1]) else s
  }

  /** `.replace(/\\s+$/ig, " ").replace(/^ /, "").replace(/ $/, "")`. */
  function Unpad(s: string): string {
    var padded := if TrimEnd(s) == s then s else TrimEnd(s) + " ";
    var front := if padded != "" && padded[0] == ' ' then padded[1..] else padded;
    if front != "" && front[|front| - 1] == ' ' then front[..|front| - 1] else front
  }

  /** What `get_xml` writes as the id of an item: it is treated like a list of classes. */
  function Clean(id: string): string {
    Unpad(RemoveClasses(" " + id))
  }

  /** The ids that are written as they are: no word starts with "jstree" and no white space ends
      them. */
  predicate Stable(id: string) {
    (id != "" ==> !IsSpace(id[|id| - 1])) && forall i :: 0 <= i <= |id| ==> !StartsWithClass((" " + id)[i..])
  }

  lemma {:induction false} RemoveClassesKeeps(s: string)
    ensures RemoveClasses(s) == s <==> forall i :: 0 <= i <= |s| ==> !StartsWithClass(s[i..])
    ensures RemoveClasses(s) == s || |RemoveClasses(s)| + 7 <= |s|
    decreases |s|
  {
    if s != "" {
      assert s[0..] == s;
      if StartsWithClass(s) {
        assert !(forall i :: 0 <= i <= |s| ==> !StartsWithClass(s[i..]));
      } else {
        RemoveClassesKeeps(s[1..]);
        assert s == [s[0]] + s[1..];
        assert forall i :: 1 <= i <= |s| ==> s[i..] == s[1..][i - 1..];
        if forall i :: 0 <= i <= |s| ==> !StartsWithClass(s[i..]) {
          forall i | 0 <= i <= |s[1..]| ensures !StartsWithClass(s[1..][i..]) { assert s[1..][i..] == s[i + 1..]; }
        }
      }
    }
  }

  /** Cleaning leaves an id alone exactly if it is stable, and shortens every other one. */
  lemma CleanShortens(id: string)
    ensures Clean(id) == id <==> Stable(id)
    ensures Clean(id) == id || |Clean(id)| < |id|
  {
    var s := " " + id;
    var r := RemoveClasses(s);
    ClassesStay(id);
    if r != s { assert |r| + 7 <= |s| by { RemoveClassesKeeps(s); } }
    assert |Unpad(r)| <= |r|;
    if r == s {
      if id == "" {
        assert TrimEnd(s) == TrimEnd("");
      } else if !IsSpace(id[|id| - 1]) {
        assert TrimEnd(s) == s;
      } else {
        assert s[|s| - 1] == id[|id| - 1] && s[..|s| - 1] == " " + id[..|id| - 1];
        assert TrimEnd(s) == TrimEnd(s[..|s| - 1]);
      }
    }
  }

  lemma ClassesStay(id: string)
    ensures RemoveClasses(" " + id) == " " + id <==> forall i :: 0 <= i <= |id| ==> !StartsWithClass((" " + id)[i..])
  {
    var s := " " + id;
    RemoveClassesKeeps(s);
    assert |s| == |id| + 1 && !StartsWithClass(s[|s|..]);
  }

  /** What is taken for a class is a space and the word jstree, in small or capital letters. */
  lemma ClassesBeginWithJstree(s: string)
    ensures StartsWithClass(s) <==>
              |s| >= 7 && s[0] == ' ' && forall k :: 1 <= k < 7 ==> s[k] == " jstree"[k] || s[k] == " JSTREE"[k]
  {
    var small, capital := " jstree", " JSTREE";
    assert small[1] == 'j' && small[2] == 's' && small[3] == 't';
    assert small[4] == 'r' && small[5] == 'e' && small[6] == 'e';
    assert capital[1] == 'J' && capital[2] == 'S' && capital[3] == 'T';
    assert capital[4] == 'R' && capital[5] == 'E' && capital[6] == 'E';
    if |s| >= 7 && s[0] == ' ' && forall k :: 1 <= k < 7 ==> s[k] == small[k] || s[k] == capital[k] {
      assert s[1] == 'j' || s[1] == 'J';
      assert s[2] == 's' || s[2] == 'S';
      assert s[3] == 't' || s[3] == 'T';
      assert s[4] == 'r' || s[4] == 'R';
      assert s[5] == 'e' || s[5] == 'E';
      assert s[6] == 'e' || s[6] == 'E';
    }
  }

  lemma {:induction false} WordIsSkipped(word: string, rest: string)
    requires ' ' !in word && (rest == "" || rest[0] == ' ')
    ensures SkipWord(word + rest) == rest
  {
    if word == "" {
      assert word + rest == rest;
    } else {
      assert word[0] in word && (word + rest)[1..] == word[1..] + rest;
      WordIsSkipped(word[1..], rest);
    }
  }

  /** Such a word goes to its end. */
  lemma ClassGoes(class_: string, word: string, rest: string)
    requires |class_| == 7 && StartsWithClass(class_) && ' ' !in word && (rest == "" || rest[0] == ' ')
    ensures RemoveClasses(class_ + word + rest) == RemoveClasses(rest)
  {
    var s := class_ + word + rest;
    assert forall k :: 0 <= k < 7 ==> s[k] == class_[k];
    assert s[7..] == word + rest;
    WordIsSkipped(word, rest);
  }

  lemma {:induction false} TrimIsFront(s: string)
    ensures TrimEnd(s) <= s
    ensures TrimEnd(s) != "" ==> !IsSpace(TrimEnd(s)[|TrimEnd(s)| - 1])
  {
    if s != "" && IsSpace(s[|s| - 1]) { TrimIsFront(s[..|s| - 1]); }
  }

  /** White space goes from the end, and nothing else. */
  lemma {:induction false} OnlySpacesGo(s: string, k: nat)
    requires |TrimEnd(s)| <= k < |s|
    ensures IsSpace(s[k])
  {
    if IsSpace(s[|s| - 1]) && k < |s| - 1 { OnlySpacesGo(s[..|s| - 1], k); }
  }

  lemma {:induction false} TrimBehind(c: char, s: string)
    ensures TrimEnd([c] + s) == if TrimEnd(s) == "" && IsSpace(c) then "" else [c] + TrimEnd(s)
  {
    var t := [c] + s;
    if s == "" {
      assert t[..0] == "";
    } else {
      assert t[|t| - 1] == s[|s| - 1] && t[..|t| - 1] == [c] + s[..|s| - 1];
      if IsSpace(s[|s| - 1]) { TrimBehind(c, s[..|s| - 1]); }
    }
  }

  /** An id without such words is written without the white space at its end. */
  lemma CleanTrims(id: string)
    requires forall i :: 0 <= i <= |id| ==> !StartsWithClass((" " + id)[i..])
    ensures Clean(id) == TrimEnd(id)
  {
    ClassesStay(id);
    TrimBehind(' ', id);
    TrimIsFront(id);
    UnpadOf(id, TrimEnd(id));
  }

  lemma UnpadOf(id: string, t: string)
    requires t <= id && (t != "" ==> t[|t| - 1] != ' ')
    requires TrimEnd(" " + id) == if t == "" then "" else " " + t
    ensures Unpad(" " + id) == t
  {
    var s := " " + id;
    if t == "" {
      assert " "[1..] == "";
    } else if t == id {
      assert s[1..] == id;
    } else {
      var padded := " " + t + " ";
      assert |t| < |id|;
      assert padded[1..] == t + " " && (t + " ")[..|t|] == t;
    }
  }

  // ------------------------------------------------------------------ writing

  /** `li[0].id || true`, as the text of the children's `parent_id`. */
  function ParentId(id: string): string {
    if id == "" then "true" else id
  }

  /** `get_xml` on a list of siblings. */
  function Emit(f: Forest, pid: string): seq<Item> {
    if f == [] then [] else EmitTree(f[0], pid) + Emit(f[1..], pid)
  }

  function EmitTree(n: Tree<string>, pid: string): seq<Item> {
    [Item(Clean(n.value), pid)] + Emit(n.kids, ParentId(n.value))
  }

  lemma EmitFrom(f: Forest, i: nat, pid: string, before: seq<Item>)
    requires i < |f|
    ensures before + Emit(f[i..], pid)
            == before + [Item(Clean(f[i].value), pid)] + Emit(f[i].kids, ParentId(f[i].value)) + Emit(f[i + 1..], pid)
  {
    assert f[i..][0] == f[i] && f[i..][1..] == f[i + 1..];
    var head, rest := [Item(Clean(f[i].value), pid)], Emit(f[i + 1..], pid);
    var kids := Emit(f[i].kids, ParentId(f[i].value));
    JoinAgain(before, head + kids, rest);
    JoinAgain(before, head, kids);
  }

  /** How many items there are. */
  function Size(f: Forest): nat {
    if f == [] then 0 else 1 + Size(f[0].kids) + Size(f[1..])
  }

  /** One item is written for each, in front of those below it. */
  lemma {:induction false} EachIsWritten(f: Forest, pid: string)
    ensures |Emit(f, pid)| == Size(f)
  {
    if f != [] {
      EachIsWritten(f[0].kids, ParentId(f[0].value));
      EachIsWritten(f[1..], pid);
    }
  }

  /** The items of the top level carry the parent id that is asked for, and the first is the first. */
  lemma {:induction false} TopIsWritten(f: Forest, pid: string, k: nat)
    requires k < |f|
    ensures Item(Clean(f[k].value), pid) in Emit(f, pid) && Emit(f, pid)[0] == Item(Clean(f[0].value), pid)
  {
    if k > 0 {
      TopIsWritten(f[1..], pid, k - 1);
      assert forall x :: x in Emit(f[1..], pid) ==> x in Emit(f, pid);
    }
  }

  /** All others carry the id of the item above them as it is in the page, and "true" if it has none. */
  lemma {:induction false} KidIsWritten(f: Forest, pid: string, n: Tree<string>, k: nat)
    requires Within(n, f) && k < |n.kids|
    ensures Item(Clean(n.kids[k].value), if n.value == "" then "true" else n.value) in Emit(f, pid)
    decreases f
  {
    WithinHead(f);
    var kids, rest := Emit(f[0].kids, ParentId(f[0].value)), Emit(f[1..], pid);
    assert forall x :: x in kids || x in rest ==> x in Emit(f, pid);
    if n == f[0] {
      TopIsWritten(n.kids, ParentId(n.value), k);
    } else if Within(n, f[0].kids) {
      KidIsWritten(f[0].kids, ParentId(f[0].value), n, k);
    } else {
      KidIsWritten(f[1..], pid, n, k);
    }
  }

  /** `get_xml` in the flat form: one `each` over the siblings, with the text so far in `result`. */
  method GetXml(obj: Forest, isCallback: string) returns (result: seq<Item>)
    ensures result == Emit(obj, isCallback)
    decreases obj
  {
    result := [];
    assert obj[0..] == obj;
    for i := 0 to |obj|
      invariant result + Emit(obj[i..], isCallback) == Emit(obj, isCallback)
    {
      var li := obj[i];
      EmitFrom(obj, i, isCallback, result);
      result := result + [Item(Clean(li.value), isCallback)];
      var tmp2 := [];
      if li.kids != [] {
        tmp2 := GetXml(li.kids, ParentId(li.value));
      }
      result := result + tmp2;
    }
  }

  // ------------------------------------------------------------------ the stylesheet

  predicate HasId(items: seq<Item>, id: string) {
    exists i :: 0 <= i < |items| && items[i].id == id
  }

  /** The ids of the items chosen by their parent id, in document order. */
  function Pick(items: seq<Item>, chosen: string -> bool): seq<string> {
    if items == [] then []
    else (if chosen(items[0].parent_id) then [items[0].id] else []) + Pick(items[1..], chosen)
  }

  /** `//item[@parent_id=$node/@id]`. */
  function Select(items: seq<Item>, id: string): seq<string> {
    Pick(items, parent => parent == id)
  }

  /** A parent id of the top level: the stylesheet's first template starts from its items. */
  predicate IsTop(all: seq<Item>, parent: string) {
    IsZero(parent) || !HasId(all, parent)
  }

  function Roots(items: seq<Item>, all: seq<Item>): seq<string> {
    Pick(items, parent => IsTop(all, parent))
  }

  /** The template `nodes` on the item `id` ends and makes `n`. */
  ghost predicate Renders(items: seq<Item>, id: string, n: Tree<string>)
    decreases n
  {
    n.value == id && RendersAll(items, Select(items, id), n.kids)
  }

  ghost predicate RendersAll(items: seq<Item>, ids: seq<string>, f: Forest)
    decreases f
  {
    |ids| == |f| && forall k :: 0 <= k < |f| ==> Renders(items, ids[k], f[k])
  }

  /** The stylesheet ends on the items and makes the forest `f`. */
  ghost predicate Rebuilds(items: seq<Item>, f: Forest) {
    RendersAll(items, Roots(items, items), f)
  }

  // ------------------------------------------------------------------ what comes back

  /** The item `n` is somewhere in `f`. */
  ghost predicate Within(n: Tree<string>, f: Forest)
    decreases f
  {
    exists k :: 0 <= k < |f| && (n == f[k] || Within(n, f[k].kids))
  }

  /** How many items of `f` have the id `x`. */
  function Count(f: Forest, x: string): nat {
    if f == [] then 0
    else (if f[0].value == x then 1 else 0) + Count(f[0].kids, x) + Count(f[1..], x)
  }

  /** How many items below `f` are written with the parent id `x`. */
  function KidCount(f: Forest, x: string): nat {
    if f == [] then 0
    else (if ParentId(f[0].value) == x then |f[0].kids| else 0) + KidCount(f[0].kids, x) + KidCount(f[1..], x)
  }

  /** An item that comes back: its id is written unchanged and is not the parent id of the top
      level; if it has children, its id is its own, not empty and not a zero. */
  ghost predicate Faithful(f: Forest, n: Tree<string>) {
    && Stable(n.value)
    && n.value != "0"
    && (n.kids != [] ==> n.value != "" && !IsZero(n.value) && Count(f, n.value) == 1)
  }

  ghost predicate Good(f: Forest) {
    forall n :: Within(n, f) ==> Faithful(f, n)
  }

  function TopIds(f: Forest): seq<string> {
    if f == [] then [] else [Clean(f[0].value)] + TopIds(f[1..])
  }

  lemma {:induction false} TopIdsAt(f: Forest)
    ensures |TopIds(f)| == |f|
    ensures forall k :: 0 <= k < |f| ==> TopIds(f)[k] == Clean(f[k].value)
  {
    if f != [] { TopIdsAt(f[1..]); }
  }

  lemma WithinHead(f: Forest)
    requires f != []
    ensures Within(f[0], f)
    ensures forall n :: Within(n, f) <==> n == f[0] || Within(n, f[0].kids) || Within(n, f[1..])
  {
    forall n ensures Within(n, f) <==> n == f[0] || Within(n, f[0].kids) || Within(n, f[1..]) {
      if Within(n, f) {
        var k :| 0 <= k < |f| && (n == f[k] || Within(n, f[k].kids));
        if k > 0 { assert f[1..][k - 1] == f[k]; }
      }
      if Within(n, f[1..]) {
        var k :| 0 <= k < |f[1..]| && (n == f[1..][k] || Within(n, f[1..][k].kids));
        assert f[k + 1] == f[1..][k];
      }
    }
  }

  /** Children of items are items. */
  lemma {:induction false} WithinKids(f: Forest, n: Tree<string>, k: nat)
    requires Within(n, f) && k < |n.kids|
    ensures Within(n.kids[k], f)
    decreases f
  {
    var j :| 0 <= j < |f| && (n == f[j] || Within(n, f[j].kids));
    if n == f[j] {
      assert Within(n.kids[k], f[j].kids);
    } else {
      WithinKids(f[j].kids, n, k);
    }
  }

  lemma {:induction false} CountWithin(f: Forest, n: Tree<string>)
    requires Within(n, f)
    ensures Count(f, n.value) >= 1
    decreases f
  {
    WithinHead(f);
    if n == f[0] {
    } else if Within(n, f[0].kids) {
      CountWithin(f[0].kids, n);
    } else {
      CountWithin(f[1..], n);
    }
  }

  // ------------------------------------------------------------------ selecting

  lemma {:induction false} PickJoin(a: seq<Item>, b: seq<Item>, chosen: string -> bool)
    ensures Pick(a + b, chosen) == Pick(a, chosen) + Pick(b, chosen)
  {
    if a == [] {
      assert a + b == b;
    } else {
      PickJoin(a[1..], b, chosen);
      assert (a + b)[0] == a[0] && (a + b)[1..] == a[1..] + b;
      JoinAgain(if chosen(a[0].parent_id) then [a[0].id] else [], Pick(a[1..], chosen), Pick(b, chosen));
    }
  }

  lemma {:induction false} PickContents(items: seq<Item>, chosen: string -> bool, x: string)
    ensures x in Pick(items, chosen) <==> exists k :: 0 <= k < |items| && items[k].id == x && chosen(items[k].parent_id)
  {
    if items != [] {
      var rest := items[1..];
      PickContents(rest, chosen, x);
      if k :| 0 <= k < |rest| && rest[k].id == x && chosen(rest[k].parent_id) {
        assert items[k + 1].id == x && chosen(items[k + 1].parent_id);
      }
      if k :| 0 <= k < |items| && items[k].id == x && chosen(items[k].parent_id) {
        if k > 0 { assert rest[k - 1].id == x && chosen(rest[k - 1].parent_id); }
      }
    }
  }

  /** The first template starts from the items whose parent id is a zero or the id of no item. */
  lemma RootsExactly(items: seq<Item>, x: string)
    ensures x in Roots(items, items) <==>
              exists k :: 0 <= k < |items| && items[k].id == x
                && (IsZero(items[k].parent_id) || forall j :: 0 <= j < |items| ==> items[j].id != items[k].parent_id)
  {
    PickContents(items, parent => IsTop(items, parent), x);
  }

  /** An id selects the items that have it as their parent id. */
  lemma SelectExactly(items: seq<Item>, id: string, x: string)
    ensures x in Select(items, id) <==>
              exists k :: 0 <= k < |items| && items[k].id == x && items[k].parent_id == id
  {
    PickContents(items, parent => parent == id, x);
  }

  lemma EmitHead(f: Forest, pid: string)
    requires f != []
    ensures Emit(f, pid) == [Item(Clean(f[0].value), pid)] + Emit(f[0].kids, ParentId(f[0].value)) + Emit(f[1..], pid)
  {
  }

  lemma PickHead(f: Forest, pid: string, chosen: string -> bool)
    requires f != []
    ensures Pick(Emit(f, pid), chosen)
         == (if chosen(pid) then [Clean(f[0].value)] else [])
            + Pick(Emit(f[0].kids, ParentId(f[0].value)), chosen) + Pick(Emit(f[1..], pid), chosen)
  {
    var head, kids, rest := [Item(Clean(f[0].value), pid)], Emit(f[0].kids, ParentId(f[0].value)), Emit(f[1..], pid);
    EmitHead(f, pid);
    PickJoin(head + kids, rest, chosen);
    PickJoin(head, kids, chosen);
    PickOne(head[0], chosen);
  }

  lemma PickOne(item: Item, chosen: string -> bool)
    ensures Pick([item], chosen) == if chosen(item.parent_id) then [item.id] else []
  {
    assert [item][1..] == [];
  }

  lemma SelectHead(f: Forest, pid: string, x: string)
    requires f != []
    ensures Select(Emit(f, pid), x) == (if pid == x then [Clean(f[0].value)] else [])
                                       + Select(Emit(f[0].kids, ParentId(f[0].value)), x) + Select(Emit(f[1..], pid), x)
  {
    PickHead(f, pid, parent => parent == x);
  }

  lemma RootsHead(f: Forest, pid: string, all: seq<Item>)
    requires f != []
    ensures Roots(Emit(f, pid), all) == (if IsTop(all, pid) then [Clean(f[0].value)] else [])
                                        + Roots(Emit(f[0].kids, ParentId(f[0].value)), all)
                                          + Roots(Emit(f[1..], pid), all)
  {
    PickHead(f, pid, parent => IsTop(all, parent));
  }

  /** How many items a parent id selects. */
  lemma {:induction false} SelectLength(f: Forest, pid: string, x: string)
    ensures |Select(Emit(f, pid), x)| == (if pid == x then |f| else 0) + KidCount(f, x)
  {
    if f != [] {
      SelectHead(f, pid, x);
      SelectLength(f[0].kids, ParentId(f[0].value), x);
      SelectLength(f[1..], pid, x);
    }
  }

  lemma {:induction false} NoKids(f: Forest, x: string)
    requires forall n :: Within(n, f) && n.kids != [] ==> ParentId(n.value) != x
    ensures KidCount(f, x) == 0
  {
    if f != [] {
      WithinHead(f);
      NoKids(f[0].kids, x);
      NoKids(f[1..], x);
    }
  }

  ghost predicate Named(f: Forest) {
    forall n :: Within(n, f) && n.kids != [] ==> n.value != ""
  }

  /** An id that no item has is no parent id either. */
  lemma UnusedHasNoKids(f: Forest, x: string)
    requires Count(f, x) == 0 && Named(f)
    ensures KidCount(f, x) == 0
  {
    forall n | Within(n, f) && n.kids != [] ensures ParentId(n.value) != x {
      CountWithin(f, n);
    }
    NoKids(f, x);
  }

  lemma {:induction false} SelectUnused(f: Forest, pid: string, x: string)
    requires Count(f, x) == 0 && Named(f)
    ensures Select(Emit(f, pid), x) == if pid == x then TopIds(f) else []
  {
    if f != [] {
      WithinHead(f);
      SelectHead(f, pid, x);
      SelectUnused(f[1..], pid, x);
      UnusedHasNoKids(f[0].kids, x);
      SelectLength(f[0].kids, ParentId(f[0].value), x);
      if ParentId(f[0].value) == x { assert f[0].kids == []; }
    }
  }

  /** An id of its own selects exactly the children, in their order. */
  lemma {:induction false} SelectChildren(f: Forest, pid: string, n: Tree<string>)
    requires Within(n, f) && n.value != "" && pid != n.value
    requires Count(f, n.value) == 1 && Named(f)
    ensures Select(Emit(f, pid), n.value) == TopIds(n.kids)
    decreases f
  {
    var x := n.value;
    WithinHead(f);
    SelectHead(f, pid, x);
    if n == f[0] {
      SelectUnused(n.kids, x, x);
      SelectUnused(f[1..], pid, x);
    } else if Within(n, f[0].kids) {
      CountWithin(f[0].kids, n);
      SelectChildren(f[0].kids, ParentId(f[0].value), n);
      SelectUnused(f[1..], pid, x);
    } else {
      CountWithin(f[1..], n);
      SelectUnused(f[0].kids, ParentId(f[0].value), x);
      SelectChildren(f[1..], pid, n);
      if ParentId(f[0].value) == x { assert f[0].kids == []; }
    }
  }

  // ------------------------------------------------------------------ a good forest comes back

  lemma HasIdJoin(a: seq<Item>, b: seq<Item>, x: string)
    ensures HasId(a + b, x) <==> HasId(a, x) || HasId(b, x)
  {
    if i :| 0 <= i < |a + b| && (a + b)[i].id == x {
      assert i < |a| ==> a[i].id == x;
      assert i >= |a| ==> b[i - |a|].id == x;
    }
    if i :| 0 <= i < |a| && a[i].id == x { assert (a + b)[i].id == x; }
    if i :| 0 <= i < |b| && b[i].id == x { assert (a + b)[|a| + i].id == x; }
  }

  lemma HasIdSplits(f: Forest, pid: string, x: string)
    requires f != []
    ensures HasId(Emit(f, pid), x)
       <==> Clean(f[0].value) == x || HasId(Emit(f[0].kids, ParentId(f[0].value)), x) || HasId(Emit(f[1..], pid), x)
  {
    var head, kids, rest := [Item(Clean(f[0].value), pid)], Emit(f[0].kids, ParentId(f[0].value)), Emit(f[1..], pid);
    EmitHead(f, pid);
    HasIdJoin(head + kids, rest, x);
    HasIdJoin(head, kids, x);
    assert HasId(head, x) <==> head[0].id == x;
  }

  lemma {:induction false} EmitHasId(f: Forest, pid: string, n: Tree<string>)
    requires Within(n, f)
    ensures HasId(Emit(f, pid), Clean(n.value))
    decreases f
  {
    WithinHead(f);
    HasIdSplits(f, pid, Clean(n.value));
    if n == f[0] {
    } else if Within(n, f[0].kids) {
      EmitHasId(f[0].kids, ParentId(f[0].value), n);
    } else {
      EmitHasId(f[1..], pid, n);
    }
  }

  ghost predicate InnerKnown(f: Forest, all: seq<Item>) {
    forall n :: Within(n, f) && n.kids != [] ==> !IsTop(all, ParentId(n.value))
  }

  lemma {:induction false} RootsOf(f: Forest, pid: string, all: seq<Item>)
    requires InnerKnown(f, all)
    ensures Roots(Emit(f, pid), all) == if IsTop(all, pid) then TopIds(f) else []
  {
    if f != [] {
      WithinHead(f);
      RootsHead(f, pid, all);
      RootsOf(f[0].kids, ParentId(f[0].value), all);
      RootsOf(f[1..], pid, all);
    }
  }

  lemma {:induction false} GoodRenders(f: Forest, n: Tree<string>)
    requires Good(f) && Within(n, f)
    ensures Renders(Emit(f, "0"), n.value, n)
    decreases n
  {
    var items := Emit(f, "0");
    assert Faithful(f, n);
    assert Named(f) by {
      forall m | Within(m, f) && m.kids != [] ensures m.value != "" { assert Faithful(f, m); }
    }
    if n.kids == [] {
      LeafSelectsNothing(f, n);
    } else {
      SelectChildren(f, "0", n);
    }
    TopIdsAt(n.kids);
    forall k | 0 <= k < |n.kids| ensures Renders(items, TopIds(n.kids)[k], n.kids[k]) {
      WithinKids(f, n, k);
      GoodRenders(f, n.kids[k]);
      assert Faithful(f, n.kids[k]);
      CleanShortens(n.kids[k].value);
    }
  }

  lemma LeafSelectsNothing(f: Forest, n: Tree<string>)
    requires Good(f) && Within(n, f) && n.kids == []
    ensures Select(Emit(f, "0"), n.value) == []
  {
    assert Faithful(f, n);
    forall m | Within(m, f) && m.kids != [] ensures ParentId(m.value) != n.value {
      assert Faithful(f, m);
      if m.value == n.value { TwoWithin(f, m, n); }
    }
    NoKids(f, n.value);
    SelectLength(f, "0", n.value);
  }

  /** Two different items with one id are counted twice. */
  lemma {:induction false} TwoWithin(f: Forest, m: Tree<string>, n: Tree<string>)
    requires Within(m, f) && Within(n, f) && m != n && m.value == n.value
    ensures Count(f, m.value) >= 2
    decreases f
  {
    WithinHead(f);
    if Within(m, f[0].kids) { CountWithin(f[0].kids, m); }
    if Within(n, f[0].kids) { CountWithin(f[0].kids, n); }
    if Within(m, f[1..]) { CountWithin(f[1..], m); }
    if Within(n, f[1..]) { CountWithin(f[1..], n); }
    if Within(m, f[0].kids) && Within(n, f[0].kids) {
      TwoWithin(f[0].kids, m, n);
    } else if Within(m, f[1..]) && Within(n, f[1..]) {
      TwoWithin(f[1..], m, n);
    }
  }

  lemma ZeroIsZero()
    ensures IsZero("0")
  {
    assert "0"[1..] == "";
    ShortNumerals("0");
  }

  lemma GoodInnerKnown(f: Forest)
    requires Good(f)
    ensures InnerKnown(f, Emit(f, "0"))
  {
    forall n | Within(n, f) && n.kids != [] ensures !IsTop(Emit(f, "0"), ParentId(n.value)) {
      assert Faithful(f, n);
      CleanShortens(n.value);
      EmitHasId(f, "0", n);
    }
  }

  lemma GoodTopRenders(f: Forest, k: nat)
    requires Good(f) && k < |f|
    ensures Renders(Emit(f, "0"), Clean(f[k].value), f[k])
  {
    assert Within(f[k], f);
    assert Faithful(f, f[k]);
    CleanShortens(f[k].value);
    GoodRenders(f, f[k]);
  }

  lemma GoodRebuilds(f: Forest)
    requires Good(f)
    ensures Rebuilds(Emit(f, "0"), f)
  {
    var items := Emit(f, "0");
    GoodInnerKnown(f);
    RootsOf(f, "0", items);
    ZeroIsZero();
    TopIdsAt(f);
    var roots := Roots(items, items);
    forall k | 0 <= k < |f| ensures Renders(items, roots[k], f[k]) { GoodTopRenders(f, k); }
  }

  // ------------------------------------------------------------------ what comes back is good

  lemma {:induction false} WithinRenders(items: seq<Item>, ids: seq<string>, f: Forest, n: Tree<string>)
    requires RendersAll(items, ids, f) && Within(n, f)
    ensures Renders(items, n.value, n)
    decreases f
  {
    var k :| 0 <= k < |f| && (n == f[k] || Within(n, f[k].kids));
    assert Renders(items, ids[k], f[k]);
    if n != f[k] {
      WithinRenders(items, Select(items, f[k].value), f[k].kids, n);
    }
  }

  lemma {:induction false} PickedIsItem(items: seq<Item>, chosen: string -> bool, k: nat)
    requires k < |Pick(items, chosen)|
    ensures HasId(items, Pick(items, chosen)[k])
  {
    var x := Pick(items, chosen)[k];
    var d := if chosen(items[0].parent_id) then 1 else 0;
    if k >= d {
      PickedIsItem(items[1..], chosen, k - d);
      HasIdJoin([items[0]], items[1..], x);
      assert items == [items[0]] + items[1..];
    } else {
      assert items[0].id == x;
    }
  }

  /** Every id that is rebuilt was written. */
  lemma {:induction false} RebuiltWasWritten(items: seq<Item>, ids: seq<string>, f: Forest, n: Tree<string>)
    requires RendersAll(items, ids, f) && Within(n, f)
    requires forall k :: 0 <= k < |ids| ==> HasId(items, ids[k])
    ensures HasId(items, n.value)
    decreases f
  {
    var k :| 0 <= k < |f| && (n == f[k] || Within(n, f[k].kids));
    assert Renders(items, ids[k], f[k]);
    if n != f[k] {
      var next := Select(items, f[k].value);
      forall j | 0 <= j < |next|
        ensures HasId(items, next[j]) { PickedIsItem(items, parent => parent == f[k].value, j); }
      RebuiltWasWritten(items, next, f[k].kids, n);
    }
  }

  lemma {:induction false} ItemSource(f: Forest, pid: string, x: string) returns (m: Tree<string>)
    requires HasId(Emit(f, pid), x)
    ensures Within(m, f) && x == Clean(m.value)
    decreases f
  {
    HasIdSplits(f, pid, x);
    WithinHead(f);
    if Clean(f[0].value) == x {
      m := f[0];
    } else if HasId(Emit(f[0].kids, ParentId(f[0].value)), x) {
      m := ItemSource(f[0].kids, ParentId(f[0].value), x);
    } else {
      m := ItemSource(f[1..], pid, x);
    }
  }

  function Longest(f: Forest): nat {
    if f == [] then 0
    else
      var a, b := Longest(f[0].kids), Longest(f[1..]);
      var c := if a < b then b else a;
      if |f[0].value| < c then c else |f[0].value|
  }

  lemma {:induction false} LongestBounds(f: Forest, n: Tree<string>)
    requires Within(n, f)
    ensures |n.value| <= Longest(f)
    decreases f
  {
    WithinHead(f);
    if n != f[0] {
      if Within(n, f[0].kids) { LongestBounds(f[0].kids, n); } else { LongestBounds(f[1..], n); }
    }
  }

  /** An id that is not written as it is would have to come from a longer one of that kind. */
  lemma {:induction false} IdsAreStable(f: Forest, n: Tree<string>)
    requires Rebuilds(Emit(f, "0"), f) && Within(n, f)
    ensures Stable(n.value)
    decreases Longest(f) - |n.value|
  {
    var items := Emit(f, "0");
    var roots := Roots(items, items);
    forall k | 0 <= k < |roots|
      ensures HasId(items, roots[k]) { PickedIsItem(items, parent => IsTop(items, parent), k); }
    RebuiltWasWritten(items, roots, f, n);
    var m := ItemSource(f, "0", n.value);
    CleanShortens(m.value);
    if Clean(m.value) != m.value {
      LongestBounds(f, m);
      LongestBounds(f, n);
      IdsAreStable(f, m);
    }
  }

  /** Children of an item whose id is a zero are taken for top-level items. */
  lemma {:induction false} ZeroAddsRoots(f: Forest, pid: string, all: seq<Item>, n: Tree<string>)
    requires Within(n, f) && IsZero(ParentId(n.value))
    ensures |Roots(Emit(f, pid), all)| >= (if IsZero(pid) then |f| else 0) + |n.kids|
    decreases f
  {
    WithinHead(f);
    RootsHead(f, pid, all);
    ManyRoots(f[1..], pid, all);
    if n == f[0] {
      ManyRoots(n.kids, ParentId(n.value), all);
    } else if Within(n, f[0].kids) {
      ZeroAddsRoots(f[0].kids, ParentId(f[0].value), all, n);
    } else {
      ZeroAddsRoots(f[1..], pid, all, n);
    }
  }

  lemma {:induction false} ManyRoots(f: Forest, pid: string, all: seq<Item>)
    ensures |Roots(Emit(f, pid), all)| >= if IsZero(pid) then |f| else 0
  {
    if f != [] {
      RootsHead(f, pid, all);
      ManyRoots(f[1..], pid, all);
    }
  }

  /** If every item with the id `x` has `k` children, all of these carry the parent id `x`. */
  lemma {:induction false} KidsAddUp(f: Forest, x: string, k: nat)
    requires x != "" && forall n :: Within(n, f) && n.value == x ==> |n.kids| == k
    ensures KidCount(f, x) >= k * Count(f, x)
  {
    if f != [] {
      WithinHead(f);
      KidsAddUp(f[0].kids, x, k);
      KidsAddUp(f[1..], x, k);
      Spread(k, if f[0].value == x then 1 else 0, Count(f[0].kids, x), Count(f[1..], x));
    }
  }

  lemma Spread(k: nat, a: nat, b: nat, c: nat)
    requires a <= 1
    ensures k * (a + b + c) == (if a == 1 then k else 0) + k * b + k * c
  {
    assert k * (a + b + c) == k * a + k * b + k * c;
  }

  lemma InnerIsNamed(f: Forest, n: Tree<string>)
    requires Rebuilds(Emit(f, "0"), f) && Within(n, f) && n.kids != []
    ensures n.value != "" && !IsZero(n.value)
  {
    var items, x := Emit(f, "0"), n.value;
    WithinRenders(items, Roots(items, items), f, n);
    SelectLength(f, "0", x);
    if x == "" {
      NoKids(f, "");
    }
    if IsZero(x) && x != "" {
      ZeroIsChildless(f, n);
    }
  }

  lemma InnerIsUnique(f: Forest, n: Tree<string>)
    requires Rebuilds(Emit(f, "0"), f) && Within(n, f) && n.kids != [] && n.value != ""
    ensures Count(f, n.value) == 1
  {
    var items, x := Emit(f, "0"), n.value;
    WithinRenders(items, Roots(items, items), f, n);
    SelectLength(f, "0", x);
    forall m | Within(m, f) && m.value == x ensures |m.kids| == |n.kids| {
      WithinRenders(items, Roots(items, items), f, m);
    }
    KidsAddUp(f, x, |n.kids|);
    CountWithin(f, n);
    if Count(f, x) >= 2 { Doubled(|n.kids|, Count(f, x)); }
  }

  lemma Doubled(k: nat, c: nat)
    requires k >= 1 && c >= 2
    ensures k * c > k
  {
    assert k * c == k * 2 + k * (c - 2);
  }

  /** The id "0" would select the whole top level. */
  lemma TopIsChosen(f: Forest)
    requires f != []
    ensures |Select(Emit(f, "0"), "0")| > 0
  {
    SelectLength(f, "0", "0");
  }

  /** More top-level items would be chosen than there are. */
  lemma ZeroIsChildless(f: Forest, n: Tree<string>)
    requires Rebuilds(Emit(f, "0"), f) && Within(n, f) && IsZero(ParentId(n.value))
    ensures n.kids == []
  {
    ZeroIsZero();
    ZeroAddsRoots(f, "0", Emit(f, "0"), n);
  }

  lemma NoIdIsTheTop(f: Forest, n: Tree<string>)
    requires Rebuilds(Emit(f, "0"), f) && Within(n, f)
    ensures n.value != "0"
  {
    if n.value == "0" {
      var items := Emit(f, "0");
      ZeroIsZero();
      WithinRenders(items, Roots(items, items), f, n);
      ZeroIsChildless(f, n);
      TopIsChosen(f);
    }
  }

  // ------------------------------------------------------------------ the theorem

  /** Writing a forest and rebuilding it gives it back exactly if it is good. */
  lemma ComesBackExactly(f: Forest)
    ensures Rebuilds(Emit(f, "0"), f) <==> Good(f)
  {
    if Good(f) { GoodRebuilds(f); }
    if Rebuilds(Emit(f, "0"), f) {
      forall n | Within(n, f) ensures Faithful(f, n) {
        IdsAreStable(f, n);
        NoIdIsTheTop(f, n);
        if n.kids != [] { InnerIsNamed(f, n); InnerIsUnique(f, n); }
      }
    }
  }

  /** The stylesheet makes at most one forest. */
  lemma {:induction false} RebuildsOnce(items: seq<Item>, ids: seq<string>, f: Forest, g: Forest)
    requires RendersAll(items, ids, f) && RendersAll(items, ids, g)
    ensures f == g
    decreases f
  {
    forall k | 0 <= k < |f| ensures f[k] == g[k] {
      assert Renders(items, ids[k], f[k]) && Renders(items, ids[k], g[k]);
      RebuildsOnce(items, Select(items, ids[k]), f[k].kids, g[k].kids);
    }
  }

  /** The round trip of a good forest, and of no other, ends with that forest and nothing else. */
  lemma RoundTrip(f: Forest)
    ensures Good(f) <==> forall g :: Rebuilds(Emit(f, "0"), g) <==> g == f
  {
    var items := Emit(f, "0");
    ComesBackExactly(f);
    if Good(f) {
      forall g ensures Rebuilds(items, g) <==> g == f {
        if Rebuilds(items, g) { RebuildsOnce(items, Roots(items, items), f, g); }
      }
    }
  }

  /** Unique ids that are neither empty nor "0" are not enough: an id may begin like a class of
      the tree ... */
  lemma ClassLikeIdIsLost(id: string)
    requires StartsWithClass(" " + id)
    ensures !Rebuilds(Emit([Node("a", [Node(id, [])])], "0"), [Node("a", [Node(id, [])])])
  {
    var n: Tree<string> := Node(id, []);
    var f := [Node("a", [n])];
    ComesBackExactly(f);
    assert f[0].kids[0] == n;
    assert Within(n, f[0].kids);
    assert Within(n, f);
    assert (" " + id)[0..] == " " + id;
    assert !Faithful(f, n);
  }

  /** ... or be another way to write zero. */
  lemma ZeroIdIsLost(id: string)
    requires IsZero(id)
    ensures !Rebuilds(Emit([Node(id, [Node("a", [])])], "0"), [Node(id, [Node("a", [])])])
  {
    var f := [Node(id, [Node("a", [])])];
    ComesBackExactly(f);
    assert Within(f[0], f);
    assert !Faithful(f, f[0]);
  }

  /** ... such as "00". */
  lemma DoubleZeroIsZero()
    ensures IsZero("00")
  {
    assert "00"[1..] == "0" && "0"[1..] == "";
    assert IsNumeral("0", false, true);
    ShortNumerals("00");
  }
}

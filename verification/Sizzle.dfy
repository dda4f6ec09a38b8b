/** Sizzle's combinator engine (jQuery 1.6.2): a parsed selector chain is evaluated right to
    left over a mutable `checkSet`, with ancestor and sibling walks memoised through the
    `sizcache`/`sizset` marks it leaves on nodes. */
module Sizzle {
  import opened Wrappers
  import opened Trees

  datatype Info = Element(tag: string) | Text | Comment | Document
  type Dom = Tree<Info>

  /** `toLowerCase()` on Latin letters. */
  function LowerCase(s: string): (r: string)
    ensures |r| == |s| && forall i :: 0 <= i < |s| ==> r[i] == if 'A' <= s[i] <= 'Z' then s[i] - 'A' + 'a' else s[i]
  {
    seq(|s|, i requires 0 <= i < |s| => if 'A' <= s[i] <= 'Z' then s[i] - 'A' + 'a' else s[i])
  }

  /** `nodeName.toLowerCase()`. */
  function NodeName(n: Info): string {
    match n
    case Element(tag) => LowerCase(tag)
    case Text => "#text"
    case Comment => "#comment"
    case Document => "#document"
  }

  predicate IsElement(dom: Dom, p: Path) {
    match At(dom, p)
    case Some(n) => n.value.Element?
    case None => false
  }

  /** `Sizzle` searches below elements and documents only; a document is at the top of its tree. */
  predicate IsContext(dom: Dom, context: Path) {
    IsElement(dom, context) || (context == [] && dom.value.Document?)
  }

  predicate IsWordChar(c: char) {
    'a' <= c <= 'z' || 'A' <= c <= 'Z' || '0' <= c <= '9' || c == '_'
  }

  /** A selector part without a non-word character, which the engine compares as a tag name. */
  type Word = s: string | forall i :: 0 <= i < |s| ==> IsWordChar(s[i]) witness ""

  /** One operand of a combinator: a tag name, any other compound selector (given by the nodes
      it holds of, and whether testing it leaves marks: an nth-child test does, and a `:has` or
      `:not` with a chain of its own, which calls `Sizzle` again), or the context node itself. */
  datatype Part = Tag(name: Word) | Compound(matches: set<Path>, marking: bool) | Context(node: Path)

  datatype Combinator = Descendant | Child | Adjacent | Sibling
  datatype Step = Step(comb: Combinator, part: Part)

  /** What a slot of `checkSet` may contain. */
  datatype Slot = Null | False | True | Elem(node: Path)

  datatype Direction = ParentNode | PreviousSibling

  function Next(dir: Direction, p: Path): Option<Path> {
    if p == [] then None
    else if dir.ParentNode? then Some(Parent(p))
    else if Last(p) == 0 then None
    else Some(Parent(p) + [Last(p) - 1])
  }

  /** How many steps `p` still has in front of it. */
  function Rank(dir: Direction, p: Path): nat {
    if p == [] then 0 else if dir.ParentNode? then |p| else Last(p)
  }

  /** The part selects the node. */
  predicate Holds(dom: Dom, part: Part, w: Path) {
    match part
    case Tag(name) => IsNode(dom, w) && NodeName(At(dom, w).value.value) == LowerCase(name)
    case Compound(matches, _) => w in matches
    case Context(n) => w == n
  }

  /** The test a walk applies to each node it reaches. */
  predicate Test(dom: Dom, part: Part, w: Path) {
    (part.Tag? || IsElement(dom, w)) && Holds(dom, part, w)
  }

  function Hit(part: Part, w: Path): Slot {
    if part.Context? then True else Elem(w)
  }

  /** The naive walk: the first node at `p` or beyond it along `dir` that passes the test. */
  function FirstFrom(dom: Dom, dir: Direction, part: Part, p: Path): Slot
    decreases Rank(dir, p)
  {
    if Test(dom, part, p) then Hit(part, p) else Along(dom, dir, part, p)
  }

  /** The naive walk from `p`, `p` itself excluded. */
  function Along(dom: Dom, dir: Direction, part: Part, p: Path): Slot
    decreases Rank(dir, p), 0
  {
    match Next(dir, p)
    case None => False
    case Some(q) => FirstFrom(dom, dir, part, q)
  }

  /** What a walk leaves in a slot. */
  function Walked(dom: Dom, dir: Direction, part: Part, s: Slot): Slot {
    if s.Elem? then Along(dom, dir, part, s.node) else s
  }

  function PreviousElement(dom: Dom, p: Path): Option<Path>
    decreases Rank(PreviousSibling, p)
  {
    match Next(PreviousSibling, p)
    case None => None
    case Some(q) => if IsElement(dom, q) then Some(q) else PreviousElement(dom, q)
  }

  // ------------------------------------------------------------ one step, as a function

  /** A slot after one step, when no null slot disturbs the in-place filter. */
  function StepOne(dom: Dom, step: Step, s: Slot): Slot {
    if !s.Elem? then s
    else match step.comb
    case Descendant => Along(dom, ParentNode, step.part, s.node)
    case Sibling => Along(dom, PreviousSibling, step.part, s.node)
    case _ => Tested(dom, step.part, Neighbour(dom, step.comb, s))
  }

  /** The single candidate of the combinators `>` and `+`. */
  function Neighbour(dom: Dom, comb: Combinator, s: Slot): Slot {
    if !s.Elem? then s
    else if comb.Child? then (if s.node == [] then Null else Elem(Parent(s.node)))
    else match PreviousElement(dom, s.node) case Some(q) => Elem(q) case None => False
  }

  function Tested(dom: Dom, part: Part, s: Slot): Slot {
    match part
    case Context(n) => if s == Elem(n) then True else False
    case _ => if s.Elem? && !Holds(dom, part, s.node) then False else s
  }

  /** A slot after the first loop of `>` and `+`, which leaves compounds to the filter. */
  function Moved(dom: Dom, step: Step, s: Slot): Slot {
    if step.part.Compound? then Neighbour(dom, step.comb, s) else StepOne(dom, step, s)
  }

  /** `Sizzle.filter(part, checkSet, true)` on a compound: the loop ends at the first null. */
  function FilterInPlace(dom: Dom, part: Part, slots: seq<Slot>): (r: seq<Slot>)
    ensures |r| == |slots|
  {
    if slots == [] || slots[0] == Null then slots
    else [Tested(dom, part, slots[0])] + FilterInPlace(dom, part, slots[1..])
  }

  lemma {:induction false} FilterInPlaceByIndex(dom: Dom, part: Part, slots: seq<Slot>, r: seq<Slot>, cut: nat)
    requires |r| == |slots| && cut <= |slots| && (cut < |slots| ==> slots[cut] == Null)
    requires forall k :: 0 <= k < cut ==> slots[k] != Null && r[k] == Tested(dom, part, slots[k])
    requires forall k :: cut <= k < |r| ==> r[k] == slots[k]
    ensures r == FilterInPlace(dom, part, slots)
  {
    if cut > 0 {
      FilterInPlaceByIndex(dom, part, slots[1..], r[1..], cut - 1);
      assert r == [r[0]] + r[1..];
    }
  }

  function Neighbours(dom: Dom, comb: Combinator, slots: seq<Slot>): (r: seq<Slot>)
    ensures |r| == |slots|
    ensures forall i :: 0 <= i < |r| ==> r[i] == Neighbour(dom, comb, slots[i])
  {
    seq(|slots|, i requires 0 <= i < |slots| => Neighbour(dom, comb, slots[i]))
  }

  function StepEach(dom: Dom, step: Step, slots: seq<Slot>): (r: seq<Slot>)
    ensures |r| == |slots|
    ensures forall i :: 0 <= i < |r| ==> r[i] == StepOne(dom, step, slots[i])
  {
    seq(|slots|, i requires 0 <= i < |slots| => StepOne(dom, step, slots[i]))
  }

  /** `Expr.relative[comb](checkSet, part)`; `None` is the TypeError of `> tag` on a node
      without a parent. */
  function StepAll(dom: Dom, step: Step, slots: seq<Slot>): (r: Option<seq<Slot>>)
    ensures r.Some? ==> |r.value| == |slots|
  {
    if step.comb.Child? && step.part.Tag? && Elem([]) in slots then None
    else if step.part.Compound? && (step.comb.Child? || step.comb.Adjacent?) then
      Some(FilterInPlace(dom, step.part, Neighbours(dom, step.comb, slots)))
    else
      Some(StepEach(dom, step, slots))
  }

  // ------------------------------------------------------------------- the main loop

  datatype Token = Comb(comb: Combinator) | Simple(part: Part)

  /** What the chunker delivers: compound selectors with at most one combinator between two. */
  predicate Parsed(tokens: seq<Token>) {
    && (forall i :: 0 <= i < |tokens| && tokens[i].Simple? ==> !tokens[i].part.Context?)
    && (forall i :: 0 < i < |tokens| && tokens[i].Comb? ==> tokens[i - 1].Simple?)
    && (forall i :: 0 <= i < |tokens| && tokens[i].Comb? ==> !tokens[i].comb.Descendant?)
  }

  /** The steps of a chain from right to left; a leading combinator applies to the context. */
  function Steps(tokens: seq<Token>, context: Path): (steps: seq<Step>)
    requires Parsed(tokens)
    decreases |tokens|
  {
    if tokens == [] then []
    else
      var n := |tokens|;
      match tokens[n - 1]
      case Simple(part) => [Step(Descendant, part)] + Steps(tokens[..n - 1], context)
      case Comb(c) =>
        if n == 1 then [Step(c, Context(context))]
        else [Step(c, tokens[n - 2].part)] + Steps(tokens[..n - 2], context)
  }

  function Evaluate(dom: Dom, steps: seq<Step>, slots: seq<Slot>): (r: Option<seq<Slot>>)
    ensures r.Some? ==> |r.value| == |slots|
  {
    if steps == [] then Some(slots)
    else match StepAll(dom, steps[0], slots)
         case None => None
         case Some(s) => Evaluate(dom, steps[1..], s)
  }

  function Elems(set_: seq<Path>): (r: seq<Slot>)
    ensures |r| == |set_|
    ensures forall i :: 0 <= i < |r| ==> r[i] == Elem(set_[i])
  {
    seq(|set_|, i requires 0 <= i < |set_| => Elem(set_[i]))
  }

  /** A slot lets its element into the result. */
  predicate Kept(dom: Dom, context: Path, s: Slot) {
    || (s == True && IsElement(dom, context))
    || (s.Elem? && IsElement(dom, s.node) && (IsElement(dom, context) ==> context < s.node))
  }

  function Collect(dom: Dom, context: Path, set_: seq<Path>, slots: seq<Slot>): seq<Path>
    requires |set_| == |slots|
  {
    if slots == [] || slots[0] == Null then []
    else (if Kept(dom, context, slots[0]) then [set_[0]] else [])
         + Collect(dom, context, set_[1..], slots[1..])
  }

  lemma CollectStep(dom: Dom, context: Path, set_: seq<Path>, slots: seq<Slot>, i: nat)
    requires |set_| == |slots| && i < |slots| && slots[i] != Null
    ensures Collect(dom, context, set_[i..], slots[i..])
         == (if Kept(dom, context, slots[i]) then [set_[i]] else [])
            + Collect(dom, context, set_[i + 1..], slots[i + 1..])
  {
    assert set_[i..][1..] == set_[i + 1..] && slots[i..][1..] == slots[i + 1..];
  }

  lemma CollectEnd(dom: Dom, context: Path, set_: seq<Path>, slots: seq<Slot>, i: nat)
    requires |set_| == |slots| && i <= |slots| && (i < |slots| ==> slots[i] == Null)
    ensures Collect(dom, context, set_[i..], slots[i..]) == []
  {
    assert i < |slots| ==> slots[i..][0] == Null;
  }

  // ------------------------------------------------------------- the engine, in place

  /** Every mark with the current name points at a slot below `i` (or at slot `i`, behind
      `rank`) whose naive result, listed in `naive`, is also the naive result from the marked
      node. */
  ghost predicate Marks(dom: Dom, dir: Direction, part: Part, name: nat, naive: seq<Slot>, i: nat, rank: int,
                        sizcache: map<Path, nat>, sizset: map<Path, nat>)
  {
    forall p :: p in sizcache && sizcache[p] == name ==>
      && p in sizset && sizset[p] <= i && sizset[p] < |naive|
      && FirstFrom(dom, dir, part, p) == naive[sizset[p]]
      && (sizset[p] == i ==> Rank(dir, p) > rank)
  }

  /** A visit keeps the marks right and adds one on the node itself. */
  lemma MarksAfterVisit(dom: Dom, dir: Direction, part: Part, name: nat, naive: seq<Slot>, i: nat, e: Path, rank: int,
                        cache: map<Path, nat>, slots: map<Path, nat>, sizcache: map<Path, nat>, sizset: map<Path, nat>)
    requires Marks(dom, dir, part, name, naive, i, Rank(dir, e), cache, slots) && rank < Rank(dir, e)
    requires i < |naive| && naive[i] == FirstFrom(dom, dir, part, e)
    requires forall p :: p in sizcache && sizcache[p] == name ==>
               || (p == e && p in sizset && sizset[p] == i)
               || (p in cache && cache[p] == name && (p in slots ==> p in sizset && sizset[p] == slots[p]))
    ensures Marks(dom, dir, part, name, naive, i, rank, sizcache, sizset)
  {
    forall p | p in sizcache && sizcache[p] == name
      ensures p in sizset && sizset[p] <= i && FirstFrom(dom, dir, part, p) == naive[sizset[p]]
      ensures sizset[p] == i ==> Rank(dir, p) > rank
    {
    }
  }

  /** A mark that a test leaves on a node: its name, counted from the `done` of before, and its slot. */
  datatype Overwrite = Overwrite(node: Path, name: nat, slot: Option<nat>)

  /** The `done` counter and the two marks the walks leave on nodes. */
  class Engine {
    var done: nat
    var sizcache: map<Path, nat>
    var sizset: map<Path, nat>

    ghost predicate Valid()
      reads this
    {
      forall p :: p in sizcache ==> sizcache[p] < done
    }

    /** The marks of `p` are still those of before. */
    ghost predicate StillMarked(p: Path, cache: map<Path, nat>, slots: map<Path, nat>)
      reads this
    {
      && p in sizcache && p in cache && sizcache[p] == cache[p]
      && (p in slots ==> p in sizset && sizset[p] == slots[p])
    }

    constructor ()
      ensures Valid()
    {
      done, sizcache, sizset := 0, map[], map[];
    }

    /** `Sizzle.filter(part, [elem]).length > 0`. The tests in it may overwrite the marks of any
        nodes, with fresh names of their own. */
    method FilterOne(part: Part, elem: Path) returns (b: bool)
      requires Valid() && part.Compound?
      modifies this
      ensures Valid() && done >= old(done) && b == (elem in part.matches)
      ensures forall p :: p in sizcache ==> sizcache[p] >= old(done) || StillMarked(p, old(sizcache), old(sizset))
    {
      b := elem in part.matches;
      if part.marking {
        var start, marks: seq<Overwrite> := done, *;
        for i := 0 to |marks|
          invariant Valid() && done >= start
          invariant forall p :: p in sizcache ==> sizcache[p] >= old(done) || StillMarked(p, old(sizcache), old(sizset))
        {
          var name := start + marks[i].name;
          sizcache := sizcache[marks[i].node := name];
          if marks[i].slot.Some? { sizset := sizset[marks[i].node := marks[i].slot.value]; }
          done := if name < done then done else name + 1;
        }
      }
    }

    /** One node of a walk: mark it and test it (`dirNodeCheck` for a tag, `dirCheck` otherwise). */
    method Visit(dom: Dom, part: Part, name: nat, i: nat, e: Path, isXML: bool) returns (hit: bool)
      requires Valid() && name < done
      modifies this
      ensures Valid() && done >= old(done) && hit == Test(dom, part, e)
      ensures forall p :: p in sizcache && sizcache[p] == name ==>
                (p == e && p in sizset && sizset[p] == i) || StillMarked(p, old(sizcache), old(sizset))
    {
      hit := false;
      if IsElement(dom, e) && !isXML {
        sizcache, sizset := sizcache[e := name], sizset[e := i];
      }
      if part.Tag? {
        hit := IsNode(dom, e) && NodeName(At(dom, e).value.value) == LowerCase(part.name);
      } else if IsElement(dom, e) {
        if part.Context? {
          hit := e == part.node;
        } else {
          hit := FilterOne(part, e);
        }
      }
    }

    /** The inner loop of `dirCheck` and `dirNodeCheck`: the walk of slot `i`. */
    method DirCheckSlot(dom: Dom, dir: Direction, part: Part, name: nat, checkSet: array<Slot>, i: nat,
                        isXML: bool, ghost naive: seq<Slot>)
      returns (found: Slot)
      requires Valid() && name < done
      requires |naive| == checkSet.Length && i < checkSet.Length && checkSet[i].Elem?
      requires naive[i] == Along(dom, dir, part, checkSet[i].node)
      requires forall k :: 0 <= k < i ==> checkSet[k] == naive[k]
      requires Marks(dom, dir, part, name, naive, i, Rank(dir, checkSet[i].node), sizcache, sizset)
      modifies this
      ensures Valid() && done >= old(done)
      ensures found == naive[i]
      ensures Marks(dom, dir, part, name, naive, i, -1, sizcache, sizset)
    {
      var elem := Next(dir, checkSet[i].node);
      found := False;
      while elem.Some?
        invariant Valid() && name < done && done >= old(done) && found == False
        invariant naive[i] == if elem.Some? then FirstFrom(dom, dir, part, elem.value) else False
        invariant Marks(dom, dir, part, name, naive, i,
                        if elem.Some? then Rank(dir, elem.value) else -1, sizcache, sizset)
        decreases if elem.Some? then Rank(dir, elem.value) + 1 else 0
      {
        var e := elem.value;
        if e in sizcache && sizcache[e] == name {
          found := checkSet[sizset[e]];
          break;
        }
        ghost var cache, slots := sizcache, sizset;
        var hit := Visit(dom, part, name, i, e, isXML);
        elem := if hit then None else Next(dir, e);
        ghost var rank := if elem.Some? then Rank(dir, elem.value) else -1;
        MarksAfterVisit(dom, dir, part, name, naive, i, e, rank, cache, slots, sizcache, sizset);
        if hit { found := Hit(part, e); break; }
      }
    }

    method DirCheck(dom: Dom, dir: Direction, part: Part, name: nat, checkSet: array<Slot>, isXML: bool)
      requires Valid() && name < done
      requires forall p :: p in sizcache ==> sizcache[p] != name
      modifies this, checkSet
      ensures Valid() && done >= old(done)
      ensures forall i :: 0 <= i < checkSet.Length ==> checkSet[i] == Walked(dom, dir, part, old(checkSet[i]))
    {
      ghost var naive := seq(checkSet.Length, k requires 0 <= k < checkSet.Length reads checkSet =>
                                                Walked(dom, dir, part, checkSet[k]));
      var i := 0;
      while i < checkSet.Length
        invariant 0 <= i <= checkSet.Length && Valid() && name < done && done >= old(done)
        invariant Marks(dom, dir, part, name, naive, i, 0, sizcache, sizset)
        invariant forall p :: p in sizcache && sizcache[p] == name ==> sizset[p] < i
        invariant forall k :: 0 <= k < i ==> checkSet[k] == naive[k]
        invariant forall k :: i <= k < checkSet.Length ==> checkSet[k] == old(checkSet[k])
      {
        if checkSet[i].Elem? {
          var found := DirCheckSlot(dom, dir, part, name, checkSet, i, isXML, naive);
          checkSet[i] := found;
        }
        i := i + 1;
      }
    }

    /** `Sizzle.filter(part, checkSet, true)`. */
    method Filter(dom: Dom, part: Part, checkSet: array<Slot>)
      requires Valid() && part.Compound?
      modifies this, checkSet
      ensures Valid() && done >= old(done)
      ensures checkSet[..] == FilterInPlace(dom, part, old(checkSet[..]))
    {
      var i := 0;
      while i < checkSet.Length && checkSet[i] != Null
        invariant 0 <= i <= checkSet.Length && Valid() && done >= old(done)
        invariant forall k :: 0 <= k < i
                    ==> old(checkSet[k]) != Null && checkSet[k] == Tested(dom, part, old(checkSet[k]))
        invariant forall k :: i <= k < checkSet.Length ==> checkSet[k] == old(checkSet[k])
      {
        if checkSet[i].Elem? {
          var passed := FilterOne(part, checkSet[i].node);
          if !passed { checkSet[i] := False; }
        }
        i := i + 1;
      }
      FilterInPlaceByIndex(dom, part, old(checkSet[..]), checkSet[..], i);
    }

    /** `Expr.relative["+"]`. */
    method AdjacentStep(dom: Dom, part: Part, checkSet: array<Slot>)
      requires Valid()
      modifies this, checkSet
      ensures Valid() && done >= old(done)
      ensures StepAll(dom, Step(Adjacent, part), old(checkSet[..])) == Some(checkSet[..])
    {
      for i := 0 to checkSet.Length
        invariant Valid() && done == old(done)
        invariant forall k :: 0 <= k < i ==> checkSet[k] == Moved(dom, Step(Adjacent, part), old(checkSet[k]))
        invariant forall k :: i <= k < checkSet.Length ==> checkSet[k] == old(checkSet[k])
      {
        if checkSet[i].Elem? {
          var elem := Next(PreviousSibling, checkSet[i].node);
          while elem.Some? && !IsElement(dom, elem.value)
            invariant PreviousElement(dom, checkSet[i].node) ==
                      match elem { case None => None
                                   case Some(q) => if IsElement(dom, q) then Some(q) else PreviousElement(dom, q) }
            decreases if elem.Some? then Rank(PreviousSibling, elem.value) + 1 else 0
          {
            elem := Next(PreviousSibling, elem.value);
          }
          if part.Compound? || (part.Tag? && elem.Some? && Holds(dom, part, elem.value)) {
            checkSet[i] := if elem.Some? then Elem(elem.value) else False;
          } else {
            checkSet[i] := if part.Context? && elem == Some(part.node) then True else False;
          }
        }
      }
      if part.Compound? {
        assert checkSet[..] == Neighbours(dom, Adjacent, old(checkSet[..]));
        Filter(dom, part, checkSet);
      } else {
        assert checkSet[..] == StepEach(dom, Step(Adjacent, part), old(checkSet[..]));
      }
    }

    /** `Expr.relative[">"]`; `threw` is the TypeError for a node without a parent. */
    method ChildStep(dom: Dom, part: Part, checkSet: array<Slot>) returns (threw: bool)
      requires Valid()
      modifies this, checkSet
      ensures Valid() && done >= old(done)
      ensures StepAll(dom, Step(Child, part), old(checkSet[..])) == if threw then None else Some(checkSet[..])
    {
      threw := false;
      for i := 0 to checkSet.Length
        invariant Valid() && done == old(done)
        invariant part.Tag? ==> forall k :: 0 <= k < i ==> old(checkSet[k]) != Elem([])
        invariant forall k :: 0 <= k < i ==> checkSet[k] == Moved(dom, Step(Child, part), old(checkSet[k]))
        invariant forall k :: i <= k < checkSet.Length ==> checkSet[k] == old(checkSet[k])
      {
        if checkSet[i].Elem? {
          var parent := Next(ParentNode, checkSet[i].node);
          match part {
            case Tag(_) =>
              if parent.None? {
                assert old(checkSet[..])[i] == Elem([]);
                threw := true;
                return;
              }
              checkSet[i] := if Holds(dom, part, parent.value) then Elem(parent.value) else False;
            case Compound(_, _) =>
              checkSet[i] := if parent.Some? then Elem(parent.value) else Null;
            case Context(n) =>
              checkSet[i] := if parent == Some(n) then True else False;
          }
        }
      }
      if part.Compound? {
        assert checkSet[..] == Neighbours(dom, Child, old(checkSet[..]));
        Filter(dom, part, checkSet);
      } else {
        assert checkSet[..] == StepEach(dom, Step(Child, part), old(checkSet[..]));
      }
    }

    /** `Expr.relative[comb]`, with a fresh mark name for the two walking combinators. */
    method Relative(dom: Dom, step: Step, checkSet: array<Slot>, isXML: bool) returns (threw: bool)
      requires Valid()
      modifies this, checkSet
      ensures Valid()
      ensures StepAll(dom, step, old(checkSet[..])) == if threw then None else Some(checkSet[..])
    {
      threw := false;
      match step.comb {
        case Adjacent => AdjacentStep(dom, step.part, checkSet);
        case Child => threw := ChildStep(dom, step.part, checkSet);
        case _ =>
          var dir := if step.comb.Descendant? then ParentNode else PreviousSibling;
          done := done + 1;
          DirCheck(dom, dir, step.part, done - 1, checkSet, isXML);
          assert checkSet[..] == StepEach(dom, step, old(checkSet[..]));
      }
    }

    /** The loops that fill `results` from `set` and `checkSet`. */
    method CollectResults(dom: Dom, context: Path, candidates: seq<Path>, checkSet: array<Slot>)
      returns (found: seq<Path>)
      requires |candidates| == checkSet.Length
      ensures found == Collect(dom, context, candidates, checkSet[..])
    {
      var i := 0;
      found := [];
      ghost var slots := checkSet[..];
      ghost var rest := Collect(dom, context, candidates, slots);
      ghost var all := rest;
      assert candidates[0..] == candidates && slots[0..] == slots;
      while i < checkSet.Length && checkSet[i] != Null
        invariant 0 <= i <= checkSet.Length
        invariant all == found + rest && rest == Collect(dom, context, candidates[i..], slots[i..])
      {
        CollectStep(dom, context, candidates, slots, i);
        rest := Collect(dom, context, candidates[i + 1..], slots[i + 1..]);
        if Kept(dom, context, checkSet[i]) { found := found + [candidates[i]]; }
        i := i + 1;
      }
      CollectEnd(dom, context, candidates, slots, i);
    }

    /** The right-to-left part of `Sizzle(selector, context)`: `candidates` are the elements the
        rightmost compound selects. `None` is the TypeError. */
    method Select(dom: Dom, context: Path, candidates: seq<Path>, tokens: seq<Token>, isXML: bool)
      returns (results: Option<seq<Path>>)
      requires Valid() && Parsed(tokens)
      modifies this
      ensures Valid()
      ensures results ==
              if !IsContext(dom, context) then Some([])
              else if tokens == [] then Some(candidates)
              else match Evaluate(dom, Steps(tokens, context), Elems(candidates))
                   case None => None
                   case Some(slots) => Some(Collect(dom, context, candidates, slots))
    {
      if !IsContext(dom, context) { return Some([]); }
      if tokens == [] { return Some(candidates); }
      var checkSet := new Slot[|candidates|](i requires 0 <= i < |candidates| => Elem(candidates[i]));
      assert checkSet[..] == Elems(candidates);
      ghost var outcome := Evaluate(dom, Steps(tokens, context), Elems(candidates));
      var parts := tokens;
      while parts != []
        invariant Valid() && Parsed(parts) && fresh(checkSet)
        invariant outcome == Evaluate(dom, Steps(parts, context), checkSet[..])
        decreases |parts|
      {
        var cur := parts[|parts| - 1];
        ghost var steps := Steps(parts, context);
        var step;
        match cur {
          case Simple(part) =>
            step, parts := Step(Descendant, part), parts[..|parts| - 1];
          case Comb(c) =>
            if |parts| == 1 {
              step, parts := Step(c, Context(context)), [];
            } else {
              step, parts := Step(c, parts[|parts| - 2].part), parts[..|parts| - 2];
            }
        }
        assert steps[0] == step && steps[1..] == Steps(parts, context);
        var threw := Relative(dom, step, checkSet, isXML);
        if threw { return None; }
      }
      var found := CollectResults(dom, context, candidates, checkSet);
      results := Some(found);
    }
  }
}

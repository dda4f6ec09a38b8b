/** What the engine of module `Sizzle` computes, measured against the meaning of combinators in
    section 8 of Selectors Level 3. */
module Combinators {
  import opened Sequences
  import opened Wrappers
  import opened Trees
  import opened Sizzle

  // ------------------------------------------------------------------ the meaning of a chain

  /** `w` lies strictly in front of `p` along `dir`. */
  ghost predicate InFront(dir: Direction, w: Path, p: Path) {
    if dir.ParentNode? then w < p
    else w != [] && p != [] && Parent(w) == Parent(p) && Last(w) < Last(p)
  }

  ghost predicate Related(dom: Dom, comb: Combinator, w: Path, e: Path) {
    match comb
    case Descendant => w < e && IsElement(dom, w)
    case Child => e != [] && w == Parent(e)
    case Sibling => InFront(PreviousSibling, w, e) && IsElement(dom, w)
    case Adjacent =>
      InFront(PreviousSibling, w, e) && IsElement(dom, w)
      && forall j :: Last(w) < j < Last(e) ==> !IsElement(dom, Parent(e) + [j])
  }

  ghost predicate Inside(dom: Dom, context: Path, e: Path) {
    IsElement(dom, e) && (IsElement(dom, context) ==> context < e)
  }

  ghost predicate Witness(dom: Dom, step: Step, w: Path, e: Path) {
    Related(dom, step.comb, w, e) && Holds(dom, step.part, w)
  }

  /** `e` is the rightmost element of a match of the chain: each part has a witness, related to
      the next as its combinator says. The leftmost is related to the context by a leading
      combinator, and lies inside the context if there is none. */
  ghost predicate Chain(dom: Dom, context: Path, e: Path, steps: seq<Step>)
    decreases |steps|
  {
    if steps == [] then Inside(dom, context, e)
    else if steps[0].part.Context? then Related(dom, steps[0].comb, steps[0].part.node, e)
    else exists w :: Witness(dom, steps[0], w, e) && Chain(dom, context, w, steps[1..])
  }

  // ------------------------------------------------------------------ a match, read off the tokens

  /** Searches start from elements and documents only. */
  lemma ContextsExactly(dom: Dom, context: Path)
    ensures IsContext(dom, context) <==>
              && IsNode(dom, context)
              && var n := At(dom, context).value.value; n.Element? || (context == [] && n.Document?)
  {
  }

  /** Compounds follow each other freely, and a combinator may stand behind each compound and in front
      of the first. */
  lemma ParsedGrows(tokens: seq<Token>, part: Part, comb: Combinator)
    requires Parsed(tokens) && !part.Context? && !comb.Descendant?
    ensures Parsed(tokens + [Simple(part)])
    ensures tokens == [] || tokens[|tokens| - 1].Simple? ==> Parsed(tokens + [Comb(comb)])
  {
  }

  /** The node at place `i` of a chain: behind the last token comes the candidate. */
  function NodeAt(at: seq<Path>, e: Path, i: nat): Path
    requires i <= |at|
  {
    if i == |at| then e else at[i]
  }

  /** The node of the compound `i` is related to that of the next compound as the combinator token
      between the two says, or is an ancestor of it if there is no token. */
  ghost predicate Linked(dom: Dom, tokens: seq<Token>, at: seq<Path>, e: Path, i: nat)
    requires i < |tokens| == |at|
  {
    if i + 1 < |tokens| && tokens[i + 1].Comb? then Related(dom, tokens[i + 1].comb, at[i], NodeAt(at, e, i + 2))
    else Related(dom, Descendant, at[i], NodeAt(at, e, i + 1))
  }

  /** The first node is related to the context by a leading combinator. Without one it is an element
      strictly below the context, or any element if the context is none. */
  ghost predicate Begun(dom: Dom, context: Path, tokens: seq<Token>, at: seq<Path>, e: Path)
    requires |tokens| == |at|
  {
    if tokens != [] && tokens[0].Comb? then Related(dom, tokens[0].comb, context, NodeAt(at, e, 1))
    else IsElement(dom, NodeAt(at, e, 0)) && (IsElement(dom, context) ==> context < NodeAt(at, e, 0))
  }

  /** The compound `i` holds of its node, and that is linked to the next. */
  ghost predicate Placed(dom: Dom, tokens: seq<Token>, at: seq<Path>, e: Path, i: nat)
    requires i < |tokens| == |at|
  {
    tokens[i].Simple? ==> Holds(dom, tokens[i].part, at[i]) && Linked(dom, tokens, at, e, i)
  }

  /** `at` gives each compound a node it holds of, and neighbours are linked. */
  ghost predicate IsMatch(dom: Dom, context: Path, tokens: seq<Token>, at: seq<Path>, e: Path) {
    && |at| == |tokens| && Begun(dom, context, tokens, at, e)
    && forall i: nat :: i < |tokens| ==> Placed(dom, tokens, at, e, i)
  }

  ghost predicate Matches(dom: Dom, context: Path, tokens: seq<Token>, e: Path) {
    exists at :: IsMatch(dom, context, tokens, at, e)
  }

  /** `k` is the place of the last compound. */
  predicate LastCompound(tokens: seq<Token>, k: nat) {
    k < |tokens| && tokens[k].Simple? && (k + 1 == |tokens| || (k + 2 == |tokens| && tokens[k + 1].Comb?))
  }

  lemma ShorterBegun(dom: Dom, context: Path, tokens: seq<Token>, at: seq<Path>, e: Path, k: nat)
    requires LastCompound(tokens, k) && |at| == |tokens|
    ensures Begun(dom, context, tokens[..k], at[..k], at[k]) <==> Begun(dom, context, tokens, at, e)
  {
    if k > 0 {
      assert tokens[..k][0] == tokens[0];
      assert NodeAt(at[..k], at[k], 0) == NodeAt(at, e, 0) && NodeAt(at[..k], at[k], 1) == NodeAt(at, e, 1);
    }
  }

  lemma ShorterLinked(dom: Dom, tokens: seq<Token>, at: seq<Path>, e: Path, k: nat, i: nat)
    requires LastCompound(tokens, k) && |at| == |tokens| && i < k
    ensures Linked(dom, tokens[..k], at[..k], at[k], i) <==> Linked(dom, tokens, at, e, i)
  {
    if i + 1 < k {
      assert tokens[..k][i + 1] == tokens[i + 1];
      assert NodeAt(at[..k], at[k], i + 2) == NodeAt(at, e, i + 2);
    }
    assert NodeAt(at[..k], at[k], i + 1) == NodeAt(at, e, i + 1);
  }

  lemma ShorterPlaced(dom: Dom, tokens: seq<Token>, at: seq<Path>, e: Path, k: nat, i: nat)
    requires LastCompound(tokens, k) && |at| == |tokens| && i < k
    ensures Placed(dom, tokens[..k], at[..k], at[k], i) <==> Placed(dom, tokens, at, e, i)
  {
    ShorterLinked(dom, tokens, at, e, k, i);
    assert tokens[..k][i] == tokens[i] && at[..k][i] == at[i];
  }

  /** Without the last compound a match is a match that ends in the node of that compound. */
  lemma ShorterMatch(dom: Dom, context: Path, tokens: seq<Token>, at: seq<Path>, e: Path, k: nat)
    requires LastCompound(tokens, k) && |at| == |tokens|
    ensures IsMatch(dom, context, tokens, at, e) <==>
              IsMatch(dom, context, tokens[..k], at[..k], at[k]) && Placed(dom, tokens, at, e, k)
  {
    ShorterBegun(dom, context, tokens, at, e, k);
    forall i: nat | i < k ensures Placed(dom, tokens[..k], at[..k], at[k], i) <==> Placed(dom, tokens, at, e, i) {
      ShorterPlaced(dom, tokens, at, e, k, i);
    }
    if IsMatch(dom, context, tokens[..k], at[..k], at[k]) && Placed(dom, tokens, at, e, k) {
      forall i: nat | i < |tokens| ensures Placed(dom, tokens, at, e, i) {
        if i < k { assert Placed(dom, tokens[..k], at[..k], at[k], i); }
      }
    }
    if IsMatch(dom, context, tokens, at, e) {
      forall i: nat | i < k ensures Placed(dom, tokens[..k], at[..k], at[k], i) {
        assert Placed(dom, tokens, at, e, i);
      }
    }
  }

  /** What is done with the last compound: a node of it in front of the candidate, which ends a match
      of the rest. */
  lemma MatchUnfolds(dom: Dom, context: Path, tokens: seq<Token>, e: Path, k: nat)
    requires LastCompound(tokens, k)
    ensures var comb := if k + 1 < |tokens| then tokens[k + 1].comb else Descendant;
            Matches(dom, context, tokens, e) <==>
              exists w :: Witness(dom, Step(comb, tokens[k].part), w, e) && Matches(dom, context, tokens[..k], w)
  {
    var comb := if k + 1 < |tokens| then tokens[k + 1].comb else Descendant;
    if at :| IsMatch(dom, context, tokens, at, e) {
      ShorterMatch(dom, context, tokens, at, e, k);
      assert Witness(dom, Step(comb, tokens[k].part), at[k], e);
    }
    if w :| Witness(dom, Step(comb, tokens[k].part), w, e) && Matches(dom, context, tokens[..k], w) {
      var front :| IsMatch(dom, context, tokens[..k], front, w);
      var at := front + seq(|tokens| - k, _ => w);
      assert at[..k] == front && at[k] == w;
      ShorterMatch(dom, context, tokens, at, e, k);
    }
  }

  /** The chain that the main loop works through is the chain of the tokens. */
  lemma {:induction false} ChainIsMatch(dom: Dom, context: Path, tokens: seq<Token>, e: Path)
    requires Parsed(tokens)
    ensures Chain(dom, context, e, Steps(tokens, context)) <==> Matches(dom, context, tokens, e)
    decreases |tokens|
  {
    var n := |tokens|;
    if n == 0 {
      assert IsMatch(dom, context, tokens, [], e) <==> Inside(dom, context, e);
    } else if n == 1 && tokens[0].Comb? {
      assert IsMatch(dom, context, tokens, [e], e) <==> Related(dom, tokens[0].comb, context, e);
    } else {
      var k := if tokens[n - 1].Simple? then n - 1 else n - 2;
      MatchUnfolds(dom, context, tokens, e, k);
      forall w ensures Chain(dom, context, w, Steps(tokens[..k], context)) <==> Matches(dom, context, tokens[..k], w) {
        ChainIsMatch(dom, context, tokens[..k], w);
      }
      StepsUnfold(tokens, context, k);
    }
  }

  lemma StepsUnfold(tokens: seq<Token>, context: Path, k: nat)
    requires Parsed(tokens) && LastCompound(tokens, k)
    ensures var steps := Steps(tokens, context);
            && steps != [] && steps[1..] == Steps(tokens[..k], context)
            && steps[0] == Step(if k + 1 < |tokens| then tokens[k + 1].comb else Descendant, tokens[k].part)
  {
  }

  ghost predicate ContextLast(steps: seq<Step>) {
    forall i :: 0 <= i < |steps| && steps[i].part.Context? ==> i == |steps| - 1 && !steps[i].comb.Descendant?
  }

  // ------------------------------------------------------------------ the walks

  lemma TagIsElement(dom: Dom, part: Part, w: Path)
    requires part.Tag? && Holds(dom, part, w)
    ensures IsElement(dom, w)
  {
    assert part.name != [] ==> IsWordChar(part.name[0]) && LowerCase(part.name)[0] != '#';
  }

  /** The same letter, small or capital. */
  predicate SameLetter(a: char, b: char) {
    a == b || ('A' <= a <= 'Z' && b == a - 'A' + 'a') || ('A' <= b <= 'Z' && a == b - 'A' + 'a')
  }

  /** A tag name holds of the elements with that tag, in small or capital letters, and of no other
      node. */
  lemma TagHolds(dom: Dom, name: Word, w: Path)
    ensures Holds(dom, Tag(name), w) <==>
              && IsElement(dom, w)
              && var tag := At(dom, w).value.value.tag;
                 |tag| == |name| && forall i :: 0 <= i < |tag| ==> SameLetter(tag[i], name[i])
  {
    if Holds(dom, Tag(name), w) { TagIsElement(dom, Tag(name), w); }
    if IsElement(dom, w) {
      var tag := At(dom, w).value.value.tag;
      forall i | 0 <= i < |tag| && i < |name|
        ensures LowerCase(tag)[i] == LowerCase(name)[i] <==> SameLetter(tag[i], name[i]) {}
      if |tag| == |name| && forall i :: 0 <= i < |tag| ==> SameLetter(tag[i], name[i]) {
        assert LowerCase(tag) == LowerCase(name);
      }
    }
  }

  lemma NextIsNearest(dir: Direction, p: Path, w: Path)
    requires InFront(dir, w, p)
    ensures Next(dir, p).Some?
    ensures w == Next(dir, p).value || InFront(dir, w, Next(dir, p).value)
  {
    if dir.PreviousSibling? && Last(w) == Last(p) - 1 {
      assert w == Parent(w) + [Last(w)];
    }
    if dir.ParentNode? && w != Parent(p) { assert w <= Parent(p); }
  }

  lemma InFrontOfNext(dir: Direction, p: Path, w: Path)
    requires Next(dir, p).Some? && (w == Next(dir, p).value || InFront(dir, w, Next(dir, p).value))
    ensures InFront(dir, w, p)
  {
  }

  /** The naive walk finds the nearest node in front of `p` that passes the test. */
  lemma {:induction false} AlongIsNearest(dom: Dom, dir: Direction, part: Part, p: Path)
    ensures Along(dom, dir, part, p) == False <==> forall w :: InFront(dir, w, p) ==> !Test(dom, part, w)
    ensures Along(dom, dir, part, p) != False ==>
              exists w :: InFront(dir, w, p) && Test(dom, part, w) && Along(dom, dir, part, p) == Hit(part, w)
                && forall v :: InFront(dir, v, p) && InFront(dir, w, v) ==> !Test(dom, part, v)
    decreases Rank(dir, p)
  {
    match Next(dir, p) {
      case None =>
        forall w | InFront(dir, w, p) ensures false { NextIsNearest(dir, p, w); }
      case Some(q) =>
        InFrontOfNext(dir, p, q);
        if Test(dom, part, q) {
          forall v | InFront(dir, v, p) ensures !InFront(dir, q, v) { NextIsNearest(dir, p, v); }
        } else {
          AlongIsNearest(dom, dir, part, q);
          forall w | InFront(dir, w, p) && Test(dom, part, w) ensures InFront(dir, w, q) { NextIsNearest(dir, p, w); }
          forall w | InFront(dir, w, q) ensures InFront(dir, w, p) { InFrontOfNext(dir, p, w); }
        }
    }
  }

  lemma {:induction false} PreviousElementIsAdjacent(dom: Dom, p: Path, w: Path)
    ensures PreviousElement(dom, p) == Some(w) <==> Related(dom, Adjacent, w, p)
    decreases Rank(PreviousSibling, p)
  {
    match Next(PreviousSibling, p) {
      case None =>
        if InFront(PreviousSibling, w, p) { NextIsNearest(PreviousSibling, p, w); }
      case Some(q) =>
        PreviousElementIsAdjacent(dom, q, w);
        if InFront(PreviousSibling, w, p) { NextIsNearest(PreviousSibling, p, w); }
        assert Parent(q) == Parent(p) && Last(q) == Last(p) - 1;
    }
  }

  // ------------------------------------------------------------------ one element at a time

  /** The slot of one element after all steps, when nothing interferes. */
  function Final(dom: Dom, steps: seq<Step>, s: Slot): Slot {
    if steps == [] then s else Final(dom, steps[1..], StepOne(dom, steps[0], s))
  }

  /** No null slot in front of index `i`: the loops of the engine reach `i`. */
  ghost predicate Reached(slots: seq<Slot>, i: nat) {
    i < |slots| && forall k :: 0 <= k < i ==> slots[k] != Null
  }

  lemma {:induction false} FilterIsPointwise(dom: Dom, part: Part, slots: seq<Slot>, i: nat)
    requires Reached(FilterInPlace(dom, part, slots), i) && part.Compound?
    ensures Reached(slots, i) && FilterInPlace(dom, part, slots)[i] == Tested(dom, part, slots[i])
  {
    var r := FilterInPlace(dom, part, slots);
    if i > 0 {
      assert r[0] != Null;
      var rest := FilterInPlace(dom, part, slots[1..]);
      assert r == [Tested(dom, part, slots[0])] + rest;
      forall k | 0 <= k < i - 1 ensures rest[k] != Null { assert rest[k] == r[k + 1]; }
      FilterIsPointwise(dom, part, slots[1..], i - 1);
      forall k | 0 <= k < i ensures slots[k] != Null {
        if k > 0 { assert slots[k] == slots[1..][k - 1]; }
      }
    }
  }

  lemma StepIsPointwise(dom: Dom, step: Step, slots: seq<Slot>, i: nat)
    requires StepAll(dom, step, slots).Some? && Reached(StepAll(dom, step, slots).value, i)
    ensures Reached(slots, i) && StepAll(dom, step, slots).value[i] == StepOne(dom, step, slots[i])
  {
    if step.part.Compound? && (step.comb.Child? || step.comb.Adjacent?) {
      var raw := Neighbours(dom, step.comb, slots);
      FilterIsPointwise(dom, step.part, raw, i);
    }
  }

  /** Up to and including the first null slot, the slots do not influence each other. */
  lemma {:induction false} EvaluateIsPointwise(dom: Dom, steps: seq<Step>, slots: seq<Slot>, i: nat)
    requires Evaluate(dom, steps, slots).Some? && Reached(Evaluate(dom, steps, slots).value, i)
    ensures Reached(slots, i) && Evaluate(dom, steps, slots).value[i] == Final(dom, steps, slots[i])
  {
    if steps != [] {
      var s := StepAll(dom, steps[0], slots).value;
      EvaluateIsPointwise(dom, steps[1..], s, i);
      StepIsPointwise(dom, steps[0], slots, i);
    }
  }

  /** The result loops get past index `i`. */
  ghost predicate Live(slots: seq<Slot>, i: nat) {
    Reached(slots, i) && slots[i] != Null
  }

  lemma {:induction false} CollectContents(dom: Dom, context: Path, candidates: seq<Path>, slots: seq<Slot>, x: Path)
    requires |candidates| == |slots|
    ensures x in Collect(dom, context, candidates, slots) <==>
              exists i: nat :: Live(slots, i) && Kept(dom, context, slots[i]) && candidates[i] == x
  {
    if slots != [] && slots[0] != Null {
      CollectContents(dom, context, candidates[1..], slots[1..], x);
      forall i: nat | i + 1 < |slots| ensures Live(slots, i + 1) <==> Live(slots[1..], i) {
        LiveTail(slots, i);
      }
      if i: nat :| Live(slots[1..], i) && Kept(dom, context, slots[1..][i]) && candidates[1..][i] == x {
        assert Live(slots, i + 1) && Kept(dom, context, slots[i + 1]) && candidates[i + 1] == x;
      }
      if i: nat :| Live(slots, i) && Kept(dom, context, slots[i]) && candidates[i] == x {
        if i > 0 {
          assert Live(slots[1..], i - 1) && Kept(dom, context, slots[1..][i - 1]) && candidates[1..][i - 1] == x;
        }
      }
    }
  }

  lemma LiveTail(slots: seq<Slot>, i: nat)
    requires i + 1 < |slots| && slots[0] != Null
    ensures Live(slots, i + 1) <==> Live(slots[1..], i)
  {
    assert forall k :: 0 <= k < i ==> slots[1..][k] == slots[k + 1];
    if Live(slots[1..], i) {
      forall k | 0 <= k < i + 1 ensures slots[k] != Null {
        if k > 0 { assert slots[1..][k - 1] == slots[k]; }
      }
    }
  }

  // ------------------------------------------------------------------ soundness

  lemma StepIsSound(dom: Dom, step: Step, e: Path)
    requires step.part.Context? ==> !step.comb.Descendant?
    ensures var s := StepOne(dom, step, Elem(e));
            && (s.Elem? ==> !step.part.Context? && Related(dom, step.comb, s.node, e) && Holds(dom, step.part, s.node))
            && (s == Null ==> e == [])
            && (s == True ==> step.part.Context? && Related(dom, step.comb, step.part.node, e))
  {
    match step.comb {
      case Descendant => AlongIsNearest(dom, ParentNode, step.part, e);
      case Sibling => AlongIsNearest(dom, PreviousSibling, step.part, e);
      case Child =>
      case Adjacent =>
        var q := PreviousElement(dom, e);
        if q.Some? { PreviousElementIsAdjacent(dom, e, q.value); }
    }
    var s := StepOne(dom, step, Elem(e));
    if step.part.Tag? && s.Elem? { TagIsElement(dom, step.part, s.node); }
  }

  lemma {:induction false} FinalStays(dom: Dom, steps: seq<Step>, s: Slot)
    requires !s.Elem?
    ensures Final(dom, steps, s) == s
  {
    if steps != [] { FinalStays(dom, steps[1..], s); }
  }

  lemma {:induction false} FinalIsSound(dom: Dom, context: Path, steps: seq<Step>, e: Path)
    requires ContextLast(steps) && Kept(dom, context, Final(dom, steps, Elem(e)))
    ensures Chain(dom, context, e, steps)
    decreases |steps|
  {
    if steps != [] {
      var s := StepOne(dom, steps[0], Elem(e));
      StepIsSound(dom, steps[0], e);
      if s.Elem? {
        FinalIsSound(dom, context, steps[1..], s.node);
      } else {
        FinalStays(dom, steps[1..], s);
      }
    }
  }

  lemma {:induction false} StepsContextLast(tokens: seq<Token>, context: Path)
    requires Parsed(tokens)
    ensures ContextLast(Steps(tokens, context))
    decreases |tokens|
  {
    var n, steps := |tokens|, Steps(tokens, context);
    if n > 1 || (n == 1 && tokens[0].Simple?) {
      var k := if tokens[n - 1].Simple? then n - 1 else n - 2;
      assert LastCompound(tokens, k);
      StepsUnfold(tokens, context, k);
      StepsContextLast(tokens[..k], context);
      forall i | 0 <= i < |steps| && steps[i].part.Context? ensures i == |steps| - 1 && !steps[i].comb.Descendant? {
        assert i > 0 && steps[i] == steps[1..][i - 1];
      }
    }
  }

  /** Every element the engine keeps for a chain, in any tree and for any mixture of
      combinators, is the end of a match with real witnesses inside the context. */
  lemma SelectIsSound(dom: Dom, context: Path, candidates: seq<Path>, tokens: seq<Token>, x: Path)
    requires Parsed(tokens)
    requires Evaluate(dom, Steps(tokens, context), Elems(candidates)).Some?
    requires x in Collect(dom, context, candidates, Evaluate(dom, Steps(tokens, context), Elems(candidates)).value)
    ensures x in candidates && Matches(dom, context, tokens, x)
  {
    var steps := Steps(tokens, context);
    var slots := Evaluate(dom, steps, Elems(candidates)).value;
    CollectContents(dom, context, candidates, slots, x);
    var i: nat :| Live(slots, i) && Kept(dom, context, slots[i]) && candidates[i] == x;
    EvaluateIsPointwise(dom, steps, Elems(candidates), i);
    StepsContextLast(tokens, context);
    FinalIsSound(dom, context, steps, x);
    ChainIsMatch(dom, context, tokens, x);
  }

  // ------------------------------------------------------------------ completeness

  /** How far the node the engine holds may differ from the node of a real match. */
  datatype Freedom = Exact | Siblings | Ancestors

  /** The engine keeps only the nearest candidate, which loses nothing as long as the next
      combinator cannot tell the candidates apart. */
  function After(f: Freedom, comb: Combinator): Option<Freedom> {
    match (f, comb)
    case (Exact, Child) => Some(Exact)
    case (Exact, Adjacent) => Some(Exact)
    case (Exact, Sibling) => Some(Siblings)
    case (Siblings, Child) => Some(Exact)
    case (Siblings, Sibling) => Some(Siblings)
    case (_, Descendant) => Some(Ancestors)
    case _ => None
  }

  /** The shapes of chains that are matched completely, read off their combinators from right
      to left. */
  predicate Safe(f: Freedom, steps: seq<Step>)
    decreases |steps|
  {
    steps == [] || (After(f, steps[0].comb).Some? && Safe(After(f, steps[0].comb).value, steps[1..]))
  }

  /** The engine holds `held` where a match has `w`. */
  ghost predicate Close(dom: Dom, f: Freedom, held: Path, w: Path) {
    && IsElement(dom, held)
    && match f
       case Exact => held == w
       case Siblings => held == w || InFront(PreviousSibling, w, held)
       case Ancestors => w <= held
  }

  /** Only elements and the root have children. */
  ghost predicate WellFormed(dom: Dom) {
    forall p :: p != [] && IsNode(dom, p) && KidsAt(dom, p) != [] ==> IsElement(dom, p)
  }

  /** The chain begins with a combinator. */
  ghost predicate Led(steps: seq<Step>) {
    steps != [] && steps[|steps| - 1].part.Context?
  }

  /** A leading combinator is tested against the context, and that is an element. */
  ghost predicate LedByElement(dom: Dom, context: Path, steps: seq<Step>) {
    forall i :: 0 <= i < |steps| && steps[i].part.Context? ==> steps[i].part.node == context && IsElement(dom, context)
  }

  lemma ParentIsElement(dom: Dom, e: Path)
    requires WellFormed(dom) && IsNode(dom, e) && e != []
    ensures Parent(e) == [] || IsElement(dom, Parent(e))
  {
    PrefixIsNode(dom, Parent(e), e);
  }

  /** The root is in no match: nothing is in front of it, and it is not inside the context. */
  lemma ChainIsBelowRoot(dom: Dom, context: Path, w: Path, steps: seq<Step>)
    requires IsContext(dom, context) && Chain(dom, context, w, steps)
    ensures w != []
  {
    if steps != [] && !steps[0].part.Context? {
      var v :| Witness(dom, steps[0], v, w) && Chain(dom, context, v, steps[1..]);
    }
  }

  lemma WitnessIsElement(dom: Dom, context: Path, steps: seq<Step>, v: Path, w: Path)
    requires WellFormed(dom) && IsContext(dom, context) && steps != [] && IsElement(dom, w)
    requires Related(dom, steps[0].comb, v, w) && Chain(dom, context, v, steps[1..])
    ensures IsElement(dom, v)
  {
    ChainIsBelowRoot(dom, context, v, steps[1..]);
    if steps[0].comb.Child? { ParentIsElement(dom, w); }
  }

  /** When some node in front of `p` passes, the walk finds it or one nearer to `p`. */
  lemma AlongFinds(dom: Dom, dir: Direction, part: Part, p: Path, v: Path) returns (n: Path)
    requires !part.Context? && InFront(dir, v, p) && Test(dom, part, v)
    ensures Along(dom, dir, part, p) == Elem(n) && IsElement(dom, n) && InFront(dir, n, p)
    ensures v == n || InFront(dir, v, n)
  {
    AlongIsNearest(dom, dir, part, p);
    n :| InFront(dir, n, p) && Test(dom, part, n) && Along(dom, dir, part, p) == Hit(part, n)
         && forall u :: InFront(dir, u, p) && InFront(dir, n, u) ==> !Test(dom, part, u);
    if part.Tag? { TagIsElement(dom, part, n); }
    OneWay(dir, v, n, p);
  }

  /** The nodes in front of a node lie on one way. */
  lemma OneWay(dir: Direction, v: Path, n: Path, p: Path)
    requires InFront(dir, v, p) && InFront(dir, n, p)
    ensures v == n || InFront(dir, v, n) || InFront(dir, n, v)
  {
    if dir.ParentNode? {
      PrefixesCompare(v, n, p);
    } else {
      assert v == Parent(v) + [Last(v)] && n == Parent(n) + [Last(n)];
    }
  }

  /** Walking from a close node reaches a close node. */
  lemma WalkStaysClose(dom: Dom, f: Freedom, steps: seq<Step>, held: Path, w: Path, v: Path)
    requires steps != [] && !steps[0].part.Context?
    requires Close(dom, f, held, w) && After(f, steps[0].comb).Some?
    requires Related(dom, steps[0].comb, v, w) && Holds(dom, steps[0].part, v) && IsElement(dom, v)
    ensures var s := StepOne(dom, steps[0], Elem(held));
            s.Elem? && Close(dom, After(f, steps[0].comb).value, s.node, v)
  {
    match steps[0].comb {
      case Descendant =>
        assert v < held by { assert f.Siblings? ==> v <= Parent(w); }
        var n := AlongFinds(dom, ParentNode, steps[0].part, held, v);
      case Sibling =>
        assert InFront(PreviousSibling, v, held);
        var n := AlongFinds(dom, PreviousSibling, steps[0].part, held, v);
      case Child =>
      case Adjacent =>
        PreviousElementIsAdjacent(dom, held, v);
    }
  }

  lemma PrefixesCompare(p: Path, q: Path, r: Path)
    requires p <= r && q <= r
    ensures p <= q || q < p
  {
    assert p == r[..|p|] && q == r[..|q|];
  }

  /** A leading combinator, tested against the context from a close node. */
  lemma ContextStaysClose(dom: Dom, f: Freedom, step: Step, held: Path, w: Path)
    requires step.part.Context? && !step.comb.Descendant? && IsElement(dom, step.part.node)
    requires Close(dom, f, held, w) && After(f, step.comb).Some? && Related(dom, step.comb, step.part.node, w)
    ensures StepOne(dom, step, Elem(held)) == True
  {
    match step.comb {
      case Sibling =>
        assert InFront(PreviousSibling, step.part.node, held);
        AlongIsNearest(dom, PreviousSibling, step.part, held);
      case Adjacent => PreviousElementIsAdjacent(dom, held, step.part.node);
      case _ =>
    }
  }

  lemma {:induction false} FinalIsComplete(dom: Dom, context: Path, f: Freedom, steps: seq<Step>, held: Path, w: Path)
    requires WellFormed(dom) && IsContext(dom, context) && ContextLast(steps) && Safe(f, steps)
    requires LedByElement(dom, context, steps)
    requires Close(dom, f, held, w) && Chain(dom, context, w, steps) && IsElement(dom, w)
    ensures Kept(dom, context, Final(dom, steps, Elem(held)))
    decreases |steps|
  {
    if steps == [] {
      if f.Siblings? && IsElement(dom, context) && held != w { assert context <= Parent(w); }
    } else if steps[0].part.Context? {
      ContextStaysClose(dom, f, steps[0], held, w);
    } else {
      var v :| Witness(dom, steps[0], v, w) && Chain(dom, context, v, steps[1..]);
      WitnessIsElement(dom, context, steps, v, w);
      WalkStaysClose(dom, f, steps, held, w, v);
      var n := StepOne(dom, steps[0], Elem(held)).node;
      FinalIsComplete(dom, context, After(f, steps[0].comb).value, steps[1..], n, v);
    }
  }

  // ------------------------------------------------------------------ no error, no null slot

  /** Two `>` in a row: the second one runs out of parents where the first one holds the root. */
  ghost predicate Climbs(steps: seq<Step>, i: int) {
    0 < i < |steps| && steps[i - 1].comb.Child? && steps[i].comb.Child? && !steps[i].part.Context?
  }

  /** A document has at most one element as child. */
  ghost predicate OneTop(dom: Dom) {
    dom.value.Document? && forall p, q :: |p| == 1 && |q| == 1 && IsElement(dom, p) && IsElement(dom, q) ==> p == q
  }

  /** Where a chain climbs twice, the compound between the two `>` does not hold of the root, or the
      step to its right is `+` or `~`, which no only child of the root survives. */
  ghost predicate StaysBelowRoot(dom: Dom, steps: seq<Step>) {
    forall i :: Climbs(steps, i) && Holds(dom, steps[i - 1].part, [])
      ==> OneTop(dom) && i >= 2 && !steps[i - 2].comb.Child?
  }

  /** From `e` the engine can do step `k` and the next: it does not ask for the parent of the root. */
  ghost predicate Ready(dom: Dom, steps: seq<Step>, k: nat, e: Path) {
    && (e == [] || IsElement(dom, e))
    && (e == [] && k < |steps| && steps[k].comb.Child? ==> steps[k].part.Context?)
    && (|e| == 1 && Climbs(steps, k + 1) ==> !Holds(dom, steps[k].part, []))
  }

  ghost predicate ReadySlot(dom: Dom, steps: seq<Step>, k: nat, s: Slot) {
    s != Null && (s.Elem? ==> Ready(dom, steps, k, s.node))
  }

  ghost predicate AllReady(dom: Dom, steps: seq<Step>, k: nat, slots: seq<Slot>) {
    forall i :: 0 <= i < |slots| ==> ReadySlot(dom, steps, k, slots[i])
  }

  /** After a descendant step there are only descendant steps. */
  ghost predicate DescendantsLast(steps: seq<Step>) {
    forall k :: 0 < k < |steps| && steps[k - 1].comb.Descendant? ==> steps[k].comb.Descendant?
  }

  lemma {:induction false} SafeEndsInDescendants(f: Freedom, steps: seq<Step>)
    requires Safe(f, steps)
    ensures DescendantsLast(steps)
    decreases |steps|
  {
    if steps != [] {
      var g := After(f, steps[0].comb).value;
      SafeEndsInDescendants(g, steps[1..]);
      forall k | 0 < k < |steps| && steps[k - 1].comb.Descendant? ensures steps[k].comb.Descendant? {
        if k == 1 {
          assert steps[1] == steps[1..][0] && After(g, steps[1].comb).Some?;
        } else {
          assert steps[1..][k - 2] == steps[k - 1] && steps[1..][k - 1] == steps[k];
        }
      }
    }
  }

  /** Two different elements with one parent are not below the root of a document. */
  lemma SiblingsAreDeeper(dom: Dom, p: Path, q: Path)
    requires OneTop(dom) && IsElement(dom, p) && IsElement(dom, q) && InFront(PreviousSibling, p, q)
    ensures |p| > 1
  {
    assert |p| == |Parent(p)| + 1 && |q| == |Parent(q)| + 1;
    assert p == Parent(p) + [Last(p)] && q == Parent(q) + [Last(q)];
  }

  lemma ReadyAfterSibling(dom: Dom, steps: seq<Step>, k: nat, e: Path, n: Path)
    requires StaysBelowRoot(dom, steps) && k < |steps| && (steps[k].comb.Adjacent? || steps[k].comb.Sibling?)
    requires IsElement(dom, e) && IsElement(dom, n) && InFront(PreviousSibling, n, e)
    ensures Ready(dom, steps, k + 1, n)
  {
    if OneTop(dom) { SiblingsAreDeeper(dom, n, e); }
  }

  lemma ReadyAfterChild(dom: Dom, steps: seq<Step>, k: nat, e: Path)
    requires WellFormed(dom) && StaysBelowRoot(dom, steps) && k < |steps| && steps[k].comb.Child?
             && !steps[k].part.Context?
    requires Ready(dom, steps, k, e) && Holds(dom, steps[k].part, Parent(e))
    ensures Ready(dom, steps, k + 1, Parent(e))
  {
    ParentIsElement(dom, e);
  }

  lemma ReadyStep(dom: Dom, steps: seq<Step>, k: nat, e: Path)
    requires WellFormed(dom) && ContextLast(steps) && DescendantsLast(steps) && StaysBelowRoot(dom, steps)
    requires k < |steps| && Ready(dom, steps, k, e)
    ensures ReadySlot(dom, steps, k + 1, StepOne(dom, steps[k], Elem(e)))
  {
    var s := StepOne(dom, steps[k], Elem(e));
    StepIsSound(dom, steps[k], e);
    match steps[k].comb {
      case Child => if s.Elem? { ReadyAfterChild(dom, steps, k, e); }
      case Descendant =>
      case _ => if s.Elem? { ReadyAfterSibling(dom, steps, k, e, s.node); }
    }
  }

  lemma CandidateIsReady(dom: Dom, steps: seq<Step>, e: Path)
    requires IsElement(dom, e) && e != [] && StaysBelowRoot(dom, steps)
    ensures Ready(dom, steps, 0, e)
  {
  }

  lemma {:induction false} FilterOfClear(dom: Dom, part: Part, slots: seq<Slot>)
    requires Null !in slots
    ensures forall i :: 0 <= i < |slots| ==> FilterInPlace(dom, part, slots)[i] == Tested(dom, part, slots[i])
  {
    if slots != [] { FilterOfClear(dom, part, slots[1..]); }
  }

  /** Ready slots make a step without an error and without interference. */
  lemma StepAllReady(dom: Dom, steps: seq<Step>, k: nat, slots: seq<Slot>)
    requires k < |steps| && AllReady(dom, steps, k, slots)
    ensures StepAll(dom, steps[k], slots) == Some(StepEach(dom, steps[k], slots))
  {
    var step := steps[k];
    if step.part.Compound? && (step.comb.Child? || step.comb.Adjacent?) {
      var raw := Neighbours(dom, step.comb, slots);
      forall i | 0 <= i < |slots| ensures raw[i] != Null { assert ReadySlot(dom, steps, k, slots[i]); }
      FilterOfClear(dom, step.part, raw);
      assert FilterInPlace(dom, step.part, raw) == StepEach(dom, step, slots);
    }
    if step.comb.Child? && step.part.Tag? {
      forall i | 0 <= i < |slots| ensures slots[i] != Elem([]) { assert ReadySlot(dom, steps, k, slots[i]); }
    }
  }

  lemma {:induction false} EvaluateReady(dom: Dom, steps: seq<Step>, k: nat, slots: seq<Slot>)
    requires WellFormed(dom) && ContextLast(steps) && DescendantsLast(steps) && StaysBelowRoot(dom, steps)
    requires k <= |steps| && AllReady(dom, steps, k, slots)
    ensures Evaluate(dom, steps[k..], slots).Some?
    ensures forall i :: 0 <= i < |slots| ==> Evaluate(dom, steps[k..], slots).value[i] != Null
    decreases |steps| - k
  {
    if k < |steps| {
      assert steps[k..][0] == steps[k] && steps[k..][1..] == steps[k + 1..];
      var each := StepEach(dom, steps[k], slots);
      StepAllReady(dom, steps, k, slots);
      forall i | 0 <= i < |slots| ensures ReadySlot(dom, steps, k + 1, each[i]) {
        assert ReadySlot(dom, steps, k, slots[i]);
        if slots[i].Elem? { ReadyStep(dom, steps, k, slots[i].node); }
      }
      EvaluateReady(dom, steps, k + 1, each);
    } else {
      assert forall i :: 0 <= i < |slots| ==> ReadySlot(dom, steps, k, slots[i]);
    }
  }

  // ------------------------------------------------------------------ the main theorem

  /** The candidates that end a match, in their order. */
  ghost function Matching(dom: Dom, context: Path, candidates: seq<Path>, steps: seq<Step>): seq<Path> {
    if candidates == [] then []
    else (if Chain(dom, context, candidates[0], steps) then [candidates[0]] else [])
         + Matching(dom, context, candidates[1..], steps)
  }

  /** How many candidates come before the first one whose slot turns null. */
  function FirstNull(dom: Dom, candidates: seq<Path>, steps: seq<Step>): (k: nat)
    ensures k <= |candidates|
    ensures forall i :: 0 <= i < k ==> Final(dom, steps, Elem(candidates[i])) != Null
    ensures k < |candidates| ==> Final(dom, steps, Elem(candidates[k])) == Null
  {
    if candidates == [] || Final(dom, steps, Elem(candidates[0])) == Null then 0
    else 1 + FirstNull(dom, candidates[1..], steps)
  }

  lemma {:induction false} CollectUntilNull(dom: Dom, context: Path, candidates: seq<Path>, steps: seq<Step>,
                                            slots: seq<Slot>, k: nat)
    requires |candidates| == |slots| && k <= |slots| && (k < |slots| ==> slots[k] == Null)
    requires forall i :: 0 <= i < k
               ==> slots[i] != Null && (Kept(dom, context, slots[i]) <==> Chain(dom, context, candidates[i], steps))
    ensures Collect(dom, context, candidates, slots) == Matching(dom, context, candidates[..k], steps)
  {
    if k > 0 {
      CollectUntilNull(dom, context, candidates[1..], steps, slots[1..], k - 1);
      assert candidates[..k][1..] == candidates[1..][..k - 1];
    }
  }

  lemma MatchingFront(dom: Dom, context: Path, x: Path, rest: seq<Path>, steps: seq<Step>)
    ensures Matching(dom, context, [x] + rest, steps)
         == (if Chain(dom, context, x, steps) then [x] else []) + Matching(dom, context, rest, steps)
  {
    assert ([x] + rest)[1..] == rest;
  }

  lemma {:induction false} MatchingJoin(dom: Dom, context: Path, a: seq<Path>, b: seq<Path>, steps: seq<Step>)
    ensures Matching(dom, context, a + b, steps) == Matching(dom, context, a, steps) + Matching(dom, context, b, steps)
  {
    if a == [] {
      assert a + b == b;
    } else {
      var rest := a[1..];
      MatchingJoin(dom, context, rest, b, steps);
      assert a + b == [a[0]] + (rest + b) && a == [a[0]] + rest;
      MatchingFront(dom, context, a[0], rest + b, steps);
      MatchingFront(dom, context, a[0], rest, steps);
      var first := if Chain(dom, context, a[0], steps) then [a[0]] else [];
      JoinAgain(first, Matching(dom, context, rest, steps), Matching(dom, context, b, steps));
    }
  }

  lemma MatchingSplits(dom: Dom, context: Path, candidates: seq<Path>, steps: seq<Step>, k: nat)
    requires k <= |candidates|
    ensures Matching(dom, context, candidates[..k], steps) == Matching(dom, context, candidates, steps)
       <==> Matching(dom, context, candidates[k..], steps) == []
  {
    MatchingJoin(dom, context, candidates[..k], candidates[k..], steps);
    assert candidates == candidates[..k] + candidates[k..];
  }

  /** What the final slots look like: as computed one by one, up to the first null. */
  lemma SlotsUntilNull(dom: Dom, candidates: seq<Path>, steps: seq<Step>)
    requires Evaluate(dom, steps, Elems(candidates)).Some?
    ensures var slots, k := Evaluate(dom, steps, Elems(candidates)).value, FirstNull(dom, candidates, steps);
            && (forall i :: 0 <= i < k ==> slots[i] == Final(dom, steps, Elem(candidates[i])) != Null)
            && (k < |candidates| ==> slots[k] == Null)
  {
    var slots, k := Evaluate(dom, steps, Elems(candidates)).value, FirstNull(dom, candidates, steps);
    var i := 0;
    while i < k
      invariant 0 <= i <= k
      invariant forall j :: 0 <= j < i ==> slots[j] == Final(dom, steps, Elem(candidates[j])) != Null
    {
      EvaluateIsPointwise(dom, steps, Elems(candidates), i);
      i := i + 1;
    }
    if k < |candidates| { EvaluateIsPointwise(dom, steps, Elems(candidates), k); }
  }

  lemma {:induction false} StepsContext(tokens: seq<Token>, context: Path)
    requires Parsed(tokens)
    ensures forall i :: 0 <= i < |Steps(tokens, context)| && Steps(tokens, context)[i].part.Context? ==>
                        Steps(tokens, context)[i].part.node == context
    decreases |tokens|
  {
    if tokens != [] {
      var n := |tokens|;
      if tokens[n - 1].Simple? { StepsContext(tokens[..n - 1], context); }
      else if n > 1 { StepsContext(tokens[..n - 2], context); }
    }
  }

  /** One candidate of a chain of a safe shape: it is kept exactly if it ends a match. */
  lemma FinalIsExact(dom: Dom, context: Path, e: Path, steps: seq<Step>)
    requires WellFormed(dom) && IsContext(dom, context) && ContextLast(steps) && Safe(Exact, steps) && IsElement(dom, e)
    requires LedByElement(dom, context, steps)
    ensures Kept(dom, context, Final(dom, steps, Elem(e))) <==> Chain(dom, context, e, steps)
  {
    if Kept(dom, context, Final(dom, steps, Elem(e))) { FinalIsSound(dom, context, steps, e); }
    if Chain(dom, context, e, steps) { FinalIsComplete(dom, context, Exact, steps, e, e); }
  }

  /** In any tree, for a chain of a safe shape: the result is the candidates that end a match, up to
      the first candidate that turns null, and so it is all of them exactly if none of the others
      ends a match. */
  lemma SelectUntilNull(dom: Dom, context: Path, candidates: seq<Path>, steps: seq<Step>)
    requires WellFormed(dom) && IsContext(dom, context) && ContextLast(steps) && Safe(Exact, steps)
    requires LedByElement(dom, context, steps)
    requires forall i :: 0 <= i < |candidates| ==> IsElement(dom, candidates[i])
    requires Evaluate(dom, steps, Elems(candidates)).Some?
    ensures var found := Collect(dom, context, candidates, Evaluate(dom, steps, Elems(candidates)).value);
            var k := FirstNull(dom, candidates, steps);
            && found == Matching(dom, context, candidates[..k], steps)
            && (found == Matching(dom, context, candidates, steps)
                <==> Matching(dom, context, candidates[k..], steps) == [])
  {
    var slots, k := Evaluate(dom, steps, Elems(candidates)).value, FirstNull(dom, candidates, steps);
    SlotsUntilNull(dom, candidates, steps);
    forall i | 0 <= i < k ensures Kept(dom, context, slots[i]) <==> Chain(dom, context, candidates[i], steps) {
      FinalIsExact(dom, context, candidates[i], steps);
    }
    CollectUntilNull(dom, context, candidates, steps, slots, k);
    MatchingSplits(dom, context, candidates, steps, k);
  }

  /** The steps of a chain of a safe shape that stays below the root never fail and select exactly
      the candidates that end a match, in their order. */
  lemma StepsAreExact(dom: Dom, context: Path, candidates: seq<Path>, steps: seq<Step>)
    requires WellFormed(dom) && IsContext(dom, context) && ContextLast(steps) && Safe(Exact, steps)
             && StaysBelowRoot(dom, steps)
    requires LedByElement(dom, context, steps)
    requires forall i :: 0 <= i < |candidates| ==> IsElement(dom, candidates[i]) && candidates[i] != []
    ensures var outcome := Evaluate(dom, steps, Elems(candidates));
            && outcome.Some?
            && Collect(dom, context, candidates, outcome.value) == Matching(dom, context, candidates, steps)
  {
    SafeEndsInDescendants(Exact, steps);
    forall i | 0 <= i < |candidates| ensures ReadySlot(dom, steps, 0, Elems(candidates)[i]) {
      CandidateIsReady(dom, steps, candidates[i]);
    }
    assert steps[0..] == steps;
    EvaluateReady(dom, steps, 0, Elems(candidates));
    SlotsUntilNull(dom, candidates, steps);
    SelectUntilNull(dom, context, candidates, steps);
    assert candidates[..FirstNull(dom, candidates, steps)] == candidates;
  }

  /** The candidates that end a match of the tokens, in their order. */
  ghost function Found(dom: Dom, context: Path, candidates: seq<Path>, tokens: seq<Token>): seq<Path> {
    if candidates == [] then []
    else (if Matches(dom, context, tokens, candidates[0]) then [candidates[0]] else [])
         + Found(dom, context, candidates[1..], tokens)
  }

  lemma {:induction false} MatchingIsFound(dom: Dom, context: Path, candidates: seq<Path>, tokens: seq<Token>)
    requires Parsed(tokens)
    ensures Matching(dom, context, candidates, Steps(tokens, context)) == Found(dom, context, candidates, tokens)
  {
    if candidates != [] {
      ChainIsMatch(dom, context, tokens, candidates[0]);
      MatchingIsFound(dom, context, candidates[1..], tokens);
    }
  }

  /** The same for a parsed chain, by the meaning of its tokens. */
  lemma SelectIsExact(dom: Dom, context: Path, candidates: seq<Path>, tokens: seq<Token>)
    requires WellFormed(dom) && IsContext(dom, context) && Parsed(tokens)
    requires Led(Steps(tokens, context)) ==> IsElement(dom, context)
    requires Safe(Exact, Steps(tokens, context)) && StaysBelowRoot(dom, Steps(tokens, context))
    requires forall i :: 0 <= i < |candidates| ==> IsElement(dom, candidates[i]) && candidates[i] != []
    ensures var outcome := Evaluate(dom, Steps(tokens, context), Elems(candidates));
            outcome.Some? && Collect(dom, context, candidates, outcome.value) == Found(dom, context, candidates, tokens)
  {
    StepsContextLast(tokens, context);
    StepsContext(tokens, context);
    StepsAreExact(dom, context, candidates, Steps(tokens, context));
    MatchingIsFound(dom, context, candidates, tokens);
  }

  // ------------------------------------------------------------------ a leading combinator

  /** After a leading combinator no slot holds an element. */
  lemma {:induction false} LedEndsInTest(dom: Dom, steps: seq<Step>, s: Slot)
    requires ContextLast(steps) && Led(steps)
    ensures !Final(dom, steps, s).Elem?
    decreases |steps|
  {
    var next := StepOne(dom, steps[0], s);
    if |steps| == 1 {
      if s.Elem? { StepIsSound(dom, steps[0], s.node); }
      assert Final(dom, steps[1..], next) == next;
    } else {
      LedEndsInTest(dom, steps[1..], next);
    }
  }

  /** With a leading combinator and a document as context nothing is found, which is right exactly
      if no candidate ends a match. */
  lemma LedByDocumentFindsNothing(dom: Dom, context: Path, candidates: seq<Path>, steps: seq<Step>)
    requires ContextLast(steps) && Led(steps) && !IsElement(dom, context)
    requires Evaluate(dom, steps, Elems(candidates)).Some?
    ensures var found := Collect(dom, context, candidates, Evaluate(dom, steps, Elems(candidates)).value);
            && found == []
            && (found == Matching(dom, context, candidates, steps) <==>
                  forall i :: 0 <= i < |candidates| ==> !Chain(dom, context, candidates[i], steps))
  {
    var slots := Evaluate(dom, steps, Elems(candidates)).value;
    var found := Collect(dom, context, candidates, slots);
    if found != [] {
      CollectContents(dom, context, candidates, slots, found[0]);
      var i: nat :| Live(slots, i) && Kept(dom, context, slots[i]) && candidates[i] == found[0];
      EvaluateIsPointwise(dom, steps, Elems(candidates), i);
      LedEndsInTest(dom, steps, Elems(candidates)[i]);
    }
    NothingMatches(dom, context, candidates, steps);
  }

  lemma {:induction false} NothingMatches(dom: Dom, context: Path, candidates: seq<Path>, steps: seq<Step>)
    ensures Matching(dom, context, candidates, steps) == [] <==>
              forall i :: 0 <= i < |candidates| ==> !Chain(dom, context, candidates[i], steps)
  {
    if candidates != [] {
      var rest := candidates[1..];
      NothingMatches(dom, context, rest, steps);
      if forall i :: 0 <= i < |rest| ==> !Chain(dom, context, rest[i], steps) {
        forall i | 0 < i < |candidates| ensures !Chain(dom, context, candidates[i], steps) {
          assert candidates[i] == rest[i - 1];
        }
      }
      forall i | 0 <= i < |rest| ensures rest[i] == candidates[i + 1] {}
    }
  }

  lemma {:induction false} DescendantChainsAreSafe(tokens: seq<Token>, context: Path, f: Freedom)
    requires forall i :: 0 <= i < |tokens| ==> tokens[i].Simple?
    requires Parsed(tokens)
    ensures Safe(f, Steps(tokens, context))
    ensures forall i :: 0 <= i < |Steps(tokens, context)| ==>
                        Steps(tokens, context)[i].comb.Descendant? && !Steps(tokens, context)[i].part.Context?
    decreases |tokens|
  {
    if tokens != [] { DescendantChainsAreSafe(tokens[..|tokens| - 1], context, Ancestors); }
  }

  /** Chains that use only the descendant combinator select exactly their matches, in documents and
      detached trees. */
  lemma DescendantChainsAreExact(dom: Dom, context: Path, candidates: seq<Path>, tokens: seq<Token>)
    requires WellFormed(dom) && IsContext(dom, context) && Parsed(tokens)
    requires forall i :: 0 <= i < |tokens| ==> tokens[i].Simple?
    requires forall i :: 0 <= i < |candidates| ==> IsElement(dom, candidates[i]) && candidates[i] != []
    ensures var outcome := Evaluate(dom, Steps(tokens, context), Elems(candidates));
            outcome.Some? && Collect(dom, context, candidates, outcome.value) == Found(dom, context, candidates, tokens)
  {
    DescendantChainsAreSafe(tokens, context, Exact);
    SelectIsExact(dom, context, candidates, tokens);
  }
}

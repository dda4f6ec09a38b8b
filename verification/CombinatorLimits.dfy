/** The shapes of selector chains that the engine matches completely. Every other shape has a
    document and a chain of that shape with a match that the engine misses: either it keeps only
    the nearest candidate, or one candidate climbs past the root and takes the later ones along. */
module CombinatorLimits {
  import opened Wrappers
  import opened Trees
  import opened Sizzle
  import opened Combinators

  // ------------------------------------------------------------------ roomy trees

  /** A tree with `top` subtrees below its root, all of them full. */
  datatype Room = Room(root: Info, top: nat, depth: nat, width: nat)

  function Full(depth: nat, width: nat): Dom {
    Node(Element("x"), if depth == 0 then [] else seq(width, _ => Full(depth - 1, width)))
  }

  function Build(room: Room): Dom {
    Node(room.root, seq(room.top, _ => Full(room.depth, room.width)))
  }

  ghost predicate In(p: Path, room: Room) {
    1 <= |p| <= room.depth + 1 && p[0] < room.top && forall i :: 1 <= i < |p| ==> p[i] < room.width
  }

  lemma {:induction false} InIsElement(p: Path, room: Room)
    requires In(p, room)
    ensures At(Build(room), p) == Some(Full(room.depth + 1 - |p|, room.width))
    decreases |p|
  {
    if |p| > 1 {
      InIsElement(Parent(p), room);
    } else {
      assert Parent(p) == [];
    }
  }

  lemma {:induction false} NodeIsIn(p: Path, room: Room)
    requires p != [] && IsNode(Build(room), p)
    ensures In(p, room)
    decreases |p|
  {
    var q := Parent(p);
    PrefixIsNode(Build(room), q, p);
    assert p == q + [Last(p)];
    if q == [] {
    } else {
      NodeIsIn(q, room);
      InIsElement(q, room);
    }
  }

  lemma RoomIsWellFormed(room: Room)
    ensures WellFormed(Build(room))
  {
    forall p | p != [] && IsNode(Build(room), p) ensures IsElement(Build(room), p) {
      NodeIsIn(p, room);
      InIsElement(p, room);
    }
  }

  // ------------------------------------------------------------------ moves

  predicate Up(comb: Combinator) {
    comb.Descendant? || comb.Child?
  }

  predicate CanMove(comb: Combinator, e: Path) {
    e != [] && (Up(comb) || Last(e) > 0)
  }

  /** The parent, or the previous sibling. */
  function Move(comb: Combinator, e: Path): Path
    requires CanMove(comb, e)
  {
    if Up(comb) then Parent(e) else Parent(e) + [Last(e) - 1]
  }

  /** From `e` there is room for `n` more steps up or to the left, all below the top. */
  ghost predicate Roomy(e: Path, n: nat, room: Room) {
    In(e, room) && |e| > n + 1 && forall i :: 1 <= i < |e| ==> e[i] >= n
  }

  lemma MoveIsRelated(comb: Combinator, e: Path, room: Room)
    requires CanMove(comb, e) && In(Move(comb, e), room)
    ensures IsElement(Build(room), Move(comb, e)) && Related(Build(room), comb, Move(comb, e), e)
  {
    InIsElement(Move(comb, e), room);
  }

  lemma MoveKeepsRoom(comb: Combinator, e: Path, n: nat, room: Room)
    requires n > 0 && Roomy(e, n, room)
    ensures CanMove(comb, e) && Roomy(Move(comb, e), n - 1, room)
    ensures IsElement(Build(room), Move(comb, e)) && Related(Build(room), comb, Move(comb, e), e)
  {
    assert Last(e) == e[|e| - 1] >= n;
    MoveIsRelated(comb, e, room);
  }

  /** The engine makes the move wherever the part names its target. */
  lemma StepMoves(comb: Combinator, matches: set<Path>, e: Path, room: Room)
    requires CanMove(comb, e) && In(Move(comb, e), room) && Move(comb, e) in matches
    ensures StepOne(Build(room), Step(comb, Compound(matches, false)), Elem(e)) == Elem(Move(comb, e))
  {
    var dom, v := Build(room), Move(comb, e);
    MoveIsRelated(comb, e, room);
    assert Test(dom, Compound(matches, false), v);
    match comb {
      case Adjacent => PreviousElementIsAdjacent(dom, e, v);
      case Descendant => assert Along(dom, ParentNode, Compound(matches, false), e) == Elem(v);
      case Sibling => assert Along(dom, PreviousSibling, Compound(matches, false), e) == Elem(v);
      case Child =>
    }
  }

  // ------------------------------------------------------------------ shapes

  /** The combinators of a chain, from right to left, without a leading one. */
  ghost predicate Shaped(steps: seq<Step>, combs: seq<Combinator>) {
    |steps| == |combs| && forall i :: 0 <= i < |combs| ==> steps[i].comb == combs[i] && !steps[i].part.Context?
  }

  ghost predicate AllCompound(steps: seq<Step>) {
    forall i :: 0 <= i < |steps| ==> steps[i].part.Compound?
  }

  /** The nearest candidate is enough for the next step. */
  predicate SafePair(c: Combinator, d: Combinator) {
    (c.Descendant? ==> d.Descendant?) && (c.Sibling? ==> !d.Adjacent?)
  }

  predicate SafeShape(combs: seq<Combinator>) {
    forall i :: 0 < i < |combs| ==> SafePair(combs[i - 1], combs[i])
  }

  /** Two `>` in a row, which may climb past the root; below an only child of the root just if no
      step to the side comes before them. */
  predicate Climbing(single: bool, combs: seq<Combinator>, i: nat) {
    0 < i < |combs| && combs[i - 1].Child? && combs[i].Child? && (single && i >= 2 ==> combs[i - 2].Child?)
  }

  ghost predicate LowShape(single: bool, combs: seq<Combinator>) {
    forall i :: 0 < i < |combs| ==> !Climbing(single, combs, i)
  }

  /** Documents, whose root has one element as child, or detached trees, whose root is an element. */
  ghost predicate Kind(single: bool, dom: Dom) {
    WellFormed(dom) && if single then OneTop(dom) else IsElement(dom, [])
  }

  lemma {:induction false} SafeIsLocal(f: Freedom, steps: seq<Step>)
    ensures Safe(f, steps) <==>
              (steps != [] ==> After(f, steps[0].comb).Some?)
              && forall i :: 0 < i < |steps| ==> SafePair(steps[i - 1].comb, steps[i].comb)
    decreases |steps|
  {
    if steps != [] && After(f, steps[0].comb).Some? {
      var rest := steps[1..];
      SafeIsLocal(After(f, steps[0].comb).value, rest);
      if |steps| > 1 {
        assert SafePair(steps[0].comb, steps[1].comb) <==> After(After(f, steps[0].comb).value, rest[0].comb).Some?;
      }
      assert forall i :: 0 < i < |rest|
               ==> SafePair(rest[i - 1].comb, rest[i].comb) == SafePair(steps[i].comb, steps[i + 1].comb);
      if forall i :: 0 < i < |rest| ==> SafePair(rest[i - 1].comb, rest[i].comb) {
        forall i | 1 < i < |steps| ensures SafePair(steps[i - 1].comb, steps[i].comb) {
          assert SafePair(rest[i - 2].comb, rest[i - 1].comb);
        }
      }
    }
  }

  lemma LowShapeStays(single: bool, dom: Dom, combs: seq<Combinator>, steps: seq<Step>)
    requires Kind(single, dom) && Shaped(steps, combs) && LowShape(single, combs)
    ensures StaysBelowRoot(dom, steps)
  {
    forall i | Climbs(steps, i) && Holds(dom, steps[i - 1].part, [])
      ensures OneTop(dom) && i >= 2 && !steps[i - 2].comb.Child?
    {
      assert !Climbing(single, combs, i);
    }
  }

  /** Add one step to the right end of a match. */
  lemma ExtendMatch(dom: Dom, combs: seq<Combinator>, matches: set<Path>, rest: seq<Step>, v: Path, e: Path)
    requires combs != [] && Shaped(rest, combs[1..]) && AllCompound(rest) && Chain(dom, [], v, rest)
    requires Related(dom, combs[0], v, e) && v in matches
    ensures var steps := [Step(combs[0], Compound(matches, false))] + rest;
            Shaped(steps, combs) && AllCompound(steps) && Chain(dom, [], e, steps)
  {
    var steps := [Step(combs[0], Compound(matches, false))] + rest;
    assert steps[1..] == rest;
    assert forall i :: 0 < i < |combs| ==> combs[i] == combs[1..][i - 1];
    assert Holds(dom, steps[0].part, v);
  }

  // ------------------------------------------------------------------ a match that is overlooked

  /** A chain of the given shape whose parts each name one node, ending at `e`. */
  function Trail(combs: seq<Combinator>, e: Path): seq<Step> {
    if combs == [] || !CanMove(combs[0], e) then []
    else [Step(combs[0], Compound({Move(combs[0], e)}, false))] + Trail(combs[1..], Move(combs[0], e))
  }

  lemma {:induction false} TrailMatches(combs: seq<Combinator>, e: Path, room: Room)
    requires Roomy(e, |combs|, room)
    ensures var dom := Build(room); var steps := Trail(combs, e);
            Shaped(steps, combs) && AllCompound(steps) && Chain(dom, [], e, steps)
    decreases |combs|
  {
    InIsElement(e, room);
    if combs != [] {
      MoveKeepsRoom(combs[0], e, |combs|, room);
      var v := Move(combs[0], e);
      TrailMatches(combs[1..], v, room);
      ExtendMatch(Build(room), combs, {v}, Trail(combs[1..], v), v, e);
    }
  }

  /** Up to the first unsafe pair every part names one node; there the first part names a near
      and a far node, and the second the neighbour of the far one. */
  function Trap(combs: seq<Combinator>, e: Path): seq<Step> {
    if |combs| < 2 || !CanMove(combs[0], e) then []
    else
      var near := Move(combs[0], e);
      if SafePair(combs[0], combs[1]) || !CanMove(combs[0], near) then
        [Step(combs[0], Compound({near}, false))] + Trap(combs[1..], near)
      else
        var far := Move(combs[0], near);
        [Step(combs[0], Compound({near, far}, false))] + Trail(combs[1..], far)
  }

  lemma FarIsRelated(comb: Combinator, e: Path, n: nat, room: Room)
    requires n > 1 && Roomy(e, n, room) && (comb.Descendant? || comb.Sibling?)
    ensures CanMove(comb, e) && CanMove(comb, Move(comb, e))
    ensures var far := Move(comb, Move(comb, e));
            Roomy(far, n - 2, room) && Related(Build(room), comb, far, e) && IsElement(Build(room), far)
  {
    MoveKeepsRoom(comb, e, n, room);
    MoveKeepsRoom(comb, Move(comb, e), n - 1, room);
  }

  lemma TrapHereMatches(combs: seq<Combinator>, e: Path, room: Room)
    requires |combs| >= 2 && !SafePair(combs[0], combs[1]) && Roomy(e, |combs| + 3, room)
    ensures var dom := Build(room); var steps := Trap(combs, e);
            Shaped(steps, combs) && AllCompound(steps) && Chain(dom, [], e, steps)
  {
    FarIsRelated(combs[0], e, |combs| + 3, room);
    var near := Move(combs[0], e);
    var far := Move(combs[0], near);
    TrailMatches(combs[1..], far, room);
    ExtendMatch(Build(room), combs, {near, far}, Trail(combs[1..], far), far, e);
  }

  lemma {:induction false} TrapMatches(combs: seq<Combinator>, e: Path, room: Room)
    requires !SafeShape(combs) && Roomy(e, |combs| + 3, room)
    ensures var dom := Build(room); var steps := Trap(combs, e);
            Shaped(steps, combs) && AllCompound(steps) && Chain(dom, [], e, steps)
    decreases |combs|
  {
    assert |combs| >= 2;
    if SafePair(combs[0], combs[1]) {
      MoveKeepsRoom(combs[0], e, |combs| + 3, room);
      var near := Move(combs[0], e);
      UnsafeRest(combs);
      TrapMatches(combs[1..], near, room);
      ExtendMatch(Build(room), combs, {near}, Trap(combs[1..], near), near, e);
    } else {
      TrapHereMatches(combs, e, room);
    }
  }

  lemma UnsafeRest(combs: seq<Combinator>)
    requires !SafeShape(combs) && |combs| >= 2 && SafePair(combs[0], combs[1])
    ensures !SafeShape(combs[1..])
  {
    var i :| 0 < i < |combs| && !SafePair(combs[i - 1], combs[i]);
    assert !SafePair(combs[1..][i - 2], combs[1..][i - 1]);
  }

  lemma {:induction false} TrapCatches(combs: seq<Combinator>, e: Path, room: Room)
    requires !SafeShape(combs) && Roomy(e, |combs| + 3, room)
    ensures Final(Build(room), Trap(combs, e), Elem(e)) == False
    decreases |combs|
  {
    var dom, steps := Build(room), Trap(combs, e);
    assert |combs| >= 2;
    MoveKeepsRoom(combs[0], e, |combs| + 3, room);
    var near := Move(combs[0], e);
    if SafePair(combs[0], combs[1]) {
      StepMoves(combs[0], {near}, e, room);
      UnsafeRest(combs);
      TrapCatches(combs[1..], near, room);
      assert steps[1..] == Trap(combs[1..], near);
    } else {
      FarIsRelated(combs[0], e, |combs| + 3, room);
      var far := Move(combs[0], near);
      StepMoves(combs[0], {near, far}, e, room);
      var rest := Trail(combs[1..], far);
      MoveKeepsRoom(combs[1], far, |combs| + 1, room);
      assert steps[1..] == rest && rest[0] == Step(combs[1], Compound({Move(combs[1], far)}, false));
      NearFails(dom, rest[0], near, far, combs[0]);
      FinalStays(dom, rest[1..], False);
    }
  }

  /** From the near node the neighbour of the far node cannot be reached. */
  lemma NearFails(dom: Dom, step: Step, near: Path, far: Path, comb: Combinator)
    requires CanMove(comb, near) && far == Move(comb, near) && CanMove(step.comb, far) && !SafePair(comb, step.comb)
    requires step.part == Compound({Move(step.comb, far)}, false) && IsElement(dom, far)
    ensures StepOne(dom, step, Elem(near)) == False
  {
    var v := Move(step.comb, far);
    assert comb.Sibling? ==> Parent(near) + [Last(far)] == far;
    match step.comb {
      case Sibling => AlongIsNearest(dom, PreviousSibling, step.part, near);
      case Adjacent => PreviousElementIsAdjacent(dom, near, v);
      case Child =>
    }
  }

  // ------------------------------------------------------------------ a match that is cut off

  /** Where to start so that the moves lead to the first child of the root. */
  function Start(combs: seq<Combinator>): (c: Path)
    ensures c != [] && |c| <= |combs| + 1
    ensures forall i :: 0 <= i < |c| ==> c[i] <= |combs|
  {
    if combs == [] then [0]
    else
      var q := Start(combs[1..]);
      if Up(combs[0]) then q + [0] else Parent(q) + [Last(q) + 1]
  }

  lemma StartMoves(combs: seq<Combinator>)
    requires combs != []
    ensures CanMove(combs[0], Start(combs)) && Move(combs[0], Start(combs)) == Start(combs[1..])
  {
    var q := Start(combs[1..]);
    assert q == Parent(q) + [Last(q)];
    assert Parent(q + [0]) == q && Parent(Parent(q) + [Last(q) + 1]) == Parent(q);
  }

  /** When the last move goes up, the start lies in the first subtree. */
  lemma {:induction false} StartIsFirst(combs: seq<Combinator>)
    requires combs != [] ==> Up(combs[|combs| - 1])
    ensures Start(combs)[0] == 0 && (combs != [] ==> |Start(combs)| > 1)
  {
    if |combs| > 1 {
      StartIsFirst(combs[1..]);
    }
  }

  /** Parts that name the nodes on the way from `e` and, as long as it can move, those on the way
      from `c`. */
  function Snare(combs: seq<Combinator>, e: Path, c: Path): seq<Step> {
    if combs == [] || !CanMove(combs[0], e) then []
    else
      var bait := if CanMove(combs[0], c) then {Move(combs[0], c)} else {};
      [Step(combs[0], Compound({Move(combs[0], e)} + bait, false))]
      + Snare(combs[1..], Move(combs[0], e), if CanMove(combs[0], c) then Move(combs[0], c) else [])
  }

  lemma {:induction false} SnareMatches(combs: seq<Combinator>, e: Path, c: Path, room: Room)
    requires Roomy(e, |combs|, room)
    ensures var dom := Build(room); var steps := Snare(combs, e, c);
            Shaped(steps, combs) && AllCompound(steps) && Chain(dom, [], e, steps)
    decreases |combs|
  {
    InIsElement(e, room);
    if combs != [] {
      MoveKeepsRoom(combs[0], e, |combs|, room);
      var v := Move(combs[0], e);
      var bait := if CanMove(combs[0], c) then {Move(combs[0], c)} else {};
      var next := if CanMove(combs[0], c) then Move(combs[0], c) else [];
      SnareMatches(combs[1..], v, next, room);
      ExtendMatch(Build(room), combs, {v} + bait, Snare(combs[1..], v, next), v, e);
    }
  }

  /** The way from the start stays in the room. */
  ghost predicate WayIn(combs: seq<Combinator>, room: Room) {
    In(Start(combs), room) && (combs != [] ==> WayIn(combs[1..], room))
  }

  lemma SnareUnfolds(combs: seq<Combinator>, e: Path, c: Path)
    requires combs != [] && CanMove(combs[0], e) && CanMove(combs[0], c)
    ensures var steps := Snare(combs, e, c);
            && steps != [] && steps[0] == Step(combs[0], Compound({Move(combs[0], e), Move(combs[0], c)}, false))
            && steps[1..] == Snare(combs[1..], Move(combs[0], e), Move(combs[0], c))
  {
    assert {Move(combs[0], e)} + {Move(combs[0], c)} == {Move(combs[0], e), Move(combs[0], c)};
  }

  /** The first step of the snare takes the other node one move further. */
  lemma SnareStep(combs: seq<Combinator>, e: Path, c: Path, room: Room)
    requires combs != [] && CanMove(combs[0], e) && CanMove(combs[0], c) && In(Move(combs[0], c), room)
    ensures Final(Build(room), Snare(combs, e, c), Elem(c))
         == Final(Build(room), Snare(combs[1..], Move(combs[0], e), Move(combs[0], c)), Elem(Move(combs[0], c)))
  {
    SnareUnfolds(combs, e, c);
    StepMoves(combs[0], {Move(combs[0], e), Move(combs[0], c)}, c, room);
  }

  /** The other candidate climbs to the root and past it. */
  lemma {:induction false} SnareCatches(way: seq<Combinator>, tail: seq<Combinator>, e: Path, room: Room)
    requires |tail| > 1 && tail[0].Child? && tail[1].Child? && Roomy(e, |way| + |tail|, room) && WayIn(way, room)
    ensures Final(Build(room), Snare(way + tail, e, Start(way)), Elem(Start(way))) == Null
    decreases |way|
  {
    if way == [] {
      assert way + tail == tail;
      SnarePastRoot(tail, e, room);
    } else {
      var combs := way + tail;
      assert combs[0] == way[0] && combs[1..] == way[1..] + tail;
      MoveKeepsRoom(way[0], e, |way| + |tail|, room);
      StartMoves(way);
      SnareStep(combs, e, Start(way), room);
      SnareCatches(way[1..], tail, Move(way[0], e), room);
    }
  }

  lemma SnarePastRoot(combs: seq<Combinator>, e: Path, room: Room)
    requires |combs| > 1 && combs[0].Child? && combs[1].Child? && Roomy(e, |combs|, room)
    ensures Final(Build(room), Snare(combs, e, [0]), Elem([0])) == Null
  {
    var dom, rest := Build(room), combs[1..];
    MoveKeepsRoom(combs[0], e, |combs|, room);
    var v := Move(combs[0], e);
    assert Move(Child, [0]) == [];
    MoveKeepsRoom(rest[0], v, |combs| - 1, room);
    var tail := Snare(rest, v, []);
    assert Snare(combs, e, [0])[1..] == tail;
    assert StepOne(dom, Snare(combs, e, [0])[0], Elem([0])) == Elem([]);
    assert StepOne(dom, tail[0], Elem([])) == Null;
    FinalStays(dom, tail[1..], Null);
  }

  // ------------------------------------------------------------------ what goes wrong

  ghost predicate Candidates(dom: Dom, candidates: seq<Path>) {
    Increasing(candidates) && forall i :: 0 <= i < |candidates| ==> IsElement(dom, candidates[i]) && candidates[i] != []
  }

  /** From candidates in document order the engine selects exactly those that end a match. */
  ghost predicate Right(dom: Dom, steps: seq<Step>, candidates: seq<Path>) {
    var outcome := Evaluate(dom, steps, Elems(candidates));
    outcome.Some? && Collect(dom, [], candidates, outcome.value) == Matching(dom, [], candidates, steps)
  }

  ghost predicate Exactly(dom: Dom, steps: seq<Step>) {
    forall candidates :: Candidates(dom, candidates) ==> Right(dom, steps, candidates)
  }

  ghost predicate Wrong(single: bool, dom: Dom, combs: seq<Combinator>, steps: seq<Step>, candidates: seq<Path>) {
    Kind(single, dom) && Shaped(steps, combs) && Candidates(dom, candidates) && !Right(dom, steps, candidates)
  }

  ghost predicate Fails(single: bool, combs: seq<Combinator>) {
    exists dom: Dom, steps, candidates :: Wrong(single, dom, combs, steps, candidates)
  }

  /** When the first slot is dropped, or cuts off the others, a match is lost. */
  lemma FirstSlotDecides(dom: Dom, steps: seq<Step>, candidates: seq<Path>, e: Path)
    requires candidates == [e] || (|candidates| == 2 && candidates[1] == e)
    requires Chain(dom, [], e, steps)
    requires Final(dom, steps, Elem(candidates[0])) == if |candidates| == 1 then False else Null
    ensures !Right(dom, steps, candidates)
  {
    if Evaluate(dom, steps, Elems(candidates)).Some? {
      var slots := Evaluate(dom, steps, Elems(candidates)).value;
      EvaluateIsPointwise(dom, steps, Elems(candidates), 0);
      assert Collect(dom, [], candidates, slots) == [] by {
        if |slots| == 1 { assert slots == [False] && slots[1..] == []; }
      }
      assert Matching(dom, [], candidates, steps) != [] by {
        if |candidates| == 2 { assert candidates[1..][0] == e; }
      }
    }
  }

  function RoomFor(single: bool, n: nat): Room {
    Room(if single then Document else Element("x"), if single then 1 else n + 1, n, n + 1)
  }

  lemma RoomIsKind(single: bool, n: nat)
    ensures Kind(single, Build(RoomFor(single, n)))
  {
    var dom := Build(RoomFor(single, n));
    RoomIsWellFormed(RoomFor(single, n));
    if single {
      forall p, q | |p| == 1 && |q| == 1 && IsElement(dom, p) && IsElement(dom, q) ensures p == q {
        NodeIsIn(p, RoomFor(single, n));
        NodeIsIn(q, RoomFor(single, n));
      }
    }
  }

  /** A node in the last corner of the room. */
  function Corner(single: bool, n: nat): Path {
    [if single then 0 else n] + seq(n, _ => n)
  }

  lemma CornerIsRoomy(single: bool, n: nat, m: nat)
    requires m < n
    ensures Roomy(Corner(single, n), m, RoomFor(single, n))
  {
  }

  lemma UnsafeShapeFails(single: bool, combs: seq<Combinator>)
    requires !SafeShape(combs)
    ensures Fails(single, combs)
  {
    var n := |combs| + 4;
    var room, e := RoomFor(single, n), Corner(single, n);
    var dom, steps := Build(room), Trap(combs, e);
    RoomIsKind(single, n);
    CornerIsRoomy(single, n, |combs| + 3);
    InIsElement(e, room);
    TrapMatches(combs, e, room);
    TrapCatches(combs, e, room);
    FirstSlotDecides(dom, steps, [e], e);
    assert Candidates(dom, [e]);
    assert Wrong(single, dom, combs, steps, [e]);
  }

  lemma {:induction false} SmallerIsBefore(c: Path, e: Path)
    requires |c| < |e| && forall k :: 0 <= k < |c| ==> c[k] <= e[k]
    ensures Before(c, e)
  {
    if c != [] && c[0] == e[0] {
      assert forall k :: 0 <= k < |c[1..]| ==> c[1..][k] == c[k + 1] && e[1..][k] == e[k + 1];
      SmallerIsBefore(c[1..], e[1..]);
    }
  }

  lemma {:induction false} StartIsIn(single: bool, combs: seq<Combinator>, n: nat)
    requires |combs| < n && (single && combs != [] ==> Up(combs[|combs| - 1]))
    ensures WayIn(combs, RoomFor(single, n))
    ensures single ==> Start(combs)[0] == 0
  {
    if single { StartIsFirst(combs); }
    if combs != [] { StartIsIn(single, combs[1..], n); }
  }

  /** In document order the start comes before the corner. */
  lemma StartIsBeforeCorner(single: bool, combs: seq<Combinator>, n: nat)
    requires |combs| < n && (single && combs != [] ==> Up(combs[|combs| - 1]))
    ensures Before(Start(combs), Corner(single, n))
  {
    StartIsIn(single, combs, n);
    var c, e := Start(combs), Corner(single, n);
    forall k | 0 <= k < |c| ensures c[k] <= e[k] {
      if k > 0 { assert e[k] == n; }
    }
    SmallerIsBefore(c, e);
  }

  lemma StartIsElement(single: bool, combs: seq<Combinator>, n: nat)
    requires |combs| < n && (single && combs != [] ==> Up(combs[|combs| - 1]))
    ensures IsElement(Build(RoomFor(single, n)), Start(combs))
  {
    StartIsIn(single, combs, n);
    InIsElement(Start(combs), RoomFor(single, n));
  }

  lemma TwoCandidates(dom: Dom, c: Path, e: Path)
    requires IsElement(dom, c) && IsElement(dom, e) && c != [] && Before(c, e)
    ensures Candidates(dom, [c, e])
  {
    BeforeAsymmetric(c, e);
  }

  lemma CornerIsElement(single: bool, n: nat)
    requires n > 0
    ensures IsElement(Build(RoomFor(single, n)), Corner(single, n))
  {
    CornerIsRoomy(single, n, 0);
    InIsElement(Corner(single, n), RoomFor(single, n));
  }

  lemma SnareFails(single: bool, way: seq<Combinator>, tail: seq<Combinator>, n: nat)
    requires |tail| > 1 && tail[0].Child? && tail[1].Child? && |way| + |tail| < n
    requires single && way != [] ==> Up(way[|way| - 1])
    ensures Fails(single, way + tail)
  {
    var room, e, c := RoomFor(single, n), Corner(single, n), Start(way);
    RoomIsKind(single, n);
    CornerIsRoomy(single, n, |way| + |tail|);
    CornerIsElement(single, n);
    StartIsElement(single, way, n);
    StartIsBeforeCorner(single, way, n);
    TwoCandidates(Build(room), c, e);
    SnareMatches(way + tail, e, c, room);
    StartIsIn(single, way, n);
    SnareCatches(way, tail, e, room);
    FirstSlotDecides(Build(room), Snare(way + tail, e, c), [c, e], e);
    assert Wrong(single, Build(room), way + tail, Snare(way + tail, e, c), [c, e]);
  }

  lemma ClimbingShapeFails(single: bool, combs: seq<Combinator>, i: nat)
    requires Climbing(single, combs, i)
    ensures Fails(single, combs)
  {
    var way, tail := combs[..i - 1], combs[i - 1..];
    SnareFails(single, way, tail, |combs| + 4);
    assert way + tail == combs;
  }

  // ------------------------------------------------------------------ the exact shapes

  lemma ShapesAreExact(single: bool, combs: seq<Combinator>)
    ensures SafeShape(combs) && LowShape(single, combs) <==>
              forall dom: Dom, steps :: Kind(single, dom) && Shaped(steps, combs) ==> Exactly(dom, steps)
  {
    if SafeShape(combs) && LowShape(single, combs) {
      forall dom: Dom, steps, candidates | Kind(single, dom) && Shaped(steps, combs) && Candidates(dom, candidates)
        ensures Right(dom, steps, candidates)
      {
        SafeIsLocal(Exact, steps);
        LowShapeStays(single, dom, combs, steps);
        StepsAreExact(dom, [], candidates, steps);
      }
    } else {
      if !SafeShape(combs) {
        UnsafeShapeFails(single, combs);
      } else {
        var i :| 0 < i < |combs| && Climbing(single, combs, i);
        ClimbingShapeFails(single, combs, i);
      }
      var dom: Dom, steps, candidates :| Wrong(single, dom, combs, steps, candidates);
      assert !Exactly(dom, steps);
    }
  }

  /** A shape without a leading combinator selects exactly the matches in every document if and only
      if every pair is safe, it does not begin with two `>` at the right end, and no three `>` follow
      each other. */
  lemma SafeShapesAreExact(combs: seq<Combinator>)
    ensures SafeShape(combs)
            && !(|combs| >= 2 && combs[0].Child? && combs[1].Child?)
            && (forall i :: 2 <= i < |combs| ==> !(combs[i - 2].Child? && combs[i - 1].Child? && combs[i].Child?))
            <==> forall dom: Dom, steps :: WellFormed(dom) && OneTop(dom) && Shaped(steps, combs)
                   ==> Exactly(dom, steps)
  {
    ShapesAreExact(true, combs);
    LowInDocuments(combs);
    assert forall dom: Dom :: Kind(true, dom) <==> WellFormed(dom) && OneTop(dom);
  }

  lemma LowInDocuments(combs: seq<Combinator>)
    ensures LowShape(true, combs) <==>
              !(|combs| >= 2 && combs[0].Child? && combs[1].Child?)
              && (forall i :: 2 <= i < |combs| ==> !(combs[i - 2].Child? && combs[i - 1].Child? && combs[i].Child?))
  {
    if |combs| >= 2 { assert Climbing(true, combs, 1) <==> combs[0].Child? && combs[1].Child?; }
    forall i | 2 <= i < |combs|
      ensures Climbing(true, combs, i) <==> combs[i - 2].Child? && combs[i - 1].Child? && combs[i].Child?
    {
    }
  }

  /** In detached trees it is so if and only if every pair is safe and no `>` follows another. */
  lemma DetachedShapesAreExact(combs: seq<Combinator>)
    ensures SafeShape(combs) && (forall i :: 0 < i < |combs| ==> !(combs[i - 1].Child? && combs[i].Child?))
            <==> forall dom: Dom, steps :: WellFormed(dom) && IsElement(dom, []) && Shaped(steps, combs)
                   ==> Exactly(dom, steps)
  {
    ShapesAreExact(false, combs);
    assert LowShape(false, combs) <==> forall i :: 0 < i < |combs| ==> !(combs[i - 1].Child? && combs[i].Child?) by {
      forall i | 0 < i < |combs| ensures Climbing(false, combs, i) <==> combs[i - 1].Child? && combs[i].Child? {}
    }
    assert forall dom: Dom :: Kind(false, dom) <==> WellFormed(dom) && IsElement(dom, []);
  }

  // ------------------------------------------------------------------ a leading combinator

  /** The shape `combs` behind the combinator `lead`, which is tested against the document. */
  ghost predicate ShapedLed(steps: seq<Step>, combs: seq<Combinator>, lead: Combinator) {
    |steps| == |combs| + 1 && Shaped(steps[..|combs|], combs) && steps[|combs|] == Step(lead, Context([]))
  }

  /** No match is lost, as long as no error is thrown. */
  ghost predicate LosesNothing(dom: Dom, steps: seq<Step>) {
    forall candidates :: Candidates(dom, candidates) && Evaluate(dom, steps, Elems(candidates)).Some?
      ==> Right(dom, steps, candidates)
  }

  /** The leftmost part may hold of the only child of the document. */
  predicate ReachesTop(combs: seq<Combinator>, lead: Combinator) {
    lead.Child? && (combs != [] ==> Up(combs[|combs| - 1]))
  }

  lemma LedIsContextLast(steps: seq<Step>, combs: seq<Combinator>, lead: Combinator)
    requires ShapedLed(steps, combs, lead) && !lead.Descendant?
    ensures ContextLast(steps) && Led(steps)
  {
    assert forall i :: 0 <= i < |combs| ==> steps[i] == steps[..|combs|][i];
  }

  lemma {:induction false} NothingIsLed(dom: Dom, steps: seq<Step>, combs: seq<Combinator>, lead: Combinator, e: Path)
    requires WellFormed(dom) && OneTop(dom) && ShapedLed(steps, combs, lead) && !lead.Descendant?
    requires !ReachesTop(combs, lead) && IsElement(dom, e)
    ensures !Chain(dom, [], e, steps)
    decreases |combs|
  {
    if combs != [] && Chain(dom, [], e, steps) {
      assert steps[0] == steps[..|combs|][0] && steps[0].comb == combs[0];
      var v :| Witness(dom, steps[0], v, e) && Chain(dom, [], v, steps[1..]);
      WitnessIsElement(dom, [], steps, v, e);
      var rest := combs[1..];
      assert steps[1..][..|rest|] == steps[..|combs|][1..];
      if ReachesTop(rest, lead) {
        assert rest == [] && lead.Child?;
        assert Related(dom, Child, [], v);
        SiblingsAreDeeper(dom, v, e);
      } else {
        NothingIsLed(dom, steps[1..], rest, lead, v);
      }
    }
  }

  /** A chain whose parts name the nodes on the way from the start to the first child of the root. */
  function Lead(combs: seq<Combinator>): seq<Step> {
    if combs == [] then [Step(Child, Context([]))]
    else [Step(combs[0], Compound({Start(combs[1..])}, false))] + Lead(combs[1..])
  }

  lemma {:induction false} LeadIsLed(combs: seq<Combinator>)
    ensures ShapedLed(Lead(combs), combs, Child)
    ensures forall i :: 0 <= i < |Lead(combs)| ==> !Lead(combs)[i].part.Tag?
  {
    if combs != [] {
      var steps, rest := Lead(combs), Lead(combs[1..]);
      LeadIsLed(combs[1..]);
      forall i | 0 <= i < |combs| ensures steps[i].comb == combs[i] && !steps[i].part.Context? {
        if i > 0 { assert steps[i] == rest[i - 1] == rest[..|combs| - 1][i - 1] && combs[i] == combs[1..][i - 1]; }
      }
    }
  }

  lemma {:induction false} LeadMatches(combs: seq<Combinator>, room: Room)
    requires WayIn(combs, room)
    ensures Chain(Build(room), [], Start(combs), Lead(combs))
  {
    if combs != [] {
      LeadMatches(combs[1..], room);
      StartMoves(combs);
      MoveIsRelated(combs[0], Start(combs), room);
      assert Lead(combs)[1..] == Lead(combs[1..]);
      assert Witness(Build(room), Lead(combs)[0], Start(combs[1..]), Start(combs));
    }
  }

  /** Only a tag name behind `>` can throw. */
  lemma {:induction false} NoTagNoError(dom: Dom, steps: seq<Step>, slots: seq<Slot>)
    requires forall i :: 0 <= i < |steps| ==> !steps[i].part.Tag?
    ensures Evaluate(dom, steps, slots).Some?
    decreases |steps|
  {
    if steps != [] { NoTagNoError(dom, steps[1..], StepAll(dom, steps[0], slots).value); }
  }

  lemma LedShapeFails(combs: seq<Combinator>) returns (dom: Dom, steps: seq<Step>)
    requires ReachesTop(combs, Child)
    ensures WellFormed(dom) && OneTop(dom) && ShapedLed(steps, combs, Child) && !LosesNothing(dom, steps)
  {
    var n := |combs| + 1;
    var room, e := RoomFor(true, n), Start(combs);
    dom, steps := Build(room), Lead(combs);
    RoomIsKind(true, n);
    StartIsIn(true, combs, n);
    LeadIsLed(combs);
    LeadMatches(combs, room);
    InIsElement(e, room);
    NoTagNoError(dom, steps, Elems([e]));
    LedIsContextLast(steps, combs, Child);
    LostByDocument(dom, steps, e);
  }

  lemma LostByDocument(dom: Dom, steps: seq<Step>, e: Path)
    requires ContextLast(steps) && Led(steps) && !IsElement(dom, []) && IsElement(dom, e) && e != []
    requires Evaluate(dom, steps, Elems([e])).Some? && Chain(dom, [], e, steps)
    ensures !LosesNothing(dom, steps)
  {
    LedByDocumentFindsNothing(dom, [], [e], steps);
    assert [e][0] == e;
    assert Candidates(dom, [e]) && !Right(dom, steps, [e]);
  }

  /** With a document as context a leading combinator loses a match in some document exactly if it is
      a `>` and the part behind it is not followed by `+` or `~`. */
  lemma LedShapesAreExact(combs: seq<Combinator>, lead: Combinator)
    requires !lead.Descendant?
    ensures !(lead.Child? && (combs != [] ==> Up(combs[|combs| - 1]))) <==>
              forall dom: Dom, steps :: WellFormed(dom) && OneTop(dom) && ShapedLed(steps, combs, lead)
                ==> LosesNothing(dom, steps)
  {
    if ReachesTop(combs, lead) {
      var dom, steps := LedShapeFails(combs);
      assert !LosesNothing(dom, steps);
    } else {
      forall dom: Dom, steps, candidates
        | WellFormed(dom) && OneTop(dom) && ShapedLed(steps, combs, lead) && Candidates(dom, candidates)
          && Evaluate(dom, steps, Elems(candidates)).Some?
        ensures Right(dom, steps, candidates)
      {
        LedIsContextLast(steps, combs, lead);
        LedByDocumentFindsNothing(dom, [], candidates, steps);
        forall i | 0 <= i < |candidates| ensures !Chain(dom, [], candidates[i], steps) {
          NothingIsLed(dom, steps, combs, lead, candidates[i]);
        }
      }
    }
  }

  // ------------------------------------------------------------------ inputs

  /** `> html` in a document with that element. */
  lemma LeadingChildOfDocument()
    ensures var dom: Dom := Node(Document, [Node(Element("html"), [])]);
            var steps := Steps([Comb(Child)], []);
            && Related(dom, Child, [], [0]) && Matching(dom, [], [[0]], steps) == [[0]]
            && Evaluate(dom, steps, Elems([[0]])).Some?
            && Collect(dom, [], [[0]], Evaluate(dom, steps, Elems([[0]])).value) == []
  {
    var dom: Dom := Node(Document, [Node(Element("html"), [])]);
    var steps := Steps([Comb(Child)], []);
    assert steps == [Step(Child, Context([]))];
    assert Chain(dom, [], [0], steps);
    assert [[0]][1..] == [];
    NoTagNoError(dom, steps, Elems([[0]]));
    LedByDocumentFindsNothing(dom, [], [[0]], steps);
  }

  /** `.a > :first-child > *`, given the nodes its compounds hold of. */
  function FirstChildChain(a: set<Path>, first: set<Path>): seq<Step> {
    [Step(Child, Compound(first, false)), Step(Child, Compound(a, false))]
  }

  /** It finds nothing in any document: its first candidate is the child of the document, of which
      `:first-child` holds as well. */
  lemma FirstChildFindsNothing(dom: Dom, a: set<Path>, first: set<Path>, candidates: seq<Path>)
    requires [] in first && candidates != [] && |candidates[0]| == 1
    ensures var outcome := Evaluate(dom, FirstChildChain(a, first), Elems(candidates));
            outcome.Some? && Collect(dom, [], candidates, outcome.value) == []
  {
    var steps := FirstChildChain(a, first);
    NoTagNoError(dom, steps, Elems(candidates));
    EvaluateIsPointwise(dom, steps, Elems(candidates), 0);
    assert StepOne(dom, steps[0], Elem(candidates[0])) == Elem([]);
    assert steps[1..] == [steps[1]] && Final(dom, steps[1..], Elem([])) == Final(dom, [], Null);
  }

  /** In a document with three elements, each the child of the one before, it loses the third. */
  lemma FirstChildLosesMatch()
    ensures var dom := Build(Room(Document, 1, 2, 1));
            && Candidates(dom, [[0], [0, 0], [0, 0, 0]])
            && !Right(dom, FirstChildChain({[0]}, {[], [0], [0, 0], [0, 0, 0]}), [[0], [0, 0], [0, 0, 0]])
  {
    var room, top, middle, low: Path := Room(Document, 1, 2, 1), [0], [0, 0], [0, 0, 0];
    var dom, steps := Build(room), FirstChildChain({top}, {[], top, middle, low});
    InIsElement(top, room);
    InIsElement(middle, room);
    InIsElement(low, room);
    OneLine(dom, top, middle, low);
    LowMatches(dom, steps, top, middle, low);
    FirstChildFindsNothing(dom, {top}, {[], top, middle, low}, [top, middle, low]);
    NothingMatches(dom, [], [top, middle, low], steps);
    assert [top, middle, low][2] == low;
  }

  lemma OneLine(dom: Dom, top: Path, middle: Path, low: Path)
    requires IsElement(dom, top) && IsElement(dom, middle) && IsElement(dom, low) && top != []
    requires top < middle && middle < low
    ensures Candidates(dom, [top, middle, low])
  {
    AncestorBefore(top, middle);
    AncestorBefore(top, low);
    AncestorBefore(middle, low);
  }

  lemma LowMatches(dom: Dom, steps: seq<Step>, top: Path, middle: Path, low: Path)
    requires IsElement(dom, top) && !IsElement(dom, []) && middle != [] && low != [] && Parent(middle) == top
             && Parent(low) == middle
    requires |steps| == 2 && steps[0].comb.Child? && steps[1].comb.Child?
    requires steps[0].part.Compound? && middle in steps[0].part.matches
    requires steps[1].part.Compound? && top in steps[1].part.matches
    ensures Chain(dom, [], low, steps)
  {
    assert steps[1..] == [steps[1]] && [steps[1]][1..] == [];
    assert Witness(dom, steps[1], top, middle) && Chain(dom, [], top, []);
    assert Witness(dom, steps[0], middle, low) && Chain(dom, [], middle, [steps[1]]);
  }
}

/** What holds after every run of a Deferred, whatever its callbacks do. */
module DeferredRuns {
  import opened Wrappers
  import opened Deferred

  // ------------------------------------------------------------------ the three phases

  ghost predicate Alive(l: CallbackState, h: History) {
    && !l.cancelled && l.fired.None? && h.ran == [] && h.values == []
    && l.callbacks == [CancelOther] + Users(h.registered)
  }

  /** Nothing has settled the deferred. */
  ghost predicate Unsettled(s: State) {
    && s.stack == [UserCode]
    && Alive(s.done, s.doneHistory) && !s.done.firing
    && Alive(s.fail, s.failHistory) && !s.fail.firing
  }

  /** One side has begun to fire, and its first callback, the cancel, has not run yet. */
  ghost predicate Starting(s: State, x: Side, value: nat) {
    && s.stack == [UserCode, Firing(x, value)]
    && Alive(s.List(x), s.Past(x)) && s.List(x).firing
    && Alive(s.List(Opposite(x)), s.Past(Opposite(x))) && !s.List(Opposite(x)).firing
  }

  /** One side is settled for good and the other cancelled. */
  ghost predicate SettledAs(s: State, x: Side, value: nat) {
    var l, h, other := s.List(x), s.Past(x), s.List(Opposite(x));
    && other == CallbackState([], None, false, true) && s.Past(Opposite(x)).ran == []
    && !l.cancelled && h.ran <= h.registered
    && l.callbacks == Users(h.registered[|h.ran|..])
    && |h.values| == |h.ran| && (forall i :: 0 <= i < |h.values| ==> h.values[i] == value)
    && if l.firing then
         l.fired.None? && (s.stack == [UserCode, Firing(x, value)] || s.stack == [UserCode, Firing(x, value), UserCode])
       else
         l.fired == Some(value) && s.stack == [UserCode]
  }

  ghost predicate Inv(s: State) {
    Unsettled(s) || exists x, value :: Starting(s, x, value) || SettledAs(s, x, value)
  }

  // ------------------------------------------------------------------ each step

  lemma FreshIsUnsettled()
    ensures Unsettled(Fresh())
  {
  }

  lemma UsersConcat(a: seq<nat>, b: seq<nat>)
    ensures Users(a + b) == Users(a) + Users(b)
  {
  }

  lemma UnsettledStep(s: State, step: Step)
    requires Unsettled(s) && Enabled(s, step)
    ensures match step
            case CallResolve(x, value) => Starting(Next(s, step), x, value)
            case _ => Unsettled(Next(s, step))
  {
    if step.CallAdd? {
      UsersConcat(s.Past(step.side).registered, step.ids);
    }
  }

  lemma StartingStep(s: State, x: Side, value: nat, step: Step)
    requires Starting(s, x, value) && Enabled(s, step)
    ensures SettledAs(Next(s, step), x, value)
  {
    var l, h := s.List(x), s.Past(x);
    assert step.Round? && l.callbacks[0] == CancelOther && l.callbacks[1..] == Users(h.registered);
    assert h.registered[|h.ran|..] == h.registered;
  }

  lemma SettledStep(s: State, x: Side, value: nat, step: Step)
    requires SettledAs(s, x, value) && Enabled(s, step)
    ensures SettledAs(Next(s, step), x, value)
    ensures s.Past(x).ran <= Next(s, step).Past(x).ran
  {
    match step {
      case CallAdd(y, ids) => if y == x { SettledAdd(s, x, value, ids); }
      case Round => SettledRound(s, x, value);
      case _ =>
    }
  }

  lemma SettledAdd(s: State, x: Side, value: nat, ids: seq<nat>)
    requires SettledAs(s, x, value) && s.Top().UserCode?
    ensures SettledAs(Next(s, CallAdd(x, ids)), x, value)
    ensures Next(s, CallAdd(x, ids)).Past(x).ran == s.Past(x).ran
  {
    var h := s.Past(x);
    UsersConcat(h.registered[|h.ran|..], ids);
    assert (h.registered + ids)[|h.ran|..] == h.registered[|h.ran|..] + ids;
  }

  lemma SettledRound(s: State, x: Side, value: nat)
    requires SettledAs(s, x, value) && s.Top().Firing?
    ensures SettledAs(Next(s, Round), x, value)
    ensures s.Past(x).ran <= Next(s, Round).Past(x).ran
  {
    var l, h := s.List(x), s.Past(x);
    if l.callbacks != [] {
      var rest := h.registered[|h.ran|..];
      assert l.callbacks[0] == User(rest[0]) && l.callbacks[1..] == Users(rest[1..]);
      assert rest[1..] == h.registered[|h.ran| + 1..];
      assert h.registered[..|h.ran| + 1] == h.ran + [rest[0]];
    }
  }

  lemma InvStep(s: State, step: Step)
    requires Inv(s) && Enabled(s, step)
    ensures Inv(Next(s, step))
  {
    if Unsettled(s) {
      UnsettledStep(s, step);
    } else {
      var x, value :| Starting(s, x, value) || SettledAs(s, x, value);
      if Starting(s, x, value) { StartingStep(s, x, value, step); } else { SettledStep(s, x, value, step); }
    }
  }

  // ------------------------------------------------------------------ over whole runs

  lemma {:induction false} InvRun(s: State, steps: seq<Step>, s': State)
    requires Inv(s) && Run(s, steps, s')
    ensures Inv(s')
    decreases |steps|
  {
    if steps != [] {
      InvStep(s, steps[0]);
      InvRun(Next(s, steps[0]), steps[1..], s');
    }
  }

  /** In every state a deferred can reach: callbacks of one side only have run; on each side those
      that ran are the first that were registered, each once and in that order; the deferred is
      never resolved and rejected at once; and callbacks never nest. */
  lemma SettlementIsExclusiveAndOrdered(steps: seq<Step>, s: State)
    requires Run(Fresh(), steps, s)
    ensures s.doneHistory.ran == [] || s.failHistory.ran == []
    ensures !(Settled(s.done) && Settled(s.fail))
    ensures forall x: Side :: s.Past(x).ran <= s.Past(x).registered
    ensures |s.stack| <= 3
  {
    FreshIsUnsettled();
    InvRun(Fresh(), steps, s);
    if !Unsettled(s) {
      var x, value :| Starting(s, x, value) || SettledAs(s, x, value);
      assert x == DoneSide || x == FailSide;
    }
  }

  /** Whoever asks a deferred, at any time, is not told that it is both resolved and rejected. */
  method AskBoth(d: DeferredObject, ghost steps: seq<Step>) returns (resolved: bool, rejected: bool)
    requires d.Valid() && Run(Fresh(), steps, d.View())
    ensures !(resolved && rejected)
    ensures resolved || rejected <==> !Unsettled(d.View())
  {
    resolved := d.IsSettled(DoneSide);
    rejected := d.IsSettled(FailSide);
    FreshIsUnsettled();
    InvRun(Fresh(), steps, d.View());
    if !Unsettled(d.View()) {
      ghost var x, value :| Starting(d.View(), x, value) || SettledAs(d.View(), x, value);
      assert x == DoneSide || x == FailSide;
    }
  }

  /** A settlement is final: the first resolve or reject decides side and value for every later
      state, and what has run stays run. */
  lemma {:induction false} SettlementIsFinal(s: State, x: Side, value: nat, steps: seq<Step>, s': State)
    requires SettledAs(s, x, value) && Run(s, steps, s')
    ensures SettledAs(s', x, value) && s.Past(x).ran <= s'.Past(x).ran
    decreases |steps|
  {
    if steps != [] {
      SettledStep(s, x, value, steps[0]);
      SettlementIsFinal(Next(s, steps[0]), x, value, steps[1..], s');
    }
  }

  lemma FirstSettlementDecides(s: State, x: Side, value: nat, steps: seq<Step>, s': State)
    requires Unsettled(s) && Run(Next(s, CallResolve(x, value)), steps, s') && steps != []
    ensures SettledAs(s', x, value)
  {
    var t := Next(s, CallResolve(x, value));
    UnsettledStep(s, CallResolve(x, value));
    StartingStep(t, x, value, steps[0]);
    SettlementIsFinal(Next(t, steps[0]), x, value, steps[1..], s');
  }

  // ------------------------------------------------------------------ callbacks that throw

  /** A callback of side `x` is running and others are waiting behind it. */
  ghost predicate Behind(s: State, x: Side) {
    && |s.stack| > 1 && s.stack[|s.stack| - 2].Firing? && s.stack[|s.stack| - 2].side == x
    && s.List(x).callbacks != []
  }

  /** The state before step `k` of a run. */
  function Before(s: State, steps: seq<Step>, k: nat): State
    requires k <= |steps|
    decreases k
  {
    if k == 0 || !Enabled(s, steps[0]) then s else Before(Next(s, steps[0]), steps[1..], k - 1)
  }

  ghost predicate AddsTo(step: Step, x: Side) {
    step.CallAdd? && step.side == x
  }

  ghost predicate NoAdd(steps: seq<Step>, x: Side) {
    forall j :: 0 <= j < |steps| ==> !AddsTo(steps[j], x)
  }

  /** At step `k` a callback of side `x` threw with others behind it, and nobody has called `done` or
      `fail` on that side since. */
  ghost predicate CutAt(s: State, steps: seq<Step>, x: Side, k: nat) {
    k < |steps| && steps[k].Throw? && Behind(Before(s, steps, k), x) && NoAdd(steps[k + 1..], x)
  }

  ghost predicate CutShort(s: State, steps: seq<Step>, x: Side) {
    exists k: nat :: CutAt(s, steps, x, k)
  }

  lemma CutShortUnfolds(s: State, steps: seq<Step>, x: Side)
    requires steps != [] && Enabled(s, steps[0])
    ensures CutShort(s, steps, x) <==>
              (steps[0].Throw? && Behind(s, x) && NoAdd(steps[1..], x)) || CutShort(Next(s, steps[0]), steps[1..], x)
  {
    var rest := steps[1..];
    forall k: nat | k + 1 < |steps| ensures CutAt(s, steps, x, k + 1) <==> CutAt(Next(s, steps[0]), rest, x, k) {
      assert steps[k + 1] == rest[k] && steps[k + 2..] == rest[k + 1..];
    }
    if k: nat :| CutAt(s, steps, x, k) {
      if k > 0 { assert CutAt(Next(s, steps[0]), rest, x, k - 1); }
    }
    if k: nat :| CutAt(Next(s, steps[0]), rest, x, k) { assert CutAt(s, steps, x, k + 1); }
    assert CutAt(s, steps, x, 0) <==> steps[0].Throw? && Behind(s, x) && NoAdd(rest, x);
  }

  /** Control is with the caller while callbacks of the settled side are waiting. */
  ghost predicate Waiting(s: State, x: Side) {
    s.stack == [UserCode] && s.List(x).callbacks != []
  }

  lemma WaitingStep(s: State, x: Side, value: nat, step: Step)
    requires SettledAs(s, x, value) && Enabled(s, step)
    ensures Waiting(Next(s, step), x) <==> (step.Throw? && Behind(s, x)) || (Waiting(s, x) && !AddsTo(step, x))
  {
    match step {
      case CallAdd(y, ids) =>
      case CallResolve(y, v) =>
      case Return =>
      case Throw =>
      case Round =>
    }
  }

  lemma {:induction false} WaitingRun(s: State, x: Side, value: nat, steps: seq<Step>, s': State)
    requires SettledAs(s, x, value) && Run(s, steps, s')
    ensures SettledAs(s', x, value)
    ensures Waiting(s', x) <==> CutShort(s, steps, x) || (Waiting(s, x) && NoAdd(steps, x))
    decreases |steps|
  {
    if steps != [] {
      var t := Next(s, steps[0]);
      SettledStep(s, x, value, steps[0]);
      WaitingStep(s, x, value, steps[0]);
      WaitingRun(t, x, value, steps[1..], s');
      CutShortUnfolds(s, steps, x);
      assert steps == [steps[0]] + steps[1..];
      assert NoAdd(steps, x) <==> !AddsTo(steps[0], x) && NoAdd(steps[1..], x);
    }
  }

  /** Before a settlement no callback runs, so none throws. */
  lemma {:induction false} WaitingFromStart(s: State, x: Side, steps: seq<Step>, s': State)
    requires Run(s, steps, s') && Settled(s'.List(x))
    requires Unsettled(s) || exists value :: Starting(s, x, value)
    ensures s'.stack == [UserCode]
            ==> (exists value :: SettledAs(s', x, value)) && (Waiting(s', x) <==> CutShort(s, steps, x))
    decreases |steps|
  {
    if steps != [] {
      var step, t := steps[0], Next(s, steps[0]);
      CutShortUnfolds(s, steps, x);
      if Unsettled(s) {
        UnsettledStep(s, step);
        if step.CallResolve? && step.side != x {
          OtherSideSettles(t, step.side, step.value, steps[1..], s');
        } else {
          WaitingFromStart(t, x, steps[1..], s');
        }
      } else {
        var value :| Starting(s, x, value);
        StartingStep(s, x, value, step);
        WaitingRun(t, x, value, steps[1..], s');
      }
    }
  }

  /** Once a side starts to fire, the other one never settles. */
  lemma OtherSideSettles(s: State, x: Side, value: nat, steps: seq<Step>, s': State)
    requires Starting(s, x, value) && Run(s, steps, s')
    ensures !Settled(s'.List(Opposite(x)))
  {
    if steps != [] {
      StartingStep(s, x, value, steps[0]);
      SettlementIsFinal(Next(s, steps[0]), x, value, steps[1..], s');
    }
  }

  lemma RanAll(s: State, x: Side, value: nat)
    requires SettledAs(s, x, value)
    ensures s.Past(x).ran == s.Past(x).registered <==> s.List(x).callbacks == []
  {
    var h := s.Past(x);
    assert |Users(h.registered[|h.ran|..])| == |h.registered| - |h.ran|;
    assert h.registered[..|h.ran|] == h.ran;
  }

  /** Over every run: when control is back with the caller of a settled deferred, all callbacks
      registered on the settled side have run if and only if none threw with others behind it
      after which nobody has added callbacks; those that ran got one and the same value. */
  lemma AllRegisteredRun(steps: seq<Step>, s: State, x: Side)
    requires Run(Fresh(), steps, s) && s.stack == [UserCode] && Settled(s.List(x))
    ensures s.Past(x).ran == s.Past(x).registered <==> !CutShort(Fresh(), steps, x)
    ensures s.List(x).fired.Some? && |s.Past(x).values| == |s.Past(x).ran|
    ensures forall i :: 0 <= i < |s.Past(x).values| ==> s.Past(x).values[i] == s.List(x).fired.value
  {
    FreshIsUnsettled();
    WaitingFromStart(Fresh(), x, steps, s);
    var value :| SettledAs(s, x, value);
    RanAll(s, x, value);
  }

  /** Of two callbacks the first throws: the second is never run. */
  lemma ThrowCutsShort() returns (s: State)
    ensures var steps := [CallAdd(DoneSide, [1, 2]), CallResolve(DoneSide, 0), Round, Round, Throw];
            && Run(Fresh(), steps, s) && s.stack == [UserCode] && Settled(s.done) && CutShort(Fresh(), steps, DoneSide)
            && s.doneHistory.ran == [1] && s.doneHistory.registered == [1, 2]
  {
    var add, resolve := CallAdd(DoneSide, [1, 2]), CallResolve(DoneSide, 0);
    s := TwoRounds(Next(Next(Fresh(), add), resolve));
    RunBefore(Next(Fresh(), add), resolve, [Round, Round, Throw], s);
    RunBefore(Fresh(), add, [resolve, Round, Round, Throw], s);
    assert [resolve] + [Round, Round, Throw] == [resolve, Round, Round, Throw];
    assert [add] + [resolve, Round, Round, Throw] == [add, resolve, Round, Round, Throw];
    AllRegisteredRun([add, resolve, Round, Round, Throw], s, DoneSide);
  }

  lemma RunBefore(s: State, step: Step, rest: seq<Step>, s': State)
    requires Enabled(s, step) && Run(Next(s, step), rest, s')
    ensures Run(s, [step] + rest, s')
  {
    assert ([step] + rest)[1..] == rest;
  }

  lemma TwoRounds(start: State) returns (s: State)
    requires start == Next(Next(Fresh(), CallAdd(DoneSide, [1, 2])), CallResolve(DoneSide, 0))
    ensures Run(start, [Round, Round, Throw], s) && s.stack == [UserCode] && Settled(s.done)
    ensures s.doneHistory.ran == [1] && s.doneHistory.registered == [1, 2]
  {
    var first := Next(start, Round);
    var second := Next(first, Round);
    s := Next(second, Throw);
    assert second.stack == [UserCode, Firing(DoneSide, 0), UserCode];
    assert Run(s, [], s);
    RunBefore(second, Throw, [], s);
    RunBefore(first, Round, [Throw], s);
    RunBefore(start, Round, [Round, Throw], s);
    assert [Throw] + [] == [Throw] && [Round] + [Throw] == [Round, Throw];
    assert [Round] + [Round, Throw] == [Round, Round, Throw];
  }

  /** A firing side can always be brought to its end: when no callback throws any more, control comes
      back and all registered callbacks have run. */
  lemma {:induction false} FiringCanEnd(s: State, x: Side, value: nat) returns (steps: seq<Step>, s': State)
    requires SettledAs(s, x, value) && s.List(x).firing
    ensures Run(s, steps, s') && SettledAs(s', x, value) && s'.stack == [UserCode]
    ensures s'.Past(x).registered == s.Past(x).registered && s'.Past(x).ran == s'.Past(x).registered
    ensures forall step :: step in steps ==> step.Return? || step.Round?
    decreases 2 * |s.List(x).callbacks| + |s.stack|
  {
    var step := if s.Top().UserCode? then Return else Round;
    var t := Next(s, step);
    SettledStep(s, x, value, step);
    if t.List(x).firing {
      var rest;
      rest, s' := FiringCanEnd(t, x, value);
      steps := [step] + rest;
      assert steps[1..] == rest;
    } else {
      steps, s' := [step], t;
      RanAll(t, x, value);
      assert steps[1..] == [];
    }
  }

  /** What a throw leaves behind stays unrun as long as nobody adds callbacks on that side. */
  lemma {:induction false} ThrowLeavesTheRest(s: State, x: Side, value: nat, steps: seq<Step>, s': State)
    requires SettledAs(s, x, value) && s.stack == [UserCode] && Run(s, steps, s') && NoAdd(steps, x)
    ensures s'.Past(x) == s.Past(x) && s'.List(x) == s.List(x) && s'.stack == [UserCode]
    decreases |steps|
  {
    if steps != [] {
      assert !AddsTo(steps[0], x);
      SettledStep(s, x, value, steps[0]);
      assert NoAdd(steps[1..], x) by {
        forall j | 0 <= j < |steps[1..]| ensures !AddsTo(steps[1..][j], x) { assert !AddsTo(steps[j + 1], x); }
      }
      ThrowLeavesTheRest(Next(s, steps[0]), x, value, steps[1..], s');
    }
  }

  /** The next call that adds callbacks, even none, makes up for it: when control is back, all that
      were left behind and all that were added have run, unless another throw cut that short. */
  lemma AddResumesAfterThrow(s: State, x: Side, value: nat, ids: seq<nat>, steps: seq<Step>, s': State)
    requires SettledAs(s, x, value) && s.stack == [UserCode]
    requires Run(Next(s, CallAdd(x, ids)), steps, s') && s'.stack == [UserCode]
    ensures s'.Past(x).ran == s'.Past(x).registered <==> !CutShort(Next(s, CallAdd(x, ids)), steps, x)
    ensures s.Past(x).registered + ids <= s'.Past(x).registered
  {
    var t := Next(s, CallAdd(x, ids));
    SettledStep(s, x, value, CallAdd(x, ids));
    WaitingRun(t, x, value, steps, s');
    RanAll(s', x, value);
    RegistrationsStay(t, x, steps, s');
  }

  lemma StepRegisters(s: State, x: Side, step: Step)
    requires Enabled(s, step)
    ensures s.Past(x).registered <= Next(s, step).Past(x).registered
  {
  }

  lemma {:induction false} RegistrationsStay(s: State, x: Side, steps: seq<Step>, s': State)
    requires Run(s, steps, s')
    ensures s.Past(x).registered <= s'.Past(x).registered
    decreases |steps|
  {
    if steps != [] {
      StepRegisters(s, x, steps[0]);
      RegistrationsStay(Next(s, steps[0]), x, steps[1..], s');
    }
  }
}

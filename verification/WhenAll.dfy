/** `jQuery.when` on several arguments: values and promises, settled already or later, in any
    order. */
module WhenAll {
  import opened Wrappers

  /** An argument, with the state of a promise as it is now. */
  datatype Input = Plain(value: nat) | Pending | Resolved(value: nat) | Rejected(reason: nat)

  /** What the argument array holds: a value, or still the promise. */
  datatype Entry = Value(value: nat) | Promise

  datatype Outcome = Open | Done(values: seq<Entry>) | Failed(reason: nat)

  /** A pending promise settles. */
  datatype Event = Event(i: nat, settled: Input)

  predicate Accounted(input: Input) {
    input.Plain? || input.Resolved?
  }

  function EntryOf(input: Input): Entry {
    if Accounted(input) then Value(input.value) else Promise
  }

  function Entries(inputs: seq<Input>): (es: seq<Entry>)
    ensures |es| == |inputs| && forall i :: 0 <= i < |es| ==> es[i] == EntryOf(inputs[i])
  {
    seq(|inputs|, i requires 0 <= i < |inputs| => EntryOf(inputs[i]))
  }

  /** The number of arguments not yet accounted for. */
  function Missing(inputs: seq<Input>): nat {
    if inputs == [] then 0
    else (if Accounted(inputs[|inputs| - 1]) then 0 else 1) + Missing(inputs[..|inputs| - 1])
  }

  /** The rejection `when` reports: of the arguments rejected already the leftmost, otherwise the
      first to happen. */
  function Rejection(inputs: seq<Input>, events: seq<Event>): Option<nat> {
    if events != [] && Rejection(inputs, events[..|events| - 1]).None? then
      (if events[|events| - 1].settled.Rejected? then Some(events[|events| - 1].settled.reason) else None)
    else if events != [] then Rejection(inputs, events[..|events| - 1])
    else FirstRejected(inputs)
  }

  function FirstRejected(inputs: seq<Input>): Option<nat> {
    if inputs == [] then None
    else
      var before := FirstRejected(inputs[..|inputs| - 1]);
      if before.Some? then before
      else if inputs[|inputs| - 1].Rejected? then Some(inputs[|inputs| - 1].reason) else None
  }

  /** The arguments after the events. */
  function After(inputs: seq<Input>, events: seq<Event>): seq<Input> {
    if events == [] then inputs
    else
      var before, e := After(inputs, events[..|events| - 1]), events[|events| - 1];
      if e.i < |before| then before[e.i := e.settled] else before
  }

  /** Each event settles a promise that is pending at that moment. */
  ghost predicate Possible(inputs: seq<Input>, events: seq<Event>) {
    events != [] ==>
      var before, e := After(inputs, events[..|events| - 1]), events[|events| - 1];
      && Possible(inputs, events[..|events| - 1])
      && e.i < |before| && before[e.i].Pending? && (e.settled.Resolved? || e.settled.Rejected?)
  }

  /** What `when` promises: rejected by the first rejection, else resolved with all the values in
      argument position once every promise is resolved, else open. */
  function Promised(inputs: seq<Input>, rejection: Option<nat>): Outcome {
    if rejection.Some? then Failed(rejection.value)
    else if Missing(inputs) == 0 then Done(Entries(inputs))
    else Open
  }

  /** The outcome after the events. */
  function Reached(inputs: seq<Input>, events: seq<Event>): Outcome {
    Promised(After(inputs, events), Rejection(inputs, events))
  }

  // ------------------------------------------------------------------ counting

  lemma {:induction false} MissingAfterUpdate(inputs: seq<Input>, i: nat, x: Input)
    requires i < |inputs|
    ensures Missing(inputs[i := x]) == Missing(inputs)
              - (if Accounted(inputs[i]) then 0 else 1) + (if Accounted(x) then 0 else 1)
  {
    var n := |inputs| - 1;
    if i == n {
      assert inputs[i := x][..n] == inputs[..n];
    } else {
      assert inputs[i := x][..n] == inputs[..n][i := x];
      MissingAfterUpdate(inputs[..n], i, x);
    }
  }

  lemma {:induction false} NoneMissing(inputs: seq<Input>)
    ensures Missing(inputs) == 0 <==> forall i :: 0 <= i < |inputs| ==> Accounted(inputs[i])
  {
    if inputs != [] {
      var n := |inputs| - 1;
      NoneMissing(inputs[..n]);
      assert forall i :: 0 <= i < n ==> inputs[..n][i] == inputs[i];
    }
  }

  /** A rejected argument is never accounted for. */
  lemma {:induction false} RejectedIsMissing(inputs: seq<Input>)
    ensures FirstRejected(inputs).Some? ==> Missing(inputs) > 0
  {
    if inputs != [] { RejectedIsMissing(inputs[..|inputs| - 1]); }
  }

  lemma {:induction false} RejectionStays(inputs: seq<Input>, events: seq<Event>)
    requires Possible(inputs, events)
    ensures |After(inputs, events)| == |inputs|
    ensures Rejection(inputs, events).Some? ==> exists i :: 0 <= i < |inputs| && After(inputs, events)[i].Rejected?
  {
    if events != [] {
      var init, e := events[..|events| - 1], events[|events| - 1];
      RejectionStays(inputs, init);
      if Rejection(inputs, init).Some? {
        var i :| 0 <= i < |inputs| && After(inputs, init)[i].Rejected?;
        assert After(inputs, events)[i].Rejected?;
      } else if e.settled.Rejected? {
        assert After(inputs, events)[e.i].Rejected?;
      }
    } else {
      SomeRejected(inputs);
    }
  }

  lemma {:induction false} SomeRejected(inputs: seq<Input>)
    ensures FirstRejected(inputs).Some? ==> exists i :: 0 <= i < |inputs| && inputs[i].Rejected?
  {
    if inputs != [] {
      var init := inputs[..|inputs| - 1];
      SomeRejected(init);
      if FirstRejected(init).Some? {
        var i :| 0 <= i < |init| && init[i].Rejected?;
        assert inputs[i].Rejected?;
      }
    }
  }

  // ------------------------------------------------------------------ the aggregate

  class Aggregate {
    var args: seq<Entry>
    var count: int
    var outcome: Outcome
    ghost var inputs: seq<Input>
    ghost var events: seq<Event>

    ghost predicate Valid()
      reads this
    {
      var now := After(inputs, events);
      && Possible(inputs, events)
      && args == Entries(now) && count == Missing(now)
      && outcome == Reached(inputs, events)
    }

    /** `when(args)` with at least two arguments. */
    constructor (given: seq<Input>)
      requires |given| > 1
      ensures Valid() && inputs == given && events == []
    {
      args, count, outcome := Placeholders(given), |given|, Open;
      inputs, events := given, [];
      new;
      var i := 0;
      while i < |given|
        invariant 0 <= i <= |given| == |args| && inputs == given && events == []
        invariant forall k :: 0 <= k < i ==> args[k] == EntryOf(given[k])
        invariant forall k :: i <= k < |given| ==> args[k] == Placeholder(given[k])
        invariant count == |given| - i + Missing(given[..i])
        invariant Settling(outcome, FirstRejected(given[..i]), count, args)
      {
        assert given[..i + 1][..i] == given[..i];
        RejectedIsMissing(given[..i]);
        match given[i] {
          case Plain(_) => count := count - 1;
          case Pending =>
          case Resolved(v) => ResolveFunc(i, v);
          case Rejected(v) => Reject(v);
        }
        i := i + 1;
      }
      assert given[..|given|] == given;
      RejectedIsMissing(given);
      if count == 0 { ResolveWith(args); }
      assert args == Entries(given);
    }

    static function Placeholder(given: Input): Entry {
      if given.Plain? then Value(given.value) else Promise
    }

    static function Placeholders(given: seq<Input>): (es: seq<Entry>)
      ensures |es| == |given| && forall k :: 0 <= k < |es| ==> es[k] == Placeholder(given[k])
    {
      seq(|given|, k requires 0 <= k < |given| => Placeholder(given[k]))
    }

    /** `deferred.resolveWith` on the aggregate's own deferred: the first settlement decides. */
    method ResolveWith(values: seq<Entry>)
      modifies this`outcome
      ensures outcome == if old(outcome).Open? then Done(values) else old(outcome)
    {
      if outcome.Open? { outcome := Done(values); }
    }

    /** `deferred.reject`. */
    method Reject(reason: nat)
      modifies this`outcome
      ensures outcome == if old(outcome).Open? then Failed(reason) else old(outcome)
    {
      if outcome.Open? { outcome := Failed(reason); }
    }

    /** The callback `resolveFunc(i)` hands to promise `i`. */
    method ResolveFunc(i: nat, value: nat)
      requires i < |args|
      modifies this`args, this`count, this`outcome
      ensures args == old(args)[i := Value(value)] && count == old(count) - 1
      ensures outcome == if count == 0 && old(outcome).Open? then Done(args) else old(outcome)
    {
      args := args[i := Value(value)];
      count := count - 1;
      if count == 0 { ResolveWith(args); }
    }

    /** A pending promise among the arguments settles and calls back. */
    method Settle(e: Event)
      requires Valid() && Possible(inputs, events + [e])
      modifies this
      ensures Valid() && inputs == old(inputs) && events == old(events) + [e]
      ensures old(outcome) != Open ==> outcome == old(outcome)
      ensures old(outcome) == Open && e.settled.Rejected? ==> outcome == Failed(e.settled.reason)
    {
      ghost var now := After(inputs, events);
      assert (events + [e])[..|events|] == events;
      MissingAfterUpdate(now, e.i, e.settled);
      RejectionStays(inputs, events);
      NoneMissing(now);
      match e.settled {
        case Resolved(v) => ResolveFunc(e.i, v);
        case Rejected(v) => Reject(v);
        case _ =>
      }
      events := events + [e];
    }
  }

  /** The outcome while the arguments are walked: a rejection is final, and the values are only
      delivered when nothing is missing. */
  ghost predicate Settling(outcome: Outcome, rejection: Option<nat>, count: int, args: seq<Entry>) {
    if rejection.Some? then outcome == Failed(rejection.value)
    else outcome == Open || (count == 0 && outcome == Done(args))
  }

  // ------------------------------------------------------------------ over every order of events

  /** Whatever the order in which the promises settle: resolved means that every promise was
      resolved and the values are in argument position, rejected means the first rejection, and
      as long as there was none and a promise is missing the result stays open. */
  lemma OutcomeOfEvents(inputs: seq<Input>, events: seq<Event>)
    requires Possible(inputs, events)
    ensures var now := After(inputs, events); var outcome := Reached(inputs, events);
            && (outcome.Done? <==> forall i :: 0 <= i < |now| ==> Accounted(now[i]))
            && (outcome.Done? ==> |outcome.values| == |inputs|)
            && (outcome.Done? ==> forall i :: 0 <= i < |inputs| ==> outcome.values[i] == Value(now[i].value))
            && (outcome.Failed? <==> Rejection(inputs, events).Some?)
  {
    var now := After(inputs, events);
    RejectionStays(inputs, events);
    NoneMissing(now);
  }

  /** Plain values and resolved promises never change again. */
  lemma {:induction false} SettledStays(inputs: seq<Input>, events: seq<Event>, i: nat)
    requires Possible(inputs, events) && i < |inputs|
    ensures |After(inputs, events)| == |inputs|
    ensures !inputs[i].Pending? ==> After(inputs, events)[i] == inputs[i]
    ensures inputs[i].Pending? && !After(inputs, events)[i].Pending? ==>
              exists k :: 0 <= k < |events| && events[k] == Event(i, After(inputs, events)[i])
  {
    if events != [] {
      var init, e := events[..|events| - 1], events[|events| - 1];
      SettledStays(inputs, init, i);
      if e.i == i {
        assert events[|events| - 1] == Event(i, After(inputs, events)[i]);
      } else if inputs[i].Pending? && !After(inputs, init)[i].Pending? {
        var k :| 0 <= k < |init| && init[k] == Event(i, After(inputs, init)[i]);
        assert events[k] == Event(i, After(inputs, events)[i]);
      }
    }
  }

  // ------------------------------------------------------------------ the first settlement decides

  lemma LastEvent(inputs: seq<Input>, events: seq<Event>, e: Event)
    ensures (events + [e])[..|events|] == events && (events + [e])[|events|] == e
  {
  }

  /** Once there is an outcome no later event changes it. */
  lemma {:induction false} OutcomeIsFinal(inputs: seq<Input>, events: seq<Event>, more: seq<Event>)
    requires Possible(inputs, events + more) && Reached(inputs, events) != Open
    ensures Reached(inputs, events + more) == Reached(inputs, events)
    decreases |more|
  {
    var all := events + more;
    if more == [] {
      assert all == events;
    } else {
      var init := more[..|more| - 1];
      assert all[..|all| - 1] == events + init;
      OutcomeIsFinal(inputs, events, init);
      RejectionStays(inputs, events + init);
      NoneMissing(After(inputs, events + init));
      assert all[|all| - 1] == more[|more| - 1];
    }
  }

  lemma {:induction false} PossibleBefore(inputs: seq<Input>, events: seq<Event>, m: nat)
    requires Possible(inputs, events) && m <= |events|
    ensures Possible(inputs, events[..m])
    decreases |events|
  {
    if m == |events| {
      assert events[..m] == events;
    } else {
      var init := events[..|events| - 1];
      PossibleBefore(inputs, init, m);
      assert init[..m] == events[..m];
    }
  }

  lemma {:induction false} NothingRejected(inputs: seq<Input>)
    requires forall i :: 0 <= i < |inputs| ==> !inputs[i].Rejected?
    ensures FirstRejected(inputs) == None
  {
    if inputs != [] { NothingRejected(inputs[..|inputs| - 1]); }
  }

  lemma {:induction false} NoRejection(inputs: seq<Input>, events: seq<Event>)
    requires forall i :: 0 <= i < |inputs| ==> !inputs[i].Rejected?
    requires forall j :: 0 <= j < |events| ==> !events[j].settled.Rejected?
    ensures Rejection(inputs, events) == None
  {
    if events == [] { NothingRejected(inputs); } else { NoRejection(inputs, events[..|events| - 1]); }
  }

  /** When no argument is rejected to begin with, the first event that rejects one decides, with its
      own reason, whatever happens later. */
  lemma FirstRejectionDecides(inputs: seq<Input>, events: seq<Event>, k: nat, m: nat)
    requires Possible(inputs, events) && forall i :: 0 <= i < |inputs| ==> !inputs[i].Rejected?
    requires k < m <= |events| && events[k].settled.Rejected?
    requires forall j :: 0 <= j < k ==> !events[j].settled.Rejected?
    ensures Reached(inputs, events[..m]) == Failed(events[k].settled.reason)
  {
    var first, more := events[..k] + [events[k]], events[k + 1..m];
    DecidedBy(inputs, events[..k], events[k]);
    assert events[..m] == first + more;
    PossibleBefore(inputs, events, m);
    OutcomeIsFinal(inputs, first, more);
  }

  lemma DecidedBy(inputs: seq<Input>, before: seq<Event>, e: Event)
    requires forall i :: 0 <= i < |inputs| ==> !inputs[i].Rejected?
    requires e.settled.Rejected? && forall j :: 0 <= j < |before| ==> !before[j].settled.Rejected?
    ensures Reached(inputs, before + [e]) == Failed(e.settled.reason)
  {
    NoRejection(inputs, before);
    LastEvent(inputs, before, e);
    assert Rejection(inputs, before + [e]) == Some(e.settled.reason);
  }

  lemma {:induction false} LeftmostRejected(inputs: seq<Input>, i: nat)
    requires i < |inputs| && inputs[i].Rejected? && forall j :: 0 <= j < i ==> !inputs[j].Rejected?
    ensures FirstRejected(inputs) == Some(inputs[i].reason)
  {
    var init := inputs[..|inputs| - 1];
    if i == |inputs| - 1 {
      NothingRejected(init);
    } else {
      LeftmostRejected(init, i);
    }
  }

  /** When some argument is rejected to begin with, the leftmost of these decides. */
  lemma RejectedFromTheStart(inputs: seq<Input>, i: nat, events: seq<Event>)
    requires Possible(inputs, events)
    requires i < |inputs| && inputs[i].Rejected? && forall j :: 0 <= j < i ==> !inputs[j].Rejected?
    ensures Reached(inputs, events) == Failed(inputs[i].reason)
  {
    LeftmostRejected(inputs, i);
    assert [] + events == events;
    OutcomeIsFinal(inputs, [], events);
  }

  /** Two promises that are rejected one after the other. */
  lemma SecondRejectionIsIgnored(a: nat, b: nat)
    ensures var events := [Event(0, Rejected(a)), Event(1, Rejected(b))];
            Possible([Pending, Pending], events) && Reached([Pending, Pending], events) == Failed(a)
  {
    var inputs := [Pending, Pending];
    var one := [Event(0, Rejected(a))];
    var events := one + [Event(1, Rejected(b))];
    assert one[..0] == [] && events[..1] == one;
    assert After(inputs, one) == [Rejected(a), Pending];
    assert Possible(inputs, one) && Possible(inputs, events);
    assert events == [Event(0, Rejected(a)), Event(1, Rejected(b))] && events[0].settled == Rejected(a);
    assert events[..2] == events;
    FirstRejectionDecides(inputs, events, 0, 2);
    assert Reached(inputs, events) == Failed(a);
  }
}

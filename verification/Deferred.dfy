/** jQuery's Deferred: two callback lists that cancel each other, run by callbacks that may
    themselves add callbacks, resolve, reject or throw. */
module Deferred {
  import opened Sequences
  import opened Wrappers

  /** A function on a callback list: one a user registered, or the `cancel` of the other list. */
  datatype Callback = User(id: nat) | CancelOther

  /** An argument of `done`: a function, an array of arguments, or anything else. */
  datatype Arg = Function(cb: Callback) | Array(args: seq<Arg>) | Other

  /** The variables of one `_Deferred`; `fired` holds the context and arguments as one value. */
  datatype CallbackState = CallbackState(callbacks: seq<Callback>, fired: Option<nat>, firing: bool, cancelled: bool)

  /** The functions among the arguments, arrays opened in place. */
  function Flatten(args: seq<Arg>): seq<Callback> {
    if args == [] then [] else FlattenOne(args[0]) + Flatten(args[1..])
  }

  function FlattenOne(arg: Arg): seq<Callback> {
    match arg
    case Function(cb) => [cb]
    case Array(inner) => Flatten(inner)
    case Other => []
  }

  lemma {:induction false} FlattenJoin(a: seq<Arg>, b: seq<Arg>)
    ensures Flatten(a + b) == Flatten(a) + Flatten(b)
  {
    if a == [] {
      assert a + b == b;
    } else {
      var rest := a[1..];
      FlattenJoin(rest, b);
      assert a + b == [a[0]] + (rest + b) && a == [a[0]] + rest;
      FlattenFront(a[0], rest + b);
      FlattenFront(a[0], rest);
      JoinAgain(FlattenOne(a[0]), Flatten(rest), Flatten(b));
    }
  }

  lemma FlattenFront(arg: Arg, rest: seq<Arg>)
    ensures Flatten([arg] + rest) == FlattenOne(arg) + Flatten(rest)
  {
    assert ([arg] + rest)[1..] == rest;
  }

  lemma FlattenMiddle(args: seq<Arg>, middle: seq<Arg>, rest: seq<Arg>)
    ensures Flatten(args + middle + rest) == Flatten(args) + Flatten(middle) + Flatten(rest)
  {
    FlattenJoin(args + middle, rest);
    FlattenJoin(args, middle);
  }

  lemma FlattenSingle(arg: Arg)
    ensures Flatten([arg]) == FlattenOne(arg)
  {
    assert [arg][1..] == [];
    assert FlattenOne(arg) + [] == FlattenOne(arg);
  }

  /** An array counts as its elements in its place, however deep it is nested. */
  lemma ArrayIsOpened(args: seq<Arg>, inner: seq<Arg>, rest: seq<Arg>)
    ensures Flatten(args + [Array(inner)] + rest) == Flatten(args + inner + rest)
  {
    FlattenMiddle(args, [Array(inner)], rest);
    FlattenMiddle(args, inner, rest);
    FlattenSingle(Array(inner));
  }

  /** A function counts as itself, anything else as nothing. */
  lemma OnlyFunctionsCount(args: seq<Arg>, cb: Callback, rest: seq<Arg>)
    ensures Flatten(args + [Function(cb)] + rest) == Flatten(args) + [cb] + Flatten(rest)
    ensures Flatten(args + [Other] + rest) == Flatten(args) + Flatten(rest)
  {
    FlattenMiddle(args, [Function(cb)], rest);
    FlattenSingle(Function(cb));
    FlattenMiddle(args, [Other], rest);
    FlattenSingle(Other);
    assert Flatten(args) + [] == Flatten(args);
  }

  /** The first `i` arguments are pushed. */
  ghost predicate Pushed(before: seq<Callback>, now: seq<Callback>, args: seq<Arg>, i: nat)
    requires i <= |args|
  {
    now + Flatten(args[i..]) == before + Flatten(args)
  }

  lemma PushOne(before: seq<Callback>, now: seq<Callback>, args: seq<Arg>, i: nat)
    requires i < |args| && Pushed(before, now, args, i)
    ensures Pushed(before, now + FlattenOne(args[i]), args, i + 1)
  {
    assert args[i..][0] == args[i] && args[i..][1..] == args[i + 1..];
    assert now + FlattenOne(args[i]) + Flatten(args[i + 1..]) == now + Flatten(args[i..]);
  }

  lemma PushedAll(before: seq<Callback>, now: seq<Callback>, args: seq<Arg>)
    requires Pushed(before, now, args, |args|)
    ensures now == before + Flatten(args)
  {
    assert now + Flatten(args[|args|..]) == now;
  }

  /** `done`: the pushes, with `fired` taken away; the list fires again if it had fired. */
  function Add(l: CallbackState, cbs: seq<Callback>): CallbackState {
    if l.cancelled then l else l.(callbacks := l.callbacks + cbs, fired := None)
  }

  function Refires(l: CallbackState): Option<nat> {
    if l.cancelled then None else l.fired
  }

  predicate CanFire(l: CallbackState) {
    !l.cancelled && l.fired.None? && !l.firing
  }

  /** One `_Deferred`. A resolution is split where user code can run between: `Begin`, one
      `Shift` per callback, and `Finish`, which is the `finally` block. */
  class CallbackList {
    var callbacks: seq<Callback>
    var fired: Option<nat>
    var firing: bool
    var cancelled: bool

    function View(): CallbackState
      reads this
    {
      CallbackState(callbacks, fired, firing, cancelled)
    }

    constructor ()
      ensures View() == CallbackState([], None, false, false)
    {
      callbacks, fired, firing, cancelled := [], None, false, false;
    }

    /** `done` up to the call of `resolveWith`; `refire` is what that call gets. */
    method Done(args: seq<Arg>) returns (refire: Option<nat>)
      modifies this
      ensures View() == Add(old(View()), Flatten(args)) && refire == Refires(old(View()))
      decreases args
    {
      refire := None;
      if !cancelled {
        refire, fired := fired, None;
        ghost var before := callbacks;
        var i := 0;
        while i < |args|
          invariant 0 <= i <= |args| && !cancelled && fired == None && firing == old(firing)
          invariant Pushed(before, callbacks, args, i)
        {
          PushOne(before, callbacks, args, i);
          match args[i] {
            case Function(cb) => callbacks := callbacks + [cb];
            case Array(inner) => var nested := Done(inner);
            case Other => assert callbacks + [] == callbacks;
          }
          i := i + 1;
        }
        PushedAll(before, callbacks, args);
      }
    }

    /** The guard of `resolveWith`. */
    method Begin() returns (started: bool)
      modifies this
      ensures started == CanFire(old(View()))
      ensures View() == if started then old(View()).(firing := true) else old(View())
    {
      started := !cancelled && fired.None? && !firing;
      if started { firing := true; }
    }

    /** `callbacks.shift()` in the loop of `resolveWith`. */
    method Shift() returns (cb: Option<Callback>)
      modifies this
      ensures old(callbacks) == [] ==> cb == None && View() == old(View())
      ensures old(callbacks) != [] ==>
                cb == Some(old(callbacks)[0]) && View() == old(View()).(callbacks := old(callbacks)[1..])
    {
      if callbacks == [] { return None; }
      cb := Some(callbacks[0]);
      callbacks := callbacks[1..];
    }

    method Finish(value: nat)
      modifies this
      ensures View() == old(View()).(fired := Some(value), firing := false)
    {
      fired, firing := Some(value), false;
    }

    method IsResolved() returns (b: bool)
      ensures b == Settled(View())
    {
      b := firing || fired.Some?;
    }

    method Cancel()
      modifies this
      ensures View() == old(View()).(cancelled := true, callbacks := [])
    {
      cancelled, callbacks := true, [];
    }
  }

  /** `isResolved`. */
  predicate Settled(l: CallbackState) {
    l.firing || l.fired.Some?
  }

  // ------------------------------------------------------------------ the machine

  datatype Side = DoneSide | FailSide

  function Opposite(x: Side): Side {
    if x.DoneSide? then FailSide else DoneSide
  }

  /** What is running: user code (the caller, or a callback), or the loop of `resolveWith`. */
  datatype Frame = UserCode | Firing(side: Side, value: nat)

  /** What happened to one list: the user callbacks registered on it while it was alive, those
      run, and the values they were run with. */
  datatype History = History(registered: seq<nat>, ran: seq<nat>, values: seq<nat>)

  datatype State = State(done: CallbackState, fail: CallbackState, stack: seq<Frame>,
                         doneHistory: History, failHistory: History)
  {
    function List(x: Side): CallbackState { if x.DoneSide? then done else fail }

    function Past(x: Side): History { if x.DoneSide? then doneHistory else failHistory }

    function With(x: Side, l: CallbackState): State {
      if x.DoneSide? then this.(done := l) else this.(fail := l)
    }

    function WithPast(x: Side, h: History): State {
      if x.DoneSide? then this.(doneHistory := h) else this.(failHistory := h)
    }

    function Top(): Frame
      requires stack != []
    {
      stack[|stack| - 1]
    }

    function Push(f: Frame): State { this.(stack := stack + [f]) }

    function Pop(): State
      requires stack != []
    {
      this.(stack := stack[..|stack| - 1])
    }
  }

  /** A deferred after its construction: each list starts with the cancel of the other. */
  function Fresh(): State {
    var l := CallbackState([CancelOther], None, false, false);
    State(l, l, [UserCode], History([], [], []), History([], [], []))
  }

  /** Whatever user code may do next, and the rounds of the firing loop. */
  datatype Step =
    | CallAdd(side: Side, ids: seq<nat>)
    | CallResolve(side: Side, value: nat)
    | Return
    | Throw
    | Round

  function Users(ids: seq<nat>): (cbs: seq<Callback>)
    ensures |cbs| == |ids| && forall i :: 0 <= i < |cbs| ==> cbs[i] == User(ids[i])
  {
    seq(|ids|, i requires 0 <= i < |ids| => User(ids[i]))
  }

  predicate Enabled(s: State, step: Step) {
    s.stack != [] &&
    match step
    case CallAdd(_, _) => s.Top().UserCode?
    case CallResolve(_, _) => s.Top().UserCode?
    case Return => s.Top().UserCode? && |s.stack| > 1
    case Throw => s.Top().UserCode? && |s.stack| > 1 && s.stack[|s.stack| - 2].Firing?
    case Round => s.Top().Firing?
  }

  /** `resolveWith(value)` on one list, up to its loop. */
  function StartFiring(s: State, x: Side, value: nat): State {
    if CanFire(s.List(x)) then s.With(x, s.List(x).(firing := true)).Push(Firing(x, value)) else s
  }

  function Next(s: State, step: Step): State
    requires Enabled(s, step)
  {
    match step
    case CallAdd(x, ids) =>
      var l, h := s.List(x), s.Past(x);
      var added := s.With(x, Add(l, Users(ids)))
                    .WithPast(x, if l.cancelled then h else h.(registered := h.registered + ids));
      if Refires(l).Some? then StartFiring(added, x, Refires(l).value) else added
    case CallResolve(x, value) => StartFiring(s, x, value)
    case Return => s.Pop()
    case Throw => FinishFiring(s.Pop())
    case Round =>
      var x, l := s.Top().side, s.List(s.Top().side);
      if l.callbacks == [] then FinishFiring(s)
      else
        var shifted := s.With(x, l.(callbacks := l.callbacks[1..]));
        match l.callbacks[0]
        case CancelOther =>
          var other := s.List(Opposite(x));
          shifted.With(Opposite(x), other.(cancelled := true, callbacks := []))
        case User(id) =>
          var h := s.Past(x);
          shifted.WithPast(x, h.(ran := h.ran + [id], values := h.values + [s.Top().value])).Push(UserCode)
  }

  /** The `finally` block of the loop on top of the stack. */
  function FinishFiring(s: State): State
    requires s.stack != [] && s.Top().Firing?
  {
    var x, v := s.Top().side, s.Top().value;
    s.With(x, s.List(x).(fired := Some(v), firing := false)).Pop()
  }

  /** The states along a run. */
  ghost predicate Run(s: State, steps: seq<Step>, s': State)
    decreases |steps|
  {
    if steps == [] then s' == s
    else Enabled(s, steps[0]) && Run(Next(s, steps[0]), steps[1..], s')
  }

  // ------------------------------------------------------------------ the deferred object

  function Functions(ids: seq<nat>): seq<Arg> {
    seq(|ids|, i requires 0 <= i < |ids| => Function(User(ids[i])))
  }

  lemma {:induction false} FlattenFunctions(ids: seq<nat>)
    ensures Flatten(Functions(ids)) == Users(ids)
  {
    if ids != [] {
      FlattenFunctions(ids[1..]);
      assert Functions(ids)[1..] == Functions(ids[1..]);
      assert Users(ids) == [User(ids[0])] + Users(ids[1..]);
    }
  }

  /** A `Deferred` with its two lists and the calls that are running. */
  class DeferredObject {
    const done: CallbackList
    const fail: CallbackList
    var stack: seq<Frame>
    ghost var doneHistory: History
    ghost var failHistory: History

    ghost predicate Valid()
      reads this
    {
      done != fail
    }

    ghost function View(): State
      reads this, done, fail
    {
      State(done.View(), fail.View(), stack, doneHistory, failHistory)
    }

    function List(x: Side): CallbackList {
      if x.DoneSide? then done else fail
    }

    /** `deferred.done( failDeferred.cancel ).fail( deferred.cancel )`. */
    constructor ()
      ensures Valid() && View() == Fresh() && fresh(done) && fresh(fail)
    {
      done := new CallbackList();
      fail := new CallbackList();
      stack := [UserCode];
      doneHistory, failHistory := History([], [], []), History([], [], []);
      new;
      var _ := done.Done([Function(CancelOther)]);
      var _ := fail.Done([Function(CancelOther)]);
    }

    /** One step of whatever runs: user code calls a method, returns or throws, or the loop of
        `resolveWith` goes on. */
    method Advance(step: Step)
      requires Valid() && Enabled(View(), step)
      modifies this, done, fail
      ensures Valid() && View() == Next(old(View()), step)
    {
      match step {
        case CallAdd(x, ids) => CallDone(x, ids);
        case CallResolve(x, value) => ResolveWith(x, value);
        case Return => stack := stack[..|stack| - 1];
        case Throw =>
          stack := stack[..|stack| - 1];
          EndLoop();
        case Round => NextRound();
      }
    }

    /** `done(functions)` or `fail(functions)`. */
    method CallDone(x: Side, ids: seq<nat>)
      requires Valid() && Enabled(View(), CallAdd(x, ids))
      modifies this, done, fail
      ensures Valid() && View() == Next(old(View()), CallAdd(x, ids))
    {
      FlattenFunctions(ids);
      ghost var alive := !List(x).cancelled;
      var refire := List(x).Done(Functions(ids));
      if alive {
        if x.DoneSide? {
          doneHistory := doneHistory.(registered := doneHistory.registered + ids);
        } else {
          failHistory := failHistory.(registered := failHistory.registered + ids);
        }
      }
      if refire.Some? {
        ResolveWith(x, refire.value);
      }
    }

    /** `resolveWith` or `rejectWith` up to its loop. */
    method ResolveWith(x: Side, value: nat)
      requires Valid()
      modifies this`stack, done, fail
      ensures Valid() && View() == StartFiring(old(View()), x, value)
    {
      var started := List(x).Begin();
      if started { stack := stack + [Firing(x, value)]; }
    }

    /** One round of the loop. */
    method NextRound()
      requires Valid() && Enabled(View(), Round)
      modifies this, done, fail
      ensures Valid() && View() == Next(old(View()), Round)
    {
      var x, value := stack[|stack| - 1].side, stack[|stack| - 1].value;
      var cb := List(x).Shift();
      match cb {
        case None => EndLoop();
        case Some(CancelOther) => List(Opposite(x)).Cancel();
        case Some(User(id)) =>
          if x.DoneSide? {
            doneHistory := doneHistory.(ran := doneHistory.ran + [id], values := doneHistory.values + [value]);
          } else {
            failHistory := failHistory.(ran := failHistory.ran + [id], values := failHistory.values + [value]);
          }
          stack := stack + [UserCode];
      }
    }

    /** The `finally` block, however the loop ends. */
    method EndLoop()
      requires Valid() && stack != [] && View().Top().Firing?
      modifies this`stack, done, fail
      ensures Valid() && View() == FinishFiring(old(View()))
    {
      var frame := stack[|stack| - 1];
      List(frame.side).Finish(frame.value);
      stack := stack[..|stack| - 1];
    }

    /** `isResolved` and `isRejected`. */
    method IsSettled(x: Side) returns (b: bool)
      ensures b == Settled(View().List(x))
    {
      b := List(x).IsResolved();
    }
  }
}

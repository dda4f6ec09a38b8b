/** Server-side processing in DataTables: every draw asks the server, and replies to older draws are
    dropped by their echo. */
module ServerSide {
  type Rows = seq<seq<string>>

  /** The table and the requests that have no reply yet; `last` numbers the last request, 0 being none. */
  datatype State = State(iDraw: nat, bDeferLoading: bool, aoData: Rows, inFlight: set<nat>, last: nat)

  datatype Event = Draw | Reply(sEcho: nat)

  /** What the server answers to each request; it echoes the number faithfully. */
  type Server = nat -> Rows

  predicate Enabled(s: State, e: Event) {
    e.Reply? ==> e.sEcho in s.inFlight
  }

  predicate Accepted(s: State, e: Event) {
    e.Reply? && e.sEcho >= s.iDraw
  }

  function Next(s: State, e: Event, server: Server): State {
    match e
    case Draw =>
      if s.bDeferLoading then s.(iDraw := s.iDraw + 1, bDeferLoading := false)
      else s.(iDraw := s.iDraw + 1, inFlight := s.inFlight + {s.iDraw + 1}, last := s.iDraw + 1)
    case Reply(n) =>
      var arrived := s.(inFlight := s.inFlight - {n});
      if n < s.iDraw then arrived else arrived.(iDraw := n, aoData := server(n))
  }

  function Start(bDeferLoading: bool, aoData: Rows): State {
    State(0, bDeferLoading, aoData, {}, 0)
  }

  function Run(s: State, events: seq<Event>, server: Server): State
    decreases |events|
  {
    if events == [] then s else Run(Next(s, events[0], server), events[1..], server)
  }

  ghost predicate Possible(s: State, events: seq<Event>, server: Server)
    decreases |events|
  {
    events != [] ==> Enabled(s, events[0]) && Possible(Next(s, events[0], server), events[1..], server)
  }

  /** The draw counter is the number of the last request, and its rows are shown once they are here. */
  ghost predicate Current(s: State, server: Server) {
    && (forall n :: n in s.inFlight ==> 0 < n <= s.last)
    && (s.last != 0 ==> s.iDraw == s.last && !s.bDeferLoading)
    && (s.last != 0 && s.last !in s.inFlight ==> s.aoData == server(s.last))
  }

  lemma {:induction false} CurrentRun(s: State, events: seq<Event>, server: Server)
    requires Current(s, server) && Possible(s, events, server)
    ensures Current(Run(s, events, server), server)
    decreases |events|
  {
    if events != [] {
      CurrentRun(Next(s, events[0], server), events[1..], server);
    }
  }

  /** Over every interleaving, a reply is accepted exactly if it answers the last request. */
  lemma StaleRepliesAreDropped(bDeferLoading: bool, aoData: Rows, events: seq<Event>, e: Event, server: Server)
    requires Possible(Start(bDeferLoading, aoData), events, server)
    requires Enabled(Run(Start(bDeferLoading, aoData), events, server), e)
    ensures var s := Run(Start(bDeferLoading, aoData), events, server);
            Accepted(s, e) <==> e.Reply? && e.sEcho == s.last
  {
    CurrentRun(Start(bDeferLoading, aoData), events, server);
  }

  /** When every reply is here, the table holds the rows of the last request. */
  lemma LastRequestWins(bDeferLoading: bool, aoData: Rows, events: seq<Event>, server: Server)
    requires Possible(Start(bDeferLoading, aoData), events, server)
    ensures var s := Run(Start(bDeferLoading, aoData), events, server);
            s.inFlight == {} ==> s.aoData == if s.last == 0 then aoData else server(s.last)
  {
    CurrentRun(Start(bDeferLoading, aoData), events, server);
    KeptUntilAsked(Start(bDeferLoading, aoData), events, server);
  }

  /** Without a request nothing arrives, and requests are not forgotten. */
  lemma {:induction false} KeptUntilAsked(s: State, events: seq<Event>, server: Server)
    requires Current(s, server) && Possible(s, events, server)
    ensures Run(s, events, server).last == 0 ==> s.last == 0 && Run(s, events, server).aoData == s.aoData
    decreases |events|
  {
    if events != [] {
      KeptUntilAsked(Next(s, events[0], server), events[1..], server);
    }
  }

  /** A draw of a table that is not deferred sends one request, with a number of its own. */
  lemma DrawAsks(s: State, server: Server)
    requires Current(s, server) && (s.last == 0 ==> s.inFlight == {})
    ensures var t := Next(s, Draw, server);
            && t.iDraw == s.iDraw + 1 && !t.bDeferLoading
            && if s.bDeferLoading then t.inFlight == s.inFlight && t.last == s.last
               else t.last == t.iDraw && t.last !in s.inFlight && t.inFlight == s.inFlight + {t.last}
  {
  }

  function Draws(events: seq<Event>): nat {
    if events == [] then 0 else (if events[0].Draw? then 1 else 0) + Draws(events[1..])
  }

  lemma {:induction false} RequestsFrom(s: State, events: seq<Event>, server: Server)
    requires Current(s, server) && Possible(s, events, server) && !s.bDeferLoading && s.iDraw >= s.last
    requires s.last == 0 ==> s.inFlight == {}
    ensures Run(s, events, server).last == if Draws(events) == 0 then s.last else s.iDraw + Draws(events)
    decreases |events|
  {
    if events != [] {
      RequestsFrom(Next(s, events[0], server), events[1..], server);
    }
  }

  /** Over every run the last request has the number of the draws, except that a deferred first draw
      sends none. */
  lemma RequestsAreDraws(bDeferLoading: bool, aoData: Rows, events: seq<Event>, server: Server)
    requires Possible(Start(bDeferLoading, aoData), events, server)
    ensures Run(Start(bDeferLoading, aoData), events, server).last
         == if bDeferLoading && Draws(events) == 1 then 0 else Draws(events)
  {
    if !bDeferLoading {
      RequestsFrom(Start(bDeferLoading, aoData), events, server);
    } else if events != [] {
      RequestsFrom(Next(Start(bDeferLoading, aoData), events[0], server), events[1..], server);
    }
  }

  class Table {
    const server: Server
    var iDraw: nat
    var bDeferLoading: bool
    var aoData: Rows
    /** The requests on their way, which the network keeps. */
    var inFlight: set<nat>
    ghost var last: nat

    ghost function Now(): State
      reads this
    {
      State(iDraw, bDeferLoading, aoData, inFlight, last)
    }

    constructor (server: Server, bDeferLoading: bool, aoData: Rows)
      ensures Now() == Start(bDeferLoading, aoData) && Current(Now(), server) && this.server == server
    {
      this.server, this.iDraw, this.bDeferLoading := server, 0, bDeferLoading;
      this.aoData, inFlight, last := aoData, {}, 0;
    }

    /** The server-side part of `_fnDraw` with `_fnAjaxUpdate`. */
    method DrawTable()
      modifies this
      ensures Now() == Next(old(Now()), Draw, server)
      ensures old(Current(Now(), server)) ==> Current(Now(), server)
    {
      if bDeferLoading {
        bDeferLoading := false;
        iDraw := iDraw + 1;
      } else {
        iDraw := iDraw + 1;
        inFlight := inFlight + {iDraw};
        last := iDraw;
      }
    }

    /** `_fnAjaxUpdateDraw` on a reply that arrives, without infinite scrolling. */
    method AjaxUpdateDraw(sEcho: nat)
      requires Enabled(Now(), Reply(sEcho))
      modifies this
      ensures Now() == Next(old(Now()), Reply(sEcho), server)
      ensures old(Current(Now(), server)) ==> Current(Now(), server)
      ensures old(Current(Now(), server)) ==> aoData == if sEcho == last then server(sEcho) else old(aoData)
    {
      inFlight := inFlight - {sEcho};
      if sEcho < iDraw {
        return;
      } else {
        iDraw := sEcho;
      }
      var aData := server(sEcho);
      aoData := [];
      for i := 0 to |aData|
        invariant aoData == aData[..i]
        invariant iDraw == sEcho && inFlight == old(inFlight) - {sEcho} && last == old(last)
                  && bDeferLoading == old(bDeferLoading)
      {
        aoData := aoData + [aData[i]];
      }
      assert aData[..|aData|] == aData;
    }
  }
}

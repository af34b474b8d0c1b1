/** The file ids a daemon connection hands out and the descriptors behind them. */
module DaemonFiles {

  // ---------------------------------------------------------------------------
  // Requests and what the system answers
  // ---------------------------------------------------------------------------

  /** A request together with the outcome of the system call it leads to; End is the end of a connection. */
  datatype Request =
    | Open(hasPath: bool, fd: int)
    | Close(id: int, fails: bool)
    | Use(id: int)
    | Other
    | End

  datatype Response = Invalid | Opened(id: nat) | OpenFailed | Closed(success: bool) | Used(fd: nat) | Answered | Gone

  /** A system call on descriptors, with the id for which it was made. */
  datatype Call = OpenCall(id: nat, fd: nat) | CloseCall(id: nat, fd: nat)

  /** The table and the counter of the process, and the calls made so far. */
  datatype State = State(fdMap: map<nat, nat>, fdCount: nat, calls: seq<Call>)

  function Handle(s: State, r: Request): (State, Response)
    requires !r.End?
  {
    match r
    case Open(hasPath, fd) =>
      if !hasPath then (s, Invalid)
      else if fd < 0 then (s, OpenFailed)
      else (State(s.fdMap[s.fdCount := fd], s.fdCount + 1, s.calls + [OpenCall(s.fdCount, fd)]), Opened(s.fdCount))
    case Close(id, fails) =>
      if id !in s.fdMap then (s, Invalid)
      else (State(s.fdMap - {id}, s.fdCount, s.calls + [CloseCall(id, s.fdMap[id])]), Closed(!fails))
    case Use(id) =>
      if id !in s.fdMap then (s, Invalid) else (s, Used(s.fdMap[id]))
    case Other => (s, Answered)
  }

  /** Every descriptor of a table closed once, in whatever order the table is walked. */
  predicate IsWalk(fdMap: map<nat, nat>, closes: seq<Call>) {
    && (forall k :: 0 <= k < |closes| ==> closes[k].CloseCall? && closes[k].id in fdMap && closes[k].fd == fdMap[closes[k].id])
    && (forall j, k :: 0 <= j < k < |closes| ==> closes[j].id != closes[k].id)
    && (forall id :: id in fdMap ==> CloseCall(id, fdMap[id]) in closes)
  }

  /** The end of a connection closes what is still in the table. */
  predicate Ends(s: State, s': State) {
    && s'.fdMap == map[] && s'.fdCount == s.fdCount
    && s.calls <= s'.calls && IsWalk(s.fdMap, s'.calls[|s.calls|..])
  }

  predicate Next(s: State, r: Request, s': State) {
    if r.End? then Ends(s, s') else s' == Handle(s, r).0
  }

  /** Descriptors that are open: those whose last call opened them. */
  function OpenFds(calls: seq<Call>): set<nat>
    decreases |calls|
  {
    if calls == [] then {}
    else AfterCall(OpenFds(calls[..|calls| - 1]), calls[|calls| - 1])
  }

  function AfterCall(open: set<nat>, c: Call): set<nat> {
    match c
    case OpenCall(_, fd) => open + {fd}
    case CloseCall(_, fd) => open - {fd}
  }

  /** open never returns a descriptor that is already open. */
  predicate SystemAllows(s: State, r: Request) {
    r.Open? && r.hasPath && r.fd >= 0 ==> r.fd !in OpenFds(s.calls)
  }

  const INITIAL := State(map[], 0, [])

  /** A run: the states of the process, one request after the other, over any number of connections. */
  predicate IsRun(states: seq<State>, requests: seq<Request>) {
    && |states| == |requests| + 1
    && states[0] == INITIAL
    && forall i :: 0 <= i < |requests| ==> SystemAllows(states[i], requests[i]) && Next(states[i], requests[i], states[i + 1])
  }

  // ---------------------------------------------------------------------------
  // The invariant
  // ---------------------------------------------------------------------------

  /** The number of calls that closed an id. */
  function Closes(calls: seq<Call>, id: nat): nat {
    if calls == [] then 0
    else Closes(calls[..|calls| - 1], id) + if calls[|calls| - 1].CloseCall? && calls[|calls| - 1].id == id then 1 else 0
  }

  /** The ids in the order they were given out. */
  function Issued(calls: seq<Call>): seq<nat> {
    if calls == [] then []
    else Issued(calls[..|calls| - 1]) + if calls[|calls| - 1].OpenCall? then [calls[|calls| - 1].id] else []
  }

  /** The descriptor an id was opened with. */
  predicate WasOpened(calls: seq<Call>, id: nat, fd: nat) {
    OpenCall(id, fd) in calls
  }

  /** Every close is of a descriptor that is open at that moment and was opened under that id. */
  predicate Sane(calls: seq<Call>)
    decreases |calls|
  {
    calls == [] ||
    (var before, c := calls[..|calls| - 1], calls[|calls| - 1];
     Sane(before) && (c.CloseCall? ==> c.fd in OpenFds(before) && OpenCall(c.id, c.fd) in before))
  }

  /** Some id stands for the descriptor. */
  predicate Holds(fdMap: map<nat, nat>, fd: nat) {
    exists id :: id in fdMap && fdMap[id] == fd
  }

  ghost predicate Valid(s: State) {
    && Sane(s.calls)
    && Issued(s.calls) == seq(s.fdCount, i => i)
    && (forall id :: id in s.fdMap ==> id < s.fdCount && WasOpened(s.calls, id, s.fdMap[id]))
    && (forall a, b :: a in s.fdMap && b in s.fdMap && s.fdMap[a] == s.fdMap[b] ==> a == b)
    && (forall fd: nat :: fd in OpenFds(s.calls) <==> Holds(s.fdMap, fd))
    && (forall id: nat :: id < s.fdCount ==> Closes(s.calls, id) == if id in s.fdMap then 0 else 1)
    && (forall id: nat :: id >= s.fdCount ==> Closes(s.calls, id) == 0)
  }

  lemma OneMore(calls: seq<Call>, c: Call)
    ensures var all := calls + [c];
            && OpenFds(all) == AfterCall(OpenFds(calls), c)
            && (forall id: nat :: Closes(all, id) == Closes(calls, id) + if c.CloseCall? && c.id == id then 1 else 0)
            && Issued(all) == Issued(calls) + (if c.OpenCall? then [c.id] else [])
            && (Sane(all) <==> Sane(calls) && (c.CloseCall? ==> c.fd in OpenFds(calls) && OpenCall(c.id, c.fd) in calls))
            && (forall d :: d in all <==> d in calls || d == c)
  {
    var all := calls + [c];
    assert all[..|all| - 1] == calls;
  }

  lemma OpenKeepsValid(s: State, fd: nat)
    requires Valid(s) && fd !in OpenFds(s.calls)
    ensures Valid(Handle(s, Open(true, fd)).0)
  {
    hide OpenFds, Closes, Issued, Sane;
    var s' := Handle(s, Open(true, fd)).0;
    assert s'.calls == s.calls + [OpenCall(s.fdCount, fd)];
    OneMore(s.calls, OpenCall(s.fdCount, fd));
    assert seq(s'.fdCount, i => i) == seq(s.fdCount, i => i) + [s.fdCount];
    assert s.fdCount !in s.fdMap;
    forall x: nat ensures Holds(s'.fdMap, x) <==> Holds(s.fdMap, x) || x == fd {
      assert s'.fdMap[s.fdCount] == fd;
      if Holds(s.fdMap, x) {
        var id :| id in s.fdMap && s.fdMap[id] == x;
        assert s'.fdMap[id] == x;
      }
    }
  }

  /** Closing one descriptor of the table. */
  function Shut(s: State, id: nat): State
    requires id in s.fdMap
  {
    State(s.fdMap - {id}, s.fdCount, s.calls + [CloseCall(id, s.fdMap[id])])
  }

  lemma ShutKeepsValid(s: State, id: nat)
    requires Valid(s) && id in s.fdMap
    ensures Valid(Shut(s, id))
  {
    hide OpenFds, Closes, Issued, Sane;
    var s', fd := Shut(s, id), s.fdMap[id];
    assert s'.calls == s.calls + [CloseCall(id, fd)];
    OneMore(s.calls, CloseCall(id, fd));
    forall x: nat ensures Holds(s'.fdMap, x) <==> Holds(s.fdMap, x) && x != fd {
      if Holds(s.fdMap, x) && x != fd {
        var k :| k in s.fdMap && s.fdMap[k] == x;
        assert s'.fdMap[k] == x;
      }
    }
  }

  lemma HandleKeepsValid(s: State, r: Request)
    requires Valid(s) && !r.End? && SystemAllows(s, r)
    ensures Valid(Handle(s, r).0)
  {
    hide Valid;
    match r {
      case Open(hasPath, fd) =>
        if hasPath && fd >= 0 {
          OpenKeepsValid(s, fd);
        }
      case Close(id, _) =>
        if id in s.fdMap {
          ShutKeepsValid(s, id);
        }
      case Use(_) =>
      case Other =>
    }
  }

  /** An id that was given out for a descriptor and not closed since. */
  predicate IsOpenId(calls: seq<Call>, id: nat, fd: nat) {
    OpenCall(id, fd) in calls && Closes(calls, id) == 0
  }

  lemma {:induction false} OpenedOnce(calls: seq<Call>, id: nat, fd: nat, fd': nat, n: nat)
    requires Issued(calls) == seq(n, i => i) && OpenCall(id, fd) in calls && OpenCall(id, fd') in calls
    ensures fd == fd' && id < n
    decreases |calls|
  {
    var before, c := calls[..|calls| - 1], calls[|calls| - 1];
    assert calls == before + [c];
    if c.OpenCall? {
      LastIssued(before, c.id, n);
      OpenedIsIssued(before, n - 1);
      if OpenCall(id, fd) in before && OpenCall(id, fd') in before {
        OpenedOnce(before, id, fd, fd', n - 1);
      }
    } else {
      OpenedOnce(before, id, fd, fd', n);
    }
  }

  lemma LastIssued(before: seq<Call>, id: nat, n: nat)
    requires Issued(before) + [id] == seq(n, i => i)
    ensures n > 0 && id == n - 1 && Issued(before) == seq(n - 1, i => i)
  {
    hide Issued;
    var all := Issued(before) + [id];
    assert |all| == n && all[n - 1] == id && all[..n - 1] == Issued(before);
    assert seq(n, i => i)[..n - 1] == seq(n - 1, i => i);
  }

  lemma {:induction false} OpenedIsIssued(calls: seq<Call>, n: nat)
    requires Issued(calls) == seq(n, i => i)
    ensures forall id: nat, fd: nat :: OpenCall(id, fd) in calls ==> id < n
    decreases |calls|
  {
    if calls != [] {
      var before, c := calls[..|calls| - 1], calls[|calls| - 1];
      assert calls == before + [c];
      if c.OpenCall? {
        LastIssued(before, c.id, n);
        OpenedIsIssued(before, n - 1);
      } else {
        OpenedIsIssued(before, n);
      }
    }
  }

  lemma TableIsOpenIds(s: State, id: nat, fd: nat)
    requires Valid(s)
    ensures id in s.fdMap && s.fdMap[id] == fd <==> IsOpenId(s.calls, id, fd)
  {
    hide OpenFds, Sane, Issued, Closes;
    if OpenCall(id, fd) in s.calls && Closes(s.calls, id) == 0 {
      OpenedOnce(s.calls, id, fd, fd, s.fdCount);
      OpenedOnce(s.calls, id, fd, s.fdMap[id], s.fdCount);
    }
  }

  /**
   What each request is answered: a use reaches the descriptor its id was given out for, as long as that was not
   closed; a close makes that descriptor's close call; an open gives out an id that never was; anything else is invalid.
   */
  lemma AnswersExactly(s: State, r: Request)
    requires Valid(s) && !r.End?
    ensures var (s', answer) := Handle(s, r);
            match r
            case Use(id) =>
              && (forall fd: nat :: answer == Used(fd) <==> id >= 0 && IsOpenId(s.calls, id, fd))
              && (answer == Invalid <==> forall fd: nat :: id >= 0 ==> !IsOpenId(s.calls, id, fd))
            case Close(id, fails) =>
              && (forall fd: nat :: id >= 0 && IsOpenId(s.calls, id, fd) ==>
                    answer == Closed(!fails) && s'.calls == s.calls + [CloseCall(id, fd)] && id !in s'.fdMap)
              && (answer == Invalid <==> forall fd: nat :: id >= 0 ==> !IsOpenId(s.calls, id, fd))
            case Open(hasPath, fd) =>
              if !hasPath then answer == Invalid
              else if fd < 0 then answer == OpenFailed && s'.calls == s.calls
              else answer.Opened? && s'.calls == s.calls + [OpenCall(answer.id, fd)]
                   && (forall old_: nat :: OpenCall(answer.id, old_) !in s.calls)
            case Other => answer == Answered && s' == s
  {
    hide IsOpenId, Valid;
    match r {
      case Use(id) =>
        if id >= 0 {
          TableHolds(s, id);
        }
        KeysAreIds(s, id);
      case Close(id, _) =>
        if id >= 0 {
          TableHolds(s, id);
        }
        KeysAreIds(s, id);
      case Open(_, _) =>
        CounterIsFresh(s);
      case Other =>
    }
  }

  lemma TableHolds(s: State, id: nat)
    requires Valid(s)
    ensures forall fd: nat :: IsOpenId(s.calls, id, fd) <==> id in s.fdMap && s.fdMap[id] == fd
    ensures id in s.fdMap <==> exists fd: nat :: IsOpenId(s.calls, id, fd)
  {
    hide Valid, IsOpenId;
    forall fd: nat ensures IsOpenId(s.calls, id, fd) <==> id in s.fdMap && s.fdMap[id] == fd {
      TableIsOpenIds(s, id, fd);
    }
    if id in s.fdMap {
      assert IsOpenId(s.calls, id, s.fdMap[id]);
    }
  }

  lemma KeysAreIds(s: State, id: int)
    ensures id in s.fdMap ==> id >= 0
  {
  }

  lemma CounterIsFresh(s: State)
    requires Valid(s)
    ensures forall fd: nat :: OpenCall(s.fdCount, fd) !in s.calls
  {
    hide OpenFds, Sane, Issued, Closes;
    OpenedIsIssued(s.calls, s.fdCount);
  }

  /** The rest of the walk is one over the table without the id that is closed first. */
  lemma WalkTail(fdMap: map<nat, nat>, c: Call, later: seq<Call>)
    requires IsWalk(fdMap, [c] + later)
    ensures c.CloseCall? && c.id in fdMap && c.fd == fdMap[c.id] && IsWalk(fdMap - {c.id}, later)
  {
    var closes := [c] + later;
    assert closes[0] == c;
    var rest := fdMap - {c.id};
    forall k | 0 <= k < |later|
      ensures later[k].CloseCall? && later[k].id in rest && later[k].fd == rest[later[k].id]
    {
      assert later[k] == closes[k + 1];
    }
    forall j, k | 0 <= j < k < |later| ensures later[j].id != later[k].id {
      assert later[j] == closes[j + 1] && later[k] == closes[k + 1];
    }
    forall id | id in rest ensures CloseCall(id, rest[id]) in later {
      assert CloseCall(id, fdMap[id]) in closes;
    }
  }

  lemma EndAfterShut(s: State, s': State, c: Call, later: seq<Call>)
    requires Ends(s, s') && s'.calls[|s.calls|..] == [c] + later
    ensures c.id in s.fdMap && Ends(Shut(s, c.id), s')
  {
    hide IsWalk;
    WalkTail(s.fdMap, c, later);
    var mid := Shut(s, c.id);
    assert s'.calls == mid.calls + later;
  }

  lemma EndOfNothing(s: State, s': State)
    requires Ends(s, s') && s'.calls[|s.calls|..] == []
    ensures s' == s
  {
    assert s'.calls == s.calls + s'.calls[|s.calls|..];
    assert s.fdMap.Keys == {};
  }

  lemma {:induction false} EndKeepsValid(s: State, s': State)
    requires Valid(s) && Ends(s, s')
    ensures Valid(s')
    decreases |s'.calls| - |s.calls|
  {
    hide Valid;
    var closes := s'.calls[|s.calls|..];
    if closes == [] {
      EndOfNothing(s, s');
    } else {
      var c := closes[0];
      assert closes == [c] + closes[1..];
      EndAfterShut(s, s', c, closes[1..]);
      hide Ends;
      ShutKeepsValid(s, c.id);
      EndKeepsValid(Shut(s, c.id), s');
    }
  }

  lemma NothingHeld(s: State)
    requires Valid(s) && s.fdMap == map[]
    ensures OpenFds(s.calls) == {}
  {
    hide OpenFds, Closes, Issued, Sane;
  }

  lemma {:induction false} RunsAreValid(states: seq<State>, requests: seq<Request>, n: nat)
    requires IsRun(states, requests) && n < |states|
    ensures Valid(states[n])
  {
    if n > 0 {
      hide Valid;
      RunsAreValid(states, requests, n - 1);
      assert SystemAllows(states[n - 1], requests[n - 1]) && Next(states[n - 1], requests[n - 1], states[n - 1 + 1]);
      if requests[n - 1].End? {
        EndKeepsValid(states[n - 1], states[n]);
      } else {
        HandleKeepsValid(states[n - 1], requests[n - 1]);
      }
    }
  }

  // ---------------------------------------------------------------------------
  // What holds in every run
  // ---------------------------------------------------------------------------

  /** Ids are given out as 0, 1, 2, ... and never again, whatever was closed and however often clients reconnected. */
  lemma IdsAreNeverReissued(states: seq<State>, requests: seq<Request>, n: nat)
    requires IsRun(states, requests) && n < |states|
    ensures Issued(states[n].calls) == seq(states[n].fdCount, i => i)
    ensures forall id :: id in states[n].fdMap ==> id < states[n].fdCount
  {
    hide OpenFds, Closes, Issued, Sane, IsRun;
    RunsAreValid(states, requests, n);
  }

  /** The table holds each open descriptor once, under the id it was opened for. */
  lemma TableIsWhatIsOpen(states: seq<State>, requests: seq<Request>, n: nat)
    requires IsRun(states, requests) && n < |states|
    ensures forall fd: nat :: fd in OpenFds(states[n].calls) <==> Holds(states[n].fdMap, fd)
    ensures forall a, b :: a in states[n].fdMap && b in states[n].fdMap && states[n].fdMap[a] == states[n].fdMap[b] ==> a == b
    ensures forall id :: id in states[n].fdMap ==> OpenCall(id, states[n].fdMap[id]) in states[n].calls
    ensures Sane(states[n].calls)
  {
    hide OpenFds, Closes, Issued, Sane, IsRun;
    RunsAreValid(states, requests, n);
  }

  /** When a connection has ended, nothing is open and every id ever given out has been closed exactly once. */
  lemma NothingLeaks(states: seq<State>, requests: seq<Request>, n: nat)
    requires IsRun(states, requests) && n < |requests| && requests[n].End?
    ensures var calls := states[n + 1].calls;
            && OpenFds(calls) == {}
            && forall id: nat :: id < states[n + 1].fdCount ==> Closes(calls, id) == 1
  {
    assert Next(states[n], requests[n], states[n + 1]);
    hide OpenFds, Closes, Issued, Sane, IsRun;
    RunsAreValid(states, requests, n + 1);
    assert states[n + 1].fdMap == map[];
  }

  // ---------------------------------------------------------------------------
  // The daemon
  // ---------------------------------------------------------------------------

  predicate Allowed(s: State, requests: seq<Request>)
    decreases |requests|
  {
    requests == [] || (!requests[0].End? && SystemAllows(s, requests[0]) && Allowed(Handle(s, requests[0]).0, requests[1..]))
  }

  class Daemon {
    var fdMap: map<nat, nat>
    var fdCount: nat
    ghost var calls: seq<Call>

    ghost function Now(): State
      reads this
    {
      State(fdMap, fdCount, calls)
    }

    constructor ()
      ensures Now() == INITIAL
    {
      fdMap, fdCount, calls := map[], 0, [];
    }

    method FileOpen(hasPath: bool, fd: int) returns (response: Response)
      modifies this
      ensures (Now(), response) == Handle(old(Now()), Open(hasPath, fd))
    {
      if !hasPath {
        return Invalid;
      }
      if fd < 0 {
        return OpenFailed;
      }
      var id := fdCount;
      fdCount := fdCount + 1;
      fdMap := fdMap[id := fd];
      calls := calls + [OpenCall(id, fd)];
      response := Opened(id);
    }

    method FileClose(id: int, fails: bool) returns (response: Response)
      modifies this
      ensures (Now(), response) == Handle(old(Now()), Close(id, fails))
    {
      if id !in fdMap {
        return Invalid;
      }
      var fd := fdMap[id];
      fdMap := fdMap - {id};
      calls := calls + [CloseCall(id, fd)];
      response := Closed(!fails);
    }

    method FileUse(id: int) returns (response: Response)
      ensures (Now(), response) == Handle(Now(), Use(id))
    {
      if id !in fdMap {
        return Invalid;
      }
      response := Used(fdMap[id]);
    }

    /** The table is walked in any order. */
    method CloseAll()
      modifies this
      ensures Ends(old(Now()), Now())
    {
      ghost var s := Now();
      var left := fdMap;
      while left.Keys != {}
        invariant fdMap == s.fdMap && fdCount == s.fdCount && s.calls <= calls
        invariant forall id :: id in left ==> id in fdMap && left[id] == fdMap[id]
        invariant ClosedSoFar(s, left, calls[|s.calls|..])
        decreases left.Keys
      {
        ghost var before := calls[|s.calls|..];
        var id :| id in left;
        calls := calls + [CloseCall(id, left[id])];
        assert calls[|s.calls|..] == before + [CloseCall(id, left[id])];
        left := left - {id};
      }
      fdMap := map[];
    }

    method Dispatch(r: Request) returns (response: Response)
      requires !r.End?
      modifies this
      ensures (Now(), response) == Handle(old(Now()), r)
    {
      match r {
        case Open(hasPath, fd) => response := FileOpen(hasPath, fd);
        case Close(id, fails) => response := FileClose(id, fails);
        case Use(id) => response := FileUse(id);
        case Other => response := Answered;
      }
    }

    /** One connection: its requests, then the end. */
    method ConnectionVersion3(requests: seq<Request>)
      requires Valid(Now()) && Allowed(Now(), requests)
      modifies this
      ensures Valid(Now()) && fdMap == map[] && OpenFds(calls) == {}
      ensures fdCount >= old(fdCount) && old(calls) <= calls
    {
      hide Valid;
      for i := 0 to |requests|
        invariant Valid(Now()) && Allowed(Now(), requests[i..])
        invariant fdCount >= old(fdCount) && old(calls) <= calls
      {
        HandleKeepsValid(Now(), requests[i]);
        assert requests[i..][1..] == requests[i + 1..];
        var response := Dispatch(requests[i]);
      }
      ghost var s := Now();
      CloseAll();
      EndKeepsValid(s, Now());
      NothingHeld(Now());
    }
  }

  /** What the walk over the table has closed so far. */
  ghost predicate ClosedSoFar(s: State, left: map<nat, nat>, closes: seq<Call>) {
    && (forall k :: 0 <= k < |closes| ==> closes[k].CloseCall? && closes[k].id in s.fdMap && closes[k].fd == s.fdMap[closes[k].id])
    && (forall k :: 0 <= k < |closes| ==> closes[k].id !in left)
    && (forall j, k :: 0 <= j < k < |closes| ==> closes[j].id != closes[k].id)
    && (forall id :: id in s.fdMap && id !in left ==> CloseCall(id, s.fdMap[id]) in closes)
  }
}

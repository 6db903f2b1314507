/**
 Refreshes that overlap. The program reads a refresh record and later writes the exchange, and
 nothing watches the record in between. Here reading and writing are separate steps; Sessions
 treats a whole request as one step.
 */
module RefreshRaces {
  datatype Record = Valid | Used

  /** The records by token id, the requests that have read a valid record and not yet written, and all ids ever written. */
  datatype State = State(records: map<int, Record>, pending: map<int, int>, minted: set<int>)

  datatype Event =
    | Issue(rt: int)
    | Look(request: int, token: int)
    | Exchange(request: int, rt: int)
    | Lapse(token: int)

  /** Token ids are UUIDs, never written before; a request looks once and exchanges once, after it saw a valid record. */
  ghost predicate Enabled(s: State, e: Event) {
    match e
    case Issue(rt) => rt !in s.minted
    case Look(request, _) => request !in s.pending
    case Exchange(request, rt) => request in s.pending && rt !in s.minted
    case Lapse(_) => true
  }

  predicate IsValid(s: State, token: int) {
    token in s.records && s.records[token] == Valid
  }

  function Step(s: State, e: Event): State {
    match e
    case Issue(rt) => s.(records := s.records[rt := Valid], minted := s.minted + {rt})
    case Look(request, token) => if IsValid(s, token) then s.(pending := s.pending[request := token]) else s
    case Exchange(request, rt) =>
      if request !in s.pending then s
      else State(s.records[s.pending[request] := Used][rt := Valid], s.pending - {request}, s.minted + {rt})
    case Lapse(token) => s.(records := s.records - {token})
  }

  predicate Exchanges(s: State, e: Event, token: int) {
    e.Exchange? && e.request in s.pending && s.pending[e.request] == token
  }

  function Run(s: State, es: seq<Event>): State
    decreases |es|
  {
    if es == [] then s else Run(Step(s, es[0]), es[1..])
  }

  ghost predicate CanRun(s: State, es: seq<Event>)
    decreases |es|
  {
    es == [] || (Enabled(s, es[0]) && CanRun(Step(s, es[0]), es[1..]))
  }

  /** How often the run exchanges the token for a new pair. */
  function Count(s: State, es: seq<Event>, token: int): nat
    decreases |es|
  {
    if es == [] then 0 else (if Exchanges(s, es[0], token) then 1 else 0) + Count(Step(s, es[0]), es[1..], token)
  }

  /** The requests that saw the token valid and may still exchange it. */
  ghost function Waiting(s: State, token: int): set<int> {
    set q | q in s.pending && s.pending[q] == token
  }

  /** The token was written once, and its record is now a marker or gone. */
  ghost predicate Over(s: State, token: int) {
    token in s.minted && !IsValid(s, token)
  }

  const EMPTY := State(map[], map[], {})

  ghost predicate Reachable(s: State) {
    exists es :: CanRun(EMPTY, es) && s == Run(EMPTY, es)
  }

  /** Whatever is stored or waited for was written at some time. */
  ghost predicate Sound(s: State) {
    s.records.Keys <= s.minted && forall q | q in s.pending :: s.pending[q] in s.minted
  }

  lemma {:induction false} RunSound(s: State, es: seq<Event>)
    requires Sound(s) && CanRun(s, es)
    ensures Sound(Run(s, es))
    decreases |es|
  {
    if es != [] {
      RunSound(Step(s, es[0]), es[1..]);
    }
  }

  // ---- A token becomes valid only once

  lemma OverStays(s: State, e: Event, token: int)
    requires Enabled(s, e) && Over(s, token)
    ensures Over(Step(s, e), token)
    ensures Waiting(Step(s, e), token) == if Exchanges(s, e, token) then Waiting(s, token) - {e.request} else Waiting(s, token)
  {
  }

  /** However requests overlap, a record that stopped being valid never is again. */
  lemma {:induction false} NeverValidAgain(s: State, es: seq<Event>, token: int)
    requires CanRun(s, es) && Over(s, token)
    ensures Over(Run(s, es), token)
    decreases |es|
  {
    if es != [] {
      OverStays(s, es[0], token);
      NeverValidAgain(Step(s, es[0]), es[1..], token);
    }
  }

  // ---- How often a token can be exchanged

  /** Once over, a token is exchanged at most by the requests that had already seen it valid. */
  lemma {:induction false} OnlyTheWaiting(s: State, es: seq<Event>, token: int)
    requires CanRun(s, es) && Over(s, token)
    ensures Count(s, es, token) + |Waiting(Run(s, es), token)| == |Waiting(s, token)|
    decreases |es|
  {
    if es != [] {
      OverStays(s, es[0], token);
      if Exchanges(s, es[0], token) {
        assert es[0].request in Waiting(s, token);
      }
      OnlyTheWaiting(Step(s, es[0]), es[1..], token);
    }
  }

  lemma WaitingCanExchange(s: State, request: int, token: int, unused: int)
    requires request in s.pending && s.pending[request] == token && unused !in s.minted
    ensures CanRun(s, [Exchange(request, unused)]) && Count(s, [Exchange(request, unused)], token) > 0
  {
    var es := [Exchange(request, unused)];
    assert es[1..] == [] && CanRun(Step(s, es[0]), es[1..]);
    assert Exchanges(s, es[0], token);
  }

  /** After the first exchange, another one is possible exactly when a second request had read the record before it. */
  lemma SecondExchangeExactly(s: State, e: Event, token: int, unused: int)
    requires Reachable(s) && Enabled(s, e) && Exchanges(s, e, token) && unused !in s.minted + {e.rt}
    ensures (exists es :: CanRun(Step(s, e), es) && Count(Step(s, e), es, token) > 0) <==>
            exists q :: q in s.pending && q != e.request && s.pending[q] == token
  {
    var before :| CanRun(EMPTY, before) && s == Run(EMPTY, before);
    RunSound(EMPTY, before);
    var s1 := Step(s, e);
    assert forall q :: q in Waiting(s1, token) <==> q in s.pending && q != e.request && s.pending[q] == token;
    if q :| q in Waiting(s1, token) {
      WaitingCanExchange(s1, q, token, unused);
    } else {
      forall es | CanRun(s1, es) ensures Count(s1, es, token) == 0 {
        OnlyTheWaiting(s1, es, token);
      }
    }
  }

  /** Two overlapping refreshes of one token leave its holder with two valid records. */
  lemma OverlapGivesTwoSessions()
    ensures var es := [Issue(1), Look(10, 1), Look(11, 1), Exchange(10, 2), Exchange(11, 3)];
            CanRun(EMPTY, es) && Count(EMPTY, es, 1) == 2 && IsValid(Run(EMPTY, es), 2) && IsValid(Run(EMPTY, es), 3)
  {
  }
}

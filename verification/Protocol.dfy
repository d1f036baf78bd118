/** Any number of handlers, in any number of API processes, interleaved in any way. Each one
    counts its request, reads its process's clock, has its script run by Redis, learns the answer
    and counts the decision; a call can fail on the way to Redis or on the way back, and a call
    the client library has given up on may still run. */
module Protocol {
  import opened Types
  import opened Arithmetic
  import opened Counting
  import opened Redis
  import opened StoreRuns
  import opened Service
  import Scripts
  import Levels = TokenBucketLevels
  import BucketRuns = TokenBucketRuns
  import WindowRuns = FixedWindowRuns

  datatype Request = Request(id: string, algorithm: Algorithm, config: CheckedConfig)

  /** `nowMs` is the time the handler's process has read, `run` the place of the handler's script
      execution in the log. */
  datatype Phase =
    | Received(req: Request)
    | Clocked(req: Request, nowMs: int)
    | Answered(req: Request, nowMs: int, run: nat, answer: Result<Reply>)
    | Decided(req: Request, nowMs: int, run: nat, reply: Reply)
    | Told(req: Request, nowMs: int, run: nat, reply: Reply)
    | Abandoned(req: Request, nowMs: int)
    | Refused(req: Request)

  datatype System = System(keys: Keyspace, redisMs: int, handlers: seq<Phase>, log: seq<Exec>, counters: Counters)

  datatype Action =
    | Arrive(req: Request)
    | ReadClock(i: nat, nowMs: int)
    | RunScript(i: nat)
    | Deliver(i: nat)
    | Fail(i: nat)
    | CountDecided(i: nat)
    | Tick(ms: nat)

  function ExecOf(s: System, req: Request, nowMs: int): Exec {
    Exec(Call(req.id, req.algorithm, req.config, nowMs), s.redisMs)
  }

  /** One atomic step; an action that is not enabled does nothing. */
  function Next(s: System, a: Action): System {
    match a
    case Tick(ms) => s.(redisMs := s.redisMs + ms)
    case Arrive(req) =>
      s.(handlers := s.handlers + [Received(req)], counters := CountRequest(s.counters, req.algorithm))
    case _ => if a.i < |s.handlers| then Advance(s, a, a.i) else s
  }

  function Advance(s: System, a: Action, i: nat): System
    requires !a.Tick? && !a.Arrive? && i < |s.handlers|
  {
    match (a, s.handlers[i])
    case (ReadClock(_, nowMs), Received(req)) => s.(handlers := s.handlers[i := Clocked(req, nowMs)])
    case (RunScript(_), Clocked(req, nowMs)) =>
      var e := ExecOf(s, req, nowMs);
      s.(keys := NextKeys(s.keys, e), log := s.log + [e],
         handlers := s.handlers[i := Answered(req, nowMs, |s.log|, AnswerTo(s.keys, e))])
    case (RunScript(_), Abandoned(req, nowMs)) =>
      var e := ExecOf(s, req, nowMs);
      s.(keys := NextKeys(s.keys, e), log := s.log + [e], handlers := s.handlers[i := Refused(req)])
    case (Deliver(_), Answered(req, nowMs, run, Ok(reply))) =>
      s.(handlers := s.handlers[i := Decided(req, nowMs, run, reply)])
    case (Deliver(_), Answered(req, _, _, Err(_))) =>
      s.(handlers := s.handlers[i := Refused(req)], counters := CountError(s.counters))
    case (Fail(_), Clocked(req, nowMs)) =>
      s.(handlers := s.handlers[i := Abandoned(req, nowMs)], counters := CountError(s.counters))
    case (Fail(_), Answered(req, _, _, _)) =>
      s.(handlers := s.handlers[i := Refused(req)], counters := CountError(s.counters))
    case (CountDecided(_), Decided(req, nowMs, run, reply)) =>
      s.(handlers := s.handlers[i := Told(req, nowMs, run, reply)],
         counters := CountDecision(s.counters, req.algorithm, reply.allowed))
    case _ => s
  }

  function Initial(startMs: int): System {
    System(map[], startMs, [], [], NO_COUNTS)
  }

  /** The system after a schedule: any finite sequence of actions. */
  function After(s: System, schedule: seq<Action>): System {
    if schedule == [] then s
    else Next(After(s, schedule[..|schedule| - 1]), schedule[|schedule| - 1])
  }

  // ---- counting handlers ----

  function Tally(hs: seq<Phase>, p: Phase -> bool): nat {
    if hs == [] then 0 else Tally(hs[..|hs| - 1], p) + (if p(hs[|hs| - 1]) then 1 else 0)
  }

  function One(b: bool): nat {
    if b then 1 else 0
  }

  lemma {:induction false} TallyUpdate(hs: seq<Phase>, p: Phase -> bool, i: nat, h: Phase)
    requires i < |hs|
    ensures Tally(hs[i := h], p) + One(p(hs[i])) == Tally(hs, p) + One(p(h))
  {
    var last := |hs| - 1;
    if i == last {
      assert hs[i := h][..last] == hs[..last];
    } else {
      TallyUpdate(hs[..last], p, i, h);
      assert hs[i := h][..last] == hs[..last][i := h];
    }
  }

  lemma TallyAppend(hs: seq<Phase>, p: Phase -> bool, h: Phase)
    ensures Tally(hs + [h], p) == Tally(hs, p) + One(p(h))
  {
    assert (hs + [h])[..|hs|] == hs;
  }

  lemma {:induction false} TallyImplies(hs: seq<Phase>, p: Phase -> bool, q: Phase -> bool)
    requires forall h :: p(h) ==> q(h)
    ensures Tally(hs, p) <= Tally(hs, q)
  {
    if hs == [] {
    } else {
      TallyImplies(hs[..|hs| - 1], p, q);
    }
  }

  // ---- accounting ----

  predicate UsesAlgorithm(h: Phase, a: Algorithm) {
    h.req.algorithm == a
  }

  predicate ToldAllowed(h: Phase, a: Algorithm) {
    h.Told? && h.req.algorithm == a && h.reply.allowed
  }

  predicate ToldRejected(h: Phase, a: Algorithm) {
    h.Told? && h.req.algorithm == a && !h.reply.allowed
  }

  predicate Erred(h: Phase) {
    h.Abandoned? || h.Refused?
  }

  predicate InFlight(h: Phase) {
    h.Received? || h.Clocked? || h.Answered? || h.Decided?
  }

  function Requests(hs: seq<Phase>, a: Algorithm): nat {
    Tally(hs, h => UsesAlgorithm(h, a))
  }

  function Allowed(hs: seq<Phase>, a: Algorithm): nat {
    Tally(hs, h => ToldAllowed(h, a))
  }

  function Rejected(hs: seq<Phase>, a: Algorithm): nat {
    Tally(hs, h => ToldRejected(h, a))
  }

  /** Each counter says how many handlers have got there. */
  predicate Accounted(s: System, a: Algorithm) {
    && s.counters.requests.Of(a) == Requests(s.handlers, a)
    && s.counters.allowed.Of(a) == Allowed(s.handlers, a)
    && s.counters.rejected.Of(a) == Rejected(s.handlers, a)
    && s.counters.redisErrors == Tally(s.handlers, Erred)
  }

  /** The handler an action moves, before and after; None for a handler that is not there. */
  function Moved(s: System, act: Action): Option<Phase> {
    if act.Tick? || act.Arrive? || act.i >= |s.handlers| then None else Some(s.handlers[act.i])
  }

  function MovedTo(s: System, act: Action): Option<Phase> {
    match act
    case Tick(_) => None
    case Arrive(req) => Some(Received(req))
    case _ => if act.i < |s.handlers| then Some(Next(s, act).handlers[act.i]) else None
  }

  function Weight(h: Option<Phase>, p: Phase -> bool): nat {
    if h.Some? then One(p(h.value)) else 0
  }

  lemma TallyNext(s: System, act: Action, p: Phase -> bool)
    ensures Tally(Next(s, act).handlers, p) + Weight(Moved(s, act), p)
         == Tally(s.handlers, p) + Weight(MovedTo(s, act), p)
  {
    match act
    case Tick(_) =>
    case Arrive(req) => TallyAppend(s.handlers, p, Received(req));
    case _ =>
      if act.i < |s.handlers| {
        var h := Next(s, act).handlers[act.i];
        assert Next(s, act).handlers == s.handlers[act.i := h];
        TallyUpdate(s.handlers, p, act.i, h);
      }
  }

  lemma RequestsCounted(s: System, act: Action, a: Algorithm)
    ensures Next(s, act).counters.requests.Of(a) + Weight(Moved(s, act), h => UsesAlgorithm(h, a))
         == s.counters.requests.Of(a) + Weight(MovedTo(s, act), h => UsesAlgorithm(h, a))
  {
  }

  lemma NextRequests(s: System, act: Action, a: Algorithm)
    requires s.counters.requests.Of(a) == Requests(s.handlers, a)
    ensures Next(s, act).counters.requests.Of(a) == Requests(Next(s, act).handlers, a)
  {
    TallyNext(s, act, h => UsesAlgorithm(h, a));
    RequestsCounted(s, act, a);
  }

  lemma AllowedCounted(s: System, act: Action, a: Algorithm)
    ensures Next(s, act).counters.allowed.Of(a) + Weight(Moved(s, act), h => ToldAllowed(h, a))
         == s.counters.allowed.Of(a) + Weight(MovedTo(s, act), h => ToldAllowed(h, a))
  {
  }

  lemma NextAllowed(s: System, act: Action, a: Algorithm)
    requires s.counters.allowed.Of(a) == Allowed(s.handlers, a)
    ensures Next(s, act).counters.allowed.Of(a) == Allowed(Next(s, act).handlers, a)
  {
    TallyNext(s, act, h => ToldAllowed(h, a));
    AllowedCounted(s, act, a);
  }

  lemma RejectedCounted(s: System, act: Action, a: Algorithm)
    ensures Next(s, act).counters.rejected.Of(a) + Weight(Moved(s, act), h => ToldRejected(h, a))
         == s.counters.rejected.Of(a) + Weight(MovedTo(s, act), h => ToldRejected(h, a))
  {
  }

  lemma NextRejected(s: System, act: Action, a: Algorithm)
    requires s.counters.rejected.Of(a) == Rejected(s.handlers, a)
    ensures Next(s, act).counters.rejected.Of(a) == Rejected(Next(s, act).handlers, a)
  {
    TallyNext(s, act, h => ToldRejected(h, a));
    RejectedCounted(s, act, a);
  }

  lemma NextErrors(s: System, act: Action)
    requires s.counters.redisErrors == Tally(s.handlers, Erred)
    ensures Next(s, act).counters.redisErrors == Tally(Next(s, act).handlers, Erred)
  {
    TallyNext(s, act, Erred);
  }

  lemma {:induction false} AlwaysAccounted(startMs: int, schedule: seq<Action>, a: Algorithm)
    ensures Accounted(After(Initial(startMs), schedule), a)
  {
    if schedule == [] {
    } else {
      var before := schedule[..|schedule| - 1];
      AlwaysAccounted(startMs, before, a);
      var s, act := After(Initial(startMs), before), schedule[|schedule| - 1];
      NextRequests(s, act, a);
      NextAllowed(s, act, a);
      NextRejected(s, act, a);
      NextErrors(s, act);
    }
  }

  lemma {:induction false} EveryHandlerSomewhere(hs: seq<Phase>)
    ensures Requests(hs, TokenBucket) + Requests(hs, FixedWindow)
         == Allowed(hs, TokenBucket) + Allowed(hs, FixedWindow)
          + Rejected(hs, TokenBucket) + Rejected(hs, FixedWindow)
          + Tally(hs, Erred) + Tally(hs, InFlight)
  {
    if hs == [] {
    } else {
      EveryHandlerSomewhere(hs[..|hs| - 1]);
    }
  }

  /** Under every schedule, lost calls and lost replies included: every request counted is
      counted once more as allowed, rejected or an error, or is still in flight. */
  lemma AccountingBalances(startMs: int, schedule: seq<Action>)
    ensures var s := After(Initial(startMs), schedule);
            s.counters.requests.Total()
            == s.counters.allowed.Total() + s.counters.rejected.Total() + s.counters.redisErrors
               + Tally(s.handlers, InFlight)
  {
    AlwaysAccounted(startMs, schedule, TokenBucket);
    AlwaysAccounted(startMs, schedule, FixedWindow);
    EveryHandlerSomewhere(After(Initial(startMs), schedule).handlers);
  }

  // ---- the store is the run of the log ----

  /** Redis holds what the log produces, and the log is in the order of Redis's clock. */
  predicate Logged(s: System) {
    && s.keys == KeysAt(map[], s.log, |s.log|)
    && Nondecreasing(RedisMillis(s.log))
    && (|s.log| > 0 ==> s.log[|s.log| - 1].redisMs <= s.redisMs)
  }

  lemma SnocInOrder(own: seq<Exec>, e: Exec)
    requires Nondecreasing(RedisMillis(own)) && (|own| > 0 ==> own[|own| - 1].redisMs <= e.redisMs)
    ensures Nondecreasing(RedisMillis(own + [e]))
  {
    assert RedisMillis(own + [e]) == RedisMillis(own) + [e.redisMs];
  }

  lemma AppendLogged(s: System, e: Exec)
    requires Logged(s) && e.redisMs == s.redisMs
    ensures NextKeys(s.keys, e) == KeysAt(map[], s.log + [e], |s.log| + 1)
    ensures Nondecreasing(RedisMillis(s.log + [e]))
  {
    KeysSnoc(map[], s.log, e, |s.log|);
    SnocInOrder(s.log, e);
  }

  /** The script execution an action causes, if it causes one. */
  function Runs(s: System, act: Action): Option<Exec> {
    if act.RunScript? && act.i < |s.handlers| && (s.handlers[act.i].Clocked? || s.handlers[act.i].Abandoned?)
    then Some(ExecOf(s, s.handlers[act.i].req, s.handlers[act.i].nowMs)) else None
  }

  lemma NextLog(s: System, act: Action)
    ensures Next(s, act).redisMs >= s.redisMs
    ensures match Runs(s, act)
            case None => Next(s, act).keys == s.keys && Next(s, act).log == s.log
            case Some(e) => Next(s, act).keys == NextKeys(s.keys, e) && Next(s, act).log == s.log + [e]
  {
  }

  lemma NextLogged(s: System, act: Action)
    requires Logged(s)
    ensures Logged(Next(s, act))
  {
    NextLog(s, act);
    if Runs(s, act).Some? {
      AppendLogged(s, Runs(s, act).value);
    }
  }

  lemma {:induction false} AlwaysLogged(startMs: int, schedule: seq<Action>)
    ensures Logged(After(Initial(startMs), schedule))
  {
    if schedule == [] {
    } else {
      var before := schedule[..|schedule| - 1];
      AlwaysLogged(startMs, before);
      NextLogged(After(Initial(startMs), before), schedule[|schedule| - 1]);
    }
  }

  // ---- every client is told what its own script execution answered ----

  /** Execution `run` of the log was the request's, with the time its process had read, and this
      was its answer. */
  predicate AnsweredAs(log: seq<Exec>, run: nat, req: Request, nowMs: int, answer: Result<Reply>) {
    && run < |log|
    && log[run].call == Call(req.id, req.algorithm, req.config, nowMs)
    && ReplyAt(map[], log, run) == answer
  }

  predicate Traced(log: seq<Exec>, h: Phase) {
    && (h.Answered? ==> AnsweredAs(log, h.run, h.req, h.nowMs, h.answer))
    && (h.Decided? || h.Told? ==> AnsweredAs(log, h.run, h.req, h.nowMs, Ok(h.reply)))
  }

  lemma TracedSnoc(log: seq<Exec>, e: Exec, h: Phase)
    requires Traced(log, h)
    ensures Traced(log + [e], h)
  {
    if h.Answered? || h.Decided? || h.Told? {
      KeysSnoc(map[], log, e, h.run);
    }
  }

  lemma AnswerTraced(s: System, req: Request, nowMs: int)
    requires Logged(s)
    ensures var e := ExecOf(s, req, nowMs);
            AnsweredAs(s.log + [e], |s.log|, req, nowMs, AnswerTo(s.keys, e))
  {
    KeysSnoc(map[], s.log, ExecOf(s, req, nowMs), |s.log|);
  }

  lemma AdvanceTraced(s: System, act: Action, i: nat)
    requires Logged(s) && !act.Tick? && !act.Arrive? && act.i == i < |s.handlers| && Traced(s.log, s.handlers[i])
    ensures Traced(Next(s, act).log, Next(s, act).handlers[i])
  {
    if Runs(s, act).Some? {
      AnswerTraced(s, s.handlers[i].req, s.handlers[i].nowMs);
    }
  }

  lemma OthersStay(s: System, act: Action, i: nat)
    requires i < |s.handlers| && (act.Tick? || act.Arrive? || act.i != i)
    ensures i < |Next(s, act).handlers| && Next(s, act).handlers[i] == s.handlers[i]
  {
  }

  predicate AllTraced(s: System) {
    forall i :: 0 <= i < |s.handlers| ==> Traced(s.log, s.handlers[i])
  }

  lemma HandlerTraced(s: System, act: Action, i: nat)
    requires Logged(s) && AllTraced(s) && i < |Next(s, act).handlers|
    ensures Traced(Next(s, act).log, Next(s, act).handlers[i])
  {
    if i == |s.handlers| {
      assert act.Arrive?;
    } else if act.Tick? || act.Arrive? || act.i != i {
      OthersStay(s, act, i);
      NextLog(s, act);
      if Runs(s, act).Some? {
        TracedSnoc(s.log, Runs(s, act).value, s.handlers[i]);
      }
    } else {
      AdvanceTraced(s, act, i);
    }
  }

  /** Under every schedule, whatever answer a handler has got is the one its own request's script
      execution gave, in the log as it is now. */
  lemma {:induction false} AlwaysTraced(startMs: int, schedule: seq<Action>)
    ensures AllTraced(After(Initial(startMs), schedule))
  {
    if schedule == [] {
    } else {
      var before := schedule[..|schedule| - 1];
      var s, act := After(Initial(startMs), before), schedule[|schedule| - 1];
      AlwaysTraced(startMs, before);
      AlwaysLogged(startMs, before);
      forall i: nat | i < |Next(s, act).handlers|
        ensures Traced(Next(s, act).log, Next(s, act).handlers[i])
      {
        HandlerTraced(s, act, i);
      }
    }
  }

  /** Under every schedule, each client is told what the script answered that was handed its own
      request's limit and window and the time its own process had read. */
  lemma ToldTheAnswer(startMs: int, schedule: seq<Action>, i: nat)
    requires i < |After(Initial(startMs), schedule).handlers| && After(Initial(startMs), schedule).handlers[i].Told?
    ensures var s := After(Initial(startMs), schedule);
            var Told(req, nowMs, run, reply) := s.handlers[i];
            && run < |s.log|
            && s.log[run].call == Call(req.id, req.algorithm, req.config, nowMs)
            && AnswerTo(KeysAt(map[], s.log, run), s.log[run]) == Ok(reply)
  {
    var s := After(Initial(startMs), schedule);
    AlwaysTraced(startMs, schedule);
    assert Traced(s.log, s.handlers[i]);
  }

  /** Under every schedule and any mix of configurations, every client is told a well-formed
      reply: no script fails on a value of the wrong kind, and the reset it names lies within the
      window ahead of the time its process had read. */
  lemma EveryAnswerShaped(startMs: int, schedule: seq<Action>, i: nat)
    requires i < |After(Initial(startMs), schedule).handlers|
    ensures var h := After(Initial(startMs), schedule).handlers[i];
            && (h.Answered? ==> h.answer.Ok? && Scripts.WellFormed(h.req.config, h.answer.value, h.nowMs))
            && (h.Decided? || h.Told? ==> Scripts.WellFormed(h.req.config, h.reply, h.nowMs))
  {
    var s := After(Initial(startMs), schedule);
    AlwaysTraced(startMs, schedule);
    var h := s.handlers[i];
    assert Traced(s.log, h);
    if h.Answered? || h.Decided? || h.Told? {
      EveryReplyWellFormed(s.log, h.run);
    }
  }

  // ---- nobody is let through unless a script admitted them ----

  predicate AdmittedAt(log: seq<Exec>, id: string, a: Algorithm, n: nat)
    requires n < |log|
  {
    Mine(log[n], id, a) && ReplyAt(map[], log, n).Ok? && ReplyAt(map[], log, n).value.allowed
  }

  /** How many of the first n executions admitted a request of the identifier, among the
      executions whose places in the log are chosen. */
  function Admissions(log: seq<Exec>, id: string, a: Algorithm, chosen: nat -> bool, n: nat): nat
    requires n <= |log|
  {
    if n == 0 then 0
    else Admissions(log, id, a, chosen, n - 1) + One(AdmittedAt(log, id, a, n - 1) && chosen(n - 1))
  }

  lemma AdmittedAtPrefix(log: seq<Exec>, e: Exec, id: string, a: Algorithm, n: nat)
    requires n < |log|
    ensures AdmittedAt(log + [e], id, a, n) == AdmittedAt(log, id, a, n)
  {
    KeysSnoc(map[], log, e, n);
  }

  lemma {:induction false} AdmissionsPrefix(log: seq<Exec>, e: Exec, id: string, a: Algorithm, chosen: nat -> bool,
        n: nat)
    requires n <= |log|
    ensures Admissions(log + [e], id, a, chosen, n) == Admissions(log, id, a, chosen, n)
  {
    if n == 0 {
    } else {
      var m := n - 1;
      AdmissionsPrefix(log, e, id, a, chosen, m);
      AdmittedAtPrefix(log, e, id, a, m);
    }
  }

  lemma AdmissionsSnoc(log: seq<Exec>, e: Exec, id: string, a: Algorithm, chosen: nat -> bool)
    ensures Admissions(log + [e], id, a, chosen, |log| + 1)
         == Admissions(log, id, a, chosen, |log|)
            + One(chosen(|log|) && Mine(e, id, a)
                  && var r := AnswerTo(KeysAt(map[], log, |log|), e); r.Ok? && r.value.allowed)
  {
    AdmissionsPrefix(log, e, id, a, chosen, |log|);
    KeysSnoc(map[], log, e, |log|);
  }

  /** The handler's answer, wherever it is, lets the request through. */
  predicate Holds(h: Phase, id: string, a: Algorithm, chosen: nat -> bool) {
    && h.req.id == id && h.req.algorithm == a
    && ((h.Answered? && h.answer.Ok? && h.answer.value.allowed && chosen(h.run))
        || (h.Decided? && h.reply.allowed && chosen(h.run))
        || (h.Told? && h.reply.allowed && chosen(h.run)))
  }

  predicate LetThrough(h: Phase, id: string, a: Algorithm, chosen: nat -> bool) {
    h.Told? && h.req.id == id && h.req.algorithm == a && h.reply.allowed && chosen(h.run)
  }

  function Holders(hs: seq<Phase>, id: string, a: Algorithm, chosen: nat -> bool): nat {
    Tally(hs, h => Holds(h, id, a, chosen))
  }

  /** How many of the identifier's requests have been told they may pass, among those whose
      scripts ran at the chosen places in the log. */
  function TotalLetThrough(hs: seq<Phase>, id: string, a: Algorithm, chosen: nat -> bool): nat {
    Tally(hs, h => LetThrough(h, id, a, chosen))
  }

  predicate Backed(s: System, id: string, a: Algorithm, chosen: nat -> bool) {
    Holders(s.handlers, id, a, chosen) <= Admissions(s.log, id, a, chosen, |s.log|)
  }

  lemma NextBacked(s: System, act: Action, id: string, a: Algorithm, chosen: nat -> bool)
    requires Logged(s) && Backed(s, id, a, chosen)
    ensures Backed(Next(s, act), id, a, chosen)
  {
    TallyNext(s, act, h => Holds(h, id, a, chosen));
    NextLog(s, act);
    if Runs(s, act).Some? {
      AdmissionsSnoc(s.log, Runs(s, act).value, id, a, chosen);
    }
  }

  lemma {:induction false} AlwaysBacked(startMs: int, schedule: seq<Action>, id: string, a: Algorithm,
        chosen: nat -> bool)
    ensures Backed(After(Initial(startMs), schedule), id, a, chosen)
  {
    if schedule == [] {
    } else {
      var before := schedule[..|schedule| - 1];
      AlwaysBacked(startMs, before, id, a, chosen);
      AlwaysLogged(startMs, before);
      NextBacked(After(Initial(startMs), before), schedule[|schedule| - 1], id, a, chosen);
    }
  }

  /** Under every schedule, clients are let through at most as often as scripts admitted, however
      one chooses among the executions: all of them, one of them, those of a stretch or an interval. */
  lemma LetThroughOnlyIfAdmitted(startMs: int, schedule: seq<Action>, id: string, a: Algorithm, chosen: nat -> bool)
    ensures var s := After(Initial(startMs), schedule);
            TotalLetThrough(s.handlers, id, a, chosen) <= Admissions(s.log, id, a, chosen, |s.log|)
  {
    var s := After(Initial(startMs), schedule);
    AlwaysBacked(startMs, schedule, id, a, chosen);
    TallyImplies(s.handlers, h => LetThrough(h, id, a, chosen), h => Holds(h, id, a, chosen));
  }

  // ---- what the bounds on runs say about clients ----

  lemma RankOfAll(log: seq<Exec>, id: string, a: Algorithm)
    ensures Rank(log, id, a, |log|) == |Restrict(log, id, a)|
  {
  }

  /** Chosen executions of the identifier admit as the flags of its own run say. */
  ghost predicate DecidedBy(log: seq<Exec>, id: string, a: Algorithm, chosen: nat -> bool, ds: seq<bool>) {
    && |ds| == |Restrict(log, id, a)|
    && forall n: nat | n < |log| && Mine(log[n], id, a) ::
         Rank(log, id, a, n) < |ds| && (AdmittedAt(log, id, a, n) && chosen(n)) == ds[Rank(log, id, a, n)]
  }

  lemma DecisionStep(log: seq<Exec>, id: string, a: Algorithm, ds: seq<bool>, m: nat, admitted: bool)
    requires |ds| == |Restrict(log, id, a)| && m < |log|
    requires if Mine(log[m], id, a) then Rank(log, id, a, m) < |ds| && admitted == ds[Rank(log, id, a, m)]
            else !admitted
    ensures Rank(log, id, a, m) <= Rank(log, id, a, m + 1) <= |ds|
    ensures Count(ds, 0, Rank(log, id, a, m + 1)) == Count(ds, 0, Rank(log, id, a, m)) + One(admitted)
  {
    RankStep(log, id, a, m);
  }

  lemma {:induction false} AdmissionsAreDecisions(log: seq<Exec>, id: string, a: Algorithm, chosen: nat -> bool,
        ds: seq<bool>, n: nat)
    requires DecidedBy(log, id, a, chosen, ds) && n <= |log|
    ensures Admissions(log, id, a, chosen, n) == Count(ds, 0, Rank(log, id, a, n))
  {
    if n == 0 {
    } else {
      var m := n - 1;
      AdmissionsAreDecisions(log, id, a, chosen, ds, m);
      DecisionStep(log, id, a, ds, m, AdmittedAt(log, id, a, m) && chosen(m));
    }
  }

  /** Every execution. */
  function Every(): nat -> bool {
    (i: nat) => true
  }

  /** The executions that are the identifier's own from its k-th to its n-th. */
  function Stretch(log: seq<Exec>, id: string, a: Algorithm, k: nat, n: nat): nat -> bool {
    (i: nat) => i < |log| && k <= Rank(log, id, a, i) <= n
  }

  /** The executions whose API process read a time from `first` to `last` seconds. */
  function StampedIn(log: seq<Exec>, first: int, last: int): nat -> bool {
    (i: nat) => i < |log| && first <= FloorDiv(log[i].call.nowMs, 1000) <= last
  }

  lemma OwnInOrder(startMs: int, schedule: seq<Action>, id: string, a: Algorithm)
    ensures Nondecreasing(RedisMillis(Restrict(After(Initial(startMs), schedule).log, id, a)))
  {
    var log := After(Initial(startMs), schedule).log;
    AlwaysLogged(startMs, schedule);
    PickedReadings(log, MineFlags(log, id, a), |log|);
    PickNondecreasing(RedisMillis(log), MineFlags(log, id, a), |log|);
  }

  // ---- token bucket ----

  /** The store's decisions on the identifier's own requests. */
  function BucketDecisions(log: seq<Exec>, id: string, c: CheckedConfig): (ds: seq<bool>)
    ensures |ds| == |Restrict(log, id, TokenBucket)|
  {
    BucketRuns.ExpiringDecisions(c, BucketStamps(log, id), BucketDrops(log, id, c))
  }

  lemma BucketDecidedAt(log: seq<Exec>, id: string, c: CheckedConfig, n: nat)
    requires OneConfig(log, id, TokenBucket, c) && n < |log| && Mine(log[n], id, TokenBucket)
    ensures Rank(log, id, TokenBucket, n) < |BucketDecisions(log, id, c)|
    ensures AdmittedAt(log, id, TokenBucket, n) == BucketDecisions(log, id, c)[Rank(log, id, TokenBucket, n)]
  {
    TokenBucketReply(log, id, c, n);
  }

  /** The admissions the store made for an identifier, among everybody's scripts, are those of the
      expiring bucket of its own timestamps: in any stretch k..n of them, with any clocks. */
  lemma StretchAdmissions(log: seq<Exec>, id: string, c: CheckedConfig, k: nat, n: nat)
    requires OneConfig(log, id, TokenBucket, c) && k <= n < |Restrict(log, id, TokenBucket)|
    ensures Admissions(log, id, TokenBucket, Stretch(log, id, TokenBucket, k, n), |log|)
         == Count(BucketDecisions(log, id, c), k, n + 1)
  {
    var ds, chosen := BucketDecisions(log, id, c), Stretch(log, id, TokenBucket, k, n);
    var es := Within(ds, k, n);
    forall m: nat | m < |log| && Mine(log[m], id, TokenBucket)
      ensures Rank(log, id, TokenBucket, m) < |es|
      ensures (AdmittedAt(log, id, TokenBucket, m) && chosen(m)) == es[Rank(log, id, TokenBucket, m)]
    {
      BucketDecidedAt(log, id, c, m);
    }
    AdmissionsAreDecisions(log, id, TokenBucket, chosen, es, |log|);
    RankOfAll(log, id, TokenBucket);
    CountWithin(ds, k, n);
  }

  lemma BucketAdmissions(log: seq<Exec>, id: string, c: CheckedConfig)
    requires OneConfig(log, id, TokenBucket, c)
    ensures Admissions(log, id, TokenBucket, Every(), |log|)
         == Count(BucketDecisions(log, id, c), 0, |BucketDecisions(log, id, c)|)
  {
    var ds := BucketDecisions(log, id, c);
    forall m: nat | m < |log| && Mine(log[m], id, TokenBucket)
      ensures Rank(log, id, TokenBucket, m) < |ds|
      ensures (AdmittedAt(log, id, TokenBucket, m) && Every()(m)) == ds[Rank(log, id, TokenBucket, m)]
    {
      BucketDecidedAt(log, id, c, m);
    }
    AdmissionsAreDecisions(log, id, TokenBucket, Every(), ds, |log|);
    RankOfAll(log, id, TokenBucket);
  }

  /** Token bucket, under every schedule and with any clocks: of the N requests of one identifier
      and configuration whose scripts ran, at least min(N, limit) were admitted. */
  lemma TokenBucketAtLeast(startMs: int, schedule: seq<Action>, id: string, c: CheckedConfig)
    requires OneConfig(After(Initial(startMs), schedule).log, id, TokenBucket, c)
    ensures var log := After(Initial(startMs), schedule).log;
            Min(|Restrict(log, id, TokenBucket)|, c.limit) <= Admissions(log, id, TokenBucket, Every(), |log|)
  {
    var log := After(Initial(startMs), schedule).log;
    BucketAdmissions(log, id, c);
    BucketRuns.AtLeastLimit(c, BucketStamps(log, id), BucketDrops(log, id, c));
  }

  /** Token bucket, under every schedule and with any clocks: of the clients whose scripts were the
      identifier's k-th to n-th, no more are let through than `limit`, another `limit` for every
      idle drop that the API clocks do not account for, and the whole tokens refilled while the
      clock moved forward. */
  lemma TokenBucketBound(startMs: int, schedule: seq<Action>, id: string, c: CheckedConfig, k: nat, n: nat)
    requires var log := After(Initial(startMs), schedule).log;
             OneConfig(log, id, TokenBucket, c) && k <= n < |Restrict(log, id, TokenBucket)|
    ensures var s := After(Initial(startMs), schedule);
            TotalLetThrough(s.handlers, id, TokenBucket, Stretch(s.log, id, TokenBucket, k, n))
            <= BucketRuns.Allowance(c, BucketStamps(s.log, id), BucketDrops(s.log, id, c), k, n)
  {
    var s := After(Initial(startMs), schedule);
    LetThroughOnlyIfAdmitted(startMs, schedule, id, TokenBucket, Stretch(s.log, id, TokenBucket, k, n));
    StretchAdmissions(s.log, id, c, k, n);
    BucketRuns.StretchBound(c, BucketStamps(s.log, id), BucketDrops(s.log, id, c), k, n);
  }

  /** Token bucket, under every schedule and with any clocks: N requests see exactly min(N, limit)
      admissions if and only if N is at most `limit`, or the clocks have not moved forward by the
      time of a token and the key was not dropped in between. */
  lemma TokenBucketExactIff(startMs: int, schedule: seq<Action>, id: string, c: CheckedConfig)
    requires OneConfig(After(Initial(startMs), schedule).log, id, TokenBucket, c)
    ensures var s := After(Initial(startMs), schedule);
            var log, requests := s.log, |Restrict(s.log, id, TokenBucket)|;
            && (Admissions(log, id, TokenBucket, Every(), |log|) == Min(requests, c.limit)
                <==> requests <= c.limit || BucketRuns.NothingGained(c, BucketStamps(log, id), BucketDrops(log, id, c)))
            && TotalLetThrough(s.handlers, id, TokenBucket, Every()) <= Admissions(log, id, TokenBucket, Every(), |log|)
  {
    var log := After(Initial(startMs), schedule).log;
    LetThroughOnlyIfAdmitted(startMs, schedule, id, TokenBucket, Every());
    BucketAdmissions(log, id, c);
    BucketRuns.LimitExactIff(c, BucketStamps(log, id), BucketDrops(log, id, c));
  }

  /** Every script ran at most `late` after, and at most `early` before, the time its API process
      had read, on Redis's clock. */
  predicate ClocksWithin(log: seq<Exec>, late: nat, early: nat) {
    forall i :: 0 <= i < |log| ==> log[i].redisMs - late <= log[i].call.nowMs <= log[i].redisMs + early
  }

  /** Token bucket, under every schedule with bounded clock errors, however large: of the clients
      whose scripts were the identifier's k-th to n-th, no more are let through than limit plus the
      whole tokens refilled in the time their timestamps span and n - k times the skew. */
  lemma TokenBucketSkewBound(startMs: int, schedule: seq<Action>, id: string, c: CheckedConfig, late: nat, early: nat,
        k: nat, n: nat)
    requires var log := After(Initial(startMs), schedule).log;
             var own := Restrict(log, id, TokenBucket);
             OneConfig(log, id, TokenBucket, c) && k <= n < |own| && ClocksWithin(own, late, early)
    ensures var s := After(Initial(startMs), schedule);
            TotalLetThrough(s.handlers, id, TokenBucket, Stretch(s.log, id, TokenBucket, k, n))
            <= c.limit + FloorDiv(c.limit * BucketRuns.Span(BucketStamps(s.log, id), late + early, k, n),
               Levels.Cost(c))
  {
    var s := After(Initial(startMs), schedule);
    var own := Restrict(s.log, id, TokenBucket);
    OwnInOrder(startMs, schedule, id, TokenBucket);
    LetThroughOnlyIfAdmitted(startMs, schedule, id, TokenBucket, Stretch(s.log, id, TokenBucket, k, n));
    StretchAdmissions(s.log, id, c, k, n);
    BucketRuns.SkewBound(c, Millis(own), RedisMillis(own), late, early, k, n);
  }

  // ---- fixed window ----

  lemma WindowAdmissions(log: seq<Exec>, id: string, c: CheckedConfig, first: int, last: int)
    requires OneConfig(log, id, FixedWindow, c)
    requires Nondecreasing(RedisMillis(Restrict(log, id, FixedWindow)))
    ensures var own := Restrict(log, id, FixedWindow);
            Admissions(log, id, FixedWindow, StampedIn(log, first, last), |log|)
            == WindowRuns.AdmittedStamped(c, Seconds(own), RedisMillis(own), first, last)
  {
    var own, chosen := Restrict(log, id, FixedWindow), StampedIn(log, first, last);
    var ds := InRange(WindowRuns.Decisions(c, Seconds(own), RedisMillis(own)), Seconds(own), first, last);
    forall n: nat | n < |log| && Mine(log[n], id, FixedWindow)
      ensures Rank(log, id, FixedWindow, n) < |ds|
      ensures (AdmittedAt(log, id, FixedWindow, n) && chosen(n)) == ds[Rank(log, id, FixedWindow, n)]
    {
      FixedWindowReply(log, id, c, n);
    }
    AdmissionsAreDecisions(log, id, FixedWindow, chosen, ds, |log|);
    RankOfAll(log, id, FixedWindow);
  }

  /** Fixed window, under every schedule: of the identifier's requests stamped in one window,
      exactly the first `limit` on time and all the late ones are admitted, whatever else it asked. */
  lemma FixedWindowExact(startMs: int, schedule: seq<Action>, id: string, c: CheckedConfig, start: int, last: int)
    requires OneConfig(After(Initial(startMs), schedule).log, id, FixedWindow, c) && WindowRuns.IsWindow(c, start, last)
    ensures var s := After(Initial(startMs), schedule);
            var own, admitted := Restrict(s.log, id, FixedWindow),
               Admissions(s.log, id, FixedWindow, StampedIn(s.log, start, last), |s.log|);
            && admitted == WindowRuns.OnTimeAndLate(c, Seconds(own), RedisMillis(own), start, |own|)
            && TotalLetThrough(s.handlers, id, FixedWindow, StampedIn(s.log, start, last)) <= admitted
  {
    var s := After(Initial(startMs), schedule);
    var own := Restrict(s.log, id, FixedWindow);
    OwnInOrder(startMs, schedule, id, FixedWindow);
    LetThroughOnlyIfAdmitted(startMs, schedule, id, FixedWindow, StampedIn(s.log, start, last));
    WindowAdmissions(s.log, id, c, start, last);
    WindowRuns.StampedExact(c, Seconds(own), RedisMillis(own), start, last, |own|);
  }

  lemma AllWindowAdmissions(log: seq<Exec>, id: string, c: CheckedConfig)
    requires OneConfig(log, id, FixedWindow, c)
    requires Nondecreasing(RedisMillis(Restrict(log, id, FixedWindow)))
    ensures var own := Restrict(log, id, FixedWindow);
            Admissions(log, id, FixedWindow, Every(), |log|)
            == Count(WindowRuns.Decisions(c, Seconds(own), RedisMillis(own)), 0, |own|)
  {
    var own := Restrict(log, id, FixedWindow);
    var ds := WindowRuns.Decisions(c, Seconds(own), RedisMillis(own));
    forall n: nat | n < |log| && Mine(log[n], id, FixedWindow)
      ensures Rank(log, id, FixedWindow, n) < |ds|
      ensures (AdmittedAt(log, id, FixedWindow, n) && Every()(n)) == ds[Rank(log, id, FixedWindow, n)]
    {
      FixedWindowReply(log, id, c, n);
    }
    AdmissionsAreDecisions(log, id, FixedWindow, Every(), ds, |log|);
    RankOfAll(log, id, FixedWindow);
  }

  /** Fixed window, under every schedule and with any API clocks: N requests see exactly
      min(N, limit) admissions if and only if N is at most `limit`, or all of them are stamped in
      one window and their scripts run before its end. */
  lemma FixedWindowExactIff(startMs: int, schedule: seq<Action>, id: string, c: CheckedConfig)
    requires OneConfig(After(Initial(startMs), schedule).log, id, FixedWindow, c)
    ensures var s := After(Initial(startMs), schedule);
            var own, admitted := Restrict(s.log, id, FixedWindow), Admissions(s.log, id, FixedWindow, Every(), |s.log|);
            && (admitted == Min(|own|, c.limit)
                <==> |own| <= c.limit || WindowRuns.OneOpenWindow(c, Seconds(own), RedisMillis(own)))
            && Min(|own|, c.limit) <= admitted
            && TotalLetThrough(s.handlers, id, FixedWindow, Every()) <= admitted
  {
    var s := After(Initial(startMs), schedule);
    var own := Restrict(s.log, id, FixedWindow);
    OwnInOrder(startMs, schedule, id, FixedWindow);
    LetThroughOnlyIfAdmitted(startMs, schedule, id, FixedWindow, Every());
    AllWindowAdmissions(s.log, id, c);
    WindowRuns.AtLeastLimit(c, Seconds(own), RedisMillis(own));
    WindowRuns.LimitExactIff(c, Seconds(own), RedisMillis(own));
  }

  /** How many of the identifier's scripts for requests stamped first..last ran after their
      window's end. */
  function LateScripts(log: seq<Exec>, id: string, c: CheckedConfig, first: int, last: int): nat {
    var own := Restrict(log, id, FixedWindow);
    WindowRuns.LateBetween(c, Seconds(own), RedisMillis(own), first, last)
  }

  /** Fixed window, under every schedule: of the clients stamped in an interval, at most limit are
      let through for each window it touches, and the late ones. */
  lemma FixedWindowIntervalBound(startMs: int, schedule: seq<Action>, id: string, c: CheckedConfig,
        first: int, last: int)
    requires first <= last && OneConfig(After(Initial(startMs), schedule).log, id, FixedWindow, c)
    ensures var s := After(Initial(startMs), schedule);
            TotalLetThrough(s.handlers, id, FixedWindow, StampedIn(s.log, first, last))
            <= c.limit * WindowRuns.WindowsTouched(c, first, last) + LateScripts(s.log, id, c, first, last)
  {
    var s := After(Initial(startMs), schedule);
    var own := Restrict(s.log, id, FixedWindow);
    OwnInOrder(startMs, schedule, id, FixedWindow);
    LetThroughOnlyIfAdmitted(startMs, schedule, id, FixedWindow, StampedIn(s.log, first, last));
    WindowAdmissions(s.log, id, c, first, last);
    WindowRuns.OnTimeOrLate(c, Seconds(own), RedisMillis(own), first, last);
    WindowRuns.IntervalBound(c, Seconds(own), RedisMillis(own), first, last);
  }

  /** So at most 2 * limit, and the late ones, for an interval no longer than the window. */
  lemma FixedWindowBurstBound(startMs: int, schedule: seq<Action>, id: string, c: CheckedConfig, first: int, last: int)
    requires first <= last < first + c.window
    requires OneConfig(After(Initial(startMs), schedule).log, id, FixedWindow, c)
    ensures var s := After(Initial(startMs), schedule);
            TotalLetThrough(s.handlers, id, FixedWindow, StampedIn(s.log, first, last))
            <= 2 * c.limit + LateScripts(s.log, id, c, first, last)
  {
    FixedWindowIntervalBound(startMs, schedule, id, c, first, last);
    WindowRuns.TwoWindows(c, first, last);
    MulMonotone(c.limit, WindowRuns.WindowsTouched(c, first, last), 2);
  }

  // ---- one handler on its own ----

  lemma AfterSplits(s: System, xs: seq<Action>, a: Action)
    ensures After(s, xs + [a]) == Next(After(s, xs), a)
  {
    assert (xs + [a])[..|xs|] == xs;
  }

  /** What a handler that nobody interrupts does first. */
  function Begin(i: nat, req: Request, nowMs: int): seq<Action> {
    [] + [Arrive(req)] + [ReadClock(i, nowMs)]
  }

  function Begun(s: System, req: Request, nowMs: int): System {
    s.(handlers := s.handlers + [Clocked(req, nowMs)], counters := CountRequest(s.counters, req.algorithm))
  }

  lemma BeginsClocked(s: System, req: Request, nowMs: int)
    ensures After(s, Begin(|s.handlers|, req, nowMs)) == Begun(s, req, nowMs)
  {
    var i := |s.handlers|;
    var arrived := Next(s, Arrive(req));
    AfterSplits(s, [], Arrive(req));
    AfterSplits(s, [] + [Arrive(req)], ReadClock(i, nowMs));
    assert arrived.handlers[i := Clocked(req, nowMs)] == s.handlers + [Clocked(req, nowMs)];
  }

  /** ... and then, depending on what becomes of the call to Redis. */
  function Finish(i: nat, net: Network): seq<Action> {
    match net
    case RequestLost => [Fail(i)]
    case ReplyLost => [RunScript(i)] + [Fail(i)]
    case Delivered => [RunScript(i)] + [Deliver(i)] + [CountDecided(i)]
  }

  /** The handler's last phase: its client is told what the service learned, or that the service is
      not available. */
  predicate EndsAs(h: Phase, req: Request, nowMs: int, run: nat, r: Result<Reply>) {
    match r
    case Ok(reply) => h == Told(req, nowMs, run, reply)
    case Err(_) => Erred(h)
  }

  lemma FinishesLost(b: System, i: nat, req: Request, nowMs: int)
    requires i < |b.handlers| && b.handlers[i] == Clocked(req, nowMs)
    ensures var end := After(b, Finish(i, RequestLost));
            && end.keys == b.keys && end.log == b.log && end.counters == CountError(b.counters)
            && i < |end.handlers| && Erred(end.handlers[i])
  {
    AfterSplits(b, [], Fail(i));
  }

  lemma FinishesRun(b: System, i: nat, req: Request, nowMs: int)
    requires i < |b.handlers| && b.handlers[i] == Clocked(req, nowMs)
    ensures var e := ExecOf(b, req, nowMs);
            var s := After(b, [RunScript(i)]);
            && s.keys == NextKeys(b.keys, e) && s.log == b.log + [e] && s.counters == b.counters
            && i < |s.handlers| && s.handlers[i] == Answered(req, nowMs, |b.log|, AnswerTo(b.keys, e))
  {
    AfterSplits(b, [], RunScript(i));
    assert [] + [RunScript(i)] == [RunScript(i)];
  }

  lemma FinishesUnheard(b: System, i: nat, req: Request, nowMs: int)
    requires i < |b.handlers| && b.handlers[i] == Clocked(req, nowMs)
    ensures var end := After(b, Finish(i, ReplyLost));
            && end.keys == NextKeys(b.keys, ExecOf(b, req, nowMs))
            && end.log == b.log + [ExecOf(b, req, nowMs)]
            && end.counters == CountError(b.counters)
            && i < |end.handlers| && Erred(end.handlers[i])
  {
    FinishesRun(b, i, req, nowMs);
    AfterSplits(b, [RunScript(i)], Fail(i));
  }

  lemma FinishesHeard(b: System, i: nat, req: Request, nowMs: int)
    requires i < |b.handlers| && b.handlers[i] == Clocked(req, nowMs)
    ensures var e := ExecOf(b, req, nowMs);
            var end := After(b, Finish(i, Delivered));
            && end.keys == NextKeys(b.keys, e)
            && end.log == b.log + [e]
            && end.counters == Settled(b.counters, req.algorithm, AnswerTo(b.keys, e))
            && i < |end.handlers| && EndsAs(end.handlers[i], req, nowMs, |b.log|, AnswerTo(b.keys, e))
  {
    FinishesRun(b, i, req, nowMs);
    AfterSplits(b, [RunScript(i)], Deliver(i));
    AfterSplits(b, [RunScript(i)] + [Deliver(i)], CountDecided(i));
  }

  /** The handler's and the service's code, run to completion, is one schedule of the protocol:
      same store, same counters, and the client is told what the handler responds. */
  lemma HandlerIsSchedule(s: System, req: Request, nowMs: int, net: Network)
    ensures var i := |s.handlers|;
            var s' := After(After(s, Begin(i, req, nowMs)), Finish(i, net));
            var e := Exec(Call(req.id, req.algorithm, req.config, nowMs), s.redisMs);
            var (keys, r) := Called(s.keys, e, net);
            && s'.keys == keys
            && s'.log == (if net == RequestLost then s.log else s.log + [e])
            && s'.counters == Settled(CountRequest(s.counters, req.algorithm), req.algorithm, r)
            && i < |s'.handlers|
            && match r
               case Ok(reply) => s'.handlers[i] == Told(req, nowMs, |s.log|, reply)
               case Err(_) => s'.handlers[i].Abandoned? || s'.handlers[i].Refused?
  {
    BeginsClocked(s, req, nowMs);
    var b, i := Begun(s, req, nowMs), |s.handlers|;
    match net
    case RequestLost => FinishesLost(b, i, req, nowMs);
    case ReplyLost => FinishesUnheard(b, i, req, nowMs);
    case Delivered => FinishesHeard(b, i, req, nowMs);
  }

  // ---- everything that may be logged can happen ----

  /** The milliseconds by which a schedule moves Redis's clock. */
  function Ticked(schedule: seq<Action>): nat {
    if schedule == [] then 0
    else
      var last := schedule[|schedule| - 1];
      Ticked(schedule[..|schedule| - 1]) + (if last.Tick? then last.ms else 0)
  }

  lemma {:induction false} ClockIsTicks(startMs: int, schedule: seq<Action>)
    ensures After(Initial(startMs), schedule).redisMs == startMs + Ticked(schedule)
  {
    if schedule == [] {
    } else {
      ClockIsTicks(startMs, schedule[..|schedule| - 1]);
    }
  }

  lemma {:induction false} AfterBoth(s: System, xs: seq<Action>, ys: seq<Action>)
    ensures After(s, xs + ys) == After(After(s, xs), ys)
  {
    if ys == [] {
      assert xs + ys == xs;
    } else {
      var last := |ys| - 1;
      AfterBoth(s, xs, ys[..last]);
      assert xs + ys == (xs + ys[..last]) + [ys[last]];
      AfterSplits(s, xs + ys[..last], ys[last]);
    }
  }

  function RequestOf(e: Exec): Request {
    Request(e.call.id, e.call.algorithm, e.call.config)
  }

  /** What remains of a handler when its script has run: it has its answer or, if its client library
      had given up on the call, never hears of it. */
  function Left(e: Exec, lost: bool, run: nat, answer: Result<Reply>): Phase {
    if lost then Refused(RequestOf(e)) else Answered(RequestOf(e), e.call.nowMs, run, answer)
  }

  /** The steps of one new handler up to its script. */
  function UpToScript(i: nat, e: Exec, lost: bool): seq<Action> {
    Begin(i, RequestOf(e), e.call.nowMs) + FromClock(i, lost)
  }

  lemma RunsAfterLoss(b: System, i: nat, req: Request, nowMs: int)
    requires i < |b.handlers| && b.handlers[i] == Clocked(req, nowMs)
    ensures var s := After(b, [Fail(i)] + [RunScript(i)]);
            var e := Exec(Call(req.id, req.algorithm, req.config, nowMs), b.redisMs);
            && s.log == b.log + [e] && s.redisMs == b.redisMs
            && s.handlers == b.handlers[i := Refused(req)]
  {
    AfterSplits(b, [], Fail(i));
    assert [] + [Fail(i)] == [Fail(i)];
    var given := After(b, [Fail(i)]);
    assert given.handlers == b.handlers[i := Abandoned(req, nowMs)] && given.log == b.log && given.redisMs == b.redisMs;
    AfterSplits(b, [Fail(i)], RunScript(i));
    assert given.handlers[i := Refused(req)] == b.handlers[i := Refused(req)];
  }

  lemma RunsAtOnce(b: System, i: nat, req: Request, nowMs: int)
    requires i < |b.handlers| && b.handlers[i] == Clocked(req, nowMs)
    ensures var s := After(b, [] + [RunScript(i)]);
            var e := Exec(Call(req.id, req.algorithm, req.config, nowMs), b.redisMs);
            && s.log == b.log + [e] && s.redisMs == b.redisMs
            && s.handlers == b.handlers[i := Answered(req, nowMs, |b.log|, AnswerTo(b.keys, e))]
  {
    AfterSplits(b, [], RunScript(i));
  }

  function FromClock(i: nat, lost: bool): seq<Action> {
    (if lost then [Fail(i)] else []) + [RunScript(i)]
  }

  lemma RunsFromClock(b: System, i: nat, e: Exec, lost: bool)
    requires i < |b.handlers| && b.handlers[i] == Clocked(RequestOf(e), e.call.nowMs) && e.redisMs == b.redisMs
    ensures var s := After(b, FromClock(i, lost));
            && s.log == b.log + [e] && s.redisMs == b.redisMs
            && s.handlers == b.handlers[i := Left(e, lost, |b.log|, AnswerTo(b.keys, e))]
  {
    var req, nowMs := RequestOf(e), e.call.nowMs;
    assert e == Exec(Call(req.id, req.algorithm, req.config, nowMs), b.redisMs);
    if lost {
      RunsAfterLoss(b, i, req, nowMs);
    } else {
      RunsAtOnce(b, i, req, nowMs);
    }
  }

  lemma ScriptHappens(s: System, e: Exec, lost: bool)
    requires e.redisMs == s.redisMs
    ensures var s' := After(s, UpToScript(|s.handlers|, e, lost));
            && s'.log == s.log + [e] && s'.redisMs == s.redisMs
            && s'.handlers == s.handlers + [Left(e, lost, |s.log|, AnswerTo(s.keys, e))]
  {
    var i, b := |s.handlers|, Begun(s, RequestOf(e), e.call.nowMs);
    BeginsClocked(s, RequestOf(e), e.call.nowMs);
    AfterBoth(s, Begin(i, RequestOf(e), e.call.nowMs), FromClock(i, lost));
    RunsFromClock(b, i, e, lost);
  }

  lemma ExecHappens(s: System, e: Exec, lost: bool) returns (steps: seq<Action>)
    requires e.redisMs >= s.redisMs
    ensures var s' := After(s, steps);
            && s'.log == s.log + [e] && s'.redisMs == e.redisMs
            && s'.handlers == s.handlers + [Left(e, lost, |s.log|, AnswerTo(s.keys, e))]
  {
    var tick := [] + [Tick(e.redisMs - s.redisMs)];
    AfterSplits(s, [], Tick(e.redisMs - s.redisMs));
    var ticked := After(s, tick);
    ScriptHappens(ticked, e, lost);
    AfterBoth(s, tick, UpToScript(|s.handlers|, e, lost));
    steps := tick + UpToScript(|s.handlers|, e, lost);
  }

  lemma SnocLogged(startMs: int, schedule: seq<Action>, log: seq<Exec>, m: nat)
    requires m < |log| && After(Initial(startMs), schedule).log == log[..m]
    ensures AnswerTo(After(Initial(startMs), schedule).keys, log[m]) == ReplyAt(map[], log, m)
  {
    AlwaysLogged(startMs, schedule);
    KeysPrefix(map[], log, m, m);
  }

  lemma {:induction false} KeysPrefix(ks: Keyspace, log: seq<Exec>, m: nat, n: nat)
    requires n <= m <= |log|
    ensures KeysAt(ks, log[..m], n) == KeysAt(ks, log, n)
  {
    if n == 0 {
    } else {
      KeysPrefix(ks, log, m, n - 1);
    }
  }

  function LeftAt(log: seq<Exec>, lost: seq<bool>, n: nat): Phase
    requires n < |log| == |lost|
  {
    Left(log[n], lost[n], n, ReplyAt(map[], log, n))
  }

  /** The system has run the first n executions of the log, and each handler is where its call's
      fate has left it. */
  ghost predicate Happened(s: System, startMs: int, log: seq<Exec>, lost: seq<bool>, n: nat)
    requires n <= |log| == |lost|
  {
    && s.log == log[..n]
    && s.redisMs == (if n == 0 then startMs else log[n - 1].redisMs)
    && |s.handlers| == n
    && forall i :: 0 <= i < n ==> s.handlers[i] == LeftAt(log, lost, i)
  }

  lemma OneMoreHappened(s: System, s': System, startMs: int, log: seq<Exec>, lost: seq<bool>, m: nat, n: nat)
    requires m + 1 == n <= |log| == |lost| && Happened(s, startMs, log, lost, m)
    requires s'.log == s.log + [log[m]] && s'.redisMs == log[m].redisMs
    requires s'.handlers == s.handlers + [LeftAt(log, lost, m)]
    ensures Happened(s', startMs, log, lost, n)
  {
    assert log[..n] == log[..m] + [log[m]];
  }

  /** Every log in the order of Redis's clock, with any times read by any processes, is the log of
      a schedule, and so is every choice of calls that were given up on before their scripts ran. So
      what is proved, or refuted, of logs is proved or refuted of the system. */
  lemma {:induction false} EveryLogHappens(startMs: int, log: seq<Exec>, lost: seq<bool>, n: nat)
    returns (schedule: seq<Action>)
    requires n <= |log| == |lost| && Nondecreasing(RedisMillis(log))
    requires |log| > 0 ==> startMs <= log[0].redisMs
    ensures Happened(After(Initial(startMs), schedule), startMs, log, lost, n)
  {
    if n == 0 {
      schedule := [];
    } else {
      var m := n - 1;
      var before := EveryLogHappens(startMs, log, lost, m);
      var s := After(Initial(startMs), before);
      assert m > 0 ==> RedisMillis(log)[m - 1] <= RedisMillis(log)[m];
      SnocLogged(startMs, before, log, m);
      var steps := ExecHappens(s, log[m], lost[m]);
      AfterBoth(Initial(startMs), before, steps);
      schedule := before + steps;
      OneMoreHappened(s, After(Initial(startMs), schedule), startMs, log, lost, m, n);
    }
  }
}

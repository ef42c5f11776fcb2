/**
 A session of one tunnel on the shared token cache from its first step to its last, for every answer of the network, and
 that every session under way can end.
 */
module TokenLaws {
  import opened Prelude
  import opened RetrySchedule
  import opened TokenCache

  lemma Extends(c: Cache, steps: seq<Step>, step: Step)
    ensures Run(c, steps + [step]) == Next(Run(c, steps), step)
  {
    assert (steps + [step])[..|steps|] == steps;
  }

  /** The steps lead from c to d. */
  predicate Leads(c: Cache, steps: seq<Step>, d: Cache) { Run(c, steps) == d }

  lemma Then(c: Cache, steps: seq<Step>, d: Cache, step: Step, after: Cache)
    requires Leads(c, steps, d) && Next(d, step) == after
    ensures Leads(c, steps + [step], after)
  {
    Extends(c, steps, step);
  }

  /** A 401 or 403 is on the wrap chain of an error. */
  predicate HasRejection(e: Error) { e.Auth? || (e.Wrap? && HasRejection(e.inner)) }

  lemma {:induction false} RejectionIsAuth(e: Error)
    ensures IsAuthError(e) <==> HasRejection(e)
  {
    if e.Wrap? { RejectionIsAuth(e.inner); }
  }

  /** Tunnel i is between sessions and the mutex is free. */
  predicate Rests(c: Cache, i: nat) { i < |c.pcs| && c.pcs[i] == Idle && c.holder.None? }

  /** Tunnel i at the point given. */
  function Put(c: Cache, i: nat, pc: PC): Cache
    requires i < |c.pcs|
  {
    c.(pcs := c.pcs[i := pc])
  }

  lemma PutTwice(c: Cache, i: nat, a: PC, b: PC)
    requires i < |c.pcs|
    ensures c.pcs[i := a][i := b] == c.pcs[i := b] && (c.pcs[i] == b ==> c.pcs[i := b] == c.pcs)
  {
  }

  lemma Wants(c: Cache, i: nat)
    requires Rests(c, i)
    ensures Leads(c, [Begin(i)], Put(c, i, WantingToken))
  {
    assert [] + [Begin(i)] == [Begin(i)];
    Then(c, [], c, Begin(i), Put(c, i, WantingToken));
  }

  /** With a token in the cache, Token returns that one, and asks nobody. */
  lemma TakesCached(c: Cache, i: nat)
    requires Rests(c, i) && c.token != ""
    ensures Leads(c, [Begin(i)] + [Acquire(i)],
                  Put(c, i, Registering(c.token)).(presented := c.presented + [c.token]))
  {
    Wants(c, i);
    PutTwice(c, i, WantingToken, Registering(c.token));
    Then(c, [Begin(i)], Put(c, i, WantingToken), Acquire(i),
         Put(c, i, Registering(c.token)).(presented := c.presented + [c.token]));
  }

  /** With none, it asks /token with the mutex held. */
  lemma AsksForToken(c: Cache, i: nat)
    requires Rests(c, i) && c.token == ""
    ensures Leads(c, [Begin(i)] + [Acquire(i)], Put(c, i, Fetching).(holder := Some(i)))
  {
    Wants(c, i);
    PutTwice(c, i, WantingToken, Fetching);
    Then(c, [Begin(i)], Put(c, i, WantingToken), Acquire(i), Put(c, i, Fetching).(holder := Some(i)));
  }

  /** A token that /token answers is cached and returned; without one the session is over and nothing is cached. */
  lemma TakesFetched(c: Cache, i: nat, token: string, e: Error)
    requires Rests(c, i) && c.token == ""
    ensures var one := [Begin(i)] + [Acquire(i)];
      && Leads(c, one + [FetchReply(i, token)],
               if token == "" then c
               else Put(c, i, Registering(token)).(token := token, presented := c.presented + [token]))
      && Leads(c, one + [FetchFails(i, e)], c)
  {
    var one, asked := [Begin(i)] + [Acquire(i)], Put(c, i, Fetching).(holder := Some(i));
    AsksForToken(c, i);
    PutTwice(c, i, Fetching, Registering(token));
    PutTwice(c, i, Fetching, Idle);
    Then(c, one, asked, FetchFails(i, e), c);
    Then(c, one, asked, FetchReply(i, token),
         if token == "" then c
         else Put(c, i, Registering(token)).(token := token, presented := c.presented + [token]));
  }

  /** The steps with which the addKey of tunnel i is answered: without an error, or with one. */
  function AnswerSteps(i: nat, answer: Option<Error>): seq<Step>
  {
    match answer
    case None => [AddKeyOK(i)]
    case Some(e) => if HasRejection(e) then [AddKeyFails(i, e)] + [Invalidate(i)] else [AddKeyFails(i, e)]
  }

  /** After addKey the session is over; the cache is emptied if the answer is a rejection, and left alone if not. */
  lemma Answered(c: Cache, steps: seq<Step>, d: Cache, i: nat, answer: Option<Error>)
    requires Leads(c, steps, d) && i < |d.pcs| && d.pcs[i].Registering? && d.holder.None?
    ensures Leads(c, steps + AnswerSteps(i, answer),
                  if answer.Some? && HasRejection(answer.value) then Put(d, i, Idle).(token := "") else Put(d, i, Idle))
  {
    match answer
    case None => Then(c, steps, d, AddKeyOK(i), Put(d, i, Idle));
    case Some(e) =>
      RejectionIsAuth(e);
      if HasRejection(e) {
        var wanting := WantingInvalidate(d.pcs[i].token);
        Then(c, steps, d, AddKeyFails(i, e), Put(d, i, wanting));
        PutTwice(d, i, wanting, Idle);
        Then(c, steps + [AddKeyFails(i, e)], Put(d, i, wanting), Invalidate(i), Put(d, i, Idle).(token := ""));
        assert steps + [AddKeyFails(i, e)] + [Invalidate(i)] == steps + ([AddKeyFails(i, e)] + [Invalidate(i)]);
      } else {
        Then(c, steps, d, AddKeyFails(i, e), Put(d, i, Idle));
      }
  }

  /** A session with a cached token presents it, and leaves it in the cache unless addKey rejects it. */
  lemma CachedSession(c: Cache, i: nat, answer: Option<Error>)
    requires Rests(c, i) && c.token != ""
    ensures Leads(c, [Begin(i)] + [Acquire(i)] + AnswerSteps(i, answer),
                  c.(presented := c.presented + [c.token],
                     token := if answer.Some? && HasRejection(answer.value) then "" else c.token))
  {
    TakesCached(c, i);
    PutTwice(c, i, Registering(c.token), Idle);
    Answered(c, [Begin(i)] + [Acquire(i)],
             Put(c, i, Registering(c.token)).(presented := c.presented + [c.token]), i, answer);
  }

  /** A session without one presents the token that it fetches, and caches it unless addKey rejects it. */
  lemma FetchedSession(c: Cache, i: nat, token: string, answer: Option<Error>)
    requires Rests(c, i) && c.token == "" && token != ""
    ensures Leads(c, [Begin(i)] + [Acquire(i)] + [FetchReply(i, token)] + AnswerSteps(i, answer),
                  c.(presented := c.presented + [token],
                     token := if answer.Some? && HasRejection(answer.value) then "" else token))
  {
    TakesFetched(c, i, token, Plain);
    PutTwice(c, i, Registering(token), Idle);
    Answered(c, [Begin(i)] + [Acquire(i)] + [FetchReply(i, token)],
             Put(c, i, Registering(token)).(token := token, presented := c.presented + [token]), i, answer);
  }

  /** While a request to /token is out, nobody else gets at the cache. */
  lemma MutexIsHeld(c: Cache, i: nat, token: string)
    requires c.holder.Some? && c.holder.value != i
    ensures Next(c, Acquire(i)) == Next(c, Invalidate(i)) == Next(c, Seed(token)) == c
  {
  }

  /** SetToken replaces whatever is cached. */
  lemma SeedStores(c: Cache, token: string)
    requires c.holder.None?
    ensures Next(c, Seed(token)) == c.(token := token)
  {
  }

  // ---------- sessions can end ----------

  lemma HolderEnds(c: Cache)
    requires Inv(c) && c.holder.Some?
    ensures var n := Next(c, FetchFails(c.holder.value, Plain)); n.holder.None? && |n.pcs| == |c.pcs|
  {
  }

  function Left(pc: PC): nat
  {
    match pc
    case Idle => 0
    case Fetching => 1
    case WantingInvalidate(_) => 1
    case Registering(_) => 1
    case WantingToken => 2
  }

  /** A step that brings the session of tunnel i nearer to its end. */
  function Towards(c: Cache, i: nat): Step
  {
    match At(c, i)
    case Registering(_) => AddKeyOK(i)
    case WantingInvalidate(_) => Invalidate(i)
    case _ => Acquire(i)
  }

  lemma ComesCloser(c: Cache, i: nat)
    requires Inv(c) && c.holder.None? && i < |c.pcs| && c.pcs[i] != Idle
    ensures var n := Next(c, Towards(c, i)); |n.pcs| == |c.pcs| && Left(n.pcs[i]) < Left(c.pcs[i])
  {
  }

  lemma HolderMovesItself(c: Cache, i: nat)
    requires Inv(c) && c.holder.Some? && i < |c.pcs|
    ensures Left(Next(c, FetchFails(c.holder.value, Plain)).pcs[i]) <= Left(c.pcs[i])
  {
  }

  lemma {:induction false} SessionCanEnd(c: Cache, steps: seq<Step>, i: nat) returns (longer: seq<Step>)
    requires Inv(Run(c, steps)) && i < |Run(c, steps).pcs|
    ensures var n := Run(c, longer); i < |n.pcs| && n.pcs[i] == Idle
    decreases Left(Run(c, steps).pcs[i]), if Run(c, steps).holder.Some? then 1 else 0
  {
    longer := steps;
    var n := Run(c, steps);
    if n.pcs[i] != Idle {
      if n.holder.Some? {
        HolderEnds(n);
        HolderMovesItself(n, i);
        StepKeepsInv(n, FetchFails(n.holder.value, Plain));
        Extends(c, steps, FetchFails(n.holder.value, Plain));
        longer := SessionCanEnd(c, steps + [FetchFails(n.holder.value, Plain)], i);
      } else {
        ComesCloser(n, i);
        StepKeepsInv(n, Towards(n, i));
        Extends(c, steps, Towards(n, i));
        longer := SessionCanEnd(c, steps + [Towards(n, i)], i);
      }
    }
  }

  /** From every reachable state of any number of tunnels the session of each can come to its end. */
  lemma SessionsCanEnd(tunnels: nat, steps: seq<Step>, i: nat) returns (more: seq<Step>)
    requires i < |Run(Init(tunnels), steps).pcs|
    ensures var n := Run(Run(Init(tunnels), steps), more); i < |n.pcs| && n.pcs[i] == Idle
  {
    RunKeepsInv(tunnels, steps);
    more := SessionCanEnd(Run(Init(tunnels), steps), [], i);
  }
}

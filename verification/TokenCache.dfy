/**
 Any number of tunnels sharing one PIAClient (pia.go): Token, InvalidateToken, SetToken and the session
 path, as interleaved steps over one mutex.  The mutex is held across the request to /token.
 */
module TokenCache {
  import opened Prelude
  import opened RetrySchedule

  datatype PC =
    | Idle
    | WantingToken
    | Fetching                            // holds the mutex
    | Registering(token: string)          // addKey is under way with this token
    | WantingInvalidate(rejected: string) // addKey answered 401 or 403

  datatype Cache = Cache(
    token: string,
    holder: Option<nat>,
    pcs: seq<PC>,
    presented: seq<string>)  // the tokens that Token returned, for addKey to be given, in order

  function Init(tunnels: nat): Cache { Cache("", None, seq(tunnels, _ => Idle), []) }

  datatype Step =
    | Begin(i: nat)
    | Acquire(i: nat)
    | FetchReply(i: nat, token: string)
    | FetchFails(i: nat, e: Error)
    | AddKeyOK(i: nat)
    | AddKeyFails(i: nat, e: Error)
    | Invalidate(i: nat)
    | Seed(token: string)

  function At(c: Cache, i: nat): PC { if i < |c.pcs| then c.pcs[i] else Idle }

  function Move(c: Cache, i: nat, pc: PC): Cache { if i < |c.pcs| then c.(pcs := c.pcs[i := pc]) else c }

  function Present(c: Cache, i: nat, token: string): Cache
  {
    Move(c, i, Registering(token)).(presented := c.presented + [token])
  }

  function Next(c: Cache, step: Step): Cache
  {
    match step
    case Begin(i) => if i < |c.pcs| && At(c, i) == Idle then Move(c, i, WantingToken) else c
    case Acquire(i) =>
      if At(c, i) != WantingToken || c.holder.Some? then c
      else if c.token != "" then Present(c, i, c.token)
      else Move(c, i, Fetching).(holder := Some(i))
    case FetchReply(i, t) =>
      if At(c, i) != Fetching then c
      else if t == "" then Move(c, i, Idle).(holder := None)
      else Present(c.(token := t, holder := None), i, t)
    case FetchFails(i, _) => if At(c, i) == Fetching then Move(c, i, Idle).(holder := None) else c
    case AddKeyOK(i) => if At(c, i).Registering? then Move(c, i, Idle) else c
    case AddKeyFails(i, e) =>
      if !At(c, i).Registering? then c
      else Move(c, i, if IsAuthError(e) then WantingInvalidate(At(c, i).token) else Idle)
    case Invalidate(i) =>
      if !At(c, i).WantingInvalidate? || c.holder.Some? then c else Move(c.(token := ""), i, Idle)
    case Seed(t) => if c.holder.Some? then c else c.(token := t)
  }

  function Run(c: Cache, steps: seq<Step>): Cache
    decreases |steps|
  {
    if steps == [] then c else Next(Run(c, steps[..|steps| - 1]), steps[|steps| - 1])
  }

  // ---------- what can be observed of a run ----------

  /** A request to /token that answers a token. */
  predicate Fetches(c: Cache, step: Step) { step.FetchReply? && At(c, step.i) == Fetching && step.token != "" }

  /** An answer of addKey with a 401 or 403 somewhere on the wrap chain. */
  predicate Rejects(c: Cache, step: Step) { step.AddKeyFails? && At(c, step.i).Registering? && IsAuthError(step.e) }

  /** The cache goes from some token to none. */
  predicate Empties(c: Cache, step: Step) { c.token != "" && Next(c, step).token == "" }

  predicate SessionEmpties(c: Cache, step: Step) { Empties(c, step) && !step.Seed? }

  /** SetToken takes effect. */
  predicate Seeds(c: Cache, step: Step) { step.Seed? && c.holder.None? }

  /** The cached token is gone, or may be another one. */
  predicate Replaces(c: Cache, step: Step) { Empties(c, step) || Seeds(c, step) }

  /** A token is put into the cache. */
  predicate Stores(c: Cache, step: Step) { Fetches(c, step) || (Seeds(c, step) && step.token != "") }

  /** An answer of addKey with a 401 or 403 to tunnel i. */
  function RejectsTunnel(i: nat): (Cache, Step) -> bool { (c: Cache, step: Step) => Rejects(c, step) && step.i == i }

  /** How many steps of a run of so many tunnels do something, judged in the state in which each was taken. */
  function Count(tunnels: nat, steps: seq<Step>, what: (Cache, Step) -> bool): nat
    decreases |steps|
  {
    if steps == [] then 0
    else
      var before, step := steps[..|steps| - 1], steps[|steps| - 1];
      Count(tunnels, before, what) + (if what(Run(Init(tunnels), before), step) then 1 else 0)
  }

  /** The step at which Token returns to tunnel i. */
  predicate Presents(c: Cache, step: Step, i: nat) { !At(c, i).Registering? && At(Next(c, step), i).Registering? }

  /** Whether something was done since Token last returned to tunnel i. */
  predicate Since(tunnels: nat, steps: seq<Step>, i: nat, what: (Cache, Step) -> bool)
    decreases |steps|
  {
    && steps != []
    && var before, step := steps[..|steps| - 1], steps[|steps| - 1];
       var c := Run(Init(tunnels), before);
       !Presents(c, step, i) && (what(c, step) || Since(tunnels, before, i, what))
  }

  predicate Seedless(steps: seq<Step>) { forall n :: 0 <= n < |steps| ==> !steps[n].Seed? }

  // ---------- the invariant ----------

  predicate LockInv(c: Cache)
  {
    && (c.holder.Some? ==> c.holder.value < |c.pcs| && c.pcs[c.holder.value] == Fetching && c.token == "")
    && forall i :: 0 <= i < |c.pcs| && c.pcs[i] == Fetching ==> c.holder == Some(i)
  }

  predicate TokensInv(c: Cache)
  {
    && (forall k :: 0 <= k < |c.presented| ==> c.presented[k] != "")
    && (forall i :: 0 <= i < |c.pcs| && c.pcs[i].Registering? ==> c.pcs[i].token != "")
    && (forall i :: 0 <= i < |c.pcs| && c.pcs[i].WantingInvalidate? ==> c.pcs[i].rejected != "")
  }

  predicate Inv(c: Cache) { LockInv(c) && TokensInv(c) }

  lemma StepKeepsLock(c: Cache, step: Step)
    requires LockInv(c)
    ensures LockInv(Next(c, step))
  {
  }

  lemma StepKeepsTokens(c: Cache, step: Step)
    requires TokensInv(c)
    ensures TokensInv(Next(c, step))
  {
  }

  lemma StepKeepsInv(c: Cache, step: Step)
    requires Inv(c)
    ensures Inv(Next(c, step))
  {
    StepKeepsLock(c, step);
    StepKeepsTokens(c, step);
  }

  lemma {:induction false} RunKeepsInv(tunnels: nat, steps: seq<Step>)
    ensures Inv(Run(Init(tunnels), steps))
    decreases |steps|
  {
    if steps == [] {
    } else {
      RunKeepsInv(tunnels, steps[..|steps| - 1]);
      StepKeepsInv(Run(Init(tunnels), steps[..|steps| - 1]), steps[|steps| - 1]);
    }
  }

  /** The number of tunnels whose rejected token has not been dropped yet. */
  function Pending(pcs: seq<PC>): nat
  {
    if pcs == [] then 0 else Pending(pcs[1..]) + (if pcs[0].WantingInvalidate? then 1 else 0)
  }

  lemma {:induction false} PendingMoves(pcs: seq<PC>, i: nat, pc: PC)
    requires i < |pcs|
    ensures Pending(pcs[i := pc]) + (if pcs[i].WantingInvalidate? then 1 else 0)
         == Pending(pcs) + (if pc.WantingInvalidate? then 1 else 0)
  {
    if i == 0 {
      assert pcs[0 := pc][1..] == pcs[1..];
    } else {
      PendingMoves(pcs[1..], i - 1, pc);
      assert pcs[i := pc][1..] == pcs[1..][i - 1 := pc];
    }
  }

  lemma {:induction false} NonePendingInitially(n: nat)
    ensures Pending(Init(n).pcs) == 0
  {
    if n == 0 {
    } else {
      NonePendingInitially(n - 1);
      assert Init(n).pcs[1..] == Init(n - 1).pcs;
    }
  }

  lemma {:induction false} SomePending(pcs: seq<PC>, i: nat)
    requires i < |pcs| && pcs[i].WantingInvalidate?
    ensures Pending(pcs) > 0
  {
    if i == 0 {
    } else {
      SomePending(pcs[1..], i - 1);
    }
  }

  /** One step adds to the pending tunnels exactly what it rejects, and takes one away if it is their Invalidate. */
  lemma StepMovesPending(c: Cache, step: Step)
    requires Inv(c)
    ensures Pending(Next(c, step).pcs) + (if SessionEmpties(c, step) then 1 else 0)
         <= Pending(c.pcs) + (if Rejects(c, step) then 1 else 0)
  {
    if !step.Seed? && step.i < |c.pcs| {
      var i := step.i;
      PendingMoves(c.pcs, i, Next(c, step).pcs[i]);
      assert Next(c, step).pcs == c.pcs[i := Next(c, step).pcs[i]];
    }
  }

  lemma {:induction false} RejectionsCoverEmptyings(tunnels: nat, steps: seq<Step>)
    ensures Count(tunnels, steps, SessionEmpties) + Pending(Run(Init(tunnels), steps).pcs)
         <= Count(tunnels, steps, Rejects)
    decreases |steps|
  {
    if steps == [] {
      NonePendingInitially(tunnels);
    } else {
      var before, step := steps[..|steps| - 1], steps[|steps| - 1];
      RejectionsCoverEmptyings(tunnels, before);
      RunKeepsInv(tunnels, before);
      StepMovesPending(Run(Init(tunnels), before), step);
    }
  }

  lemma {:induction false} EmptyingsCoverFetches(tunnels: nat, steps: seq<Step>)
    ensures Count(tunnels, steps, Fetches)
         <= Count(tunnels, steps, Empties) + (if Run(Init(tunnels), steps).token != "" then 1 else 0)
    ensures Count(tunnels, steps, Empties)
         <= Count(tunnels, steps, SessionEmpties) + Count(tunnels, steps, Seeds)
    decreases |steps|
  {
    if steps == [] {
    } else {
      EmptyingsCoverFetches(tunnels, steps[..|steps| - 1]);
      RunKeepsInv(tunnels, steps[..|steps| - 1]);
    }
  }

  // ---------- the main results ----------

  /** Single flight: for any number of tunnels, /token is asked successfully at most once more often than
      the cache was emptied, and no two tunnels ever ask at the same time. */
  lemma FetchesBounded(tunnels: nat, steps: seq<Step>, i: nat, j: nat)
    ensures Count(tunnels, steps, Fetches) <= 1 + Count(tunnels, steps, Empties)
    ensures var c := Run(Init(tunnels), steps);
      && (At(c, i) == Fetching && At(c, j) == Fetching ==> i == j)
      && (At(c, i) == Fetching ==> c.token == "")
  {
    EmptyingsCoverFetches(tunnels, steps);
    RunKeepsInv(tunnels, steps);
  }

  /** Sessions empty the cache at most once for each 401 or 403 that addKey answered, and nothing else but
      SetToken does; so fetches are bounded by those answers too. */
  lemma EmptiedOnlyAfterRejection(tunnels: nat, steps: seq<Step>)
    ensures Count(tunnels, steps, SessionEmpties) <= Count(tunnels, steps, Rejects)
    ensures Count(tunnels, steps, Empties) <= Count(tunnels, steps, Rejects) + Count(tunnels, steps, Seeds)
    ensures Count(tunnels, steps, Fetches) <= 1 + Count(tunnels, steps, Rejects) + Count(tunnels, steps, Seeds)
  {
    RejectionsCoverEmptyings(tunnels, steps);
    EmptyingsCoverFetches(tunnels, steps);
  }

  /** addKey is never called without a token. */
  lemma {:induction false} PresentedTokensNonEmpty(tunnels: nat, steps: seq<Step>, k: nat)
    requires k < |Run(Init(tunnels), steps).presented|
    ensures Run(Init(tunnels), steps).presented[k] != ""
  {
    RunKeepsInv(tunnels, steps);
  }

  /** All tunnels that asked so far got the token that is cached. */
  predicate OneToken(c: Cache) { forall k :: 0 <= k < |c.presented| ==> c.presented[k] == c.token }

  lemma StepKeepsOneToken(c: Cache, step: Step)
    requires Inv(c) && OneToken(c) && !step.Seed?
    requires step.Invalidate? ==> !At(c, step.i).WantingInvalidate?
    ensures OneToken(Next(c, step))
  {
    assert c.presented == [] || c.presented[0] == c.token;
  }

  lemma {:induction false} SeedlessCounts(tunnels: nat, steps: seq<Step>)
    requires Seedless(steps)
    ensures Count(tunnels, steps, Seeds) == 0
    decreases |steps|
  {
    if steps == [] {
    } else {
      SeedlessCounts(tunnels, steps[..|steps| - 1]);
    }
  }

  /** Without a rejection there is no tunnel that would drop the token. */
  lemma NothingToInvalidate(tunnels: nat, steps: seq<Step>, step: Step)
    requires Count(tunnels, steps, Rejects) == 0
    ensures step.Invalidate? ==> !At(Run(Init(tunnels), steps), step.i).WantingInvalidate?
  {
    RejectionsCoverEmptyings(tunnels, steps);
    var c := Run(Init(tunnels), steps);
    if step.Invalidate? && At(c, step.i).WantingInvalidate? { SomePending(c.pcs, step.i); }
  }

  /** While nothing was rejected or seeded, every tunnel presents the one token that was fetched once. */
  lemma {:induction false} OneTokenForAll(tunnels: nat, steps: seq<Step>)
    requires Count(tunnels, steps, Rejects) == 0 && Seedless(steps)
    ensures OneToken(Run(Init(tunnels), steps))
    ensures Count(tunnels, steps, Fetches) <= 1
    decreases |steps|
  {
    SeedlessCounts(tunnels, steps);
    EmptiedOnlyAfterRejection(tunnels, steps);
    if steps == [] {
    } else {
      var before, step := steps[..|steps| - 1], steps[|steps| - 1];
      OneTokenForAll(tunnels, before);
      RunKeepsInv(tunnels, before);
      NothingToInvalidate(tunnels, before, step);
      StepKeepsOneToken(Run(Init(tunnels), before), step);
    }
  }

  lemma RejectionPrecedes(c: Cache, step: Step, i: nat)
    requires At(Next(c, step), i).WantingInvalidate?
    ensures !Presents(c, step, i)
    ensures At(c, i).WantingInvalidate? || RejectsTunnel(i)(c, step)
  {
  }

  /** A tunnel that wants to invalidate was answered 401 or 403 by addKey since Token last returned to it. */
  lemma {:induction false} InvalidatesAfterOwnRejection(tunnels: nat, steps: seq<Step>, i: nat)
    requires At(Run(Init(tunnels), steps), i).WantingInvalidate?
    ensures Since(tunnels, steps, i, RejectsTunnel(i))
    decreases |steps|
  {
    if steps == [] {
    } else {
      var before, step := steps[..|steps| - 1], steps[|steps| - 1];
      RejectionPrecedes(Run(Init(tunnels), before), step, i);
      if At(Run(Init(tunnels), before), i).WantingInvalidate? { InvalidatesAfterOwnRejection(tunnels, before, i); }
    }
  }

  /** In every reachable state the cached token changes in three ways only: a fetch fills an empty cache, a tunnel
      empties it after addKey answered 401 or 403 to its own latest token, or SetToken is called. */
  lemma TokenChangesOnly(tunnels: nat, steps: seq<Step>, step: Step)
    requires Next(Run(Init(tunnels), steps), step).token != Run(Init(tunnels), steps).token
    ensures var c, d := Run(Init(tunnels), steps), Next(Run(Init(tunnels), steps), step);
      || (Fetches(c, step) && c.token == "" && d.token == step.token)
      || (step.Invalidate? && Since(tunnels, steps, step.i, RejectsTunnel(step.i)) && d.token == "")
      || (Seeds(c, step) && d.token == step.token)
  {
    RunKeepsInv(tunnels, steps);
    if step.Invalidate? { InvalidatesAfterOwnRejection(tunnels, steps, step.i); }
  }

  /** A failure of addKey that is a rate limit, a server error or a network error, however it is wrapped. */
  ghost predicate Harmless(e: Error)
  {
    exists messages: seq<string>, cause: Error :: e == WrapAll(messages, cause) && (cause.RateLimit? || cause.Plain?)
  }

  lemma HarmlessIsNoRejection(e: Error)
    requires Harmless(e)
    ensures !IsAuthError(e)
  {
    var messages: seq<string>, cause: Error :| e == WrapAll(messages, cause) && (cause.RateLimit? || cause.Plain?);
    WrappingKeepsDelay(0, messages, cause);
  }

  ghost predicate OnlyHarmless(steps: seq<Step>)
  {
    forall n :: 0 <= n < |steps| && steps[n].AddKeyFails? ==> Harmless(steps[n].e)
  }

  lemma {:induction false} HarmlessRun(tunnels: nat, steps: seq<Step>)
    requires OnlyHarmless(steps)
    ensures Count(tunnels, steps, Rejects) == 0
    decreases |steps|
  {
    if steps == [] {
    } else {
      var step := steps[|steps| - 1];
      HarmlessRun(tunnels, steps[..|steps| - 1]);
      if step.AddKeyFails? { HarmlessIsNoRejection(step.e); }
    }
  }

  lemma HarmlessStepKeepsToken(tunnels: nat, steps: seq<Step>, step: Step)
    requires OnlyHarmless(steps) && !step.Seed? && Run(Init(tunnels), steps).token != ""
    ensures Next(Run(Init(tunnels), steps), step).token == Run(Init(tunnels), steps).token
  {
    HarmlessRun(tunnels, steps);
    RunKeepsInv(tunnels, steps);
    NothingToInvalidate(tunnels, steps, step);
  }

  /** As long as every failure of addKey is a 429, a server error or a network error, and whatever /token
      answers, a token that is cached after k steps stays until SetToken replaces it. */
  lemma {:induction false} OtherFailuresKeepToken(tunnels: nat, steps: seq<Step>, k: nat)
    requires OnlyHarmless(steps) && k <= |steps| && forall n :: k <= n < |steps| ==> !steps[n].Seed?
    requires Run(Init(tunnels), steps[..k]).token != ""
    ensures Run(Init(tunnels), steps).token == Run(Init(tunnels), steps[..k]).token
    decreases |steps|
  {
    if k == |steps| {
      assert steps[..k] == steps;
    } else {
      var before, step := steps[..|steps| - 1], steps[|steps| - 1];
      assert before[..k] == steps[..k];
      OtherFailuresKeepToken(tunnels, before, k);
      HarmlessStepKeepsToken(tunnels, before, step);
    }
  }

  // ---------- which token an Invalidate drops ----------

  /** The token that a tunnel got from Token and has not finished with. */
  function Held(pc: PC): Option<string>
  {
    match pc
    case Registering(t) => Some(t)
    case WantingInvalidate(t) => Some(t)
    case _ => None
  }

  /** A tunnel that holds a token after a step got the cached one by that step, or held it before. */
  lemma HeldByStep(c: Cache, step: Step, i: nat)
    requires LockInv(c) && Held(At(Next(c, step), i)).Some?
    ensures Presents(c, step, i) ==> Next(c, step).token == Held(At(Next(c, step), i)).value
    ensures !Presents(c, step, i) ==> Held(At(c, i)) == Held(At(Next(c, step), i))
    ensures Next(c, step).token != c.token ==> Replaces(c, step) || Fetches(c, step)
    ensures Fetches(c, step) ==> c.token == ""
  {
  }

  /** How the token that a tunnel holds relates to the cached one. */
  predicate HeldIsCached(c: Cache, i: nat, replaced: bool, stored: bool)
  {
    Held(At(c, i)).Some? ==>
      && (!replaced ==> c.token == Held(At(c, i)).value && !stored)
      && (replaced && c.token != "" ==> stored)
  }

  lemma HeldIsReal(c: Cache, i: nat)
    requires TokensInv(c)
    ensures Held(At(c, i)).Some? ==> Held(At(c, i)).value != ""
  {
  }

  lemma StepKeepsHeld(c: Cache, step: Step, i: nat, replaced: bool, stored: bool)
    requires Inv(c) && HeldIsCached(c, i, replaced, stored)
    ensures HeldIsCached(Next(c, step), i,
                         !Presents(c, step, i) && (Replaces(c, step) || replaced),
                         !Presents(c, step, i) && (Stores(c, step) || stored))
  {
    if Held(At(Next(c, step), i)).Some? {
      HeldByStep(c, step, i);
      HeldIsReal(c, i);
    }
  }

  /** Between Token and the end of the attempt a tunnel holds the cached token exactly until the cache is emptied
      or seeded; what is cached after that was put there later. */
  lemma {:induction false} HeldWhileNotReplaced(tunnels: nat, steps: seq<Step>, i: nat)
    ensures HeldIsCached(Run(Init(tunnels), steps), i,
                         Since(tunnels, steps, i, Replaces), Since(tunnels, steps, i, Stores))
    decreases |steps|
  {
    if steps == [] {
    } else {
      var before := steps[..|steps| - 1];
      HeldWhileNotReplaced(tunnels, before, i);
      RunKeepsInv(tunnels, before);
      StepKeepsHeld(Run(Init(tunnels), before), steps[|steps| - 1], i,
                    Since(tunnels, before, i, Replaces), Since(tunnels, before, i, Stores));
    }
  }

  /** The token that an Invalidate drops is the rejected one. */
  predicate DropsTheRejected(c: Cache, i: nat)
  {
    At(c, i).WantingInvalidate? && Empties(c, Invalidate(i)) ==> c.token == At(c, i).rejected
  }

  /** In any run and with any number of tunnels, an Invalidate drops a token that was fetched or set after the rejected
      one was handed out exactly when the cache was emptied or set in between; otherwise it drops the rejected one. */
  lemma LaterTokenDroppedIffReplacedSince(tunnels: nat, steps: seq<Step>, i: nat)
    requires var c := Run(Init(tunnels), steps); At(c, i).WantingInvalidate? && Empties(c, Invalidate(i))
    ensures Since(tunnels, steps, i, Stores) <==> Since(tunnels, steps, i, Replaces)
    ensures !Since(tunnels, steps, i, Replaces) ==> DropsTheRejected(Run(Init(tunnels), steps), i)
  {
    HeldWhileNotReplaced(tunnels, steps, i);
  }

  /** Without SetToken only an Invalidate takes a token away and only a fetch brings one. */
  lemma {:induction false} SeedlessSince(tunnels: nat, steps: seq<Step>, i: nat)
    requires Seedless(steps)
    ensures Since(tunnels, steps, i, Replaces) == Since(tunnels, steps, i, Empties)
    ensures Since(tunnels, steps, i, Stores) == Since(tunnels, steps, i, Fetches)
    decreases |steps|
  {
    if steps == [] {
    } else {
      SeedlessSince(tunnels, steps[..|steps| - 1], i);
    }
  }

  /** In runs without SetToken: a token fetched after the rejected one was handed out is dropped exactly when the
      cache was emptied in between. */
  lemma NewerTokenDroppedIffEmptiedSince(tunnels: nat, steps: seq<Step>, i: nat)
    requires Seedless(steps)
    requires var c := Run(Init(tunnels), steps); At(c, i).WantingInvalidate? && Empties(c, Invalidate(i))
    ensures Since(tunnels, steps, i, Fetches) <==> Since(tunnels, steps, i, Empties)
    ensures !Since(tunnels, steps, i, Empties) ==> DropsTheRejected(Run(Init(tunnels), steps), i)
  {
    SeedlessSince(tunnels, steps, i);
    LaterTokenDroppedIffReplacedSince(tunnels, steps, i);
  }

  lemma {:induction false} RunKeepsTunnels(tunnels: nat, steps: seq<Step>)
    ensures |Run(Init(tunnels), steps).pcs| == tunnels
    decreases |steps|
  {
    if steps == [] {
    } else {
      RunKeepsTunnels(tunnels, steps[..|steps| - 1]);
    }
  }

  /** SetToken took effect only while no tunnel held a token, between attempts. */
  predicate QuietlySeeded(tunnels: nat, steps: seq<Step>)
    decreases |steps|
  {
    || steps == []
    || var before, step := steps[..|steps| - 1], steps[|steps| - 1];
       var c := Run(Init(tunnels), before);
       QuietlySeeded(tunnels, before)
       && (Seeds(c, step) ==> forall i :: 0 <= i < |c.pcs| ==> Held(c.pcs[i]).None?)
  }

  lemma {:induction false} SeedlessIsQuiet(tunnels: nat, steps: seq<Step>)
    requires Seedless(steps)
    ensures QuietlySeeded(tunnels, steps)
    decreases |steps|
  {
    if steps == [] {
    } else {
      SeedlessIsQuiet(tunnels, steps[..|steps| - 1]);
    }
  }

  /** The only tunnel cannot have the cache emptied while it holds a token. */
  lemma AloneStepKeepsHeld(c: Cache, step: Step, i: nat)
    requires Inv(c) && |c.pcs| <= 1 && HeldIsCached(c, i, false, false)
    requires Seeds(c, step) ==> forall j :: 0 <= j < |c.pcs| ==> Held(c.pcs[j]).None?
    ensures HeldIsCached(Next(c, step), i, false, false)
  {
    if Held(At(Next(c, step), i)).Some? {
      HeldByStep(c, step, i);
      HeldIsReal(c, i);
    }
  }

  lemma {:induction false} AloneHoldsCached(tunnels: nat, steps: seq<Step>, i: nat)
    requires QuietlySeeded(tunnels, steps) && tunnels <= 1
    ensures HeldIsCached(Run(Init(tunnels), steps), i, false, false)
    decreases |steps|
  {
    if steps == [] {
    } else {
      var before := steps[..|steps| - 1];
      AloneHoldsCached(tunnels, before, i);
      RunKeepsTunnels(tunnels, before);
      RunKeepsInv(tunnels, before);
      AloneStepKeepsHeld(Run(Init(tunnels), before), steps[|steps| - 1], i);
    }
  }

  lemma Extend(tunnels: nat, steps: seq<Step>, step: Step) returns (longer: seq<Step>)
    ensures Run(Init(tunnels), longer) == Next(Run(Init(tunnels), steps), step)
    ensures Seedless(steps) && !step.Seed? ==> Seedless(longer)
  {
    longer := steps + [step];
    assert longer[..|longer| - 1] == steps;
  }

  /** The first two of at least two tunnels, the token and the lock. */
  predicate Shows(c: Cache, token: string, holder: Option<nat>, first: PC, second: PC)
  {
    |c.pcs| >= 2 && c.token == token && c.holder == holder && c.pcs[0] == first && c.pcs[1] == second
  }

  lemma BothRegister(tunnels: nat) returns (steps: seq<Step>)
    requires tunnels >= 2
    ensures Seedless(steps) && Shows(Run(Init(tunnels), steps), "A", None, Registering("A"), Registering("A"))
  {
    steps := [];
    steps := Extend(tunnels, steps, Begin(0));
    steps := Extend(tunnels, steps, Begin(1));
    assert Shows(Run(Init(tunnels), steps), "", None, WantingToken, WantingToken);
    steps := Extend(tunnels, steps, Acquire(0));
    steps := Extend(tunnels, steps, FetchReply(0, "A"));
    assert Shows(Run(Init(tunnels), steps), "A", None, Registering("A"), WantingToken);
    steps := Extend(tunnels, steps, Acquire(1));
  }

  lemma ShowsRejections(c: Cache, token: string, first: PC, second: PC)
    requires Shows(c, token, None, first, second)
    ensures first.Registering? ==>
      Shows(Next(c, AddKeyFails(0, Auth)), token, None, WantingInvalidate(first.token), second)
    ensures second.Registering? ==>
      Shows(Next(c, AddKeyFails(1, Auth)), token, None, first, WantingInvalidate(second.token))
    ensures first.WantingInvalidate? ==> Shows(Next(c, Invalidate(0)), "", None, Idle, second)
  {
  }

  lemma BothRejected(tunnels: nat) returns (steps: seq<Step>)
    requires tunnels >= 2
    ensures Seedless(steps)
    ensures Shows(Run(Init(tunnels), steps), "A", None, WantingInvalidate("A"), WantingInvalidate("A"))
  {
    steps := BothRegister(tunnels);
    ShowsRejections(Run(Init(tunnels), steps), "A", Registering("A"), Registering("A"));
    steps := Extend(tunnels, steps, AddKeyFails(0, Auth));
    ShowsRejections(Run(Init(tunnels), steps), "A", WantingInvalidate("A"), Registering("A"));
    steps := Extend(tunnels, steps, AddKeyFails(1, Auth));
  }

  lemma OneInvalidates(tunnels: nat) returns (steps: seq<Step>)
    requires tunnels >= 2
    ensures Seedless(steps) && Shows(Run(Init(tunnels), steps), "", None, Idle, WantingInvalidate("A"))
  {
    steps := BothRejected(tunnels);
    ShowsRejections(Run(Init(tunnels), steps), "A", WantingInvalidate("A"), WantingInvalidate("A"));
    steps := Extend(tunnels, steps, Invalidate(0));
  }

  lemma OneAsksAgain(tunnels: nat) returns (steps: seq<Step>)
    requires tunnels >= 2
    ensures Seedless(steps) && Shows(Run(Init(tunnels), steps), "", None, WantingToken, WantingInvalidate("A"))
  {
    steps := OneInvalidates(tunnels);
    steps := Extend(tunnels, steps, Begin(0));
  }

  lemma OneFetchesAgain(tunnels: nat) returns (steps: seq<Step>)
    requires tunnels >= 2
    ensures Seedless(steps) && Shows(Run(Init(tunnels), steps), "", Some(0), Fetching, WantingInvalidate("A"))
  {
    steps := OneAsksAgain(tunnels);
    steps := Extend(tunnels, steps, Acquire(0));
  }

  /** Any two tunnels may both have the token "A" rejected; the second then drops the newer "B". */
  lemma InvalidateMayDropNewerToken(tunnels: nat) returns (steps: seq<Step>)
    requires tunnels >= 2
    ensures Seedless(steps)
    ensures var c := Run(Init(tunnels), steps);
      At(c, 1) == WantingInvalidate("A") && c.token == "B" && Next(c, Invalidate(1)).token == ""
  {
    steps := OneFetchesAgain(tunnels);
    steps := Extend(tunnels, steps, FetchReply(0, "B"));
    assert Shows(Run(Init(tunnels), steps), "B", None, Registering("B"), WantingInvalidate("A"));
  }

  /** The first tunnel, the token and the lock. */
  predicate ShowsFirst(c: Cache, token: string, holder: Option<nat>, first: PC)
  {
    |c.pcs| >= 1 && c.token == token && c.holder == holder && c.pcs[0] == first
  }

  lemma FirstRegisters(tunnels: nat) returns (steps: seq<Step>)
    requires tunnels >= 1
    ensures ShowsFirst(Run(Init(tunnels), steps), "A", None, Registering("A"))
  {
    steps := [];
    steps := Extend(tunnels, steps, Begin(0));
    assert ShowsFirst(Run(Init(tunnels), steps), "", None, WantingToken);
    steps := Extend(tunnels, steps, Acquire(0));
    assert ShowsFirst(Run(Init(tunnels), steps), "", Some(0), Fetching);
    steps := Extend(tunnels, steps, FetchReply(0, "A"));
  }

  /** A single tunnel is enough when SetToken is called while its addKey is under way: the rejection of the token "A"
      drops the "B" that was set. */
  lemma InvalidateMayDropSetToken(tunnels: nat) returns (steps: seq<Step>)
    requires tunnels >= 1
    ensures var c := Run(Init(tunnels), steps);
      At(c, 0) == WantingInvalidate("A") && c.token == "B" && !DropsTheRejected(c, 0)
  {
    steps := FirstRegisters(tunnels);
    steps := Extend(tunnels, steps, Seed("B"));
    assert ShowsFirst(Run(Init(tunnels), steps), "B", None, Registering("A"));
    steps := Extend(tunnels, steps, AddKeyFails(0, Auth));
    assert ShowsFirst(Run(Init(tunnels), steps), "B", None, WantingInvalidate("A"));
  }

  /** InvalidateToken never drops anything but the rejected token, in any run in which SetToken is called between
      attempts only, exactly when at most one tunnel uses the client. */
  lemma RejectedTokenDroppedIffAlone(tunnels: nat)
    ensures (forall steps: seq<Step>, i: nat ::
              QuietlySeeded(tunnels, steps) ==> DropsTheRejected(Run(Init(tunnels), steps), i))
       <==> tunnels <= 1
    ensures (forall steps: seq<Step>, i: nat :: Seedless(steps) ==> DropsTheRejected(Run(Init(tunnels), steps), i))
       <==> tunnels <= 1
    ensures (forall steps: seq<Step>, i: nat :: DropsTheRejected(Run(Init(tunnels), steps), i)) <==> tunnels == 0
  {
    forall steps: seq<Step>, i: nat | tunnels <= 1 && QuietlySeeded(tunnels, steps)
      ensures DropsTheRejected(Run(Init(tunnels), steps), i)
    {
      AloneHoldsCached(tunnels, steps, i);
    }
    forall steps: seq<Step> | Seedless(steps) ensures QuietlySeeded(tunnels, steps) { SeedlessIsQuiet(tunnels, steps); }
    if tunnels >= 2 {
      var steps := InvalidateMayDropNewerToken(tunnels);
      assert !DropsTheRejected(Run(Init(tunnels), steps), 1);
    }
    if tunnels == 0 {
      forall steps: seq<Step>, i: nat ensures DropsTheRejected(Run(Init(tunnels), steps), i) {
        RunKeepsTunnels(tunnels, steps);
      }
    } else {
      var steps := InvalidateMayDropSetToken(tunnels);
      assert !DropsTheRejected(Run(Init(tunnels), steps), 0);
    }
  }
}

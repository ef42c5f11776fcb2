/**
 The retry schedule of Tunnel.Run: exponential backoff for ordinary failures, a long cooldown for
 HTTP 429 that also resets the backoff, and the bound on the attempt rate that survives the resets.
 Durations are nanoseconds in a Go int64.
 */
module RetrySchedule {
  import opened Prelude
  import opened AddressText

  const FIRST: int := 2 * SECOND
  const MAX: int := 60 * SECOND
  const FLOOR: int := 300 * SECOND

  // ---------- errors and their wrap chains ----------

  datatype Error =
    | RateLimit(retryAfter: int)
    | Auth
    | Plain
    | Wrap(message: string, inner: Error)

  /** errors.As for *RateLimitError: the first one on the wrap chain. */
  function AsRateLimit(e: Error): Option<int>
  {
    match e
    case RateLimit(r) => Some(r)
    case Wrap(_, inner) => AsRateLimit(inner)
    case _ => None
  }

  predicate IsAuthError(e: Error)
  {
    match e
    case Auth => true
    case Wrap(_, inner) => IsAuthError(inner)
    case _ => false
  }

  /** An error inside any number of fmt.Errorf wrappers, the last message outermost. */
  function WrapAll(messages: seq<string>, e: Error): Error
    decreases |messages|
  {
    if messages == [] then e
    else Wrap(messages[|messages| - 1], WrapAll(messages[..|messages| - 1], e))
  }

  /** The error that runOnce returns for a failed registration. */
  function FailedRegistration(e: Error): Error { Wrap("addKey: ", e) }

  // ---------- Retry-After ----------

  const INT64_MAX: int := 0x7fff_ffff_ffff_ffff

  /** Two's complement truncation to int64. */
  function ToInt64(x: int): int
  {
    (x + 0x8000_0000_0000_0000) % TWO64 - 0x8000_0000_0000_0000
  }

  predicate IsSpace(c: byte) { c == 32 || 9 <= c <= 13 }

  function TrimLeft(s: bytes): bytes
  {
    if s != [] && IsSpace(s[0]) then TrimLeft(s[1..]) else s
  }

  function TrimRight(s: bytes): bytes
    decreases |s|
  {
    if s != [] && IsSpace(s[|s| - 1]) then TrimRight(s[..|s| - 1]) else s
  }

  /** strconv.Atoi: an optional sign and decimal digits whose value fits an int64. */
  function Atoi(s: bytes): Option<int>
  {
    var digits := if s != [] && (s[0] == 43 || s[0] == 45) then s[1..] else s;
    if digits == [] || !AllDigits(digits) then None
    else
      var size: int := DecimalValue(digits);
      var v := if s[0] == 45 then -size else size;
      if -INT64_MAX - 1 <= v <= INT64_MAX then Some(v) else None
  }

  /** parseRetryAfter; date is how far ahead the header lies when it reads as an HTTP date. */
  function ParseRetryAfter(header: bytes, date: Option<int>): int
  {
    var h := TrimRight(TrimLeft(header));
    if h == [] then 0
    else if Atoi(h).Some? && Atoi(h).value > 0 then ToInt64(Atoi(h).value * SECOND)
    else if date.Some? && date.value > 0 then date.value
    else 0
  }

  lemma {:induction false} TrimLeftSpaces(pre: bytes, s: bytes)
    requires forall i :: 0 <= i < |pre| ==> IsSpace(pre[i])
    requires s != [] && !IsSpace(s[0])
    ensures TrimLeft(pre + s) == s
  {
    if pre == [] {
      assert pre + s == s;
    } else {
      assert (pre + s)[1..] == pre[1..] + s;
      TrimLeftSpaces(pre[1..], s);
    }
  }

  lemma {:induction false} TrimRightSpaces(s: bytes, post: bytes)
    requires forall i :: 0 <= i < |post| ==> IsSpace(post[i])
    requires s != [] && !IsSpace(s[|s| - 1])
    ensures TrimRight(s + post) == s
    decreases |post|
  {
    if post == [] {
      assert s + post == s;
    } else {
      var n := |post| - 1;
      assert (s + post)[..|s| + n] == s + post[..n];
      TrimRightSpaces(s, post[..n]);
    }
  }

  lemma AtoiOfDecimal(n: nat)
    ensures Atoi(Decimal(n)) == if n <= INT64_MAX then Some(n) else None
  {
    DecimalReadsBack(n);
    assert IsDigit(Decimal(n)[0]);
  }

  /** A header that is a positive decimal number, whatever spaces surround it. */
  lemma SecondsHeader(pre: bytes, n: nat, post: bytes, date: Option<int>)
    requires n > 0
    requires forall i :: 0 <= i < |pre| ==> IsSpace(pre[i])
    requires forall i :: 0 <= i < |post| ==> IsSpace(post[i])
    ensures n <= INT64_MAX ==> ParseRetryAfter(pre + Decimal(n) + post, date) == ToInt64(n * SECOND)
    ensures n > INT64_MAX && date == None ==> ParseRetryAfter(pre + Decimal(n) + post, date) == 0
  {
    var d := Decimal(n);
    assert IsDigit(d[0]) && IsDigit(d[|d| - 1]);
    assert pre + d + post == pre + (d + post);
    TrimLeftSpaces(pre, d + post);
    TrimRightSpaces(d, post);
    AtoiOfDecimal(n);
  }

  // ---------- the loop body ----------

  function Delay(backoff: int, e: Error): int
  {
    match AsRateLimit(e)
    case Some(retryAfter) => if retryAfter < FLOOR then FLOOR else retryAfter
    case None => backoff
  }

  function NextBackoff(backoff: int, e: Error): int
  {
    if AsRateLimit(e).Some? then FIRST
    else if backoff * 2 > MAX then MAX else backoff * 2
  }

  function BackoffFrom(start: int, failures: seq<Error>): int
    decreases |failures|
  {
    if failures == [] then start
    else NextBackoff(BackoffFrom(start, failures[..|failures| - 1]), failures[|failures| - 1])
  }

  /** The time slept after the failures of a run whose backoff was start when it began. */
  function TotalFrom(start: int, failures: seq<Error>): int
    decreases |failures|
  {
    if failures == [] then 0
    else
      var before := failures[..|failures| - 1];
      TotalFrom(start, before) + Delay(BackoffFrom(start, before), failures[|failures| - 1])
  }

  // ---------- the closed form ----------

  /** The ordinary failures since the start or the last 429. */
  function Streak(failures: seq<Error>): nat
    decreases |failures|
  {
    if failures == [] || AsRateLimit(failures[|failures| - 1]).Some? then 0
    else Streak(failures[..|failures| - 1]) + 1
  }

  function Pow2(n: nat): nat { if n == 0 then 1 else 2 * Pow2(n - 1) }

  function Min(a: int, b: int): int { if a < b then a else b }

  function Max(a: int, b: int): int { if a < b then b else a }

  lemma {:induction false} BackoffClosedForm(failures: seq<Error>)
    ensures BackoffFrom(FIRST, failures) == Min(Pow2(Streak(failures) + 1) * SECOND, MAX)
  {
    if failures != [] && AsRateLimit(failures[|failures| - 1]).None? {
      var before := failures[..|failures| - 1];
      BackoffClosedForm(before);
      assert Pow2(Streak(failures) + 1) == 2 * Pow2(Streak(before) + 1);
    } else {
      assert Pow2(1) == 2 * Pow2(0) == 2;
    }
  }

  /** min(2^(k+1), 60) seconds after k ordinary failures in a row; max(300 s, Retry-After) for a 429. */
  function ClosedDelay(earlier: seq<Error>, e: Error): int
  {
    match AsRateLimit(e)
    case Some(retryAfter) => Max(FLOOR, retryAfter)
    case None => Min(Pow2(Streak(earlier) + 1) * SECOND, MAX)
  }

  lemma DelayClosedForm(earlier: seq<Error>, e: Error)
    ensures Delay(BackoffFrom(FIRST, earlier), e) == ClosedDelay(earlier, e)
  {
    BackoffClosedForm(earlier);
  }

  /** Wrapping an error any number of times, with any messages, changes neither its delay nor its kind. */
  lemma {:induction false} WrappingKeepsDelay(backoff: int, messages: seq<string>, e: Error)
    ensures AsRateLimit(WrapAll(messages, e)) == AsRateLimit(e)
    ensures IsAuthError(WrapAll(messages, e)) == IsAuthError(e)
    ensures Delay(backoff, WrapAll(messages, e)) == Delay(backoff, e)
    ensures NextBackoff(backoff, WrapAll(messages, e)) == NextBackoff(backoff, e)
    decreases |messages|
  {
    if messages == [] {
    } else {
      WrappingKeepsDelay(backoff, messages[..|messages| - 1], e);
    }
  }

  /**
   The cooldown after a 429 whose Retry-After is n seconds, through any wrapping and after any failures: never
   below five minutes, even where the int64 product wraps, and max(300, n) seconds for every n up to
   9223372036, which is exactly as far as the product is the number of seconds asked for.
   */
  lemma CooldownFromHeader(earlier: seq<Error>, messages: seq<string>, pre: bytes, n: nat, post: bytes)
    requires 0 < n <= INT64_MAX
    requires forall i :: 0 <= i < |pre| ==> IsSpace(pre[i])
    requires forall i :: 0 <= i < |post| ==> IsSpace(post[i])
    ensures var retryAfter := ParseRetryAfter(pre + Decimal(n) + post, None);
      var delay := Delay(BackoffFrom(FIRST, earlier), WrapAll(messages, RateLimit(retryAfter)));
      && delay >= FLOOR
      && (retryAfter == n * SECOND <==> n <= 9223372036)
      && (n <= 9223372036 ==> delay == Max(300, n) * SECOND)
  {
    SecondsHeader(pre, n, post, None);
    WrappingKeepsDelay(BackoffFrom(FIRST, earlier), messages, RateLimit(ToInt64(n * SECOND)));
  }

  // ---------- the attempt rate ----------

  /** The backoff values that Run can hold. */
  predicate Reachable(backoff: int)
  {
    backoff in {2 * SECOND, 4 * SECOND, 8 * SECOND, 16 * SECOND, 32 * SECOND, 60 * SECOND}
  }

  /** What the coming ordinary failures may still fall short of 60 s each, from a given backoff. */
  function Credit(backoff: int): int
  {
    if backoff == 2 * SECOND then 238 * SECOND
    else if backoff == 4 * SECOND then 180 * SECOND
    else if backoff == 8 * SECOND then 124 * SECOND
    else if backoff == 16 * SECOND then 72 * SECOND
    else if backoff == 32 * SECOND then 28 * SECOND
    else 0
  }

  lemma {:induction false} TotalWithCredit(start: int, failures: seq<Error>)
    requires Reachable(start)
    ensures Reachable(BackoffFrom(start, failures))
    ensures TotalFrom(start, failures)
         >= 60 * SECOND * |failures| - 238 * SECOND + Credit(BackoffFrom(start, failures))
    decreases |failures|
  {
    if failures == [] {
    } else {
      TotalWithCredit(start, failures[..|failures| - 1]);
    }
  }

  /**
   In any n consecutive failures, wherever they start and with 429s anywhere among them, the tunnel
   waits at least 60 n - 238 seconds: resetting the backoff after a 429 never buys a faster rate.
   */
  lemma AttemptRateBounded(earlier: seq<Error>, failures: seq<Error>)
    ensures TotalFrom(BackoffFrom(FIRST, earlier), failures) >= 60 * SECOND * |failures| - 238 * SECOND
  {
    TotalWithCredit(FIRST, earlier);
    TotalWithCredit(BackoffFrom(FIRST, earlier), failures);
  }

  /** The bound is met with equality by five ordinary failures at the start. */
  lemma AttemptRateBoundTight()
    ensures TotalFrom(FIRST, [Plain, Plain, Plain, Plain, Plain]) == 60 * SECOND * 5 - 238 * SECOND
  {
    var f1, f2, f3 := [Plain], [Plain, Plain], [Plain, Plain, Plain];
    var f4, f5 := [Plain, Plain, Plain, Plain], [Plain, Plain, Plain, Plain, Plain];
    assert f1[..0] == [] && f2[..1] == f1 && f3[..2] == f2 && f4[..3] == f3 && f5[..4] == f4;
    assert BackoffFrom(FIRST, f1) == 4 * SECOND && TotalFrom(FIRST, f1) == 2 * SECOND;
    assert BackoffFrom(FIRST, f2) == 8 * SECOND && TotalFrom(FIRST, f2) == 6 * SECOND;
    assert BackoffFrom(FIRST, f3) == 16 * SECOND && TotalFrom(FIRST, f3) == 14 * SECOND;
    assert BackoffFrom(FIRST, f4) == 32 * SECOND && TotalFrom(FIRST, f4) == 30 * SECOND;
  }

  // ---------- attempts in time ----------

  /** Attempt i starts at starts[i] and ends in failures[i]; the next one starts no earlier than its delay later. */
  predicate Waits(starts: seq<int>, failures: seq<Error>, i: nat)
    requires i < |failures| && |starts| == |failures| + 1
  {
    starts[i + 1] - starts[i] >= Delay(BackoffFrom(FIRST, failures[..i]), failures[i])
  }

  predicate Timeline(starts: seq<int>, failures: seq<Error>)
  {
    |starts| == |failures| + 1 && forall i :: 0 <= i < |failures| ==> Waits(starts, failures, i)
  }

  lemma {:induction false} BackoffContinues(a: seq<Error>, b: seq<Error>)
    ensures BackoffFrom(FIRST, a + b) == BackoffFrom(BackoffFrom(FIRST, a), b)
    decreases |b|
  {
    if b == [] {
      assert a + b == a;
    } else {
      var n := |b| - 1;
      BackoffContinues(a, b[..n]);
      assert (a + b)[..|a| + n] == a + b[..n];
    }
  }

  /** The time slept in the window from attempt i to attempt j. */
  function Slept(failures: seq<Error>, i: nat, j: nat): int
    requires i <= j <= |failures|
  {
    TotalFrom(BackoffFrom(FIRST, failures[..i]), failures[i..j])
  }

  /** The time slept in a window grows by the delay of its last failure. */
  lemma WindowGrows(failures: seq<Error>, i: nat, k: nat)
    requires i <= k < |failures|
    ensures Slept(failures, i, k + 1)
         == Slept(failures, i, k) + Delay(BackoffFrom(FIRST, failures[..k]), failures[k])
  {
    var before, window, longer := failures[..i], failures[i..k], failures[i..k + 1];
    assert longer[..|longer| - 1] == window;
    BackoffContinues(before, window);
    assert before + window == failures[..k];
  }

  lemma NextStart(starts: seq<int>, failures: seq<Error>, i: nat, k: nat)
    requires |starts| == |failures| + 1 && i <= k < |failures| && Waits(starts, failures, k)
    requires starts[k] - starts[i] >= Slept(failures, i, k)
    ensures starts[k + 1] - starts[i] >= Slept(failures, i, k + 1)
  {
    WindowGrows(failures, i, k);
  }

  lemma {:induction false} TimePasses(starts: seq<int>, failures: seq<Error>, i: nat, j: nat)
    requires Timeline(starts, failures) && i <= j <= |failures|
    ensures starts[j] - starts[i] >= Slept(failures, i, j)
    decreases j
  {
    if i < j {
      TimePasses(starts, failures, i, j - 1);
      NextStart(starts, failures, i, j - 1);
    } else {
      assert failures[i..i] == [];
    }
  }

  /**
   However long the attempts take and however they fail, the n-th attempt after any attempt starts at least
   60 n - 238 seconds later: no window of 60 n - 238 seconds holds more than n attempts.
   */
  lemma AttemptsSpreadOut(starts: seq<int>, failures: seq<Error>, i: nat, j: nat)
    requires Timeline(starts, failures) && i <= j <= |failures|
    ensures starts[j] - starts[i] >= (60 * (j - i) - 238) * SECOND
  {
    TimePasses(starts, failures, i, j);
    AttemptRateBounded(failures[..i], failures[i..j]);
  }

  /** The loop of Run over a history of failures: the delay it sleeps after each. */
  method Delays(failures: seq<Error>) returns (delays: seq<int>, backoff: int)
    ensures |delays| == |failures| && backoff == BackoffFrom(FIRST, failures)
    ensures forall i :: 0 <= i < |failures| ==> delays[i] == ClosedDelay(failures[..i], failures[i])
  {
    delays, backoff := [], FIRST;
    for i := 0 to |failures|
      invariant |delays| == i && backoff == BackoffFrom(FIRST, failures[..i])
      invariant forall j :: 0 <= j < i ==> delays[j] == ClosedDelay(failures[..j], failures[j])
    {
      var rl := AsRateLimit(failures[i]);
      var delay;
      DelayClosedForm(failures[..i], failures[i]);
      assert failures[..i + 1][..i] == failures[..i];
      if rl.Some? {
        delay := rl.value;
        if delay < FLOOR { delay := FLOOR; }
        backoff := FIRST;
      } else {
        delay := backoff;
        backoff := backoff * 2;
        if backoff > MAX { backoff := MAX; }
      }
      delays := delays + [delay];
    }
    assert failures[..|failures|] == failures;
  }
}

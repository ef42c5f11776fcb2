/**
 The retry schedule in numbers: what a Retry-After header asks for, byte by byte, and how long each failure is slept on.
 */
module RetryLaws {
  import opened Prelude
  import opened AddressText
  import opened AddressLaws
  import opened RetrySchedule

  // ---------- the header ----------

  /** A space, a tab, a line feed, a vertical tab, a form feed or a carriage return. */
  predicate Space(c: byte) { c == 32 || c == 9 || c == 10 || c == 11 || c == 12 || c == 13 }

  predicate Spaces(s: bytes) { forall i :: 0 <= i < |s| ==> Space(s[i]) }

  /** Nothing, or something that neither begins nor ends with a space. */
  predicate Bare(s: bytes) { s == [] || (!Space(s[0]) && !Space(s[|s| - 1])) }

  predicate Digits(s: bytes) { s != [] && forall i :: 0 <= i < |s| ==> 48 <= s[i] <= 57 }

  /** What a text of decimal digits with at most one sign says. */
  function Signed(s: bytes): Option<int>
  {
    if Digits(s) then Some(PlaceValue(s, 10))
    else if s != [] && s[0] == 43 && Digits(s[1..]) then Some(PlaceValue(s[1..], 10))
    else if s != [] && s[0] == 45 && Digits(s[1..]) then
      var size: int := PlaceValue(s[1..], 10);
      Some(-size)
    else None
  }

  lemma AtoiIsSigned(s: bytes)
    ensures Atoi(s) == (if Signed(s).Some? && -0x8000_0000_0000_0000 <= Signed(s).value < 0x8000_0000_0000_0000
                        then Signed(s) else None)
  {
    var digits := if s != [] && (s[0] == 43 || s[0] == 45) then s[1..] else s;
    assert Digits(digits) <==> digits != [] && AllDigits(digits);
    if AllDigits(digits) { DecimalValueIsPlaceValue(digits); }
  }

  lemma {:induction false} SpacesTrim(s: bytes)
    requires Spaces(s)
    ensures TrimLeft(s) == []
  {
    if s == [] {
    } else {
      SpacesTrim(s[1..]);
    }
  }

  lemma TrimsToCore(pre: bytes, core: bytes, post: bytes)
    requires Spaces(pre) && Spaces(post) && Bare(core)
    ensures TrimRight(TrimLeft(pre + core + post)) == core
  {
    if core == [] {
      assert Spaces(pre + core + post);
      SpacesTrim(pre + core + post);
    } else {
      assert pre + core + post == pre + (core + post);
      TrimLeftSpaces(pre, core + post);
      TrimRightSpaces(core, post);
    }
  }

  /** r nanoseconds in an int64 for n seconds: exactly while they fit, and else what is left modulo 2^64. */
  predicate Nanoseconds(r: int, n: int)
  {
    && -0x8000_0000_0000_0000 <= r < 0x8000_0000_0000_0000
    && (r - n * 1_000_000_000) % 0x1_0000_0000_0000_0000 == 0
    && (0 <= n <= 9_223_372_036 ==> r == n * 1_000_000_000)
  }

  lemma TruncationIsNanoseconds(n: int)
    ensures Nanoseconds(ToInt64(n * SECOND), n)
  {
    var x := n * SECOND;
    var q := (x + 0x8000_0000_0000_0000) / TWO64;
    assert ToInt64(x) - x == -q * TWO64;
    assert (-q * TWO64) % TWO64 == 0;
  }

  /** What any header asks for: between spaces nothing asks for nothing, a positive number of seconds that fits an
      int64, with or without a plus sign, for that many, and anything else for as long as it is until the date that
      it names, if it names one that lies ahead. */
  lemma RetryAfterAsks(pre: bytes, core: bytes, post: bytes, date: Option<int>)
    requires Spaces(pre) && Spaces(post) && Bare(core)
    ensures var r, n := ParseRetryAfter(pre + core + post, date), Signed(core);
      if core == [] then r == 0
      else if n.Some? && 0 < n.value < 0x8000_0000_0000_0000 then Nanoseconds(r, n.value)
      else r == if date.Some? && date.value > 0 then date.value else 0
  {
    TrimsToCore(pre, core, post);
    AtoiIsSigned(core);
    if Signed(core).Some? { TruncationIsNanoseconds(Signed(core).value); }
  }

  // ---------- the chain of an error ----------

  /** The first 429 on the wrap chain of an error is one that asks to wait for r. */
  predicate AsksToWait(e: Error, r: int)
  {
    match e
    case RateLimit(after) => after == r
    case Wrap(_, inner) => AsksToWait(inner, r)
    case _ => false
  }

  lemma {:induction false} AsIsOnChain(e: Error, r: int)
    ensures AsRateLimit(e) == Some(r) <==> AsksToWait(e, r)
  {
    if e.Wrap? { AsIsOnChain(e.inner, r); }
  }

  ghost predicate Ordinary(e: Error) { forall r :: !AsksToWait(e, r) }

  lemma OrdinaryIsNone(e: Error)
    ensures AsRateLimit(e).None? <==> Ordinary(e)
  {
    forall r ensures AsRateLimit(e) == Some(r) <==> AsksToWait(e, r) { AsIsOnChain(e, r); }
    if AsRateLimit(e).Some? { assert AsksToWait(e, AsRateLimit(e).value); }
  }

  // ---------- the delays ----------

  /** The last k failures are ordinary, and the one before them, if there is one, is a 429. */
  ghost predicate LastOrdinary(failures: seq<Error>, k: nat)
  {
    && k <= |failures|
    && (forall i :: |failures| - k <= i < |failures| ==> Ordinary(failures[i]))
    && (k < |failures| ==> !Ordinary(failures[|failures| - k - 1]))
  }

  lemma {:induction false} StreakIs(failures: seq<Error>, k: nat)
    requires LastOrdinary(failures, k)
    ensures Streak(failures) == k
    decreases k
  {
    if failures != [] {
      OrdinaryIsNone(failures[|failures| - 1]);
      if k > 0 {
        var before := failures[..|failures| - 1];
        assert forall i :: 0 <= i < |before| ==> before[i] == failures[i];
        StreakIs(before, k - 1);
      }
    }
  }

  lemma {:induction false} PowersGrow(k: nat)
    requires k >= 5
    ensures Pow2(k + 1) >= 64
  {
    if k == 5 { assert Pow2(6) == 2 * Pow2(5) && Pow2(5) == 2 * Pow2(4) && Pow2(4) == 16; } else { PowersGrow(k - 1); }
  }

  /** The wait after an ordinary failure that follows k others: 2, 4, 8, 16 and 32 seconds, and then a minute each. */
  lemma OrdinaryDelays(earlier: seq<Error>, e: Error, k: nat)
    requires LastOrdinary(earlier, k) && Ordinary(e)
    ensures Delay(BackoffFrom(FIRST, earlier), e)
         == (if k == 0 then 2 else if k == 1 then 4 else if k == 2 then 8 else if k == 3 then 16 else if k == 4 then 32
             else 60) * 1_000_000_000
  {
    OrdinaryIsNone(e);
    StreakIs(earlier, k);
    BackoffClosedForm(earlier);
    if k >= 5 { PowersGrow(k); } else { assert Pow2(1) == 2 && Pow2(2) == 4 && Pow2(3) == 8 && Pow2(4) == 16; }
  }

  /** The wait after a 429, whatever came before: what it asks for, and never less than five minutes. */
  lemma LimitedDelay(earlier: seq<Error>, e: Error, r: int)
    requires AsksToWait(e, r)
    ensures Delay(BackoffFrom(FIRST, earlier), e) == if r < 300_000_000_000 then 300_000_000_000 else r
  {
    AsIsOnChain(e, r);
  }
}

/** DeliverTrigger: one event handed to a target until it is consumed or the context ends. */
module TriggerDelivery {
  import opened Wrappers
  import opened TriggerErrors

  newtype Duration = d: int | -0x8000_0000_0000_0000 <= d < 0x8000_0000_0000_0000

  const INITIAL_DELAY: Duration := 250_000_000
  const MAX_DELAY: Duration := 30_000_000_000

  // ----- The retry schedule -----

  function Power2(exponent: nat): nat
  {
    if exponent == 0 then 1 else 2 * Power2(exponent - 1)
  }

  function Min(left: int, right: int): int
  {
    if left <= right then left else right
  }

  /** The wait after attempt number attempt, in nanoseconds. */
  function Delay(attempt: int): int
  {
    if attempt < 1 then 250_000_000 else Min(250_000_000 * Power2(attempt - 1), 30_000_000_000)
  }

  lemma {:induction false} Power2Grows(lower: nat, higher: nat)
    requires lower <= higher
    ensures Power2(lower) <= Power2(higher)
    decreases higher
  {
    if lower < higher {
      Power2Grows(lower, higher - 1);
    }
  }

  /** triggerRetryDelay: doubling stops before it can pass twice the maximum, so no 64-bit product overflows. */
  method TriggerRetryDelay(attempt: int) returns (delay: Duration)
    ensures delay as int == Delay(attempt)
  {
    delay := INITIAL_DELAY;
    var completed := 1;
    while completed < attempt && delay < MAX_DELAY
      invariant 1 <= completed && (completed <= attempt || completed == 1)
      invariant delay as int == 250_000_000 * Power2(completed - 1)
      invariant 0 < delay < 2 * MAX_DELAY
    {
      delay := delay * 2;
      completed := completed + 1;
    }
    if completed < attempt {
      Power2Grows(completed - 1, attempt - 1);
    }
    delay := if delay <= MAX_DELAY then delay else MAX_DELAY;
  }

  // ----- Targets that consume undeliverable events -----

  /** A target is the application's own, or a runner's consuming target around another. */
  datatype Target = Direct | Consuming(inner: Target)

  datatype Record = Retrying(attempt: int, delay: int) | DeliveredAfterRetry(attempts: int) | Skipped

  /** The returned error, the records logged inside, and whether the attempt's skip recorder was set. */
  datatype Handled = Handled(error: Option<Error>, log: seq<Record>, isSkipRecorded: bool)

  function HandleTrigger(target: Target, outcome: Option<Error>): Handled
  {
    match target
    case Direct => Handled(outcome, [], false)
    case Consuming(inner) =>
      var handled := HandleTrigger(inner, outcome);
      if IsTriggerUndeliverable(handled.error) then Handled(None, handled.log + [Skipped], true) else handled
  }

  /** At any depth, an undeliverable outcome is logged once, by the innermost consuming target. */
  lemma {:induction false} ConsumedOnceAtAnyDepth(target: Target, outcome: Option<Error>)
    ensures HandleTrigger(target, outcome) ==
      if target.Consuming? && IsTriggerUndeliverable(outcome) then Handled(None, [Skipped], true)
        else Handled(outcome, [], false)
  {
    if target.Consuming? {
      ConsumedOnceAtAnyDepth(target.inner, outcome);
    }
  }

  // ----- The delivery loop -----

  /** What happens in one iteration: whether the context has ended at each check, and the outcome of the attempt. */
  datatype Round = Round(endsBefore: bool, outcome: Option<Error>, endsAfter: bool, endsWaiting: bool)

  datatype Result = Consumed | ContextEnded | StillTrying

  predicate IsConsumed(round: Round)
  {
    !round.endsBefore && (round.outcome.None? || IsTriggerUndeliverable(round.outcome))
  }

  predicate IsLast(round: Round)
  {
    round.endsBefore || IsConsumed(round) || round.endsAfter || round.endsWaiting
  }

  /** The last iteration that runs, or the number of rounds when none is the last. */
  function LastRound(rounds: seq<Round>): (last: nat)
    ensures last <= |rounds|
    ensures forall i :: 0 <= i < last ==> !IsLast(rounds[i])
    ensures last < |rounds| ==> IsLast(rounds[last])
  {
    if rounds == [] || IsLast(rounds[0]) then 0 else 1 + LastRound(rounds[1..])
  }

  function Retries(count: nat): seq<Record>
  {
    seq(count, i requires 0 <= i < count => Retrying(i + 1, Delay(i + 1)))
  }

  /** The attempts that were made, failed, and were logged before a wait. */
  function RetryCount(rounds: seq<Round>): nat
  {
    var last := LastRound(rounds);
    if last < |rounds| && !rounds[last].endsBefore && !IsConsumed(rounds[last]) && !rounds[last].endsAfter then last + 1
      else last
  }

  /** The closing record: a skip, a late delivery, or none. */
  function Closing(rounds: seq<Round>): seq<Record>
  {
    var last := LastRound(rounds);
    if last == |rounds| || !IsConsumed(rounds[last]) then []
    else if IsTriggerUndeliverable(rounds[last].outcome) then [Skipped]
    else if last > 0 then [DeliveredAfterRetry(last + 1)]
    else []
  }

  /** DeliverTrigger over any script of iterations; calls counts the target's HandleTrigger calls. */
  method DeliverTrigger(target: Target, rounds: seq<Round>) returns (result: Result, log: seq<Record>, calls: nat)
    ensures var last := LastRound(rounds);
      && (result == StillTrying <==> last == |rounds|)
      && (result == Consumed <==> last < |rounds| && IsConsumed(rounds[last]))
      && calls == (if last < |rounds| && !rounds[last].endsBefore then last + 1 else last)
    ensures log == Retries(RetryCount(rounds)) + Closing(rounds)
  {
    hide HandleTrigger, Delay, As;
    log, calls := [], 0;
    var attempt := 1;
    while attempt <= |rounds|
      invariant 1 <= attempt <= |rounds| + 1 && calls == attempt - 1
      invariant forall i :: 0 <= i < attempt - 1 ==> !IsLast(rounds[i])
      invariant log == Retries(attempt - 1)
    {
      var round := rounds[attempt - 1];
      LastRoundAt(rounds, attempt - 1);
      if round.endsBefore {
        return ContextEnded, log, calls;
      }
      var handled := HandleTrigger(target, round.outcome);
      ConsumedOnceAtAnyDepth(target, round.outcome);
      calls := calls + 1;
      log := log + handled.log;
      if handled.error.None? {
        if attempt > 1 && !handled.isSkipRecorded {
          log := log + [DeliveredAfterRetry(attempt)];
        }
        return Consumed, log, calls;
      }
      if IsTriggerUndeliverable(handled.error) {
        log := log + [Skipped];
        return Consumed, log, calls;
      }
      if round.endsAfter {
        return ContextEnded, log, calls;
      }
      var delay := TriggerRetryDelay(attempt);
      assert Retries(attempt) == Retries(attempt - 1) + [Retrying(attempt, Delay(attempt))];
      log := log + [Retrying(attempt, delay as int)];
      if round.endsWaiting {
        return ContextEnded, log, calls;
      }
      attempt := attempt + 1;
    }
    LastRoundAt(rounds, |rounds|);
    result := StillTrying;
  }

  lemma {:induction false} LastRoundAt(rounds: seq<Round>, index: nat)
    requires index <= |rounds| && forall i :: 0 <= i < index ==> !IsLast(rounds[i])
    ensures LastRound(rounds) >= index
    ensures index == |rounds| || IsLast(rounds[index]) ==> LastRound(rounds) == index
  {
    var last := LastRound(rounds);
    assert last < |rounds| ==> IsLast(rounds[last]);
  }

  /** Every undeliverable event that is consumed is reported as skipped once and never as delivered. */
  lemma SkippedOnceNeverDelivered(rounds: seq<Round>)
    ensures var last, log := LastRound(rounds), Retries(RetryCount(rounds)) + Closing(rounds);
      var isSkip := last < |rounds| && IsConsumed(rounds[last]) && IsTriggerUndeliverable(rounds[last].outcome);
      && multiset(log)[Skipped] == (if isSkip then 1 else 0)
      && (isSkip ==> forall record :: record in log ==> !record.DeliveredAfterRetry?)
  {
    var count := RetryCount(rounds);
    assert forall record :: record in Retries(count) ==> record.Retrying?;
    assert multiset(Retries(count) + Closing(rounds)) == multiset(Retries(count)) + multiset(Closing(rounds));
    hide Retries, RetryCount, As, LastRound;
    assert multiset(Retries(count))[Skipped] == 0;
  }

  /** The attempt was made and failed, and nothing ended the delivery before its retry was logged. */
  predicate IsRetried(round: Round)
  {
    !round.endsBefore && round.outcome.Some? && !IsTriggerUndeliverable(round.outcome) && !round.endsAfter
  }

  /** Delivery got past this round. */
  predicate Continues(round: Round)
  {
    IsRetried(round) && !round.endsWaiting
  }

  /** Each record says what happened in its round, and each such round has its record. */
  lemma RecordsAreExact(rounds: seq<Round>, n: nat, delay: int)
    requires 1 <= n <= |rounds|
    ensures var log, round := Retries(RetryCount(rounds)) + Closing(rounds), rounds[n - 1];
      var isReached := forall i :: 0 <= i < n - 1 ==> Continues(rounds[i]);
      && (Retrying(n, delay) in log <==> isReached && IsRetried(round) && delay == Delay(n))
      && (DeliveredAfterRetry(n) in log <==> isReached && n > 1 && !round.endsBefore && round.outcome.None?)
  {
    hide Delay, As;
    var last, count := LastRound(rounds), RetryCount(rounds);
    ReachedIff(rounds, n - 1);
    assert Retrying(n, delay) in Retries(count) <==> n <= count && delay == Delay(n) by {
      RetriesAre(count, n, delay);
    }
    assert forall record :: record in Retries(count) ==> record.Retrying?;
  }

  lemma ReachedIff(rounds: seq<Round>, index: nat)
    requires index < |rounds|
    ensures (forall i :: 0 <= i < index ==> Continues(rounds[i])) <==> index <= LastRound(rounds)
  {
    hide As;
    var last := LastRound(rounds);
    assert forall i :: 0 <= i < |rounds| ==> (Continues(rounds[i]) <==> !IsLast(rounds[i]));
    assert last < |rounds| ==> IsLast(rounds[last]);
  }

  lemma RetriesAre(count: nat, n: nat, delay: int)
    requires n >= 1
    ensures Retrying(n, delay) in Retries(count) <==> n <= count && delay == Delay(n)
  {
    hide Delay;
    if n <= count {
      assert Retries(count)[n - 1] == Retrying(n, Delay(n));
    }
  }
}

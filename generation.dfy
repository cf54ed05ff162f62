/** The language model as the generators see it, and their bounded retry loops. A call to the
    model is not run: the replies it gives, call after call, are a parameter. */
module Generation {
  import opened Wrappers
  import opened Text

  /** What one call to the model gives back: the reply text, or an exception the call raised. */
  datatype Reply = Answer(text: string) | CallFailed

  /** The reply to call number `k` (from 0). A call past the end of the script fails. */
  function ReplyAt(replies: seq<Reply>, k: nat): Reply {
    if k < |replies| then replies[k] else CallFailed
  }

  /** The replies still to come once `n` calls have been made. */
  function Drop(replies: seq<Reply>, n: nat): seq<Reply> {
    if n <= |replies| then replies[n..] else []
  }

  lemma DropReplyAt(replies: seq<Reply>, n: nat, k: nat)
    ensures ReplyAt(Drop(replies, n), k) == ReplyAt(replies, n + k)
  {
  }

  /** `max_retries` in all three loops. */
  const MaxRetries: nat := 3

  // ---------------------------------------------------------------------------
  // A retry loop, attempt by attempt

  /** How one attempt of a retry loop ends: with a value that is returned, by going on to the
      next attempt (a `continue`, or a value the loop rejects), or with an exception that the
      loop's `except` catches. */
  datatype Attempt<T> = Done(value: T) | Next | Raise

  /** The loop `for attempt in range(len(steps))` from attempt `i` on: the first value is
      returned; an exception caught on the last attempt is raised again as `raiseMsg`; a loop
      whose every attempt falls through raises `endMsg` after it. */
  function RetryFrom<T>(steps: seq<Attempt<T>>, i: nat, raiseMsg: string, endMsg: string): Result<T, string>
    requires i <= |steps|
    decreases |steps| - i
  {
    if i == |steps| then Failure(endMsg)
    else match steps[i]
      case Done(v) => Success(v)
      case Raise => if i == |steps| - 1 then Failure(raiseMsg) else RetryFrom(steps, i + 1, raiseMsg, endMsg)
      case Next => RetryFrom(steps, i + 1, raiseMsg, endMsg)
  }

  /** How many attempts, and so calls to the model, the loop makes from attempt `i` on. */
  function AttemptsFrom<T>(steps: seq<Attempt<T>>, i: nat): nat
    requires i <= |steps|
    decreases |steps| - i
  {
    if i == |steps| then 0 else if steps[i].Done? then 1 else 1 + AttemptsFrom(steps, i + 1)
  }

  /** The first attempt at or after `i` that returns a value. */
  function FirstDone<T>(steps: seq<Attempt<T>>, i: nat): (r: Option<nat>)
    requires i <= |steps|
    ensures r.Some? ==> i <= r.value < |steps| && steps[r.value].Done?
    ensures r.Some? ==> forall j | i <= j < r.value :: !steps[j].Done?
    ensures r.None? ==> forall j | i <= j < |steps| :: !steps[j].Done?
    decreases |steps| - i
  {
    if i == |steps| then None else if steps[i].Done? then Some(i) else FirstDone(steps, i + 1)
  }

  /** The loop returns the value of its first returning attempt, after exactly that many
      calls; with none, it makes every call and raises `raiseMsg` when the last attempt
      raised, `endMsg` when it fell through. */
  lemma {:induction false} RetryOutcome<T>(steps: seq<Attempt<T>>, i: nat, raiseMsg: string, endMsg: string)
    requires i <= |steps|
    ensures FirstDone(steps, i).Some? ==>
      RetryFrom(steps, i, raiseMsg, endMsg) == Success(steps[FirstDone(steps, i).value].value)
      && AttemptsFrom(steps, i) == FirstDone(steps, i).value + 1 - i
    ensures FirstDone(steps, i).None? ==>
      AttemptsFrom(steps, i) == |steps| - i
      && RetryFrom(steps, i, raiseMsg, endMsg)
         == Failure(if i < |steps| && steps[|steps| - 1].Raise? then raiseMsg else endMsg)
    decreases |steps| - i
  {
    if i < |steps| && !steps[i].Done? {
      RetryOutcome(steps, i + 1, raiseMsg, endMsg);
    }
  }

  // ---------------------------------------------------------------------------
  // The page generators' loop

  /** The message both page generators raise once their last attempt has failed. */
  const FailedGenerate: string := "Failed to generate game after 3 attempts"
  /** The message after the loop, which no run reaches. */
  const AllGenerateFailed: string := "All game generation attempts failed"

  /** One attempt of the page generators. A failed call raises. A reply under 100 characters
      once stripped is skipped, unless it is the last attempt, which then raises. Otherwise the
      cleaned page is returned - unless it is under 200 characters and attempts are left. */
  function GenAttempt(reply: Reply, clean: string -> string, last: bool): Attempt<string> {
    match reply
    case CallFailed => Raise
    case Answer(t) =>
      if |Strip(t)| < 100 then (if last then Raise else Next)
      else if |clean(t)| < 200 && !last then Next
      else Done(clean(t))
  }

  /** The three attempts of a page generator, given what the model replies. */
  function GenSteps(replies: seq<Reply>, clean: string -> string): (steps: seq<Attempt<string>>)
    ensures |steps| == MaxRetries
  {
    seq(MaxRetries, k requires 0 <= k < MaxRetries => GenAttempt(ReplyAt(replies, k), clean, k == MaxRetries - 1))
  }

  /** Whether the page generator returns the reply to call `k`: it is long enough once stripped,
      and its cleaned page is long enough or it is the last call. */
  predicate Accepts(replies: seq<Reply>, clean: string -> string, k: nat) {
    var reply := ReplyAt(replies, k);
    reply.Answer? && |Strip(reply.text)| >= 100
    && (|clean(reply.text)| >= 200 || k == MaxRetries - 1)
  }

  /** A page generator's loop: call the model up to three times and return the first page
      it accepts, cleaned by `clean`. */
  method GenerateWithRetries(replies: seq<Reply>, clean: string -> string)
    returns (result: Result<string, string>, calls: nat)
    ensures result == RetryFrom(GenSteps(replies, clean), 0, FailedGenerate, AllGenerateFailed)
    ensures calls == AttemptsFrom(GenSteps(replies, clean), 0) && calls <= MaxRetries
  {
    ghost var steps := GenSteps(replies, clean);
    calls := 0;
    var attempt := 0;
    while attempt < MaxRetries
      invariant attempt <= MaxRetries && calls == attempt
      invariant RetryFrom(steps, 0, FailedGenerate, AllGenerateFailed)
        == RetryFrom(steps, attempt, FailedGenerate, AllGenerateFailed)
      invariant AttemptsFrom(steps, 0) == attempt + AttemptsFrom(steps, attempt)
    {
      var reply := ReplyAt(replies, attempt);
      calls := calls + 1;
      var raised := false;
      match reply {
        case CallFailed =>
          raised := true;
        case Answer(t) =>
          if |Strip(t)| < 100 {
            raised := attempt == MaxRetries - 1;
          } else {
            var page := clean(t);
            if |page| >= 200 || attempt == MaxRetries - 1 {
              return Success(page), calls;
            }
          }
      }
      if raised && attempt == MaxRetries - 1 {
        return Failure(FailedGenerate), calls;
      }
      attempt := attempt + 1;
    }
    result := Failure(AllGenerateFailed);
  }

  /** A page generator returns a page exactly when one of its three calls is answered with a
      reply it accepts, and then it returns the first such reply cleaned, after that many
      calls. Otherwise it raises "Failed to generate game after 3 attempts" - the message
      after the loop is never reached. */
  lemma GeneratedPage(replies: seq<Reply>, clean: string -> string)
    ensures var r := RetryFrom(GenSteps(replies, clean), 0, FailedGenerate, AllGenerateFailed);
      (r.Success? <==> exists k | 0 <= k < MaxRetries :: Accepts(replies, clean, k))
      && (r.Failure? ==> r.error == FailedGenerate && AttemptsFrom(GenSteps(replies, clean), 0) == MaxRetries)
    ensures var r := RetryFrom(GenSteps(replies, clean), 0, FailedGenerate, AllGenerateFailed);
      r.Success? ==> exists k | 0 <= k < MaxRetries ::
        Accepts(replies, clean, k) && (forall j | 0 <= j < k :: !Accepts(replies, clean, j))
        && r.value == clean(ReplyAt(replies, k).text)
        && AttemptsFrom(GenSteps(replies, clean), 0) == k + 1
  {
    var steps := GenSteps(replies, clean);
    forall k | 0 <= k < MaxRetries ensures steps[k].Done? <==> Accepts(replies, clean, k) {
      AcceptsStep(replies, clean, k);
    }
    RetryOutcome(steps, 0, FailedGenerate, AllGenerateFailed);
    match FirstDone(steps, 0)
    case Some(k) =>
      AcceptsStep(replies, clean, k);
    case None =>
      assert steps[MaxRetries - 1] == GenAttempt(ReplyAt(replies, 2), clean, true);
  }

  /** An attempt returns exactly when the generator accepts its reply, and returns the reply cleaned. */
  lemma AcceptsStep(replies: seq<Reply>, clean: string -> string, k: nat)
    requires k < MaxRetries
    ensures GenSteps(replies, clean)[k].Done? <==> Accepts(replies, clean, k)
    ensures Accepts(replies, clean, k) ==>
      GenSteps(replies, clean)[k] == Done(clean(ReplyAt(replies, k).text))
  {
    assert GenSteps(replies, clean)[k] == GenAttempt(ReplyAt(replies, k), clean, k == MaxRetries - 1);
  }
}

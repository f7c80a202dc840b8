/** What every run of callOpenAI (main.js:217-291) satisfies: the request
    budget, the exponential back-off, the sleeps, how the call ends, that
    the inputs determine the run, and a few concrete runs. */
module OrchestratorFacts {
  import opened Options
  import opened Text
  import opened Orchestrator
  import RetryAfter
  import Sizes

  /** The facts a run prefix gives about its k-th request. */
  lemma StepAt(sizes: seq<string>, respond: nat -> Reply, jitter: nat -> Jitter,
               trace: seq<Step>, k: nat)
    requires IsRunPrefix(sizes, respond, jitter, trace) && k < |trace|
    ensures Placed(sizes, respond, k, trace[k])
    ensures k == 0 ==> trace[0].candidate == 0 && trace[0].attempt == 1
                       && trace[0].delayMs == InitialDelayMs
    ensures k > 0 ==> Follows(trace[k - 1], trace[k])
  {
    assert Answers(sizes, respond, jitter, k, trace[k]);
    if k > 0 {
      var j := k - 1;
      assert Follows(trace[j], trace[j + 1]);
    }
  }

  /** ... the sleep that followed it ... */
  lemma SleepAt(sizes: seq<string>, respond: nat -> Reply, jitter: nat -> Jitter,
                trace: seq<Step>, k: nat)
    requires IsRunPrefix(sizes, respond, jitter, trace) && k < |trace|
    ensures trace[k].sleepMs == SleepOf(trace[k].reply, trace[k].delayMs, jitter(k))
  {
    assert Answers(sizes, respond, jitter, k, trace[k]);
  }

  /** ... and the error it recorded. */
  lemma ErrorAt(sizes: seq<string>, respond: nat -> Reply, jitter: nat -> Jitter,
                trace: seq<Step>, k: nat)
    requires IsRunPrefix(sizes, respond, jitter, trace) && k < |trace|
    ensures trace[k].error == ErrorOf(trace[k].size, trace[k].attempt, trace[k].reply)
  {
    assert Answers(sizes, respond, jitter, k, trace[k]);
  }

  /** `delayMs` before attempt `n + 1` on a size: 1000, doubled after every
      retry, capped at 16000. */
  function Backoff(n: nat): nat {
    if n == 0 then InitialDelayMs else NextDelay(Backoff(n - 1))
  }

  function Pow2(n: nat): (p: nat)
    ensures p >= 1
  {
    if n == 0 then 1 else 2 * Pow2(n - 1)
  }

  /** The back-off in closed form: `min(1000 * 2^n, 16000)`, so it takes only
      the values 1000, 2000, 4000, 8000 and 16000. */
  lemma {:induction false} BackoffClosedForm(n: nat)
    ensures Backoff(n) == if InitialDelayMs * Pow2(n) < MaxDelayMs then InitialDelayMs * Pow2(n)
                          else MaxDelayMs
    ensures Backoff(n) in {1000, 2000, 4000, 8000, 16000}
    ensures n >= 4 ==> Backoff(n) == MaxDelayMs
  {
    if n > 0 {
      BackoffClosedForm(n - 1);
      if n >= 5 {
        Pow2Grows(n - 1);
      }
    }
  }

  lemma {:induction false} Pow2Grows(n: nat)
    requires n >= 4
    ensures Pow2(n) >= 16
  {
    if n > 4 {
      Pow2Grows(n - 1);
    }
  }

  /** Request `i` is attempt `attempt` on size `candidate`, at most five
      requests per size before it, and is made with the back-off delay of
      its attempt. */
  lemma {:induction false} RequestPosition(sizes: seq<string>, respond: nat -> Reply,
                                           jitter: nat -> Jitter, trace: seq<Step>, i: nat)
    requires IsRunPrefix(sizes, respond, jitter, trace) && i < |trace|
    ensures i + 1 <= MaxAttempts * trace[i].candidate + trace[i].attempt
    ensures 1 <= trace[i].attempt <= MaxAttempts
    ensures trace[i].delayMs == Backoff(trace[i].attempt - 1)
  {
    StepAt(sizes, respond, jitter, trace, i);
    if i > 0 {
      StepAt(sizes, respond, jitter, trace, i - 1);
      RequestPosition(sizes, respond, jitter, trace, i - 1);
      PositionAdvances(trace[i - 1], trace[i]);
    }
  }

  /** One request later, the position `5 * candidate + attempt` has grown by
      at least one, and the delay is still the back-off of the attempt. */
  lemma PositionAdvances(prev: Step, next: Step)
    requires Follows(prev, next) && 1 <= prev.attempt <= MaxAttempts
    requires prev.delayMs == Backoff(prev.attempt - 1)
    ensures MaxAttempts * prev.candidate + prev.attempt + 1
            <= MaxAttempts * next.candidate + next.attempt
    ensures next.delayMs == Backoff(next.attempt - 1)
  {
  }

  /** A call makes at most five requests per size: at most ten for the
      sizes callOpenAI tries. */
  lemma RequestBudget(sizes: seq<string>, respond: nat -> Reply, jitter: nat -> Jitter,
                      trace: seq<Step>)
    requires IsRunPrefix(sizes, respond, jitter, trace)
    ensures |trace| <= MaxAttempts * |sizes|
    ensures sizes == Sizes.Candidates(Sizes.PickApiSize()) ==> |trace| <= 10
  {
    if trace != [] {
      StepAt(sizes, respond, jitter, trace, |trace| - 1);
      RequestPosition(sizes, respond, jitter, trace, |trace| - 1);
    }
  }

  /** The sleep after request k: the hinted seconds plus jitter after a
      rate-limited reply (at least a second, under the hint plus 250 ms),
      the back-off delay plus jitter after a retryable exception (between
      1000 and 16249 ms), and no sleep otherwise. */
  lemma SleepAfter(sizes: seq<string>, respond: nat -> Reply, jitter: nat -> Jitter,
                   trace: seq<Step>, k: nat)
    requires IsRunPrefix(sizes, respond, jitter, trace) && k < |trace|
    ensures var s := trace[k];
      match Classify(s.reply)
      case RateLimited =>
        s.reply.Http?
        && var w := RetryAfter.RetryAfterSeconds(s.reply.retryAfter, s.reply.body);
        s.sleepMs == Some(w * 1000 + jitter(k))
        && 1000 <= s.sleepMs.value < w * 1000 + 250
      case RetryableThrow =>
        s.attempt >= 1 && s.sleepMs == Some(Backoff(s.attempt - 1) + jitter(k))
        && 1000 <= s.sleepMs.value < MaxDelayMs + 250
      case _ => s.sleepMs.None?
  {
    SleepAt(sizes, respond, jitter, trace, k);
    RequestPosition(sizes, respond, jitter, trace, k);
    BackoffClosedForm(trace[k].attempt - 1);
  }

  /** What a reply leads to: the error it records in `lastErr`, and where
      the next request goes: the next attempt on the same size after a rate
      limit or a retryable exception (unless that was the fifth attempt),
      the first attempt on the next size after any other failure, and none
      after an image. */
  lemma AfterReply(sizes: seq<string>, respond: nat -> Reply, jitter: nat -> Jitter,
                   trace: seq<Step>, k: nat)
    requires IsRunPrefix(sizes, respond, jitter, trace) && k < |trace|
    ensures var s := trace[k];
      match Classify(s.reply)
      case RateLimited =>
        s.reply.Http?
        && s.error == Some(RateLimitMessage(
                             RetryAfter.RetryAfterSeconds(s.reply.retryAfter, s.reply.body),
                             s.attempt, s.size))
      case Rejected => s.reply.Http? && s.error == Some(RejectionMessage(s.reply.status, s.reply.body))
      case NoImage => s.error == Some(NoImageMessage)
      case Image(_) => s.error.None? && k == |trace| - 1
      case RetryableThrow => s.reply.Thrown? && s.error == Some(s.reply.message)
      case FatalThrow => s.reply.Thrown? && s.error == Some(s.reply.message)
    ensures k + 1 < |trace| ==>
      var s, n := trace[k], trace[k + 1];
      if StaysOnSize(Classify(s.reply)) && s.attempt < MaxAttempts
      then n.candidate == s.candidate && n.attempt == s.attempt + 1
      else n.candidate == s.candidate + 1 && n.attempt == 1 && n.delayMs == InitialDelayMs
  {
    StepAt(sizes, respond, jitter, trace, k);
    ErrorAt(sizes, respond, jitter, trace, k);
    if k + 1 < |trace| {
      StepAt(sizes, respond, jitter, trace, k + 1);
    }
  }

  /** How a call ends: it succeeds exactly when the last reply carried an
      image, which is then the only file written and the only image among
      the replies; otherwise nothing is written and the error thrown is the
      one recorded by the last request, never the fallback message. */
  lemma Outcome(sizes: seq<string>, respond: nat -> Reply, jitter: nat -> Jitter,
                trace: seq<Step>, result: CallResult, written: seq<string>)
    requires IsRun(sizes, respond, jitter, trace, result, written)
    ensures var last := trace[|trace| - 1];
      && (result.Succeeded? <==> Classify(last.reply).Image?)
      && (result.Succeeded? ==> Classify(last.reply) == Image(result.payload)
                                && written == [result.payload])
      && (result.Failed? ==> written == [] && last.error.Some?
                             && result.error == last.error.value)
    ensures forall k :: 0 <= k < |trace| - 1 ==> !Classify(trace[k].reply).Image?
  {
    ErrorUnlessImage(sizes, respond, jitter, trace, |trace| - 1);
    NoImageBeforeLast(sizes, respond, jitter, trace);
  }

  /** A request records an error exactly when its reply is not an image. */
  lemma ErrorUnlessImage(sizes: seq<string>, respond: nat -> Reply, jitter: nat -> Jitter,
                         trace: seq<Step>, k: nat)
    requires IsRunPrefix(sizes, respond, jitter, trace) && k < |trace|
    ensures trace[k].error.Some? <==> !Classify(trace[k].reply).Image?
  {
    ErrorAt(sizes, respond, jitter, trace, k);
  }

  /** No request but the last of a run prefix gets an image. */
  lemma NoImageBeforeLast(sizes: seq<string>, respond: nat -> Reply, jitter: nat -> Jitter,
                          trace: seq<Step>)
    requires IsRunPrefix(sizes, respond, jitter, trace)
    ensures forall k :: 0 <= k < |trace| - 1 ==> !Classify(trace[k].reply).Image?
  {
    forall k | 0 <= k < |trace| - 1 ensures !Classify(trace[k].reply).Image? {
      StepAt(sizes, respond, jitter, trace, k + 1);
    }
  }

  /** The inputs determine every request of a run. */
  lemma {:induction false} StepDetermined(sizes: seq<string>, respond: nat -> Reply,
                                          jitter: nat -> Jitter, t1: seq<Step>, t2: seq<Step>,
                                          k: nat)
    requires IsRunPrefix(sizes, respond, jitter, t1) && IsRunPrefix(sizes, respond, jitter, t2)
    requires k < |t1| && k < |t2|
    ensures t1[k] == t2[k]
  {
    StepAt(sizes, respond, jitter, t1, k);
    StepAt(sizes, respond, jitter, t2, k);
    if k > 0 {
      StepDetermined(sizes, respond, jitter, t1, t2, k - 1);
      SameNext(t1[k - 1], t1[k], t2[k]);
    }
    SamePlaceSameStep(sizes, respond, jitter, t1, t2, k);
  }

  /** The request after a given one is made at one place. */
  lemma SameNext(prev: Step, n1: Step, n2: Step)
    requires Follows(prev, n1) && Follows(prev, n2)
    ensures n1.candidate == n2.candidate && n1.attempt == n2.attempt
    ensures n1.delayMs == n2.delayMs
  {
  }

  /** Two runs' k-th requests made at the same place are the same request:
      the reply, the sleep and the error follow from the inputs. */
  lemma SamePlaceSameStep(sizes: seq<string>, respond: nat -> Reply, jitter: nat -> Jitter,
                          t1: seq<Step>, t2: seq<Step>, k: nat)
    requires IsRunPrefix(sizes, respond, jitter, t1) && IsRunPrefix(sizes, respond, jitter, t2)
    requires k < |t1| && k < |t2|
    requires t1[k].candidate == t2[k].candidate && t1[k].attempt == t2[k].attempt
    requires t1[k].delayMs == t2[k].delayMs
    ensures t1[k] == t2[k]
  {
    assert Answers(sizes, respond, jitter, k, t1[k]);
    assert Answers(sizes, respond, jitter, k, t2[k]);
  }

  /** The inputs determine the whole call: its requests, its result and
      what it writes. */
  lemma RunIsUnique(sizes: seq<string>, respond: nat -> Reply, jitter: nat -> Jitter,
                    t1: seq<Step>, r1: CallResult, w1: seq<string>,
                    t2: seq<Step>, r2: CallResult, w2: seq<string>)
    requires IsRun(sizes, respond, jitter, t1, r1, w1)
    requires IsRun(sizes, respond, jitter, t2, r2, w2)
    ensures t1 == t2 && r1 == r2 && w1 == w2
  {
    ShorterIsNotRun(sizes, respond, jitter, t1, r1, w1, t2);
    ShorterIsNotRun(sizes, respond, jitter, t2, r2, w2, t1);
    forall k | 0 <= k < |t1| ensures t1[k] == t2[k] {
      StepDetermined(sizes, respond, jitter, t1, t2, k);
    }
  }

  /** A complete run cannot be continued: no longer prefix extends it. */
  lemma ShorterIsNotRun(sizes: seq<string>, respond: nat -> Reply, jitter: nat -> Jitter,
                        t: seq<Step>, r: CallResult, w: seq<string>, longer: seq<Step>)
    requires IsRun(sizes, respond, jitter, t, r, w)
    requires IsRunPrefix(sizes, respond, jitter, longer)
    ensures |longer| <= |t|
  {
    if |longer| > |t| {
      var l := |t| - 1;
      StepDetermined(sizes, respond, jitter, t, longer, l);
      StepAt(sizes, respond, jitter, longer, l + 1);
    }
  }

  /** When every request is rate limited, each size gets all five
      attempts: request i is attempt i % 5 + 1 on size i / 5. */
  lemma {:induction false} RateLimitedPosition(sizes: seq<string>, respond: nat -> Reply,
                                               jitter: nat -> Jitter, trace: seq<Step>, i: nat)
    requires IsRunPrefix(sizes, respond, jitter, trace) && i < |trace|
    requires forall k :: Classify(respond(k)) == RateLimited
    ensures i + 1 == MaxAttempts * trace[i].candidate + trace[i].attempt
  {
    StepAt(sizes, respond, jitter, trace, i);
    if i > 0 {
      StepAt(sizes, respond, jitter, trace, i - 1);
      RateLimitedPosition(sizes, respond, jitter, trace, i - 1);
      RateLimitedAdvances(trace[i - 1], trace[i]);
    }
  }

  /** After a rate-limited request the position grows by exactly one. */
  lemma RateLimitedAdvances(prev: Step, next: Step)
    requires Follows(prev, next) && 1 <= prev.attempt <= MaxAttempts
    requires Classify(prev.reply) == RateLimited
    ensures MaxAttempts * next.candidate + next.attempt
            == MaxAttempts * prev.candidate + prev.attempt + 1
  {
  }

  /** ... so such a call makes exactly five requests per size (ten for the
      sizes callOpenAI tries) and fails with the last rate-limit message. */
  lemma AllRateLimited(sizes: seq<string>, respond: nat -> Reply, jitter: nat -> Jitter,
                       trace: seq<Step>, result: CallResult, written: seq<string>)
    requires IsRun(sizes, respond, jitter, trace, result, written)
    requires forall k :: Classify(respond(k)) == RateLimited
    ensures |trace| == MaxAttempts * |sizes|
    ensures sizes == Sizes.Candidates(Sizes.PickApiSize()) ==> |trace| == 10
    ensures result.Failed? && written == []
  {
    var l := |trace| - 1;
    StepAt(sizes, respond, jitter, trace, l);
    RateLimitedPosition(sizes, respond, jitter, trace, l);
  }

  /** A request that does not stop the call is not the last one. */
  lemma RunContinues(sizes: seq<string>, respond: nat -> Reply, jitter: nat -> Jitter,
                     trace: seq<Step>, result: CallResult, written: seq<string>, k: nat)
    requires IsRun(sizes, respond, jitter, trace, result, written)
    requires k < |trace| && !Stops(sizes, trace[k])
    ensures k + 1 < |trace|
  {
  }

  /** A request that gets an image is the last one, and the call returns
      that image. */
  lemma RunEndsAtImage(sizes: seq<string>, respond: nat -> Reply, jitter: nat -> Jitter,
                       trace: seq<Step>, result: CallResult, written: seq<string>, k: nat,
                       p: string)
    requires IsRun(sizes, respond, jitter, trace, result, written)
    requires k < |trace| && Classify(trace[k].reply) == Image(p)
    ensures |trace| == k + 1
    ensures result == Succeeded(p) && written == [p]
  {
    Outcome(sizes, respond, jitter, trace, result, written);
  }

  /** A 429 reply with `retry-after: 2`, then an image: two requests on
      `auto`, a sleep of two seconds plus jitter between them, the delay
      doubled for the second attempt, and success. */
  lemma RateLimitThenImage(respond: nat -> Reply, jitter: nat -> Jitter,
                           trace: seq<Step>, result: CallResult, written: seq<string>)
    requires respond(0) == Http(429, Some("2"), "", None)
    requires respond(1) == Http(200, None, "", Some("aW1n"))
    requires IsRun(Sizes.Candidates(Sizes.PickApiSize()), respond, jitter, trace, result, written)
    ensures |trace| == 2
    ensures trace[0].size == Sizes.Auto && trace[1].size == Sizes.Auto
    ensures trace[1].attempt == 2 && trace[1].delayMs == 2000
    ensures trace[0].sleepMs == Some(2000 + jitter(0))
    ensures result == Succeeded("aW1n") && written == ["aW1n"]
  {
    var sizes := Sizes.Candidates(Sizes.PickApiSize());
    Sizes.CandidatesOfPicked();
    HeaderTwo();
    StepAt(sizes, respond, jitter, trace, 0);
    SleepAt(sizes, respond, jitter, trace, 0);
    RunContinues(sizes, respond, jitter, trace, result, written, 0);
    StepAt(sizes, respond, jitter, trace, 1);
    RunEndsAtImage(sizes, respond, jitter, trace, result, written, 1, "aW1n");
  }

  lemma HeaderTwo()
    ensures RetryAfter.RetryAfterSeconds(Some("2"), "") == 2
  {
    var two := RetryAfter.Numeral("2", []);
    assert RetryAfter.Show(two) == "2";
    RetryAfter.HeaderGivesFloor("2", two, "");
  }

  /** A 400 on `auto`, then an image: the rejection ends the first size
      without a sleep, and the square size succeeds on its first attempt. */
  lemma RejectedThenSquare(respond: nat -> Reply, jitter: nat -> Jitter,
                           trace: seq<Step>, result: CallResult, written: seq<string>)
    requires respond(0) == Http(400, None, "bad size", None)
    requires respond(1) == Http(200, None, "", Some("aW1n"))
    requires IsRun(Sizes.Candidates(Sizes.PickApiSize()), respond, jitter, trace, result, written)
    ensures |trace| == 2
    ensures trace[0].sleepMs.None? && trace[0].error == Some("OpenAI error 400. bad size")
    ensures trace[1].size == Sizes.Square && trace[1].attempt == 1 && trace[1].delayMs == 1000
    ensures result == Succeeded("aW1n") && written == ["aW1n"]
  {
    var sizes := Sizes.Candidates(Sizes.PickApiSize());
    Sizes.CandidatesOfPicked();
    RejectionText();
    StepAt(sizes, respond, jitter, trace, 0);
    SleepAt(sizes, respond, jitter, trace, 0);
    ErrorAt(sizes, respond, jitter, trace, 0);
    RunContinues(sizes, respond, jitter, trace, result, written, 0);
    StepAt(sizes, respond, jitter, trace, 1);
    RunEndsAtImage(sizes, respond, jitter, trace, result, written, 1, "aW1n");
  }

  lemma RejectionText()
    ensures RejectionMessage(400, "bad size") == "OpenAI error 400. bad size"
  {
    assert NatToString(4) == "4";
    assert NatToString(40) == "40";
    assert NatToString(400) == "400";
  }

  /** An exception mentioning 429, then an image: the exception is recorded,
      the call sleeps the initial delay plus jitter and retries the same
      size with the delay doubled. */
  lemma ThrownRetryThenImage(respond: nat -> Reply, jitter: nat -> Jitter,
                             trace: seq<Step>, result: CallResult, written: seq<string>)
    requires respond(0) == Thrown("429 Too Many Requests")
    requires respond(1) == Http(200, None, "", Some("aW1n"))
    requires IsRun(Sizes.Candidates(Sizes.PickApiSize()), respond, jitter, trace, result, written)
    ensures |trace| == 2
    ensures trace[0].error == Some("429 Too Many Requests")
    ensures trace[0].sleepMs == Some(InitialDelayMs + jitter(0))
    ensures trace[1].size == Sizes.Auto && trace[1].attempt == 2 && trace[1].delayMs == 2000
    ensures result == Succeeded("aW1n") && written == ["aW1n"]
  {
    var sizes := Sizes.Candidates(Sizes.PickApiSize());
    TooManyRequestsRetries();
    Sizes.CandidatesOfPicked();
    StepAt(sizes, respond, jitter, trace, 0);
    SleepAt(sizes, respond, jitter, trace, 0);
    ErrorAt(sizes, respond, jitter, trace, 0);
    RunContinues(sizes, respond, jitter, trace, result, written, 0);
    StepAt(sizes, respond, jitter, trace, 1);
    RunEndsAtImage(sizes, respond, jitter, trace, result, written, 1, "aW1n");
  }

  lemma TooManyRequestsRetries()
    ensures MentionsRetry("429 Too Many Requests")
  {
    var msg := "429 Too Many Requests";
    assert NoUpperAscii("9") && NoUpperAscii("29") && NoUpperAscii("429");
    assert msg[0..3] == "429";
    MatchesLiteral(msg, 0, "429");
  }

  /** A 503, then an exception mentioning a retry: the exception sleeps the
      delay the 503 already doubled, 2000 ms plus jitter. */
  lemma ServerErrorThenThrownRetry(respond: nat -> Reply, jitter: nat -> Jitter,
                                   trace: seq<Step>, result: CallResult, written: seq<string>)
    requires respond(0) == Http(503, None, "", None)
    requires respond(1) == Thrown("please retry")
    requires IsRun(Sizes.Candidates(Sizes.PickApiSize()), respond, jitter, trace, result, written)
    ensures |trace| > 2
    ensures trace[1].size == Sizes.Auto && trace[1].attempt == 2 && trace[1].delayMs == 2000
    ensures trace[1].sleepMs == Some(2000 + jitter(1))
    ensures trace[2].size == Sizes.Auto && trace[2].attempt == 3 && trace[2].delayMs == 4000
  {
    var sizes := Sizes.Candidates(Sizes.PickApiSize());
    PleaseRetryRetries();
    Sizes.CandidatesOfPicked();
    StepAt(sizes, respond, jitter, trace, 0);
    RunContinues(sizes, respond, jitter, trace, result, written, 0);
    StepAt(sizes, respond, jitter, trace, 1);
    SleepAt(sizes, respond, jitter, trace, 1);
    RunContinues(sizes, respond, jitter, trace, result, written, 1);
    StepAt(sizes, respond, jitter, trace, 2);
  }

  lemma PleaseRetryRetries()
    ensures MentionsRetry("please retry")
  {
    var msg := "please retry";
    assert NoUpperAscii("y") && NoUpperAscii("ry") && NoUpperAscii("try");
    assert NoUpperAscii("etry") && NoUpperAscii("retry");
    assert msg[7..12] == "retry";
    MatchesLiteral(msg, 7, "retry");
  }
}

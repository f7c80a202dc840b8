/** callOpenAI (main.js:217-291): the retry-and-fallback loop around the
    image-edit request. For each size in turn (`auto`, then `1024x1024`) it
    makes up to five requests. A rate-limited or server-error reply sleeps
    for the server's hint and retries the same size; a thrown exception
    that mentions a retry sleeps for the exponential delay and retries; any
    other failure moves on to the next size; the first reply carrying an
    image is written to output.png and ends the call.

    The network, the clock and `Math.random` are inputs: `respond(k)` is
    the reply to the k-th request of the call (or the exception it raised)
    and `jitter(k)` the random jitter drawn when the k-th request is
    followed by a sleep. The method returns the trace of requests it made,
    which `IsRun` specifies step by step. */
module Orchestrator {
  import opened Options
  import opened Text
  import RetryAfter
  import Sizes

  const MaxAttempts: nat := 5
  const InitialDelayMs: nat := 1000
  const MaxDelayMs: nat := 16000
  const NoImageMessage: string := "No image returned."
  const FallbackMessage: string := "Image generation failed after retries."

  /** `Math.floor(Math.random() * 250)`. */
  type Jitter = j: int | 0 <= j < 250

  /** What one request comes back with: an HTTP response (status, the
      `retry-after` header if any, the body text, and the `data[0].b64_json`
      field of an ok JSON body if any), or the message of an exception
      thrown while fetching, reading the body or writing the image. */
  datatype Reply =
    | Http(status: nat, retryAfter: Option<string>, body: string, b64: Option<string>)
    | Thrown(message: string)

  /** How the loop treats a reply. */
  datatype Kind =
    | RateLimited            // 429 or 5xx: sleep for the hint, same size
    | Rejected               // any other non-ok status: next size
    | NoImage                // ok, but no image in the body: next size
    | Image(payload: string) // ok with an image: write it and stop
    | RetryableThrow         // exception mentioning a retry: sleep, same size
    | FatalThrow             // any other exception: next size

  /** `resp.ok`. */
  predicate IsOk(status: nat) {
    200 <= status <= 299
  }

  /** `/Rate limited|429|retry/i.test(msg)`. */
  predicate MentionsRetry(msg: string) {
    ContainsIgnoringCase(msg, "rate limited") || ContainsIgnoringCase(msg, "429")
    || ContainsIgnoringCase(msg, "retry")
  }

  function Classify(r: Reply): Kind {
    match r
    case Http(status, _, _, b64) =>
      if status == 429 || status >= 500 then RateLimited
      else if !IsOk(status) then Rejected
      else if b64.None? || b64.value == [] then NoImage
      else Image(b64.value)
    case Thrown(msg) =>
      if MentionsRetry(msg) then RetryableThrow else FatalThrow
  }

  /** The replies after which the same size is tried again. */
  predicate StaysOnSize(k: Kind) {
    k == RateLimited || k == RetryableThrow
  }

  /** `Math.min(delayMs * 2, 16000)`. */
  function NextDelay(d: nat): nat {
    if d * 2 < MaxDelayMs then d * 2 else MaxDelayMs
  }

  /** The status text of a rate-limited reply (main.js:249). */
  function RateLimitMessage(waitSec: nat, attempt: nat, size: string): string {
    "Rate limited. Waiting " + NatToString(waitSec) + " seconds before retry "
    + NatToString(attempt + 1) + " of 5 on " + size + "."
  }

  /** The error text of a rejected reply (main.js:260). */
  function RejectionMessage(status: nat, body: string): string {
    "OpenAI error " + NatToString(status) + ". " + body
  }

  /** How long the loop sleeps after a reply, if it sleeps: the hinted
      seconds plus jitter after a rate-limited reply, the current delay plus
      jitter after a retryable exception. */
  function SleepOf(r: Reply, delayMs: nat, j: Jitter): Option<nat> {
    match r
    case Http(_, header, body, _) =>
      if Classify(r) == RateLimited
      then Some(RetryAfter.RetryAfterSeconds(header, body) * 1000 + j)
      else None
    case Thrown(_) =>
      if Classify(r) == RetryableThrow then Some(delayMs + j) else None
  }

  /** The error `lastErr` is set to after a reply; an image sets none. */
  function ErrorOf(size: string, attempt: nat, r: Reply): Option<string> {
    match r
    case Http(status, header, body, _) =>
      (match Classify(r)
       case RateLimited =>
         Some(RateLimitMessage(RetryAfter.RetryAfterSeconds(header, body), attempt, size))
       case Rejected => Some(RejectionMessage(status, body))
       case NoImage => Some(NoImageMessage)
       case _ => None)
    case Thrown(msg) => Some(msg)
  }

  /** One request of the call: which size (by position and by name), which
      attempt on that size, the exponential delay `delayMs` when it was
      made, its reply, the sleep that followed it and the error it
      recorded. */
  datatype Step = Step(candidate: nat, size: string, attempt: nat, delayMs: nat,
                       reply: Reply, sleepMs: Option<nat>, error: Option<string>)

  /** The call returns (an image was written) or throws an error. */
  datatype CallResult = Succeeded(payload: string) | Failed(error: string)

  /** Step `s` is request number `k`: it is made on a size of the list
      within the attempt budget, gets `respond(k)`, and sleeps and records
      an error as the source does for that reply. */
  ghost predicate Answers(sizes: seq<string>, respond: nat -> Reply, jitter: nat -> Jitter,
                          k: nat, s: Step)
  {
    && Placed(sizes, respond, k, s)
    && s.sleepMs == SleepOf(s.reply, s.delayMs, jitter(k))
    && s.error == ErrorOf(s.size, s.attempt, s.reply)
  }

  /** Where request `k` is made and what it gets back: a size of the list,
      an attempt within the budget, and `respond(k)`. */
  ghost predicate Placed(sizes: seq<string>, respond: nat -> Reply, k: nat, s: Step) {
    && s.candidate < |sizes| && s.size == sizes[s.candidate]
    && 1 <= s.attempt <= MaxAttempts
    && s.reply == respond(k)
  }

  /** A size's attempts stop at an image, at a reply that does not stay on
      the size, or at the last attempt. */
  predicate EndsSize(s: Step) {
    !StaysOnSize(Classify(s.reply)) || s.attempt == MaxAttempts
  }

  /** `next` is the request made right after `prev`: never after an image;
      the next attempt on the same size, with the doubled delay, when
      `prev` stays on its size; otherwise the first attempt on the next
      size, with the delay reset. */
  ghost predicate Follows(prev: Step, next: Step) {
    && !Classify(prev.reply).Image?
    && if !EndsSize(prev) then
         next.candidate == prev.candidate && next.attempt == prev.attempt + 1
         && next.delayMs == NextDelay(prev.delayMs)
       else
         next.candidate == prev.candidate + 1 && next.attempt == 1
         && next.delayMs == InitialDelayMs
  }

  /** `trace` is how every call on these inputs begins. */
  ghost predicate IsRunPrefix(sizes: seq<string>, respond: nat -> Reply, jitter: nat -> Jitter,
                              trace: seq<Step>)
  {
    && (trace != [] ==> trace[0].candidate == 0 && trace[0].attempt == 1
                        && trace[0].delayMs == InitialDelayMs)
    && AllAnswer(sizes, respond, jitter, trace)
    && AllFollow(trace)
  }

  /** Every step of `trace` answers the request at its position. */
  ghost predicate AllAnswer(sizes: seq<string>, respond: nat -> Reply, jitter: nat -> Jitter,
                            trace: seq<Step>)
  {
    forall k {:trigger Answers(sizes, respond, jitter, k, trace[k])} ::
      0 <= k < |trace| ==> Answers(sizes, respond, jitter, k, trace[k])
  }

  /** Every step of `trace` follows the one before it. */
  ghost predicate AllFollow(trace: seq<Step>) {
    forall k {:trigger Follows(trace[k], trace[k + 1])} ::
      0 <= k < |trace| - 1 ==> Follows(trace[k], trace[k + 1])
  }

  /** The call makes no request after `last`: it returned an image, or it
      ended the attempts on the last size. */
  predicate Stops(sizes: seq<string>, last: Step) {
    Classify(last.reply).Image? || (last.candidate == |sizes| - 1 && EndsSize(last))
  }

  /** `lastErr` after the steps of `trace`: the error recorded last. */
  function LastError(trace: seq<Step>): Option<string>
    decreases |trace|
  {
    if trace == [] then None
    else if trace[|trace| - 1].error.Some? then trace[|trace| - 1].error
    else LastError(trace[..|trace| - 1])
  }

  /** `throw lastErr || new Error(...)` (main.js:290). */
  function FinalError(lastErr: Option<string>): string {
    if lastErr.Some? then lastErr.value else FallbackMessage
  }

  /** A complete call on these inputs: it made the requests of `trace` and
      no more; it wrote the image once and succeeded if the last reply
      carried one, and otherwise wrote nothing and failed with `lastErr`. */
  ghost predicate IsRun(sizes: seq<string>, respond: nat -> Reply, jitter: nat -> Jitter,
                        trace: seq<Step>, result: CallResult, written: seq<string>)
  {
    && IsRunPrefix(sizes, respond, jitter, trace)
    && trace != []
    && Stops(sizes, trace[|trace| - 1])
    && match Classify(trace[|trace| - 1].reply)
       case Image(p) => result == Succeeded(p) && written == [p]
       case _ => result == Failed(FinalError(LastError(trace))) && written == []
  }

  /** Appending the next request keeps a prefix a prefix. */
  lemma ExtendPrefix(sizes: seq<string>, respond: nat -> Reply, jitter: nat -> Jitter,
                     trace: seq<Step>, s: Step)
    requires IsRunPrefix(sizes, respond, jitter, trace)
    requires Answers(sizes, respond, jitter, |trace|, s)
    requires trace == [] ==> s.candidate == 0 && s.attempt == 1 && s.delayMs == InitialDelayMs
    requires trace != [] ==> Follows(trace[|trace| - 1], s)
    ensures IsRunPrefix(sizes, respond, jitter, trace + [s])
    ensures LastError(trace + [s]) == if s.error.Some? then s.error else LastError(trace)
  {
    AnswerExtends(sizes, respond, jitter, trace, s);
    FollowExtends(trace, s);
    assert (trace + [s])[..|trace|] == trace;
  }

  lemma AnswerExtends(sizes: seq<string>, respond: nat -> Reply, jitter: nat -> Jitter,
                      trace: seq<Step>, s: Step)
    requires AllAnswer(sizes, respond, jitter, trace)
    requires Answers(sizes, respond, jitter, |trace|, s)
    ensures AllAnswer(sizes, respond, jitter, trace + [s])
  {
    var t := trace + [s];
    forall k | 0 <= k < |t| ensures Answers(sizes, respond, jitter, k, t[k]) {
      if k < |trace| {
        assert t[k] == trace[k];
      }
    }
  }

  lemma FollowExtends(trace: seq<Step>, s: Step)
    requires AllFollow(trace)
    requires trace != [] ==> Follows(trace[|trace| - 1], s)
    ensures AllFollow(trace + [s])
  {
    var t := trace + [s];
    forall k | 0 <= k < |t| - 1 ensures Follows(t[k], t[k + 1]) {
      assert t[k] == trace[k];
      if k + 1 < |trace| {
        assert t[k + 1] == trace[k + 1];
      }
    }
  }

  /** The outer loop's state between sizes: the requests so far, none of
      which returned an image, the last of them ending the size before
      `sIdx`. */
  ghost predicate BetweenSizes(sizes: seq<string>, respond: nat -> Reply, jitter: nat -> Jitter,
                               sIdx: nat, trace: seq<Step>, lastErr: Option<string>)
  {
    && IsRunPrefix(sizes, respond, jitter, trace)
    && lastErr == LastError(trace)
    && (sIdx == 0 <==> trace == [])
    && (trace != [] ==> var last := trace[|trace| - 1];
          last.candidate == sIdx - 1 && EndsSize(last) && !Classify(last.reply).Image?)
  }

  /** Where the attempt loop goes after a reply: `continue` to the next
      attempt, `break` to the next size, or `return` once the image is
      written. */
  datatype Flow = Continue | Break | Return(image: string)

  function FlowOf(k: Kind): (f: Flow)
    ensures f.Continue? <==> StaysOnSize(k)
    ensures f.Return? <==> k.Image?
  {
    match k
    case Image(p) => Return(p)
    case RateLimited => Continue
    case RetryableThrow => Continue
    case _ => Break
  }

  /** One pass through the body of the attempt loop (main.js:232-285) once
      the reply to the request is known: the sleep it takes, the error it
      records in `lastErr`, `delayMs` afterwards, and where the loop goes. */
  method AttemptBody(size: string, attempt: nat, delayMs: nat, reply: Reply, jitter: Jitter)
    returns (flow: Flow, sleepMs: Option<nat>, recorded: Option<string>, nextDelayMs: nat)
    ensures flow == FlowOf(Classify(reply))
    ensures sleepMs == SleepOf(reply, delayMs, jitter)
    ensures recorded == ErrorOf(size, attempt, reply)
    ensures nextDelayMs == if flow.Continue? then NextDelay(delayMs) else delayMs
  {
    nextDelayMs := delayMs;
    match reply
    case Http(status, header, body, b64) =>
      if status == 429 || status >= 500 {
        var waitSec := RetryAfter.RetryAfterSeconds(header, body);
        recorded := Some(RateLimitMessage(waitSec, attempt, size));
        sleepMs := Some(waitSec * 1000 + jitter);
        nextDelayMs := NextDelay(delayMs);
        flow := Continue;
        return;
      }
      sleepMs := None;
      if !IsOk(status) {
        recorded := Some(RejectionMessage(status, body));
        flow := Break;
        return;
      }
      if b64.None? || b64.value == [] {
        recorded := Some(NoImageMessage);
        flow := Break;
        return;
      }
      recorded := None;
      flow := Return(b64.value);
    case Thrown(msg) =>
      recorded := Some(msg);
      if !MentionsRetry(msg) {
        sleepMs := None;
        flow := Break;
        return;
      }
      sleepMs := Some(delayMs + jitter);
      nextDelayMs := NextDelay(delayMs);
      flow := Continue;
  }

  /** The request the attempt loop makes next, on attempt `s.attempt` of
      size `sIdx` with the current `delayMs`, is the one a run makes next. */
  lemma NextRequest(sizes: seq<string>, respond: nat -> Reply, jitter: nat -> Jitter, sIdx: nat,
                    trace0: seq<Step>, lastErr0: Option<string>, trace: seq<Step>, s: Step)
    requires sIdx < |sizes| && BetweenSizes(sizes, respond, jitter, sIdx, trace0, lastErr0)
    requires s.candidate == sIdx && s.size == sizes[sIdx] && 1 <= s.attempt <= MaxAttempts
    requires s.reply == respond(|trace|)
    requires s.sleepMs == SleepOf(s.reply, s.delayMs, jitter(|trace|))
    requires s.error == ErrorOf(s.size, s.attempt, s.reply)
    requires s.attempt == 1 ==> s.delayMs == InitialDelayMs && trace == trace0
    requires s.attempt > 1 ==> trace != [] && var last := trace[|trace| - 1];
               last.candidate == sIdx && last.attempt == s.attempt - 1
               && StaysOnSize(Classify(last.reply)) && s.delayMs == NextDelay(last.delayMs)
    ensures Answers(sizes, respond, jitter, |trace|, s)
    ensures trace == [] ==> s.candidate == 0 && s.attempt == 1 && s.delayMs == InitialDelayMs
    ensures trace != [] ==> Follows(trace[|trace| - 1], s)
  {
  }

  /** The attempt loop's state before attempt `attempt` on size `sIdx`:
      the requests so far extend `trace0`, and after the first attempt the
      last of them was the previous attempt on this size, which stayed on
      it and doubled `delayMs`. */
  ghost predicate InAttempts(sizes: seq<string>, respond: nat -> Reply, jitter: nat -> Jitter,
                             sIdx: nat, trace0: seq<Step>, trace: seq<Step>, attempt: nat, delayMs: nat)
  {
    && IsRunPrefix(sizes, respond, jitter, trace)
    && |trace| >= |trace0| && trace[..|trace0|] == trace0
    && 1 <= attempt <= MaxAttempts + 1
    && (attempt == 1 ==> delayMs == InitialDelayMs && trace == trace0)
    && (attempt > 1 ==> |trace| > |trace0| && var last := trace[|trace| - 1];
          last.candidate == sIdx && last.attempt == attempt - 1
          && StaysOnSize(Classify(last.reply)) && delayMs == NextDelay(last.delayMs))
  }

  /** What the attempts on size `sIdx` leave behind: the requests extend
      `trace0`, the last of them on this size; `lastErr` is the error
      recorded last; either the last reply carried `image`, or there is no
      image and the size is finished. */
  ghost predicate TriedSize(sizes: seq<string>, respond: nat -> Reply, jitter: nat -> Jitter, sIdx: nat,
                            trace0: seq<Step>, trace: seq<Step>, lastErr: Option<string>,
                            image: Option<string>)
  {
    && IsRunPrefix(sizes, respond, jitter, trace)
    && |trace| > |trace0| && trace[..|trace0|] == trace0
    && lastErr == LastError(trace)
    && trace[|trace| - 1].candidate == sIdx
    && (image.Some? ==> Classify(trace[|trace| - 1].reply) == Image(image.value))
    && (image.None? ==> BetweenSizes(sizes, respond, jitter, sIdx + 1, trace, lastErr))
  }

  /** One pass of the attempt loop keeps its state, or ends the size. */
  lemma AttemptStep(sizes: seq<string>, respond: nat -> Reply, jitter: nat -> Jitter, sIdx: nat,
                    trace0: seq<Step>, lastErr0: Option<string>, trace: seq<Step>, s: Step)
    requires sIdx < |sizes| && BetweenSizes(sizes, respond, jitter, sIdx, trace0, lastErr0)
    requires s.candidate == sIdx && s.size == sizes[sIdx] && 1 <= s.attempt <= MaxAttempts
    requires InAttempts(sizes, respond, jitter, sIdx, trace0, trace, s.attempt, s.delayMs)
    requires s.reply == respond(|trace|)
    requires s.sleepMs == SleepOf(s.reply, s.delayMs, jitter(|trace|))
    requires s.error == ErrorOf(s.size, s.attempt, s.reply)
    ensures LastError(trace + [s]) == if s.error.Some? then s.error else LastError(trace)
    ensures StaysOnSize(Classify(s.reply)) ==>
              InAttempts(sizes, respond, jitter, sIdx, trace0, trace + [s], s.attempt + 1, NextDelay(s.delayMs))
    ensures Classify(s.reply).Image? ==>
              TriedSize(sizes, respond, jitter, sIdx, trace0, trace + [s], LastError(trace + [s]),
                        Some(Classify(s.reply).payload))
    ensures !Classify(s.reply).Image? && EndsSize(s) ==>
              TriedSize(sizes, respond, jitter, sIdx, trace0, trace + [s], LastError(trace + [s]), None)
  {
    Recorded(sizes, respond, jitter, sIdx, trace0, lastErr0, trace, s);
  }

  /** The request of one pass, appended to the trace. */
  lemma Recorded(sizes: seq<string>, respond: nat -> Reply, jitter: nat -> Jitter, sIdx: nat,
                 trace0: seq<Step>, lastErr0: Option<string>, trace: seq<Step>, s: Step)
    requires sIdx < |sizes| && BetweenSizes(sizes, respond, jitter, sIdx, trace0, lastErr0)
    requires s.candidate == sIdx && s.size == sizes[sIdx] && 1 <= s.attempt <= MaxAttempts
    requires InAttempts(sizes, respond, jitter, sIdx, trace0, trace, s.attempt, s.delayMs)
    requires s.reply == respond(|trace|)
    requires s.sleepMs == SleepOf(s.reply, s.delayMs, jitter(|trace|))
    requires s.error == ErrorOf(s.size, s.attempt, s.reply)
    ensures IsRunPrefix(sizes, respond, jitter, trace + [s])
    ensures LastError(trace + [s]) == if s.error.Some? then s.error else LastError(trace)
    ensures |trace + [s]| > |trace0| && (trace + [s])[..|trace0|] == trace0
  {
    NextRequest(sizes, respond, jitter, sIdx, trace0, lastErr0, trace, s);
    ExtendPrefix(sizes, respond, jitter, trace, s);
    assert (trace + [s])[..|trace0|] == trace[..|trace0|];
  }

  /** After the fifth attempt the size is finished. */
  lemma AttemptsExhausted(sizes: seq<string>, respond: nat -> Reply, jitter: nat -> Jitter, sIdx: nat,
                          trace0: seq<Step>, trace: seq<Step>, delayMs: nat)
    requires InAttempts(sizes, respond, jitter, sIdx, trace0, trace, MaxAttempts + 1, delayMs)
    ensures TriedSize(sizes, respond, jitter, sIdx, trace0, trace, LastError(trace), None)
  {
  }

  /** The attempt loop for one size (main.js:229-286): up to five requests
      on `sizes[sIdx]`, leaving early at an image or at a reply that does
      not stay on the size. Returns the extended trace, `lastErr`, and the
      image if one came back. */
  method TrySize(sizes: seq<string>, sIdx: nat, respond: nat -> Reply, jitter: nat -> Jitter,
                 trace0: seq<Step>, lastErr0: Option<string>)
    returns (trace: seq<Step>, lastErr: Option<string>, image: Option<string>)
    requires sIdx < |sizes|
    requires BetweenSizes(sizes, respond, jitter, sIdx, trace0, lastErr0)
    ensures TriedSize(sizes, respond, jitter, sIdx, trace0, trace, lastErr, image)
  {
    var size := sizes[sIdx];
    trace, lastErr, image := trace0, lastErr0, None;
    var delayMs := InitialDelayMs;
    var attempt := 1;
    while attempt <= MaxAttempts
      invariant InAttempts(sizes, respond, jitter, sIdx, trace0, trace, attempt, delayMs)
      invariant lastErr == LastError(trace) && image.None?
    {
      var k := |trace|;
      var reply := respond(k);
      var flow, sleepMs, recorded, nextDelayMs := AttemptBody(size, attempt, delayMs, reply, jitter(k));
      var step := Step(sIdx, size, attempt, delayMs, reply, sleepMs, recorded);
      AttemptStep(sizes, respond, jitter, sIdx, trace0, lastErr0, trace, step);
      trace := trace + [step];
      if recorded.Some? {
        lastErr := recorded;
      }
      match flow
      case Return(p) =>
        image := Some(p);
        return;
      case Break =>
        break;
      case Continue =>
        delayMs := nextDelayMs;
        attempt := attempt + 1;
    }
    if attempt > MaxAttempts {
      AttemptsExhausted(sizes, respond, jitter, sIdx, trace0, trace, delayMs);
    }
  }

  /** callOpenAI with `primary` as the preferred size (the source passes
      `pickApiSize()`, that is `auto`). */
  method CallOpenAI(primary: string, respond: nat -> Reply, jitter: nat -> Jitter)
    returns (result: CallResult, trace: seq<Step>, written: seq<string>)
    ensures IsRun(Sizes.Candidates(primary), respond, jitter, trace, result, written)
  {
    var sizes := Sizes.Candidates(primary);
    var lastErr: Option<string> := None;
    trace, written := [], [];
    var sIdx := 0;
    while sIdx < |sizes|
      invariant 0 <= sIdx <= |sizes|
      invariant BetweenSizes(sizes, respond, jitter, sIdx, trace, lastErr)
    {
      var image;
      trace, lastErr, image := TrySize(sizes, sIdx, respond, jitter, trace, lastErr);
      if image.Some? {
        written := written + [image.value];
        result := Succeeded(image.value);
        return;
      }
      sIdx := sIdx + 1;
    }
    result := Failed(FinalError(lastErr));
  }
}

/** `generate_ai_response`: builds the prompt for one review and asks the
    completion service for a reply, retrying with exponential backoff and
    falling back to a fixed text. The service is an oracle: the outcome of
    each attempt is given in advance, and sleeping is recorded as a trace
    of durations in seconds. */
module Drafter {
  import opened Wrappers
  import opened PyStr

  const MaxReviewChars: nat := 700
  const Placeholder: string := "Thank you for your business."
  const Fallback: string := "Response unavailable at this time."
  const DefaultMaxRetries: int := 3

  /** What one call of the completion service gives back: the message
      content, or an exception of any kind (network, API, missing content). */
  datatype Outcome = Completed(content: string) | Failed

  /** Everything observable about one call of the drafter: the value it
      returns (`None` when the loop never runs), the sleeps between
      attempts, and the user messages sent to the service, one per call. */
  datatype Draft = Draft(reply: Option<string>, sleeps: seq<nat>, requests: seq<string>)

  function Pow2(k: nat): (p: nat)
    ensures p >= 1
  {
    if k == 0 then 1 else 2 * Pow2(k - 1)
  }

  /** `review_text[:700]`: the first 700 characters, or all of them. */
  function Truncate(text: string): (t: string)
    ensures |t| <= MaxReviewChars && |t| <= |text|
    ensures t == text[..|t|]
    ensures |t| == MaxReviewChars || t == text
  {
    if |text| <= MaxReviewChars then text else text[..MaxReviewChars]
  }

  /** `not t.strip() or t.lower() == "nan"` (see `Strip` and `LowerIsNan`):
      the text is blank, or reads "nan" once lower-cased. */
  predicate NeedsPlaceholder(t: string) {
    IsBlank(t) || IsNanSpelling(t)
  }

  /** The review text quoted in the prompt: the truncated text, unless that
      is blank or "nan", in which case the fixed placeholder. */
  function ReviewBody(text: string): (b: string)
    ensures |b| <= MaxReviewChars
    ensures b == Placeholder || b <= text
  {
    var t := Truncate(text);
    if NeedsPlaceholder(t) then Placeholder else t
  }

  /** The placeholder test is Python's `not t.strip() or t.lower() == "nan"`. */
  lemma NeedsPlaceholderIsPython(t: string)
    ensures NeedsPlaceholder(t) <==> (Strip(t) == [] || Lower(t) == "nan")
  {
    LowerIsNan(t);
  }

  /** The text placed in the prompt is never blank and never "nan"; it is
      the review's own truncated text exactly when that text is usable. */
  lemma ReviewBodyIsUsable(text: string)
    ensures !NeedsPlaceholder(ReviewBody(text))
    ensures ReviewBody(text) == Truncate(text) <==> !NeedsPlaceholder(Truncate(text))
    ensures ReviewBody(text) != Truncate(text) ==> ReviewBody(text) == Placeholder
  {
    PlaceholderIsKept();
  }

  /** An empty or all-whitespace review, and one whose text lower-cases to
      "nan", is quoted as the placeholder. */
  lemma MissingTextGetsPlaceholder(text: string)
    requires IsBlank(text) || Lower(text) == "nan"
    ensures ReviewBody(text) == Placeholder
  {
    LowerIsNan(text);
    var t := Truncate(text);
    assert forall k :: 0 <= k < |t| ==> t[k] == text[k];
  }

  /** The placeholder itself would not be replaced. */
  lemma PlaceholderIsKept()
    ensures !NeedsPlaceholder(Placeholder)
  {
    assert !IsSpace(Placeholder[0]);
  }

  const PromptIntro: string := "Now respond to a review from '"
  const PromptSaid: string := "' who said:\n\n\""

  /** The user message: the examples block, a blank line, the request
      naming the author, and the review body in double quotes. */
  function UserMessage(examplesPrompt: string, author: string, body: string): (m: string)
    ensures |m| == |examplesPrompt| + |author| + |body| + 47
  {
    examplesPrompt + "\n\n" + PromptIntro + author + PromptSaid + body + "\""
  }

  /** The outcome of attempt `k`. Without a message (the review text is
      missing, pandas NaN, and cannot be sliced) the attempt raises before
      the service is called; an attempt beyond the oracle's script fails. */
  function AttemptOutcome(message: Option<string>, service: seq<Outcome>, k: nat): Outcome
  {
    if message.None? || k >= |service| then Failed else service[k]
  }

  /** The sleeps after failed attempts 0 .. n-1: 1, 2, 4, ... seconds. */
  function Backoff(n: nat): (s: seq<nat>)
    ensures |s| == n
    ensures forall k :: 0 <= k < n ==> s[k] == Pow2(k)
  {
    if n == 0 then [] else Backoff(n - 1) + [Pow2(n - 1)]
  }

  /** The message sent at every attempt, or `None` when the review text is
      missing and no attempt gets as far as the service. */
  function Message(examplesPrompt: string, author: string, reviewText: Option<string>): (m: Option<string>)
    ensures m.Some? <==> reviewText.Some?
  {
    match reviewText
    case None => None
    case Some(text) => Some(UserMessage(examplesPrompt, author, ReviewBody(text)))
  }

  /** The messages sent during the first `n` attempts. */
  function Requests(message: Option<string>, n: nat): (rs: seq<string>)
    ensures |rs| == if message.None? then 0 else n
  {
    if message.None? || n == 0 then [] else Requests(message, n - 1) + [message.value]
  }

  /** The first attempt in `from .. limit-1` that completes, if any. */
  function FirstCompleted(message: Option<string>, service: seq<Outcome>, from: nat, limit: int): Option<nat>
    decreases limit - from
  {
    if from >= limit then None
    else if AttemptOutcome(message, service, from).Completed? then Some(from)
    else FirstCompleted(message, service, from + 1, limit)
  }

  /** `FirstCompleted` finds the earliest completed attempt in range, and
      finds none exactly when every attempt in range fails. */
  lemma {:induction false} FirstCompletedIsFirst(message: Option<string>, service: seq<Outcome>, from: nat, limit: int)
    decreases limit - from
    ensures var r := FirstCompleted(message, service, from, limit);
      && (r.Some? ==> from <= r.value < limit && AttemptOutcome(message, service, r.value).Completed?)
      && (r.Some? ==> forall j :: from <= j < r.value ==> AttemptOutcome(message, service, j).Failed?)
      && (r.None? <==> forall j :: from <= j < limit ==> AttemptOutcome(message, service, j).Failed?)
  {
    if from < limit && AttemptOutcome(message, service, from).Failed? {
      FirstCompletedIsFirst(message, service, from + 1, limit);
    }
  }

  /** The reference behaviour of the drafter, stated without the loop:
      no attempt when `maxRetries <= 0`; otherwise the stripped content of
      the first attempt that completes, after sleeping 2^j seconds after
      each earlier failure j; otherwise the fallback after `maxRetries`
      failures and a sleep after every one but the last. */
  function DraftSpec(message: Option<string>, maxRetries: int, service: seq<Outcome>): (d: Draft)
    ensures d.reply.Some? <==> maxRetries > 0
    ensures |d.requests| <= if maxRetries > 0 then maxRetries else 0
    ensures |d.sleeps| < if maxRetries > 0 then maxRetries else 1
  {
    if maxRetries <= 0 then Draft(None, [], [])
    else
      FirstCompletedIsFirst(message, service, 0, maxRetries);
      match FirstCompleted(message, service, 0, maxRetries)
      case Some(k) =>
        Draft(Some(Strip(AttemptOutcome(message, service, k).content)), Backoff(k),
              Requests(message, k + 1))
      case None =>
        Draft(Some(Fallback), Backoff(maxRetries - 1),
              Requests(message, maxRetries))
  }

  /** The drafter returns the stripped content of the first attempt that
      completes, having slept 2^j seconds after each earlier failed attempt
      j and sent the message once per attempt up to and including that one. */
  lemma DraftOnSuccess(message: Option<string>, maxRetries: int, service: seq<Outcome>, k: nat)
    requires k < maxRetries
    requires forall j :: 0 <= j < k ==> AttemptOutcome(message, service, j).Failed?
    requires AttemptOutcome(message, service, k).Completed?
    ensures DraftSpec(message, maxRetries, service) ==
            Draft(Some(Strip(AttemptOutcome(message, service, k).content)), Backoff(k), Requests(message, k + 1))
  {
    FirstCompletedIsFirst(message, service, 0, maxRetries);
    var first := FirstCompleted(message, service, 0, maxRetries);
    assert first == Some(k);
  }

  /** When all `maxRetries` attempts fail the drafter returns the fallback
      text rather than raising, having slept after every attempt but the
      last. */
  lemma DraftOnExhaustion(message: Option<string>, maxRetries: int, service: seq<Outcome>)
    requires maxRetries > 0
    requires forall j :: 0 <= j < maxRetries ==> AttemptOutcome(message, service, j).Failed?
    ensures DraftSpec(message, maxRetries, service) ==
            Draft(Some(Fallback), Backoff(maxRetries - 1), Requests(message, maxRetries))
  {
    FirstCompletedIsFirst(message, service, 0, maxRetries);
  }

  /** The `for attempt in range(max_retries)` loop of
      `generate_ai_response` around a prompt that is already built:
      `userContent` is `None` when building it raised. */
  method RetryWithBackoff(userContent: Option<string>, maxRetries: int, service: seq<Outcome>)
    returns (reply: Option<string>, sleeps: seq<nat>, requests: seq<string>)
    ensures Draft(reply, sleeps, requests) == DraftSpec(userContent, maxRetries, service)
  {
    sleeps, requests := [], [];
    var attempt: nat := 0;
    while attempt < maxRetries
      invariant attempt == 0 || attempt < maxRetries
      invariant forall j :: 0 <= j < attempt ==> AttemptOutcome(userContent, service, j).Failed?
      invariant sleeps == Backoff(attempt)
      invariant requests == Requests(userContent, attempt)
    {
      var outcome: Outcome := Failed;
      if userContent.Some? {
        requests := requests + [userContent.value];
        outcome := if attempt < |service| then service[attempt] else Failed;
      }
      if outcome.Completed? {
        reply := Some(Strip(outcome.content));
        DraftOnSuccess(userContent, maxRetries, service, attempt);
        return;
      }
      if attempt == maxRetries - 1 {
        reply := Some(Fallback);
        DraftOnExhaustion(userContent, maxRetries, service);
        return;
      }
      sleeps := sleeps + [Pow2(attempt)];
      attempt := attempt + 1;
    }
    reply := None;
  }

  /** `generate_ai_response`: truncates the review, substitutes the
      placeholder, builds the user message and runs the retry loop. A
      missing review text makes the slice raise inside the `try`, so every
      attempt fails without calling the service. */
  method GenerateResponse(author: string, reviewText: Option<string>, examplesPrompt: string,
                          maxRetries: int, service: seq<Outcome>)
    returns (reply: Option<string>, sleeps: seq<nat>, requests: seq<string>)
    ensures Draft(reply, sleeps, requests) == DraftSpec(Message(examplesPrompt, author, reviewText), maxRetries, service)
  {
    var userContent: Option<string> := None;
    if reviewText.Some? {
      var truncatedText := Truncate(reviewText.value);
      if NeedsPlaceholder(truncatedText) {
        truncatedText := Placeholder;
      }
      userContent := Some(UserMessage(examplesPrompt, author, truncatedText));
    }
    reply, sleeps, requests := RetryWithBackoff(userContent, maxRetries, service);
  }

  /** The messages sent are all the same prompt. */
  lemma {:induction false} RequestsAreTheMessage(message: string, n: nat)
    ensures forall k :: 0 <= k < |Requests(Some(message), n)| ==> Requests(Some(message), n)[k] == message
  {
    if n > 0 {
      RequestsAreTheMessage(message, n - 1);
    }
  }

  /** The user message opens with the examples block and a blank line,
      names the author, and ends with the review body in double quotes. */
  lemma UserMessageLayout(examplesPrompt: string, author: string, body: string)
    ensures var m := UserMessage(examplesPrompt, author, body);
      && |m| == |examplesPrompt| + |author| + |body| + 47
      && m[..|examplesPrompt| + 2] == examplesPrompt + "\n\n"
      && m[|m| - |body| - 2..] == "\"" + body + "\""
  {
    var m := UserMessage(examplesPrompt, author, body);
    assert m == (examplesPrompt + "\n\n") + (PromptIntro + author + PromptSaid) + (body + "\"");
    assert m == (examplesPrompt + "\n\n" + PromptIntro + author + PromptSaid[..|PromptSaid| - 1])
              + ("\"" + body + "\"");
  }

  /** Total time spent sleeping over `n` backoffs. */
  function TotalSleep(sleeps: seq<nat>): nat
  {
    if sleeps == [] then 0 else TotalSleep(sleeps[..|sleeps| - 1]) + sleeps[|sleeps| - 1]
  }

  /** The backoffs 1, 2, 4, ... add up to one second less than the next one. */
  lemma {:induction false} BackoffTotal(n: nat)
    ensures TotalSleep(Backoff(n)) == Pow2(n) - 1
  {
    if n > 0 {
      BackoffTotal(n - 1);
      assert Backoff(n)[..n - 1] == Backoff(n - 1);
    }
  }

  /** With the default of three retries, a review whose every attempt fails
      gets the fallback after sleeping 1 and then 2 seconds. */
  lemma DefaultRetriesExhausted(message: Option<string>, service: seq<Outcome>)
    requires forall j :: 0 <= j < DefaultMaxRetries ==> AttemptOutcome(message, service, j).Failed?
    ensures DraftSpec(message, DefaultMaxRetries, service).reply == Some(Fallback)
    ensures DraftSpec(message, DefaultMaxRetries, service).sleeps == [1, 2]
  {
    DraftOnExhaustion(message, DefaultMaxRetries, service);
    assert Backoff(2) == [1, 2];
  }

  /** A review whose text is missing never reaches the service: with the
      default retries it gets the fallback after sleeping 1 and 2 seconds. */
  lemma MissingTextFallsBack(author: string, examplesPrompt: string, service: seq<Outcome>)
    ensures var d := DraftSpec(Message(examplesPrompt, author, None), DefaultMaxRetries, service);
      d.reply == Some(Fallback) && d.sleeps == [1, 2] && d.requests == []
  {
    DefaultRetriesExhausted(None, service);
  }

  /** The evidently intended message: a missing review text is quoted as
      the placeholder, as the "nan" test suggests, instead of making every
      attempt raise. It agrees with `Message` whenever the text is present. */
  function IntendedMessage(examplesPrompt: string, author: string, reviewText: Option<string>): (m: Option<string>)
    ensures m.Some?
    ensures reviewText.Some? ==> m == Message(examplesPrompt, author, reviewText)
  {
    Some(UserMessage(examplesPrompt, author, ReviewBody(reviewText.GetOr(""))))
  }

  /** Under the intended message, a review without text does reach the
      service: the first request quotes the placeholder, and a first
      attempt that completes gives its stripped answer. */
  lemma IntendedMissingTextReachesService(author: string, examplesPrompt: string, service: seq<Outcome>)
    ensures var d := DraftSpec(IntendedMessage(examplesPrompt, author, None), DefaultMaxRetries, service);
      && d.requests != []
      && d.requests[0] == UserMessage(examplesPrompt, author, Placeholder)
      && (service != [] && service[0].Completed? ==> d.reply == Some(Strip(service[0].content)))
  {
    MissingTextGetsPlaceholder("");
    var m := IntendedMessage(examplesPrompt, author, None);
    assert m == Some(UserMessage(examplesPrompt, author, Placeholder));
    RequestsAreTheMessage(m.value, 1);
    RequestsAreTheMessage(m.value, DefaultMaxRetries);
    FirstCompletedIsFirst(m, service, 0, DefaultMaxRetries);
    match FirstCompleted(m, service, 0, DefaultMaxRetries)
    case Some(k) =>
      RequestsAreTheMessage(m.value, k + 1);
      if service != [] && service[0].Completed? {
        DraftOnSuccess(m, DefaultMaxRetries, service, 0);
      }
    case None =>
  }

  /** A service that fails twice and then answers: the drafter returns the
      third answer, stripped, after sleeping 1 and then 2 seconds, and has
      sent the prompt three times. */
  lemma FailTwiceThenSucceed(message: string, content: string)
    ensures var d := DraftSpec(Some(message), DefaultMaxRetries, [Failed, Failed, Completed(content)]);
      && d.reply == Some(Strip(content))
      && d.sleeps == [1, 2]
      && d.requests == [message, message, message]
  {
    var service := [Failed, Failed, Completed(content)];
    DraftOnSuccess(Some(message), DefaultMaxRetries, service, 2);
    assert Backoff(2) == [1, 2];
    assert Requests(Some(message), 1) == [message];
    assert Requests(Some(message), 2) == [message, message];
    assert Requests(Some(message), 3) == [message, message, message];
  }

  /** Without retries the loop never runs: no call, no sleep, and Python's
      implicit `None`. */
  lemma NoRetriesNoCall(message: Option<string>, maxRetries: int, service: seq<Outcome>)
    requires maxRetries <= 0
    ensures DraftSpec(message, maxRetries, service) == Draft(None, [], [])
  {
  }
}

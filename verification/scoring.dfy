/**
 * `ResumeScreeningAgent.score_resume`: one resume is scored by the remote
 * model, with up to three attempts. Rate-limit failures are retried after
 * waits of 2 s and 4 s; any other failure, and a rate-limit failure on the
 * last attempt, gives the neutral score 50 with an explanation instead of
 * raising. The remote model is a parameter (`Remote`); the sleeps are kept
 * as a ghost log of their durations in seconds.
 */
module Scoring {
  import opened Results
  import opened Text
  import opened ScoreParse

  /** What one call of the remote model gives: the response text, or the error's message. */
  datatype Reply = Answer(text: string) | Raised(message: string)

  /**
   * The remote model as seen by one resume: its reply to the given attempt
   * (0, 1, 2) with the given prompt. It may answer differently each time.
   */
  type Remote = (nat, Prompt) -> Reply

  /** The dictionary `score_resume` returns. */
  datatype ScoreResult = ScoreResult(filename: string, score: int, reasoning: string)

  const MaxRetries: nat := 3
  const RetryDelay: nat := 2
  /** The pause after every successful call (line 120). */
  const PacingDelay: nat := 1
  /** How much of the resume text goes into the prompt (line 94). */
  const ResumeLimit: nat := 4000

  const ErrorPrefix: string := "Error analyzing resume: "
  /** The explanation returned once every attempt met a rate-limit failure (line 141). */
  function RateLimitReasoning(attempts: nat): string {
    "Rate limit exceeded after " + DecimalString(attempts) + RateLimitAdvice + "quota" + RateLimitLink
  }

  const RateLimitAdvice: string := " attempts. Please wait a moment and try again, or check your API "
  const RateLimitLink: string := " at https://ai.dev/usage"
  const FallbackReasoning: string := "Failed to analyze resume after multiple attempts"

  /** `'429' in error_msg or 'quota' in error_msg.lower()`. */
  predicate IsRateLimitMessage(message: string) {
    Contains(message, "429") || Contains(Lower(message), "quota")
  }

  predicate IsRateLimited(reply: Reply) {
    reply.Raised? && IsRateLimitMessage(reply.message)
  }

  /** `retry_delay * (attempt + 1)`: the wait before the attempt after `attempt`. */
  function Backoff(attempt: nat): nat
  {
    RetryDelay * (attempt + 1)
  }

  /** The waits before each of the first `n` retries. */
  function Backoffs(n: nat): (waits: seq<nat>)
    ensures |waits| == n
    ensures forall a :: 0 <= a < n ==> waits[a] == Backoff(a)
  {
    seq(n, a requires 0 <= a => Backoff(a))
  }

  /** `resume_text[:4000]`. */
  function Truncate(text: string): (r: string)
    ensures |r| <= ResumeLimit && |r| <= |text|
    ensures |r| == |text| || |r| == ResumeLimit
    ensures r == text[..|r|]
  {
    if |text| <= ResumeLimit then text else text[..ResumeLimit]
  }

  /**
   * The prompt of lines 88-104, kept as the two texts filled into it: the job
   * description and the resume text truncated to 4000 characters. `Render`
   * gives the prompt's full wording.
   */
  datatype Prompt = Prompt(jobDescription: string, resume: string)

  function BuildPrompt(jobDescription: string, resumeText: string): (p: Prompt)
    ensures p.jobDescription == jobDescription
    ensures |p.resume| <= ResumeLimit && |p.resume| <= |resumeText| && p.resume == resumeText[..|p.resume|]
    ensures |resumeText| <= ResumeLimit ==> p.resume == resumeText
  {
    Prompt(jobDescription, Truncate(resumeText))
  }

  /** Only the first 4000 characters of a resume reach the model. */
  lemma PromptSeesOnlyFirst4000(jobDescription: string, a: string, b: string)
    requires |a| >= ResumeLimit && |b| >= ResumeLimit
    requires a[..ResumeLimit] == b[..ResumeLimit]
    ensures BuildPrompt(jobDescription, a) == BuildPrompt(jobDescription, b)
  {
  }

  const PromptIntro: string :=
    "You are an expert HR recruiter. Analyze the following resume against the job description and provide a detailed assessment.\n\nJob Description:\n"
  const ResumeHeading: string := "\n\nResume:\n"
  const FormatHeading: string := "\n\nProvide your analysis in the following format:\n"
  /** The rest of the requested format, after the label of its first line. */
  const FormatRest: string :=
    ": [Your score]\n2. Key Strengths: [List 2-3 key strengths]\n3. Relevant Skills Match: [How well skills match]\n4. Experience Relevance: [How relevant is the experience]\n5. Gaps or Concerns: [Any concerns or missing qualifications]\n6. Recommendation: [Hire/Interview/Reject with brief reason]\n\nBe specific and objective in your assessment."

  /** The text sent to the model (lines 88-104). */
  function Render(p: Prompt): string {
    PromptIntro + p.jobDescription + ResumeHeading + p.resume + FormatHeading + OverallScoreLabel + FormatRest
  }

  /**
   * The rendered prompt holds the whole job description, the truncated
   * resume, and the label "1. Overall Score (0-100)" of the line on which it
   * asks for the score: the label `ExtractScoreOfRequestedFormat` reads back.
   */
  lemma RenderAsksForScoreLine(p: Prompt)
    ensures Contains(Render(p), p.jobDescription)
    ensures Contains(Render(p), p.resume)
    ensures Contains(Render(p), OverallScoreLabel)
  {
    SevenPieces(PromptIntro, p.jobDescription, ResumeHeading, p.resume, FormatHeading, OverallScoreLabel, FormatRest);
  }

  /** The second, fourth and sixth of seven concatenated strings occur in the whole. */
  lemma SevenPieces(a: string, b: string, c: string, d: string, e: string, f: string, g: string)
    ensures Contains(a + b + c + d + e + f + g, b)
    ensures Contains(a + b + c + d + e + f + g, d)
    ensures Contains(a + b + c + d + e + f + g, f)
  {
    var whole := a + b + c + d + e + f + g;
    assert whole[|a|..][..|b|] == b;
    assert whole[|a + b + c|..][..|d|] == d;
    assert whole[|a + b + c + d + e|..][..|f|] == f;
  }

  /**
   * The attempt at which the loop of lines 110-149 stops, counting from
   * `from`: the first whose reply is not a rate-limit failure, or the last one.
   */
  function StopAttempt(remote: Remote, prompt: Prompt, from: nat): (a: nat)
    requires from < MaxRetries
    ensures from <= a < MaxRetries
    ensures forall b :: from <= b < a ==> IsRateLimited(remote(b, prompt))
    ensures a < MaxRetries - 1 ==> !IsRateLimited(remote(a, prompt))
    decreases MaxRetries - from
  {
    if from == MaxRetries - 1 || !IsRateLimited(remote(from, prompt)) then from
    else StopAttempt(remote, prompt, from + 1)
  }

  /** An attempt that follows only rate-limit failures and is the last or not rate-limited is where the loop stops. */
  lemma {:induction false} StopAttemptAt(remote: Remote, prompt: Prompt, from: nat, a: nat)
    requires from <= a < MaxRetries
    requires forall b :: from <= b < a ==> IsRateLimited(remote(b, prompt))
    requires a == MaxRetries - 1 || !IsRateLimited(remote(a, prompt))
    ensures StopAttempt(remote, prompt, from) == a
    decreases a - from
  {
    if from < a {
      StopAttemptAt(remote, prompt, from + 1, a);
    }
  }

  /** The dictionary returned for the reply the loop stops at. */
  function Verdict(filename: string, reply: Reply): ScoreResult {
    match reply
    case Answer(text) => ScoreResult(filename, ExtractScore(text), text)
    case Raised(message) =>
      if IsRateLimitMessage(message) then ScoreResult(filename, DefaultScore, RateLimitReasoning(MaxRetries))
      else ScoreResult(filename, DefaultScore, ErrorPrefix + message)
  }

  /** What `score_resume(job_description, resume_text, filename)` returns against `remote`. */
  function ScoreOf(jobDescription: string, resumeText: string, filename: string, remote: Remote): (r: ScoreResult)
    ensures r.filename == filename && ValidScore(r.score)
  {
    var prompt := BuildPrompt(jobDescription, resumeText);
    Verdict(filename, remote(StopAttempt(remote, prompt, 0), prompt))
  }

  /**
   * What the loop's last reply makes of the result: an answer gives its
   * extracted score with the answer as reasoning; a rate-limit failure can
   * only be last on the third attempt and gives 50 with the rate-limit
   * explanation; any other failure gives 50 and the error's message.
   */
  lemma ScoreOfLastReply(jobDescription: string, resumeText: string, filename: string, remote: Remote)
    ensures var prompt := BuildPrompt(jobDescription, resumeText);
      var last := StopAttempt(remote, prompt, 0);
      && (forall a :: 0 <= a < last ==> IsRateLimited(remote(a, prompt)))
      && (remote(last, prompt).Answer? ==>
            var text := remote(last, prompt).text;
            ScoreOf(jobDescription, resumeText, filename, remote) == ScoreResult(filename, ExtractScore(text), text))
      && (remote(last, prompt).Raised? && IsRateLimitMessage(remote(last, prompt).message) ==>
            last == MaxRetries - 1
            && ScoreOf(jobDescription, resumeText, filename, remote) == ScoreResult(filename, DefaultScore, RateLimitReasoning(MaxRetries)))
      && (remote(last, prompt).Raised? && !IsRateLimitMessage(remote(last, prompt).message) ==>
            ScoreOf(jobDescription, resumeText, filename, remote)
              == ScoreResult(filename, DefaultScore, ErrorPrefix + remote(last, prompt).message))
  {
  }

  /**
   * One pass of the loop body (lines 111-149) for the reply to call number
   * `attempt`: the dictionary returned, or `None` when the loop goes on to
   * the next attempt, and the waits taken.
   */
  method Attempt(filename: string, attempt: nat, reply: Reply) returns (outcome: Option<ScoreResult>, ghost waits: seq<nat>)
    requires attempt < MaxRetries
    // only a rate-limit failure before the last attempt is retried, after its backoff
    ensures outcome.None? <==> IsRateLimited(reply) && attempt < MaxRetries - 1
    ensures outcome.None? ==> waits == [Backoff(attempt)]
    ensures reply.Answer? ==>
      outcome == Some(ScoreResult(filename, ExtractScore(reply.text), reply.text)) && waits == [PacingDelay]
    ensures IsRateLimited(reply) && attempt == MaxRetries - 1 ==>
      outcome == Some(ScoreResult(filename, DefaultScore, RateLimitReasoning(MaxRetries))) && waits == []
    ensures reply.Raised? && !IsRateLimitMessage(reply.message) ==>
      outcome == Some(ScoreResult(filename, DefaultScore, ErrorPrefix + reply.message)) && waits == []
    ensures outcome.Some? ==> outcome.value == Verdict(filename, reply)
  {
    match reply
    case Answer(text) =>
      var score := ExtractScore(text);
      waits := [PacingDelay];
      outcome := Some(ScoreResult(filename, score, text));
    case Raised(message) =>
      if IsRateLimitMessage(message) {
        if attempt < MaxRetries - 1 {
          waits := [Backoff(attempt)];
          outcome := None;
        } else {
          waits := [];
          outcome := Some(ScoreResult(filename, DefaultScore, RateLimitReasoning(MaxRetries)));
        }
      } else {
        waits := [];
        outcome := Some(ScoreResult(filename, DefaultScore, ErrorPrefix + message));
      }
  }

  /**
   * `score_resume`: the loop of lines 110-155. `prompts` lists the prompt of
   * every call made; `sleeps` lists the `time.sleep` durations in order.
   */
  method ScoreResume(jobDescription: string, resumeText: string, filename: string, remote: Remote)
    returns (result: ScoreResult, prompts: seq<Prompt>, ghost sleeps: seq<nat>)
    ensures 1 <= |prompts| <= MaxRetries
    ensures forall p :: p in prompts ==> p == BuildPrompt(jobDescription, resumeText)
    // the calls stop where the retry policy says they stop
    ensures |prompts| - 1 == StopAttempt(remote, BuildPrompt(jobDescription, resumeText), 0)
    // a backoff after every rate-limited call, and the pause after an answer
    ensures sleeps == Backoffs(|prompts| - 1) +
      (if remote(|prompts| - 1, BuildPrompt(jobDescription, resumeText)).Answer? then [PacingDelay] else [])
    ensures result == ScoreOf(jobDescription, resumeText, filename, remote)
  {
    var prompt := BuildPrompt(jobDescription, resumeText);
    prompts, sleeps := [], [];
    var attempt: nat := 0;
    while attempt < MaxRetries
      invariant attempt < MaxRetries
      invariant |prompts| == attempt
      invariant forall p :: p in prompts ==> p == prompt
      invariant forall a :: 0 <= a < attempt ==> IsRateLimited(remote(a, prompt))
      invariant sleeps == Backoffs(attempt)
    {
      prompts := prompts + [prompt];
      var outcome, waits := Attempt(filename, attempt, remote(attempt, prompt));
      sleeps := sleeps + waits;
      if outcome.Some? {
        result := outcome.value;
        StopAttemptAt(remote, prompt, 0, attempt);
        return;
      }
      attempt := attempt + 1;
    }
    // Lines 151-155: every pass through the loop returns or retries, and the
    // third pass cannot retry, so the loop never runs out.
    assert false;
    result := ScoreResult(filename, DefaultScore, FallbackReasoning);
  }

  /* ---------- the retry policy, case by case ---------- */

  /** At most two retries, after waits of 2 s and then 4 s. */
  lemma RetryWaits()
    ensures Backoffs(MaxRetries - 1) == [2, 4]
  {
  }

  /** The rate-limit explanation points the user at the API quota, whatever the number of attempts. */
  lemma RateLimitReasoningMentionsQuota(attempts: nat)
    ensures Contains(RateLimitReasoning(attempts), "quota")
  {
    ContainsMiddle("Rate limit exceeded after " + DecimalString(attempts) + RateLimitAdvice, "quota", RateLimitLink);
  }

  /** Two rate-limit failures and then an answer: the answer's own score, not the neutral 50. */
  lemma AnsweredOnThirdAttempt(jobDescription: string, resumeText: string, filename: string, remote: Remote, text: string)
    requires IsRateLimited(remote(0, BuildPrompt(jobDescription, resumeText)))
    requires IsRateLimited(remote(1, BuildPrompt(jobDescription, resumeText)))
    requires remote(2, BuildPrompt(jobDescription, resumeText)) == Answer(text)
    ensures ScoreOf(jobDescription, resumeText, filename, remote) == ScoreResult(filename, ExtractScore(text), text)
  {
  }

  /** Three rate-limit failures: the neutral 50 with the rate-limit explanation. */
  lemma RateLimitedThrice(jobDescription: string, resumeText: string, filename: string, remote: Remote)
    requires forall a :: 0 <= a < MaxRetries ==> IsRateLimited(remote(a, BuildPrompt(jobDescription, resumeText)))
    ensures ScoreOf(jobDescription, resumeText, filename, remote) == ScoreResult(filename, DefaultScore, RateLimitReasoning(MaxRetries))
  {
    assert IsRateLimited(remote(2, BuildPrompt(jobDescription, resumeText)));
  }

  /** Any other failure ends the loop at once with the neutral 50 and the error's message. */
  lemma OtherErrorStops(jobDescription: string, resumeText: string, filename: string, remote: Remote, message: string)
    requires remote(0, BuildPrompt(jobDescription, resumeText)) == Raised(message)
    requires !IsRateLimitMessage(message)
    ensures ScoreOf(jobDescription, resumeText, filename, remote) == ScoreResult(filename, DefaultScore, ErrorPrefix + message)
  {
  }
}

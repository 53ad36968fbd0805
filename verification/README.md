# Resume screening agent — a Dafny model of its scoring pipeline

This project models the scoring pipeline of `ResumeScreeningAgent`
(`resume_agent_gemini.py`). The agent ranks uploaded resumes against a job
description. It reads each upload's text, choosing a PDF or a plain-text
reader from the file-name suffix, and skips the uploads it cannot read. It
asks a remote language model for an assessment of each resume and retries
rate-limit failures. It reads a 0-100 score out of the free-form answer and
returns the results best score first.

Modules, one per part of the agent:

- `Results`: the `Option` and `Result` values used where Python raises.
- `Text`: the Python string operations the agent uses, on `seq<char>`. These
  are `lower()`, `in`, `endswith`, `split`, `strip()`, the first `\d+` match
  and `int()` on digits. Each comes with a declarative characterisation and
  round-trip lemmas: split/join, `int(str(n)) == n`, and the first regex match.
- `ScoreParse`: `_extract_score`.
- `Extraction`: `extract_text`, `extract_text_from_pdf` and `extract_text_from_txt`.
- `Scoring`: `score_resume`, with its retry loop as a Dafny method.
- `Ranking`: the stable sort by descending score on line 222.
- `Screening`: `screen_resumes`.

The outside world enters as parameters:

- The PDF library and the UTF-8 decoder are the function fields of `Readers`.
- The remote model is a function from (attempt, prompt) to a `Reply`
  (`Remote`). For a whole run it also takes the resume's position
  (`Service`), so any sequence of answers and failures can be scripted.
- The `time.sleep` calls appear only as a ghost log of their durations.

Three behaviours of the code worth noting:

- Uploads whose text cannot be extracted are dropped from the report (lines 192-194). They do not get a sentinel 50.
- The score is read from the text between the first and the second colon of the line (`line.split(':')[1]`). It is not read from all the text after the first colon.
- The unsupported-type error carries the lower-cased file name (lines 48 and 55).

## Model

| member | source | states |
|---|---|---|
| Text.JoinSplit | resume_agent_gemini.py:161 | joining the pieces of `s.split(sep)` with `sep` gives back `s` |
| Text.SplitJoin | resume_agent_gemini.py:161 | splitting a join of separator-free pieces gives back exactly those pieces |
| Text.Split | resume_agent_gemini.py:161-165 | the pieces hold no separator, there is at least one, and there are two or more exactly when the separator occurs |
| Text.FirstDigitRun | resume_agent_gemini.py:168-169 | `re.findall(r'\d+', s)` is empty exactly when `s` has no digit; otherwise its first element is a non-empty digit string |
| Text.FirstDigitRunIsFirstMatch | resume_agent_gemini.py:168-170 | the value taken is the leftmost maximal digit run: no digit before it, none right after it |
| Text.StripKeepsFirstDigitRun | resume_agent_gemini.py:165-168 | `strip()` before the regex search does not change which number is found |
| Text.DecimalRoundTrip | resume_agent_gemini.py:170 | `int()` on the decimal digits of `n` gives back `n` |
| ScoreParse.Clamp | resume_agent_gemini.py:171 | the result lies in [0, 100], is the input when that is in range, 0 below and 100 above |
| ScoreParse.ExtractScore | resume_agent_gemini.py:157-176 | for every input text the score is an integer in [0, 100]; nothing is raised |
| ScoreParse.LineScoreSpec | resume_agent_gemini.py:163-171 | a line yields a score exactly when it mentions "score" in any case, has a colon, and has a digit between its first and second colon; the score is the clamped first digit run there |
| ScoreParse.ExtractScoreFirstScoredLine | resume_agent_gemini.py:161-171 | the score is the clamped first `\d+` run after the first colon of the first line that yields a score, with earlier score lines lacking digits passed over |
| ScoreParse.ExtractScoreNoScoredLine | resume_agent_gemini.py:161-174 | when no line yields a score the result is the default 50 |
| ScoreParse.ExtractScoreSkipsFirstLine | resume_agent_gemini.py:162-169 | a first line that yields no score does not affect the result |
| ScoreParse.ExtractScoreStopsAtFirstLine | resume_agent_gemini.py:169-171 | a first line that yields a score decides the result whatever follows |
| ScoreParse.ExtractScoreWithoutScoreLine | resume_agent_gemini.py:163-174 | a text that never mentions "score", or has no colon, gives 50 |
| ScoreParse.ExtractScoreOfRequestedFormat | resume_agent_gemini.py:97-171 | an answer that starts with the requested "1. Overall Score (0-100): n" line gives n clamped to [0, 100], whatever follows |
| ScoreParse.ExtractScoreOfScoreLine | resume_agent_gemini.py:160-171 | "Score: n" gives n clamped, so "Score: 150" gives 100 |
| ScoreParse.ExtractScoreIgnoresSign | resume_agent_gemini.py:168-171 | the minus sign is not part of `\d+`: "Score: -n" gives n clamped, so "Score: -5" gives 5 |
| Extraction.ExtractTextRoutes | resume_agent_gemini.py:46-55 | a name ending in ".pdf" in any case goes to the PDF reader, one ending in ".txt" to the text reader, anything else fails with "Unsupported file type: " and the lower-cased name, and only that case fails that way |
| Extraction.SuffixOfLower | resume_agent_gemini.py:48-52 | testing the lower-cased name's suffix is the same as comparing the name's last characters case-blind |
| Extraction.SuffixesExclusive | resume_agent_gemini.py:50-53 | no name has both suffixes, so testing ".pdf" first decides nothing |
| Extraction.ReadPdf | resume_agent_gemini.py:28-37 | PDF reading succeeds exactly when the PDF library does, giving the pages' texts concatenated; otherwise the error reads "Error reading PDF: " and the library's message |
| Extraction.PageInPlace | resume_agent_gemini.py:32-35 | each page's text sits between the text of the pages before it and after it |
| Extraction.ReadTxt | resume_agent_gemini.py:39-44 | text reading succeeds exactly when UTF-8 decoding does; otherwise the error reads "Error reading TXT: " and the decoder's message |
| Scoring.Truncate | resume_agent_gemini.py:94 | the resume text in the prompt is a prefix of the resume of at most 4000 characters, and all of it when shorter |
| Scoring.BuildPrompt | resume_agent_gemini.py:88-104 | the prompt carries the whole job description and a prefix of at most 4000 characters of the resume |
| Scoring.RenderAsksForScoreLine | resume_agent_gemini.py:88-104 | the text sent to the model contains the job description, the truncated resume and the "1. Overall Score (0-100)" label of the line it asks the score on |
| Scoring.PromptSeesOnlyFirst4000 | resume_agent_gemini.py:94 | two resumes that agree on their first 4000 characters get the same prompt |
| Scoring.StopAttempt | resume_agent_gemini.py:110-136 | the loop stops at the first attempt whose reply is not a rate-limit failure, or at the third; all attempts before it were rate-limited |
| Scoring.ScoreOf | resume_agent_gemini.py:85-155 | the result carries the given file name and a score in [0, 100] |
| Scoring.StopAttemptAt | resume_agent_gemini.py:109-136 | an attempt reached only through rate-limit failures, and either the third one or not itself rate-limited, is where the loop stops |
| Scoring.Attempt | resume_agent_gemini.py:111-149 | one pass of the loop body: only a rate-limit failure ("429", or "quota" in any case) before the third attempt is retried, after a wait of 2·(attempt+1) s; an answer gives its extracted score with the answer as reasoning and a 1 s pause; a rate-limit failure on the third attempt gives 50 and the rate-limit message; any other error gives 50 and "Error analyzing resume: " plus the message |
| Scoring.ScoreOfLastReply | resume_agent_gemini.py:110-149 | the result is decided by the reply at which the loop stops: an answer gives its score and text, a rate-limit failure can be last only on the third attempt and gives 50 with the rate-limit message, any other failure gives 50 with its message |
| Scoring.ScoreResume | resume_agent_gemini.py:107-155 | 1 to 3 calls, all with the same prompt, stopping where the retry policy stops; the sleeps are the backoffs of the retried calls plus the 1 s pause after an answer; the result is the one the policy decides, so the fall-through return is unreachable |
| Scoring.RetryWaits | resume_agent_gemini.py:107-108 | the waits before the two retries are 2 s and then 4 s |
| Scoring.RateLimitReasoningMentionsQuota | resume_agent_gemini.py:141 | the rate-limit explanation mentions the quota, whatever the number of attempts it reports |
| Scoring.AnsweredOnThirdAttempt | resume_agent_gemini.py:110-136 | two rate-limit failures and then an answer give that answer's score, not the neutral 50 |
| Scoring.RateLimitedThrice | resume_agent_gemini.py:131-142 | three rate-limit failures give 50 with the rate-limit explanation |
| Scoring.OtherErrorStops | resume_agent_gemini.py:143-149 | any other failure on the first attempt ends with 50 and the error's own message |
| Ranking.SortByScorePermutes | resume_agent_gemini.py:222 | the sorted list is a permutation of the results |
| Ranking.SortByScoreSorted | resume_agent_gemini.py:222 | the sorted list has the best score first |
| Ranking.SortByScoreStable | resume_agent_gemini.py:222 | results with equal scores keep their original order, as Python's stable sort with `reverse=True` keeps them |
| Ranking.SortByScoreUnique | resume_agent_gemini.py:222 | any best-first order that keeps equal scores in their original order is exactly the sorted list |
| Screening.Extracted | resume_agent_gemini.py:182-197 | no more resumes than uploads, and none at all exactly when no upload can be read |
| Screening.ReadableSpec | resume_agent_gemini.py:183-194 | the readable positions, listed in increasing upload order: each one names an upload whose text can be extracted, and none is left out |
| Screening.ExtractedIsFilter | resume_agent_gemini.py:182-194 | exactly one resume per readable upload, in upload order: the k-th resume is the k-th readable upload, with its name and its extracted text |
| Screening.ExtractedKeepsReadable | resume_agent_gemini.py:183-189 | every readable upload is kept, with its own name and its text |
| Screening.ExtractedOnlyReadable | resume_agent_gemini.py:183-194 | every kept resume comes from a readable upload, whose name and text it carries |
| Screening.ExtractAll | resume_agent_gemini.py:182-194 | the extraction loop keeps one resume per readable upload, in upload order, each with that upload's name and extracted text |
| Screening.ScoreAll | resume_agent_gemini.py:212-219 | one result per extracted resume, in order, each with that resume's file name and a score in [0, 100] |
| Screening.ScoreEach | resume_agent_gemini.py:212-219 | the scoring loop scores every extracted resume once, in extraction order |
| Screening.ScreenResumes | resume_agent_gemini.py:178-224 | fails with "No valid resumes to process" exactly when no upload can be read; otherwise scores one resume per readable upload, in upload order and under that upload's name, and returns as many results, a permutation of the scored ones, best score first, equal scores in extraction order |
| Screening.ReportCoversReadable | resume_agent_gemini.py:182-222 | every readable upload has a result in the report under its own name |
| Screening.ReportOnlyReadable | resume_agent_gemini.py:182-222 | every result in the report belongs to a readable upload; unreadable uploads are absent |

## Left out

- The PDF parser (PyPDF2), UTF-8 decoding, `file.read()` and `file.seek(0)` are library calls and I/O. The readers are the parameters in `Readers`; the model keeps only the concatenation of pages and the error wrapping.
- The ChromaDB collection, the sentence-transformer embeddings and the similarity query (lines 57-83, 199-209) are library calls. Their result never reaches the scores or the order. The model assumes they succeed; an exception they raise would end `screen_resumes` without a report.
- The Gemini client is the `Remote`/`Service` parameter. It receives the `Prompt` record, the two texts filled into the template; `Render` gives the wording actually sent, so a remote that reads only the rendered text is one particular `Remote`. A failure of `response.text` is one more `Raised` reply. `__init__` and API-key handling are configuration of library clients.
- `time.sleep` is recorded as a ghost list of durations, not performed.
- The `print` calls that report skipped files and rate-limit waits are console output.
- Case folding, `\d` and `strip()` are ASCII only. Python's Unicode `lower()`, its non-ASCII digits and its non-ASCII whitespace are not modelled.
- ScoreParse.ExtractScore: parses a digit run of any length. Since CPython 3.11, `int()` raises on more than 4300 digits, which sends `_extract_score` to its `except` branch and gives 50. The model gives the clamped value of the run instead: 100, unless the run is mostly leading zeros (4300 zeros followed by 7 gives 7). That `except` branch (lines 175-176) has no other way to be reached here.
- The file-type and error exceptions are values: `UnsupportedFileType` stands for the `ValueError`, `ReadError` for the generic `Exception`, `NoValidResumes` for the `ValueError` of line 197.
- `app_gemini_cloud.py` is a Streamlit page: widgets, environment and secret lookup, float averages, colour bands, CSV export.
- `test_gemini.py` is a connectivity check with no logic of its own.

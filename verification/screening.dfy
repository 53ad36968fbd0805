/**
 * `ResumeScreeningAgent.screen_resumes`: extract every upload's text,
 * skipping the ones that fail; refuse the run when none succeeded; score the
 * extracted resumes one after the other; and return the results best score
 * first, equal scores in extraction order. The vector store built and
 * queried on lines 199-209 never influences the result and is not modelled.
 */
module Screening {
  import opened Results
  import opened ScoreParse
  import opened Extraction
  import opened Scoring
  import opened Ranking

  /** `{'filename': file.name, 'text': text}` for an upload whose text was extracted. */
  datatype Resume = Resume(filename: string, text: string)

  /**
   * The remote model over a whole run: its reply to the given attempt for the
   * resume at the given position among the extracted ones, with the given prompt.
   */
  type Service = (nat, nat, Prompt) -> Reply

  /** The `ValueError` raised when no upload could be read. */
  datatype ScreenError = NoValidResumes(message: string)

  const NoValidResumesMessage: string := "No valid resumes to process"

  /** The loop of lines 183-194: the uploads whose text could be extracted, in upload order. */
  function Extracted(uploads: seq<Upload>, readers: Readers): (resumes: seq<Resume>)
    ensures |resumes| <= |uploads|
    ensures resumes == [] <==> forall i :: 0 <= i < |uploads| ==> ExtractText(uploads[i], readers).Failure?
    decreases |uploads|
  {
    if uploads == [] then []
    else
      var last := uploads[|uploads| - 1];
      var earlier := Extracted(uploads[..|uploads| - 1], readers);
      assert forall i :: 0 <= i < |uploads| - 1 ==> uploads[..|uploads| - 1][i] == uploads[i];
      match ExtractText(last, readers)
      case Success(text) => earlier + [Resume(last.name, text)]
      case Failure(_) => earlier
  }

  /** The positions of the uploads whose text can be extracted, in upload order. */
  function Readable(uploads: seq<Upload>, readers: Readers): seq<nat>
    decreases |uploads|
  {
    if uploads == [] then []
    else
      var earlier := Readable(uploads[..|uploads| - 1], readers);
      if ExtractText(uploads[|uploads| - 1], readers).Success? then earlier + [|uploads| - 1] else earlier
  }

  lemma {:induction false} ReadableValid(uploads: seq<Upload>, readers: Readers)
    ensures forall k :: 0 <= k < |Readable(uploads, readers)| ==>
      Readable(uploads, readers)[k] < |uploads| && ExtractText(uploads[Readable(uploads, readers)[k]], readers).Success?
    decreases |uploads|
  {
    if uploads != [] {
      var init := uploads[..|uploads| - 1];
      ReadableValid(init, readers);
      assert forall i :: 0 <= i < |init| ==> init[i] == uploads[i];
    }
  }

  lemma {:induction false} ReadableIncreasing(uploads: seq<Upload>, readers: Readers)
    ensures forall k :: 0 <= k < |Readable(uploads, readers)| ==> Readable(uploads, readers)[k] < |uploads|
    ensures forall k, l :: 0 <= k < l < |Readable(uploads, readers)| ==> Readable(uploads, readers)[k] < Readable(uploads, readers)[l]
    decreases |uploads|
  {
    if uploads != [] {
      ReadableIncreasing(uploads[..|uploads| - 1], readers);
    }
  }

  lemma {:induction false} ReadableComplete(uploads: seq<Upload>, readers: Readers)
    ensures forall i :: 0 <= i < |uploads| && ExtractText(uploads[i], readers).Success? ==> i in Readable(uploads, readers)
    decreases |uploads|
  {
    if uploads != [] {
      var init := uploads[..|uploads| - 1];
      ReadableComplete(init, readers);
      assert forall i :: 0 <= i < |init| ==> init[i] == uploads[i];
    }
  }

  /**
   * `Readable` lists exactly the readable positions, each once, in
   * increasing order: each one is a readable upload and none is left out.
   */
  lemma ReadableSpec(uploads: seq<Upload>, readers: Readers)
    ensures forall k :: 0 <= k < |Readable(uploads, readers)| ==>
      Readable(uploads, readers)[k] < |uploads| && ExtractText(uploads[Readable(uploads, readers)[k]], readers).Success?
    ensures forall k, l :: 0 <= k < l < |Readable(uploads, readers)| ==> Readable(uploads, readers)[k] < Readable(uploads, readers)[l]
    ensures forall i :: 0 <= i < |uploads| && ExtractText(uploads[i], readers).Success? ==> i in Readable(uploads, readers)
  {
    ReadableValid(uploads, readers);
    ReadableIncreasing(uploads, readers);
    ReadableComplete(uploads, readers);
  }

  /**
   * The extraction loop is an order-preserving filter: the `k`-th extracted
   * resume is the `k`-th readable upload, with its name and text, and there
   * is exactly one per readable upload.
   */
  lemma {:induction false} ExtractedIsFilter(uploads: seq<Upload>, readers: Readers)
    ensures |Extracted(uploads, readers)| == |Readable(uploads, readers)|
    ensures forall k :: 0 <= k < |Readable(uploads, readers)| ==>
      var i := Readable(uploads, readers)[k];
      && i < |uploads|
      && Extracted(uploads, readers)[k].filename == uploads[i].name
      && ExtractText(uploads[i], readers) == Success(Extracted(uploads, readers)[k].text)
    decreases |uploads|
  {
    if uploads != [] {
      var n := |uploads| - 1;
      var init := uploads[..n];
      ExtractedIsFilter(init, readers);
      assert forall i :: 0 <= i < n ==> init[i] == uploads[i];
      var indices, resumes := Readable(init, readers), Extracted(init, readers);
      var read := ExtractText(uploads[n], readers);
      if read.Success? {
        assert Readable(uploads, readers) == indices + [n];
        assert Extracted(uploads, readers) == resumes + [Resume(uploads[n].name, read.value)];
      } else {
        assert Readable(uploads, readers) == indices;
        assert Extracted(uploads, readers) == resumes;
      }
    }
  }

  /** Every upload that can be read is among the extracted resumes, under its own name. */
  lemma {:induction false} ExtractedKeepsReadable(uploads: seq<Upload>, readers: Readers, i: int)
    requires 0 <= i < |uploads| && ExtractText(uploads[i], readers).Success?
    ensures Resume(uploads[i].name, ExtractText(uploads[i], readers).value) in Extracted(uploads, readers)
    decreases |uploads|
  {
    if i < |uploads| - 1 {
      ExtractedKeepsReadable(uploads[..|uploads| - 1], readers, i);
    }
  }

  /** Every extracted resume comes from an upload that can be read; nothing else gets in. */
  lemma {:induction false} ExtractedOnlyReadable(uploads: seq<Upload>, readers: Readers, r: Resume) returns (i: int)
    requires r in Extracted(uploads, readers)
    ensures 0 <= i < |uploads|
    ensures uploads[i].name == r.filename && ExtractText(uploads[i], readers) == Success(r.text)
    decreases |uploads|
  {
    var last := uploads[|uploads| - 1];
    var earlier := Extracted(uploads[..|uploads| - 1], readers);
    if r in earlier {
      i := ExtractedOnlyReadable(uploads[..|uploads| - 1], readers, r);
    } else {
      var read := ExtractText(last, readers);
      assert read.Success? && Extracted(uploads, readers) == earlier + [Resume(last.name, read.value)];
      i := |uploads| - 1;
    }
  }

  /** The replies the resume at position `k` gets. */
  function RemoteFor(service: Service, k: nat): Remote {
    (attempt: nat, prompt: Prompt) => service(k, attempt, prompt)
  }

  /** The loop of lines 212-219: every extracted resume scored, in extraction order. */
  function ScoreAll(jobDescription: string, resumes: seq<Resume>, service: Service): (results: seq<ScoreResult>)
    ensures |results| == |resumes|
    ensures forall k :: 0 <= k < |resumes| ==> results[k].filename == resumes[k].filename
    ensures forall k :: 0 <= k < |resumes| ==> ValidScore(results[k].score)
  {
    seq(|resumes|, k requires 0 <= k < |resumes| =>
      ScoreOf(jobDescription, resumes[k].text, resumes[k].filename, RemoteFor(service, k)))
  }

  /** The list `screen_resumes` returns when at least one upload can be read. */
  function Report(jobDescription: string, uploads: seq<Upload>, readers: Readers, service: Service): seq<ScoreResult> {
    SortByScore(ScoreAll(jobDescription, Extracted(uploads, readers), service))
  }

  /** Every upload that can be read has a result in the report, under its own name. */
  lemma ReportCoversReadable(jobDescription: string, uploads: seq<Upload>, readers: Readers, service: Service, i: int)
    requires 0 <= i < |uploads| && ExtractText(uploads[i], readers).Success?
    ensures exists x :: x in Report(jobDescription, uploads, readers, service) && x.filename == uploads[i].name
  {
    var resumes := Extracted(uploads, readers);
    var scored := ScoreAll(jobDescription, resumes, service);
    ExtractedKeepsReadable(uploads, readers, i);
    var k :| 0 <= k < |resumes| && resumes[k] == Resume(uploads[i].name, ExtractText(uploads[i], readers).value);
    SortByScorePermutes(scored);
    assert scored[k] in multiset(Report(jobDescription, uploads, readers, service));
  }

  /** Every result in the report belongs to an upload that can be read: the unreadable ones are absent. */
  lemma ReportOnlyReadable(jobDescription: string, uploads: seq<Upload>, readers: Readers, service: Service, x: ScoreResult)
    requires x in Report(jobDescription, uploads, readers, service)
    ensures exists i :: 0 <= i < |uploads| && ExtractText(uploads[i], readers).Success? && uploads[i].name == x.filename
  {
    var resumes := Extracted(uploads, readers);
    var scored := ScoreAll(jobDescription, resumes, service);
    SortByScorePermutes(scored);
    assert x in multiset(scored);
    var k :| 0 <= k < |scored| && scored[k] == x;
    var i := ExtractedOnlyReadable(uploads, readers, resumes[k]);
  }

  /** Lines 182-194: read every upload, keeping the ones that can be read. */
  method ExtractAll(uploads: seq<Upload>, readers: Readers) returns (resumes: seq<Resume>)
    ensures resumes == Extracted(uploads, readers)
    ensures |resumes| == |Readable(uploads, readers)|
    ensures forall k :: 0 <= k < |resumes| ==>
      var i := Readable(uploads, readers)[k];
      i < |uploads| && resumes[k].filename == uploads[i].name && ExtractText(uploads[i], readers) == Success(resumes[k].text)
  {
    resumes := [];
    for i := 0 to |uploads|
      invariant resumes == Extracted(uploads[..i], readers)
    {
      assert uploads[..i + 1][..i] == uploads[..i];
      match ExtractText(uploads[i], readers)
      case Success(text) =>
        resumes := resumes + [Resume(uploads[i].name, text)];
      case Failure(_) =>
        // reported on standard output and skipped
    }
    assert uploads[..|uploads|] == uploads;
    ExtractedIsFilter(uploads, readers);
  }

  /** Lines 212-219: score the resumes one at a time, in order. */
  method ScoreEach(jobDescription: string, resumes: seq<Resume>, service: Service) returns (scored: seq<ScoreResult>)
    ensures scored == ScoreAll(jobDescription, resumes, service)
  {
    ghost var all := ScoreAll(jobDescription, resumes, service);
    scored := [];
    for k := 0 to |resumes|
      invariant scored == all[..k]
    {
      var result, prompts;
      ghost var sleeps;
      result, prompts, sleeps := ScoreResume(jobDescription, resumes[k].text, resumes[k].filename, RemoteFor(service, k));
      assert result == all[k];
      scored := scored + [result];
      assert all[..k + 1] == all[..k] + [all[k]];
    }
  }

  /** `screen_resumes(job_description, uploaded_files)`. */
  method ScreenResumes(jobDescription: string, uploads: seq<Upload>, readers: Readers, service: Service)
    returns (r: Result<seq<ScoreResult>, ScreenError>)
    ensures r.Failure? <==> forall i :: 0 <= i < |uploads| ==> ExtractText(uploads[i], readers).Failure?
    ensures r.Failure? ==> r.error == NoValidResumes(NoValidResumesMessage)
    ensures r.Success? ==>
      var scored := ScoreAll(jobDescription, Extracted(uploads, readers), service);
      // one result per readable upload, scored in upload order
      && |scored| == |Readable(uploads, readers)|
      && (forall k :: 0 <= k < |Readable(uploads, readers)| ==>
            Readable(uploads, readers)[k] < |uploads| && scored[k].filename == uploads[Readable(uploads, readers)[k]].name)
      && |r.value| == |Readable(uploads, readers)|
      && multiset(r.value) == multiset(scored)
      && SortedByScore(r.value)
      && SameOrderPerScore(r.value, scored)
      && r.value == Report(jobDescription, uploads, readers, service)
  {
    var resumes := ExtractAll(uploads, readers);
    if resumes == [] {
      return Failure(NoValidResumes(NoValidResumesMessage));
    }
    var scored := ScoreEach(jobDescription, resumes, service);
    ghost var indices := Readable(uploads, readers);
    assert |scored| == |indices|;
    assert forall k :: 0 <= k < |indices| ==> indices[k] < |uploads| && scored[k].filename == uploads[indices[k]].name by {
      assert forall k :: 0 <= k < |scored| ==> scored[k].filename == resumes[k].filename;
    }
    SortByScorePermutes(scored);
    SortByScoreSorted(scored);
    SortByScoreStable(scored);
    return Success(SortByScore(scored));
  }
}

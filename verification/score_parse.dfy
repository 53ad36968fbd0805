/**
 * `ResumeScreeningAgent._extract_score`: the score the agent reads out of the
 * remote model's free-form assessment. The text is scanned line by line; the
 * first line that mentions "score" (in any case), has a colon, and has a
 * digit between its first and second colon gives the score, clamped to
 * [0, 100]. Without such a line the score is the neutral 50.
 */
module ScoreParse {
  import opened Results
  import opened Text

  const MinScore: int := 0
  const MaxScore: int := 100
  /** The neutral score used whenever no real score is available. */
  const DefaultScore: int := 50

  predicate ValidScore(n: int) {
    MinScore <= n <= MaxScore
  }

  /** `min(max(n, 0), 100)`. */
  function Clamp(n: int): (r: int)
    ensures ValidScore(r)
    ensures ValidScore(n) ==> r == n
    ensures n < MinScore ==> r == MinScore
    ensures n > MaxScore ==> r == MaxScore
  {
    var low := if n > MinScore then n else MinScore;
    if low < MaxScore then low else MaxScore
  }

  /** `analysis.split('\n')`. */
  function Lines(analysis: string): (lines: seq<string>)
    ensures |lines| >= 1
  {
    Split(analysis, '\n')
  }

  /** The test on line 163: the line mentions "score" in any case and has a colon. */
  predicate IsScoreLine(line: string) {
    Contains(Lower(line), "score") && ':' in line
  }

  /** `line.split(':')[1]`: the text between the first colon and the next one (or the end). */
  function AfterFirstColon(line: string): (segment: string)
    requires ':' in line
    ensures ':' !in segment
  {
    Split(line, ':')[1]
  }

  /** A line that makes the scan stop: a score line with a digit after its first colon. */
  ghost predicate IsScoredLine(line: string) {
    IsScoreLine(line) && HasDigit(AfterFirstColon(line))
  }

  /** What one line contributes: the clamped first number after its first colon, if any. */
  function LineScore(line: string): (r: Option<int>)
    ensures r.Some? ==> ValidScore(r.value)
  {
    if IsScoreLine(line) then
      match FirstDigitRun(Strip(AfterFirstColon(line)))
      case Some(run) => Some(Clamp(DecimalValue(run)))
      case None => None
    else None
  }

  /** What each line contributes, in line order. */
  function LineScores(lines: seq<string>): (scores: seq<Option<int>>)
    ensures |scores| == |lines|
    ensures forall m :: 0 <= m < |lines| ==> scores[m] == LineScore(lines[m])
    decreases |lines|
  {
    if lines == [] then [] else [LineScore(lines[0])] + LineScores(lines[1..])
  }

  /** Every score a line contributes is in [0, 100]. */
  ghost predicate ValidScores(scores: seq<Option<int>>) {
    forall m :: 0 <= m < |scores| && scores[m].Some? ==> ValidScore(scores[m].value)
  }

  /**
   * The loop of lines 162-171 over the lines' contributions: the first line
   * that contributes a score decides; past the last line, the default of line 174.
   */
  function FirstScore(scores: seq<Option<int>>): (score: int)
    requires ValidScores(scores)
    ensures ValidScore(score)
    decreases |scores|
  {
    if scores == [] then DefaultScore
    else
      match scores[0]
      case Some(score) => score
      case None => FirstScore(scores[1..])
  }

  /** `_extract_score(analysis)`: always an integer in [0, 100]. */
  function ExtractScore(analysis: string): (score: int)
    ensures ValidScore(score)
  {
    FirstScore(LineScores(Lines(analysis)))
  }

  /* ---------- the scan, stated declaratively ---------- */

  /**
   * A line yields a score exactly when it is a scored line, and then the
   * score is the clamped value of the first `\d+` run after its first colon.
   */
  lemma LineScoreSpec(line: string)
    ensures LineScore(line).Some? <==> IsScoredLine(line)
    ensures IsScoredLine(line) ==>
      forall i, j :: IsFirstDigitRun(AfterFirstColon(line), i, j) ==>
        LineScore(line) == Some(Clamp(DecimalValue(AfterFirstColon(line)[i..j])))
  {
    if IsScoreLine(line) {
      var segment := AfterFirstColon(line);
      StripKeepsFirstDigitRun(segment);
      forall i, j | IsFirstDigitRun(segment, i, j)
        ensures LineScore(line) == Some(Clamp(DecimalValue(segment[i..j])))
      {
        FirstDigitRunIsFirstMatch(segment, i, j);
      }
    }
  }

  lemma {:induction false} FirstScoreAt(scores: seq<Option<int>>, k: int)
    requires ValidScores(scores)
    requires 0 <= k < |scores| && scores[k].Some?
    requires forall m :: 0 <= m < k ==> scores[m].None?
    ensures FirstScore(scores) == scores[k].value
    decreases k
  {
    if k > 0 {
      FirstScoreAt(scores[1..], k - 1);
    }
  }

  lemma {:induction false} FirstScoreNone(scores: seq<Option<int>>)
    requires forall m :: 0 <= m < |scores| ==> scores[m].None?
    ensures ValidScores(scores) && FirstScore(scores) == DefaultScore
    decreases |scores|
  {
    if scores != [] {
      FirstScoreNone(scores[1..]);
    }
  }

  /**
   * The score is taken from the first scored line: the first `\d+` run after
   * its first colon, read as a decimal number and clamped to [0, 100].
   * Earlier score lines without a digit there are passed over.
   */
  lemma ExtractScoreFirstScoredLine(analysis: string, k: int, i: int, j: int)
    requires 0 <= k < |Lines(analysis)|
    requires forall m :: 0 <= m < k ==> !IsScoredLine(Lines(analysis)[m])
    requires IsScoreLine(Lines(analysis)[k])
    requires IsFirstDigitRun(AfterFirstColon(Lines(analysis)[k]), i, j)
    ensures ExtractScore(analysis) == Clamp(DecimalValue(AfterFirstColon(Lines(analysis)[k])[i..j]))
  {
    var lines := Lines(analysis);
    forall m | 0 <= m < k ensures LineScore(lines[m]).None? {
      LineScoreSpec(lines[m]);
    }
    assert IsDigit(AfterFirstColon(lines[k])[i]);
    LineScoreSpec(lines[k]);
    FirstScoreAt(LineScores(lines), k);
  }

  /** Without a scored line the score is the default 50. */
  lemma ExtractScoreNoScoredLine(analysis: string)
    requires forall m :: 0 <= m < |Lines(analysis)| ==> !IsScoredLine(Lines(analysis)[m])
    ensures ExtractScore(analysis) == DefaultScore
  {
    var lines := Lines(analysis);
    forall m | 0 <= m < |lines| ensures LineScore(lines[m]).None? {
      LineScoreSpec(lines[m]);
    }
    FirstScoreNone(LineScores(lines));
  }

  /* ---------- lines in the format the prompt asks for ---------- */

  /** A line with one colon, a head mentioning "score" before it, and a digit after it. */
  lemma LabelledLineScore(head: string, segment: string, i: int, j: int)
    requires ':' !in head && ':' !in segment
    requires Contains(Lower(head), "score")
    requires IsFirstDigitRun(segment, i, j)
    ensures LineScore(head + ":" + segment) == Some(Clamp(DecimalValue(segment[i..j])))
  {
    var line := head + ":" + segment;
    var w :| 0 <= w <= |Lower(head)| - |"score"| && StartsWith(Lower(head)[w..], "score");
    LowerAppend(head, ":" + segment);
    assert Lower(line)[w..][..5] == Lower(head)[w..][..5];
    assert StartsWith(Lower(line)[w..], "score");
    assert line[|head|] == ':';
    SplitPrefix(head, ':', segment);
    SplitWhole(segment, ':');
    assert AfterFirstColon(line) == segment;
    assert IsDigit(segment[i]);
    LineScoreSpec(line);
  }

  /** The head of the first line of the format the prompt requests. */
  const OverallScoreLabel: string := "1. Overall Score (0-100)"

  lemma OverallScoreLabelIsScoreLabel()
    ensures ':' !in OverallScoreLabel && '\n' !in OverallScoreLabel
    ensures Contains(Lower(OverallScoreLabel), "score")
  {
    assert Lower(OverallScoreLabel)[11..][..5] == "score";
  }

  /** Digits after a space and a digit-free lead: they are the first `\d+` run. */
  lemma SpacedDigits(lead: string, digits: string)
    requires ':' !in lead && '\n' !in lead && !HasDigit(lead)
    requires |digits| >= 1 && AllDigits(digits)
    ensures IsFirstDigitRun(" " + lead + digits, |lead| + 1, |lead| + |digits| + 1)
    ensures (" " + lead + digits)[|lead| + 1..|lead| + |digits| + 1] == digits
    ensures ':' !in " " + lead + digits && '\n' !in " " + lead + digits
  {
    var segment := " " + lead + digits;
    var k0 := |lead| + 1;
    assert forall k :: k0 <= k < |segment| ==> segment[k] == digits[k - k0];
    assert forall k :: 1 <= k < k0 ==> segment[k] == lead[k - 1];
  }

  /** Regroups the label's ": " apart from the caller, whose context it would crowd. */
  lemma ColonSpaceRegroup(head: string, lead: string, digits: string)
    ensures head + ": " + lead + digits == head + ":" + (" " + lead + digits)
  {
    assert ": " == ":" + " ";
    calc {
      head + ": " + lead + digits;
      head + (":" + " ") + lead + digits;
      head + ":" + (" " + lead + digits);
    }
  }

  /**
   * A labelled line "head: lead digits", where `lead` holds no digit, colon or
   * line break, yields the clamped value of its digits.
   */
  lemma LabelledNumberScore(head: string, lead: string, digits: string)
    requires ':' !in head && Contains(Lower(head), "score")
    requires ':' !in lead && '\n' !in lead && !HasDigit(lead)
    requires |digits| >= 1 && AllDigits(digits)
    ensures LineScore(head + ": " + lead + digits) == Some(Clamp(DecimalValue(digits)))
    ensures '\n' !in head ==> '\n' !in head + ": " + lead + digits
  {
    var segment := " " + lead + digits;
    var line := head + ":" + segment;
    assert |segment| == |lead| + |digits| + 1;
    assert IsFirstDigitRun(segment, |lead| + 1, |segment|) && segment[|lead| + 1..|segment|] == digits
      && ':' !in segment && '\n' !in segment by {
      SpacedDigits(lead, digits);
    }
    assert LineScore(line) == Some(Clamp(DecimalValue(digits))) by {
      LabelledLineScore(head, segment, |lead| + 1, |segment|);
    }
    assert head + ": " + lead + digits == line by {
      ColonSpaceRegroup(head, lead, digits);
    }
  }

  /**
   * An assessment whose first line is "1. Overall Score (0-100): n", as the
   * prompt asks, yields `n` clamped to [0, 100], whatever follows.
   */
  lemma ExtractScoreOfRequestedFormat(n: nat, rest: string)
    ensures ExtractScore(OverallScoreLabel + ": " + DecimalString(n) + "\n" + rest) == Clamp(n)
  {
    var digits := DecimalString(n);
    var line := OverallScoreLabel + ": " + digits;
    OverallScoreLabelIsScoreLabel();
    LabelledNumberScore(OverallScoreLabel, [], digits);
    assert OverallScoreLabel + ": " + [] + digits == line by {
      assert OverallScoreLabel + ": " + [] == OverallScoreLabel + ": ";
    }
    DecimalRoundTrip(n);
    LineScoreSpec(line);
    ExtractScoreStopsAtFirstLine(line, rest);
  }

  /* ---------- line by line ---------- */

  /** A first line that yields no score is passed over. */
  lemma ExtractScoreSkipsFirstLine(line: string, rest: string)
    requires '\n' !in line
    requires !IsScoredLine(line)
    ensures ExtractScore(line + "\n" + rest) == ExtractScore(rest)
  {
    SplitPrefix(line, '\n', rest);
    LineScoreSpec(line);
  }

  /** A first line that yields a score decides the result, whatever follows. */
  lemma ExtractScoreStopsAtFirstLine(line: string, rest: string)
    requires '\n' !in line
    requires IsScoredLine(line)
    ensures LineScore(line).Some? && ExtractScore(line + "\n" + rest) == LineScore(line).value
  {
    SplitPrefix(line, '\n', rest);
    LineScoreSpec(line);
  }

  /** Text that never mentions "score", or has no colon at all, gives the default 50. */
  lemma ExtractScoreWithoutScoreLine(analysis: string)
    requires !Contains(Lower(analysis), "score") || ':' !in analysis
    ensures ExtractScore(analysis) == DefaultScore
  {
    var lines := Lines(analysis);
    forall m | 0 <= m < |lines| ensures !IsScoredLine(lines[m]) {
      var lo := SplitPieceIsSlice(analysis, '\n', m);
      if IsScoreLine(lines[m]) {
        var c :| 0 <= c < |lines[m]| && lines[m][c] == ':';
        assert analysis[lo + c] == ':';
        ContainsInSlice(analysis, lo, lines[m]);
        assert false;
      }
    }
    ExtractScoreNoScoredLine(analysis);
  }

  /* ---------- worked cases ---------- */

  lemma ScoreLabelIsScoreLabel()
    ensures ':' !in "Score" && '\n' !in "Score" && Contains(Lower("Score"), "score")
  {
    assert Lower("Score")[0..] == "score";
  }

  /** A lone line "head: lead digits" gives the clamped value of the digits. */
  lemma ExtractScoreOfLabelledNumber(head: string, lead: string, digits: string)
    requires ':' !in head && '\n' !in head && Contains(Lower(head), "score")
    requires ':' !in lead && '\n' !in lead && !HasDigit(lead)
    requires |digits| >= 1 && AllDigits(digits)
    ensures ExtractScore(head + ": " + lead + digits) == Clamp(DecimalValue(digits))
  {
    LabelledNumberScore(head, lead, digits);
    SplitWhole(head + ": " + lead + digits, '\n');
  }

  /** Regroups the literal "Score: " apart from the callers, for the same reason. */
  lemma ScoreLabelRegroup(lead: string, digits: string)
    ensures "Score" + ": " + lead + digits == "Score: " + lead + digits
  {
    assert "Score" + ": " == "Score: ";
  }

  /** "Score: n" gives n clamped to [0, 100]; "Score: 150", for one, gives 100. */
  lemma ExtractScoreOfScoreLine(n: nat)
    ensures ExtractScore("Score: " + DecimalString(n)) == Clamp(n)
  {
    var digits := DecimalString(n);
    assert ExtractScore("Score" + ": " + [] + digits) == Clamp(DecimalValue(digits)) by {
      ScoreLabelIsScoreLabel();
      ExtractScoreOfLabelledNumber("Score", [], digits);
    }
    assert "Score" + ": " + [] + digits == "Score: " + digits by {
      ScoreLabelRegroup([], digits);
      assert "Score: " + [] == "Score: ";
    }
    DecimalRoundTrip(n);
  }

  /** The sign is not part of `\d+`: "Score: -n" gives n clamped, so "Score: -5" gives 5. */
  lemma ExtractScoreIgnoresSign(n: nat)
    ensures ExtractScore("Score: -" + DecimalString(n)) == Clamp(n)
  {
    var digits := DecimalString(n);
    assert ExtractScore("Score" + ": " + "-" + digits) == Clamp(DecimalValue(digits)) by {
      ScoreLabelIsScoreLabel();
      assert !HasDigit("-");
      ExtractScoreOfLabelledNumber("Score", "-", digits);
    }
    assert "Score" + ": " + "-" + digits == "Score: -" + digits by {
      ScoreLabelRegroup("-", digits);
      assert "Score: " + "-" == "Score: -";
    }
    DecimalRoundTrip(n);
  }
}

/** The grading job run by a worker for one submission: pick the question and
    its test cases, run every case through the executor, turn each outcome
    into a verdict and a score, add them up, and move the submission through
    PENDING -> RUNNING -> COMPLETED or ERROR. The database is the Submission
    object and the value rows handed in; the executor's operating system is
    an oracle whose i-th answer serves the i-th test case. */
module Grading {
  import opened Strings
  import opened SubmissionModels
  import opened QuestionModels
  import opened CodeExecutor

  /** str() of the ZeroDivisionError a float division by zero raises. */
  const ZERO_DIVISION_MESSAGE: string := "float division by zero"
  /** str() of the NameError raised where AssessmentCandidate is used
      without having been imported. */
  const NAME_ERROR_MESSAGE: string := "name 'AssessmentCandidate' is not defined"
  /** str() of the IndexError for a candidate with no assessment rows. */
  const INDEX_ERROR_MESSAGE: string := "list index out of range"

  // ---------------------------------------------------------------------
  // Finding the question and selecting its test cases

  /** The question of the first link row that names `questionId`. */
  function QuestionFor(aqs: seq<AssessmentQuestion>, questionId: int): (r: Option<Question>)
    ensures r.None? <==> forall k :: 0 <= k < |aqs| ==> aqs[k].questionId != questionId
    ensures r.Some? ==> exists k :: 0 <= k < |aqs| && aqs[k].questionId == questionId
                          && r.value == aqs[k].question
                          && forall k' :: 0 <= k' < k ==> aqs[k'].questionId != questionId
  {
    if |aqs| == 0 then None
    else if aqs[0].questionId == questionId then Some(aqs[0].question)
    else
      var r := QuestionFor(aqs[1..], questionId);
      assert forall k :: 1 <= k < |aqs| ==> aqs[k] == aqs[1..][k - 1];
      if r.Some? then
        var k :| 0 <= k < |aqs| - 1 && aqs[1..][k].questionId == questionId
                 && r.value == aqs[1..][k].question
                 && forall k' :: 0 <= k' < k ==> aqs[1..][k'].questionId != questionId;
        assert aqs[k + 1] == aqs[1..][k];
        r
      else r
  }

  /** The loop over the assessment's question links, stopping at the first
      one for the submission's question. */
  method FindQuestion(aqs: seq<AssessmentQuestion>, questionId: int) returns (question: Option<Question>)
    ensures question == QuestionFor(aqs, questionId)
  {
    question := None;
    var i := 0;
    while i < |aqs|
      invariant 0 <= i <= |aqs|
      invariant forall k :: 0 <= k < i ==> aqs[k].questionId != questionId
    {
      if aqs[i].questionId == questionId {
        question := Some(aqs[i].question);
        FirstLinkWins(aqs, questionId, i);
        return;
      }
      i := i + 1;
    }
  }

  lemma FirstLinkWins(aqs: seq<AssessmentQuestion>, questionId: int, i: nat)
    requires i < |aqs| && aqs[i].questionId == questionId
    requires forall k :: 0 <= k < i ==> aqs[k].questionId != questionId
    ensures QuestionFor(aqs, questionId) == Some(aqs[i].question)
  {
    var r := QuestionFor(aqs, questionId);
    var k :| 0 <= k < |aqs| && aqs[k].questionId == questionId && r.value == aqs[k].question
             && forall k' :: 0 <= k' < k ==> aqs[k'].questionId != questionId;
    assert k == i;
  }

  /** The public test cases, in stored order. */
  function PublicCases(cases: seq<TestCase>): (r: seq<TestCase>)
    ensures |r| <= |cases|
    ensures forall tc :: tc in r <==> tc in cases && tc.isPublic
  {
    if |cases| == 0 then []
    else
      var rest := PublicCases(cases[1..]);
      assert forall tc :: tc in cases <==> tc == cases[0] || tc in cases[1..];
      if cases[0].isPublic then [cases[0]] + rest else rest
  }

  /** Filtering commutes with concatenation, so the stored order is kept. */
  lemma {:induction false} PublicCasesAppend(a: seq<TestCase>, b: seq<TestCase>)
    ensures PublicCases(a + b) == PublicCases(a) + PublicCases(b)
  {
    if |a| > 0 {
      assert (a + b)[1..] == a[1..] + b;
      PublicCasesAppend(a[1..], b);
    } else {
      assert a + b == b;
    }
  }

  /** Nothing is dropped exactly when every case is public. */
  lemma {:induction false} PublicCasesAllPublic(cases: seq<TestCase>)
    ensures PublicCases(cases) == cases <==> forall k :: 0 <= k < |cases| ==> cases[k].isPublic
  {
    if |cases| > 0 {
      PublicCasesAllPublic(cases[1..]);
      assert [cases[0]] + cases[1..] == cases;
      if !cases[0].isPublic {
        assert |PublicCases(cases)| <= |cases[1..]| < |cases|;
      }
    }
  }

  /** A "test" run sees the public cases, any other run type all of them. */
  function SelectTestCases(cases: seq<TestCase>, runType: string): (r: seq<TestCase>)
    ensures runType != "test" ==> r == cases
    ensures runType == "test" ==> forall tc :: tc in r <==> tc in cases && tc.isPublic
    ensures runType == "test" ==> forall k :: 0 <= k < |r| ==> r[k].isPublic
  {
    if runType == "test" then PublicCases(cases) else cases
  }

  /** sum(tc.weight for tc in cases), accumulated left to right. */
  function SumWeights(cases: seq<TestCase>): real {
    if |cases| == 0 then 0.0 else SumWeights(cases[..|cases| - 1]) + cases[|cases| - 1].weight
  }

  // ---------------------------------------------------------------------
  // One test case: verdict and score

  /** The verdict and score of one case, or the ZeroDivisionError that the
      score's division raises when the total weight is 0. */
  datatype Judgement = Scored(verdict: Verdict, score: real) | DivisionByZero

  predicate OutputMatches(r: ExecResult, tc: TestCase) {
    Strip(tc.expectedOutput) == Strip(r.output)
  }

  function JudgeCase(r: ExecResult, tc: TestCase, totalWeight: real, maxScore: real): (j: Judgement)
    // the division is reached only for a matching run, and fails only on 0
    ensures j.DivisionByZero? <==> r.verdict == OK && OutputMatches(r, tc) && totalWeight == 0.0
    // a case is OK exactly when it ran cleanly and its trimmed output matches
    ensures j.Scored? ==> (j.verdict == OK <==> r.verdict == OK && OutputMatches(r, tc))
    // a clean run with the wrong output becomes WA; other verdicts pass through
    ensures j.Scored? && r.verdict == OK && !OutputMatches(r, tc) ==> j.verdict == WA
    ensures j.Scored? && r.verdict != OK ==> j.verdict == r.verdict
    // only an OK case scores, and its share of maxScore is weight / totalWeight
    ensures j.Scored? && j.verdict != OK ==> j.score == 0.0
    ensures j.Scored? && j.verdict == OK ==>
              totalWeight != 0.0 && j.score == Share(tc.weight, totalWeight, maxScore)
  {
    if r.verdict == OK then
      if OutputMatches(r, tc) then
        if totalWeight == 0.0 then DivisionByZero
        else Scored(OK, Share(tc.weight, totalWeight, maxScore))
      else Scored(WA, 0.0)
    else Scored(r.verdict, 0.0)
  }

  /** (weight / totalWeight) * maxScore: the part of maxScore that a case of
      this weight earns. */
  function Share(weight: real, totalWeight: real, maxScore: real): real
    requires totalWeight != 0.0
  {
    (weight / totalWeight) * maxScore
  }

  /** Scaled back by the total weight, a share is weight * maxScore: the
      shares of all cases split maxScore in proportion to their weights. */
  lemma ShareScales(weight: real, totalWeight: real, maxScore: real)
    requires totalWeight != 0.0
    ensures Share(weight, totalWeight, maxScore) * totalWeight == weight * maxScore
  {
    var s := Share(weight, totalWeight, maxScore);
    assert (weight / totalWeight) * totalWeight == weight;
    assert s * totalWeight == (weight / totalWeight) * totalWeight * maxScore;
  }

  // ---------------------------------------------------------------------
  // The loop over the selected cases

  /** What the loop over the selected test cases works with. `execute` is
      execute_code applied to the submission's code and language: given a
      test case and its position it returns that run's result (the position
      selects the operating system's answer). */
  datatype Run = Run(
    submissionId: int,
    cases: seq<TestCase>,
    totalWeight: real,
    maxScore: real,
    execute: (TestCase, nat) -> ExecResult)

  /** The executor as the grading job uses it: the submission's code and
      language, the case's input and limits, and the i-th answer of the
      operating system. */
  function Executor(tempDir: string, code: string, language: string, oracle: nat -> SandboxRun)
    : (execute: (TestCase, nat) -> ExecResult)
    // no memory is measured and no output is judged: never MLE or WA
    ensures forall tc: TestCase, i: nat :: execute(tc, i).memoryUsedKb == 0
              && execute(tc, i).verdict != MLE && execute(tc, i).verdict != WA
    // a run sees only the case's input and limits: the expected output, the
    // weight and the id do not reach the executor
    ensures forall tc1: TestCase, tc2: TestCase, i: nat ::
              (tc1.inputData == tc2.inputData && tc1.timeLimitSeconds == tc2.timeLimitSeconds
               && tc1.memoryLimitMb == tc2.memoryLimitMb) ==> execute(tc1, i) == execute(tc2, i)
  {
    var execute := (tc: TestCase, i: nat) =>
      ExecuteCode(tempDir, code, language, tc.inputData, tc.timeLimitSeconds, tc.memoryLimitMb, oracle(i));
    assert forall tc: TestCase, i: nat :: execute(tc, i).memoryUsedKb == 0
             && execute(tc, i).verdict != MLE && execute(tc, i).verdict != WA by {
      forall tc: TestCase, i: nat
        ensures execute(tc, i).memoryUsedKb == 0 && execute(tc, i).verdict != MLE && execute(tc, i).verdict != WA
      {
        var r := ExecuteCode(tempDir, code, language, tc.inputData, tc.timeLimitSeconds, tc.memoryLimitMb, oracle(i));
        assert execute(tc, i) == r;
      }
    }
    execute
  }

  /** What one loop iteration produces: the result row it adds, or the
      message of the exception it raises. */
  datatype CaseOutcome = Graded(row: SubmissionResult) | Failed(message: string)

  /** The result row of a judged case, built from that case's run alone. */
  function GradeCase(run: Run, i: nat): (o: CaseOutcome)
    requires i < |run.cases|
    // only a match at zero total weight raises, and it raises the division error
    ensures o.Failed? ==> o.message == ZERO_DIVISION_MESSAGE && run.totalWeight == 0.0
    // the row belongs to this submission and this case
    ensures o.Graded? ==> o.row.submissionId == run.submissionId && o.row.testCaseId == run.cases[i].id
  {
    var tc := run.cases[i];
    var r := run.execute(tc, i);
    match JudgeCase(r, tc, run.totalWeight, run.maxScore)
    case DivisionByZero => Failed(ZERO_DIVISION_MESSAGE)
    case Scored(v, score) =>
      Graded(SubmissionResult(run.submissionId, tc.id, v, r.executionTimeMs, r.memoryUsedKb,
                              score, r.output, r.error))
  }

  /** The outcomes of all selected cases, in order. */
  function Outcomes(run: Run): (outs: seq<CaseOutcome>)
    ensures |outs| == |run.cases|
  {
    seq(|run.cases|, i requires 0 <= i < |run.cases| => GradeCase(run, i))
  }

  /** Where the loop stands: still going with the rows added so far, the
      running total and the overall verdict, or stopped by an exception
      (the rows added before it are kept). */
  datatype LoopState =
    | Running(results: seq<SubmissionResult>, totalScore: real, overall: Verdict)
    | Raised(message: string, results: seq<SubmissionResult>)

  /** The loop body applied to one case's outcome. */
  function Step(st: LoopState, o: CaseOutcome): (r: LoopState)
    // a raised exception ends the loop
    ensures st.Raised? ==> r == st
    // rows are only ever added, at most one per case
    ensures st.results <= r.results && |r.results| <= |st.results| + 1
    // the loop keeps going only on a graded case, whose row it adds
    ensures r.Running? ==> st.Running? && o.Graded? && r.results == st.results + [o.row]
  {
    match st
    case Raised(_, _) => st
    case Running(rs, total, overall) =>
      match o
      case Failed(msg) => Raised(msg, rs)
      case Graded(row) =>
        Running(rs + [row], total + row.score, if row.verdict != OK then row.verdict else overall)
  }

  /** The loop run over a sequence of outcomes. */
  function Fold(outs: seq<CaseOutcome>): (r: LoopState)
    ensures |r.results| <= |outs|
    // a loop that is still running has added one row per case
    ensures r.Running? ==> |r.results| == |outs|
  {
    if |outs| == 0 then Running([], 0.0, OK)
    else Step(Fold(outs[..|outs| - 1]), outs[|outs| - 1])
  }

  lemma FoldAppend(outs: seq<CaseOutcome>, o: CaseOutcome)
    ensures Fold(outs + [o]) == Step(Fold(outs), o)
  {
    assert (outs + [o])[..|outs|] == outs;
  }

  /** Once raised, the exception ends the loop: later cases change nothing. */
  lemma {:induction false} RaisedStays(outs: seq<CaseOutcome>, i: nat)
    requires i <= |outs| && Fold(outs[..i]).Raised?
    ensures Fold(outs) == Fold(outs[..i])
    decreases |outs| - i
  {
    if i == |outs| {
      assert outs[..i] == outs;
    } else {
      assert outs[..|outs| - 1][..i] == outs[..i];
      RaisedStays(outs[..|outs| - 1], i);
    }
  }

  /** One pass of the loop body up to the result row: run the case, keep
      the executor's verdict unless it is OK, compare the trimmed outputs,
      and score a match by its weight. */
  method GradeTestCase(run: Run, i: nat) returns (o: CaseOutcome)
    requires i < |run.cases|
    ensures o == GradeCase(run, i)
  {
    var testCase := run.cases[i];
    var result := run.execute(testCase, i);
    var verdict := result.verdict;
    var score := 0.0;
    if verdict == OK {
      var expected := Strip(testCase.expectedOutput);
      var actual := Strip(result.output);
      if expected == actual {
        if run.totalWeight == 0.0 {
          return Failed(ZERO_DIVISION_MESSAGE);
        }
        score := Share(testCase.weight, run.totalWeight, run.maxScore);
      } else {
        verdict := WA;
      }
    }
    o := Graded(SubmissionResult(run.submissionId, testCase.id, verdict, result.executionTimeMs,
                                 result.memoryUsedKb, score, result.output, result.error));
  }

  /** The aggregation loop: every selected case in order, each result row
      added, the total and the overall verdict updated. */
  method RunTestCases(run: Run) returns (outcome: LoopState)
    ensures outcome == Fold(Outcomes(run))
  {
    ghost var seen: seq<CaseOutcome> := [];
    var totalScore := 0.0;
    var overallVerdict := OK;
    var results: seq<SubmissionResult> := [];
    var i := 0;
    while i < |run.cases|
      invariant 0 <= i <= |run.cases| && |seen| == i
      invariant forall k {:trigger GradeCase(run, k)} :: 0 <= k < i ==> seen[k] == GradeCase(run, k)
      invariant Fold(seen) == Running(results, totalScore, overallVerdict)
    {
      var o := GradeTestCase(run, i);
      FoldAppend(seen, o);
      seen := seen + [o];
      match o {
        case Failed(msg) =>
          outcome := Raised(msg, results);
          SameOutcomes(run, seen);
          FoldOfPrefix(Outcomes(run), seen);
          return;
        case Graded(row) =>
          if row.verdict != OK {
            overallVerdict := row.verdict;
          }
          totalScore := totalScore + row.score;
          results := results + [row];
      }
      i := i + 1;
    }
    SameOutcomes(run, seen);
    FoldOfPrefix(Outcomes(run), seen);
    outcome := Running(results, totalScore, overallVerdict);
  }

  /** The outcomes of the cases run so far are a prefix of all of them. */
  lemma SameOutcomes(run: Run, seen: seq<CaseOutcome>)
    requires |seen| <= |run.cases|
    requires forall k {:trigger GradeCase(run, k)} :: 0 <= k < |seen| ==> seen[k] == GradeCase(run, k)
    ensures Outcomes(run)[..|seen|] == seen
  {
  }

  /** A prefix of the outcomes decides the loop's result once it is all of
      them, or once one of them raised. */
  lemma FoldOfPrefix(outs: seq<CaseOutcome>, seen: seq<CaseOutcome>)
    requires |seen| <= |outs| && outs[..|seen|] == seen
    requires |seen| == |outs| || Fold(seen).Raised?
    ensures Fold(outs) == Fold(seen)
  {
    if Fold(seen).Raised? {
      RaisedStays(outs, |seen|);
    } else {
      assert outs == outs[..|seen|];
    }
  }

  // ---------------------------------------------------------------------
  // What the loop adds up to

  /** The result rows among the outcomes, in order. */
  function Rows(outs: seq<CaseOutcome>): (rows: seq<SubmissionResult>)
    ensures |rows| <= |outs|
  {
    if |outs| == 0 then []
    else
      var last := outs[|outs| - 1];
      Rows(outs[..|outs| - 1]) + (if last.Graded? then [last.row] else [])
  }

  /** The sum of the rows' scores. */
  function SumScores(rows: seq<SubmissionResult>): real {
    if |rows| == 0 then 0.0 else SumScores(rows[..|rows| - 1]) + rows[|rows| - 1].score
  }

  /** The verdict the loop keeps: the verdict of the last row that is not
      OK, or OK. */
  function OverallOf(rows: seq<SubmissionResult>): (v: Verdict)
    ensures (forall k :: 0 <= k < |rows| ==> rows[k].verdict == OK) ==> v == OK
  {
    if |rows| == 0 then OK
    else if rows[|rows| - 1].verdict != OK then rows[|rows| - 1].verdict
    else OverallOf(rows[..|rows| - 1])
  }

  /** The overall verdict is OK exactly when every row is OK; otherwise it
      is the verdict of the last row that is not OK (a later failure
      overwrites an earlier one: it is not the worst one that wins). */
  lemma {:induction false} OverallOfMeaning(rows: seq<SubmissionResult>)
    ensures OverallOf(rows) == OK <==> forall k :: 0 <= k < |rows| ==> rows[k].verdict == OK
    ensures OverallOf(rows) != OK ==>
              exists k :: 0 <= k < |rows| && rows[k].verdict == OverallOf(rows)
                && forall j :: k < j < |rows| ==> rows[j].verdict == OK
  {
    if |rows| > 0 {
      var n := |rows| - 1;
      if rows[n].verdict == OK {
        var init := rows[..n];
        assert OverallOf(rows) == OverallOf(init);
        OverallOfMeaning(init);
        assert forall k :: 0 <= k < n ==> init[k] == rows[k];
        if OverallOf(rows) != OK {
          var k :| 0 <= k < n && init[k].verdict == OverallOf(init)
                   && forall j :: k < j < n ==> init[j].verdict == OK;
          assert rows[k].verdict == OverallOf(rows);
        }
      } else {
        assert rows[n].verdict == OverallOf(rows);
      }
    }
  }

  /** A loop in which no case raised has added one row per case, summed their
      scores and kept the overall verdict. */
  lemma FoldGraded(outs: seq<CaseOutcome>)
    requires forall k :: 0 <= k < |outs| ==> outs[k].Graded?
    ensures Fold(outs) == Running(Rows(outs), SumScores(Rows(outs)), OverallOf(Rows(outs)))
  {
    FoldResults(outs);
    FoldTotal(outs);
    FoldOverall(outs);
  }

  lemma {:induction false} FoldResults(outs: seq<CaseOutcome>)
    requires forall k :: 0 <= k < |outs| ==> outs[k].Graded?
    ensures Fold(outs).Running? && Fold(outs).results == Rows(outs)
  {
    if |outs| > 0 {
      FoldResults(outs[..|outs| - 1]);
    }
  }

  lemma {:induction false} FoldTotal(outs: seq<CaseOutcome>)
    requires forall k :: 0 <= k < |outs| ==> outs[k].Graded?
    ensures Fold(outs).Running? && Fold(outs).totalScore == SumScores(Rows(outs))
  {
    if |outs| > 0 {
      var init := outs[..|outs| - 1];
      FoldTotal(init);
      var rows := Rows(outs);
      assert rows[..|rows| - 1] == Rows(init);
    }
  }

  lemma {:induction false} FoldOverall(outs: seq<CaseOutcome>)
    requires forall k :: 0 <= k < |outs| ==> outs[k].Graded?
    ensures Fold(outs).Running? && Fold(outs).overall == OverallOf(Rows(outs))
  {
    if |outs| > 0 {
      var init := outs[..|outs| - 1];
      FoldOverall(init);
      var rows := Rows(outs);
      assert rows[..|rows| - 1] == Rows(init);
    }
  }

  /** Conversely, a loop that ran to the end met no exception. */
  lemma {:induction false} RunningMeansGraded(outs: seq<CaseOutcome>)
    requires Fold(outs).Running?
    ensures forall k :: 0 <= k < |outs| ==> outs[k].Graded?
  {
    if |outs| > 0 {
      var init := outs[..|outs| - 1];
      assert Fold(init).Running?;
      RunningMeansGraded(init);
      assert forall k :: 0 <= k < |init| ==> outs[k] == init[k];
    }
  }

  /** The first case that raises ends the loop with its message and the rows
      of the cases before it. */
  lemma FoldFailed(outs: seq<CaseOutcome>, f: nat)
    requires f < |outs| && outs[f].Failed?
    requires forall k :: 0 <= k < f ==> outs[k].Graded?
    ensures Fold(outs) == Raised(outs[f].message, Rows(outs[..f]))
  {
    FoldResults(outs[..f]);
    FoldAppend(outs[..f], outs[f]);
    assert outs[..f] + [outs[f]] == outs[..f + 1];
    RaisedStays(outs, f + 1);
  }

  /** The row of one case: it names the submission and the test case, keeps
      the executor's output, error and time, and is OK exactly when the run
      was clean and the trimmed outputs agree. The case raises exactly when
      such a match meets a total weight of 0. */
  lemma GradeCaseFacts(run: Run, i: nat)
    requires i < |run.cases|
    ensures var tc := run.cases[i];
            var r := run.execute(tc, i);
            var o := GradeCase(run, i);
            && (o.Failed? <==> r.verdict == OK && OutputMatches(r, tc) && run.totalWeight == 0.0)
            && (o.Failed? ==> o.message == ZERO_DIVISION_MESSAGE)
            && (o.Graded? ==>
                  && o.row.submissionId == run.submissionId && o.row.testCaseId == tc.id
                  && o.row.actualOutput == r.output && o.row.errorMessage == r.error
                  && o.row.executionTimeMs == r.executionTimeMs
                  && o.row.memoryUsedKb == r.memoryUsedKb
                  && (o.row.verdict == OK <==> r.verdict == OK && OutputMatches(r, tc))
                  && (r.verdict != OK ==> o.row.verdict == r.verdict && o.row.score == 0.0)
                  && (o.row.verdict == OK ==> o.row.score == Share(tc.weight, run.totalWeight, run.maxScore)))
  {
  }

  /** The weight of the cases whose outcome is an OK row; the k-th outcome
      belongs to the k-th case. */
  function OkWeight(outs: seq<CaseOutcome>, cases: seq<TestCase>): real
    requires |outs| <= |cases|
  {
    if |outs| == 0 then 0.0
    else
      var o := outs[|outs| - 1];
      OkWeight(outs[..|outs| - 1], cases) + (if o.Graded? && o.row.verdict == OK then cases[|outs| - 1].weight else 0.0)
  }

  /** Every OK row scores its case's share of maxScore, every other row 0. */
  predicate ScoredByWeight(outs: seq<CaseOutcome>, cases: seq<TestCase>, totalWeight: real, maxScore: real)
    requires |outs| <= |cases| && totalWeight != 0.0
  {
    forall k :: 0 <= k < |outs| && outs[k].Graded? ==>
      outs[k].row.score
        == (if outs[k].row.verdict == OK then Share(cases[k].weight, totalWeight, maxScore) else 0.0)
  }

  /** Shares add up like their weights. */
  lemma ShareAdds(a: real, b: real, totalWeight: real, maxScore: real)
    requires totalWeight != 0.0
    ensures Share(a, totalWeight, maxScore) + Share(b, totalWeight, maxScore)
              == Share(a + b, totalWeight, maxScore)
    ensures Share(0.0, totalWeight, maxScore) == 0.0
  {
    assert a / totalWeight + b / totalWeight == (a + b) / totalWeight;
  }

  /** Scores that each follow their weight add up to the share of the OK
      weight. */
  lemma {:induction false} SumScoresShare(outs: seq<CaseOutcome>, cases: seq<TestCase>,
                                          totalWeight: real, maxScore: real)
    requires |outs| <= |cases| && totalWeight != 0.0
    requires ScoredByWeight(outs, cases, totalWeight, maxScore)
    ensures SumScores(Rows(outs)) == Share(OkWeight(outs, cases), totalWeight, maxScore)
  {
    ShareAdds(0.0, 0.0, totalWeight, maxScore);
    if |outs| > 0 {
      var init := outs[..|outs| - 1];
      var o := outs[|outs| - 1];
      assert forall k :: 0 <= k < |init| ==> init[k] == outs[k];
      SumScoresShare(init, cases, totalWeight, maxScore);
      var rows := Rows(outs);
      var x := if o.Graded? && o.row.verdict == OK then cases[|outs| - 1].weight else 0.0;
      ShareAdds(OkWeight(init, cases), x, totalWeight, maxScore);
      if o.Graded? {
        assert rows[..|rows| - 1] == Rows(init);
        assert o.row.score == Share(x, totalWeight, maxScore);
      } else {
        assert rows == Rows(init);
      }
    }
  }

  /** The outcomes of a run follow their weights. */
  lemma RunScoredByWeight(run: Run)
    requires run.totalWeight != 0.0
    ensures ScoredByWeight(Outcomes(run), run.cases, run.totalWeight, run.maxScore)
  {
    var outs := Outcomes(run);
    forall k | 0 <= k < |outs| && outs[k].Graded?
      ensures outs[k].row.score
                == (if outs[k].row.verdict == OK then Share(run.cases[k].weight, run.totalWeight, run.maxScore) else 0.0)
    {
      GradeCaseFacts(run, k);
    }
  }

  /** With no negative weight, the OK cases weigh between 0 and the weight of
      all cases, and exactly all of it when every row is OK. */
  lemma {:induction false} OkWeightBounds(outs: seq<CaseOutcome>, cases: seq<TestCase>)
    requires |outs| <= |cases|
    requires forall k :: 0 <= k < |cases| ==> cases[k].weight >= 0.0
    ensures 0.0 <= OkWeight(outs, cases) <= SumWeights(cases[..|outs|])
    ensures (forall k :: 0 <= k < |outs| ==> outs[k].Graded? && outs[k].row.verdict == OK)
              ==> OkWeight(outs, cases) == SumWeights(cases[..|outs|])
  {
    if |outs| > 0 {
      var n := |outs|;
      OkWeightBounds(outs[..n - 1], cases);
      assert cases[..n][..n - 1] == cases[..n - 1];
      assert forall k :: 0 <= k < n - 1 ==> outs[..n - 1][k] == outs[k];
    }
  }

  /** A share of a part of the weight is a part of maxScore; all of the
      weight earns all of it. */
  lemma ShareBounds(weight: real, totalWeight: real, maxScore: real)
    requires 0.0 <= weight <= totalWeight && totalWeight > 0.0 && maxScore >= 0.0
    ensures 0.0 <= Share(weight, totalWeight, maxScore) <= maxScore
    ensures Share(totalWeight, totalWeight, maxScore) == maxScore
  {
    var f := weight / totalWeight;
    assert 0.0 <= f <= 1.0;
    assert 0.0 <= f * maxScore;
    assert f * maxScore <= 1.0 * maxScore;
    assert totalWeight / totalWeight == 1.0;
  }

  /** One row per outcome when none raised, the k-th from the k-th. */
  lemma {:induction false} RowsOfGraded(outs: seq<CaseOutcome>)
    requires forall k :: 0 <= k < |outs| ==> outs[k].Graded?
    ensures |Rows(outs)| == |outs|
    ensures forall k :: 0 <= k < |outs| ==> Rows(outs)[k] == outs[k].row
  {
    if |outs| > 0 {
      var init := outs[..|outs| - 1];
      assert forall k :: 0 <= k < |init| ==> init[k] == outs[k];
      RowsOfGraded(init);
    }
  }

  /** The loop over a run runs to the end exactly when no case raises. */
  lemma LoopRunsToEnd(run: Run)
    ensures Fold(Outcomes(run)).Running? <==> forall k :: 0 <= k < |run.cases| ==> GradeCase(run, k).Graded?
  {
    var outs := Outcomes(run);
    if Fold(outs).Running? {
      RunningMeansGraded(outs);
      assert forall k :: 0 <= k < |run.cases| ==> outs[k] == GradeCase(run, k);
    } else if forall k :: 0 <= k < |run.cases| ==> GradeCase(run, k).Graded? {
      assert forall k :: 0 <= k < |outs| ==> outs[k] == GradeCase(run, k);
      FoldResults(outs);
    }
  }

  /** A loop that ran to the end holds one row per case, in order, the total
      of their scores and the overall verdict of those rows. */
  lemma LoopRows(run: Run)
    requires Fold(Outcomes(run)).Running?
    ensures var st := Fold(Outcomes(run));
            && |st.results| == |run.cases|
            && (forall k :: 0 <= k < |run.cases| ==> GradeCase(run, k) == Graded(st.results[k]))
            && st.totalScore == SumScores(st.results)
            && st.overall == OverallOf(st.results)
  {
    var outs := Outcomes(run);
    RunningMeansGraded(outs);
    FoldGraded(outs);
    RowsOfGraded(outs);
  }

  /** With a total weight other than 0, the total of a loop that ran to the
      end is the share of maxScore that the OK cases' weight earns. */
  lemma LoopTotal(run: Run)
    requires Fold(Outcomes(run)).Running? && run.totalWeight != 0.0
    ensures Fold(Outcomes(run)).totalScore
              == Share(OkWeight(Outcomes(run), run.cases), run.totalWeight, run.maxScore)
  {
    var outs := Outcomes(run);
    RunningMeansGraded(outs);
    FoldTotal(outs);
    RunScoredByWeight(run);
    SumScoresShare(outs, run.cases, run.totalWeight, run.maxScore);
  }

  /** With no negative weight and a positive total: the total lies between 0
      and maxScore, and is maxScore when every case is OK. */
  lemma TotalBounds(run: Run)
    requires Fold(Outcomes(run)).Running?
    requires forall k :: 0 <= k < |run.cases| ==> run.cases[k].weight >= 0.0
    requires run.totalWeight == SumWeights(run.cases) && run.totalWeight > 0.0 && run.maxScore >= 0.0
    ensures 0.0 <= Fold(Outcomes(run)).totalScore <= run.maxScore
    ensures (forall k :: 0 <= k < |run.cases| ==> GradeCase(run, k).row.verdict == OK)
              ==> Fold(Outcomes(run)).totalScore == run.maxScore
  {
    var outs := Outcomes(run);
    LoopTotal(run);
    OkWeightBounds(outs, run.cases);
    assert run.cases[..|outs|] == run.cases;
    ShareBounds(OkWeight(outs, run.cases), run.totalWeight, run.maxScore);
  }

  /** The message a loop stops with is the message of one of its cases. */
  lemma {:induction false} RaisedMessage(outs: seq<CaseOutcome>)
    requires Fold(outs).Raised?
    ensures exists k :: 0 <= k < |outs| && outs[k].Failed? && outs[k].message == Fold(outs).message
  {
    var init := outs[..|outs| - 1];
    if Fold(init).Raised? {
      RaisedMessage(init);
      var k :| 0 <= k < |init| && init[k].Failed? && init[k].message == Fold(init).message;
      assert outs[k] == init[k];
    } else {
      assert outs[|outs| - 1].Failed?;
    }
  }

  /** A loop over a run can only raise the ZeroDivisionError, and only with a
      total weight of 0; with a total weight of 0 it raises exactly when some
      case ran cleanly and matched. */
  lemma LoopRaises(run: Run)
    ensures Fold(Outcomes(run)).Raised? ==>
              Fold(Outcomes(run)).message == ZERO_DIVISION_MESSAGE && run.totalWeight == 0.0
    ensures run.totalWeight == 0.0 ==>
              (Fold(Outcomes(run)).Raised? <==>
                 exists k :: 0 <= k < |run.cases| && Passes(run, k))
  {
    var outs := Outcomes(run);
    LoopRunsToEnd(run);
    if Fold(outs).Raised? {
      RaisedMessage(outs);
      var k :| 0 <= k < |outs| && outs[k].Failed? && outs[k].message == Fold(outs).message;
      GradeCaseFacts(run, k);
    }
    if run.totalWeight == 0.0 {
      forall k | 0 <= k < |run.cases|
        ensures GradeCase(run, k).Failed? <==> Passes(run, k)
      {
        GradeCaseFacts(run, k);
      }
    }
  }

  /** The k-th case ran cleanly and its trimmed output matches. */
  predicate Passes(run: Run, k: nat)
    requires k < |run.cases|
  {
    var r := run.execute(run.cases[k], k);
    r.verdict == OK && OutputMatches(r, run.cases[k])
  }

  /** A sum of zero scores is 0. */
  lemma {:induction false} SumOfZeroScores(rows: seq<SubmissionResult>)
    requires forall k :: 0 <= k < |rows| ==> rows[k].score == 0.0
    ensures SumScores(rows) == 0.0
  {
    if |rows| > 0 {
      SumOfZeroScores(rows[..|rows| - 1]);
    }
  }

  /** When the executor gives every case the same verdict other than OK,
      every case yields a row with that verdict, the executor's error and no
      score. */
  lemma UniformRows(run: Run, v: Verdict)
    requires v != OK
    requires forall k :: 0 <= k < |run.cases| ==> run.execute(run.cases[k], k).verdict == v
    ensures forall k :: 0 <= k < |run.cases| ==>
              && GradeCase(run, k).Graded? && GradeCase(run, k).row.verdict == v
              && GradeCase(run, k).row.score == 0.0
              && GradeCase(run, k).row.errorMessage == run.execute(run.cases[k], k).error
  {
    forall k | 0 <= k < |run.cases|
      ensures GradeCase(run, k).Graded? && GradeCase(run, k).row.verdict == v
      ensures GradeCase(run, k).row.score == 0.0
      ensures GradeCase(run, k).row.errorMessage == run.execute(run.cases[k], k).error
    {
      GradeCaseFacts(run, k);
    }
  }

  /** When the executor gives every case the same verdict other than OK (a
      compilation error, say), the loop runs to the end, every row carries
      that verdict and the executor's error, the total is 0 and the overall
      verdict is that verdict. */
  lemma UniformFailure(run: Run, v: Verdict)
    requires v != OK && |run.cases| > 0
    requires forall k :: 0 <= k < |run.cases| ==> run.execute(run.cases[k], k).verdict == v
    ensures Fold(Outcomes(run)).Running?
    ensures var st := Fold(Outcomes(run));
            && |st.results| == |run.cases|
            && st.totalScore == 0.0 && st.overall == v
            && forall k :: 0 <= k < |run.cases| ==>
                 st.results[k].verdict == v
                 && st.results[k].errorMessage == run.execute(run.cases[k], k).error
  {
    UniformRows(run, v);
    var st := Fold(Outcomes(run));
    assert st.Running? by {
      LoopRunsToEnd(run);
    }
    LoopRows(run);
    forall k | 0 <= k < |st.results|
      ensures st.results[k].verdict == v && st.results[k].score == 0.0
      ensures st.results[k].errorMessage == run.execute(run.cases[k], k).error
    {
      assert GradeCase(run, k) == Graded(st.results[k]);
    }
    SumOfZeroScores(st.results);
    OverallOfMeaning(st.results);
    assert st.results[0].verdict == v;
  }

  /** Outputs are compared after str.strip(): a trailing newline does not
      matter, inner whitespace does. */
  lemma TrailingNewlineIgnored()
    ensures Strip("4\n") == Strip("4")
    ensures Strip("1 2") != Strip("1  2")
  {
    assert TrimLeft("4\n") == "4\n";
    assert TrimRight("4\n") == TrimRight("4");
    assert TrimLeft("1  2") == "1  2";
    StripOfStripped("1 2");
    StripOfStripped("1  2");
  }

  /** Two cases of weights 1 and 3 on a question worth 100; the program
      prints 4 then 5, against expected outputs "4\n" and "6". */
  function ExampleRun(): Run {
    Run(5, [TestCase(1, 9, "2 2", "4\n", true, 1.0, None, None),
            TestCase(2, 9, "3 3", "6", false, 3.0, None, None)],
        4.0, 100.0,
        (tc: TestCase, i: nat) => if i == 0 then ExecResult(OK, "4", "", 12, 0)
                                  else ExecResult(OK, "5", "", 9, 0))
  }

  lemma ExampleFirstCase()
    ensures GradeCase(ExampleRun(), 0) == Graded(SubmissionResult(5, 1, OK, 12, 0, 25.0, "4", ""))
  {
    TrailingNewlineIgnored();
    StripOfStripped("4");
  }

  lemma ExampleSecondCase()
    ensures GradeCase(ExampleRun(), 1) == Graded(SubmissionResult(5, 2, WA, 9, 0, 0.0, "5", ""))
  {
    StripOfStripped("5");
    StripOfStripped("6");
  }

  /** The first case passes and the second prints a wrong answer: the
      total is the first case's quarter of 100 and the overall verdict WA. */
  lemma WeightedExample()
    ensures var st := Fold(Outcomes(ExampleRun()));
            && st.Running? && st.totalScore == 25.0 && st.overall == WA
            && |st.results| == 2 && st.results[0].verdict == OK && st.results[1].verdict == WA
  {
    var run := ExampleRun();
    ExampleFirstCase();
    ExampleSecondCase();
    LoopRunsToEnd(run);
    LoopRows(run);
    var rows := Fold(Outcomes(run)).results;
    assert rows == [SubmissionResult(5, 1, OK, 12, 0, 25.0, "4", ""),
                    SubmissionResult(5, 2, WA, 9, 0, 0.0, "5", "")];
    assert rows[..1] == [rows[0]];
  }
}

/** The background job that grades one submission (execute_code_async): it
    marks the submission RUNNING, finds the question through the
    candidate's first assessment, selects the test cases, runs the loop over
    them and stores the outcome, turning any exception into an ERROR status
    that carries the exception's text. */
module GradingJob {
  import opened Strings
  import opened SubmissionModels
  import opened QuestionModels
  import opened CodeExecutor
  import opened Grading

  const QUESTION_NOT_FOUND: string := "Question not found"
  const NO_TEST_CASES: string := "No test cases found"

  /** The except branch, and the two early exits: status ERROR with a
      message, committed. */
  function Fail(st: GradingState, message: string): (r: GradingState)
    ensures r.status == ERROR && r.runtimeError == Some(message)
    ensures r.commits == st.commits + [ERROR]
    ensures r.results == st.results && r.totalScore == st.totalScore
    ensures r.overallVerdict == st.overallVerdict && r.executedAt == st.executedAt
  {
    st.(status := ERROR, runtimeError := Some(message), commits := st.commits + [ERROR])
  }

  /** The loop's inputs for the submission: the selected cases, their
      total weight, the question's maximum and the executor bound to the
      submission's code and language. */
  function RunFor(sub: Submission, question: Question, cases: seq<TestCase>,
                  execute: (TestCase, nat) -> ExecResult): Run
  {
    Run(sub.id, cases, SumWeights(cases), question.maxScore, execute)
  }

  /** Where finding the question and its test cases ends: the candidate
      has no assessment row (indexing [0] raises IndexError), the
      assessment has no link to the question, no test case is selected, or
      the question and the selected cases. */
  datatype Selection = NoEnrolment | NoQuestion | NoCases | Selected(question: Question, cases: seq<TestCase>)

  function SelectionFor(questionId: int, links: Option<seq<AssessmentQuestion>>, runType: string): (sel: Selection)
    ensures sel.NoEnrolment? <==> links.None?
    // the cases selected are some of the question's own, and there is one at least
    ensures sel.Selected? ==> |sel.cases| > 0 && forall tc :: tc in sel.cases ==> tc in sel.question.testCases
  {
    match links
    case None => NoEnrolment
    case Some(aqs) =>
      match QuestionFor(aqs, questionId)
      case None => NoQuestion
      case Some(question) =>
        var cases := SelectTestCases(question.testCases, runType);
        if |cases| == 0 then NoCases else Selected(question, cases)
  }

  /** The submission after the RUNNING commit. */
  function Started(st: GradingState): (r: GradingState)
    ensures r.status == RUNNING && r.commits == st.commits + [RUNNING]
    ensures r.results == st.results && r.totalScore == st.totalScore && r.runtimeError == st.runtimeError
  {
    st.(status := RUNNING, commits := st.commits + [RUNNING])
  }

  /** The submission after the loop: its rows are added in either case; a
      loop that ran to the end stores verdict, total and execution time and
      commits COMPLETED. A final submission then goes on to look up the
      candidate's assessment row through a name that was never imported, so
      it raises NameError after that commit. */
  function Finished(running: GradingState, sub: Submission, outcome: LoopState): (r: GradingState)
    ensures r.status == COMPLETED || r.status == ERROR
    // the loop's rows are added whether or not it raised
    ensures r.results == running.results + outcome.results
    // the earlier commits stay, and the last commit is the final status
    ensures |r.commits| > |running.commits| && r.commits[..|running.commits|] == running.commits
    ensures r.commits[|r.commits| - 1] == r.status
  {
    match outcome
    case Raised(message, rows) =>
      Fail(running.(results := running.results + rows), message)
    case Running(rows, total, overall) =>
      var done := running.(status := COMPLETED, overallVerdict := Some(overall),
                           totalScore := total, executedAt := Some(sub.submittedAt),
                           results := running.results + rows,
                           commits := running.commits + [COMPLETED]);
      if sub.isFinalSubmission then Fail(done, NAME_ERROR_MESSAGE) else done
  }

  /** What the job leaves behind, from the submission's state `st` before it
      starts. `links` are the question links of the assessment reached
      through the candidate's first assessment row, or None when the
      candidate has no assessment row. `execute` is execute_code bound to
      the submission's code and language. */
  function JobSpec(st: GradingState, sub: Submission, links: Option<seq<AssessmentQuestion>>,
                   runType: string, execute: (TestCase, nat) -> ExecResult): (r: GradingState)
    ensures r.status == COMPLETED || r.status == ERROR
    // RUNNING is committed first, and the last commit is the final status
    ensures |r.commits| >= |st.commits| + 2 && r.commits[..|st.commits| + 1] == st.commits + [RUNNING]
    ensures r.commits[|r.commits| - 1] == r.status
  {
    var running := Started(st);
    match SelectionFor(sub.questionId, links, runType)
    case NoEnrolment => Fail(running, INDEX_ERROR_MESSAGE)
    case NoQuestion => Fail(running, QUESTION_NOT_FOUND)
    case NoCases => Fail(running, NO_TEST_CASES)
    case Selected(question, cases) =>
      Finished(running, sub, Fold(Outcomes(RunFor(sub, question, cases, execute))))
  }

  /** The lookup part of the job: the loop over the question links, then
      the test case selection. */
  method SelectQuestionAndCases(questionId: int, links: Option<seq<AssessmentQuestion>>, runType: string)
    returns (sel: Selection)
    ensures sel == SelectionFor(questionId, links, runType)
  {
    if links.None? {
      return NoEnrolment;
    }
    var question := FindQuestion(links.value, questionId);
    if question.None? {
      return NoQuestion;
    }
    var testCases := SelectTestCases(question.value.testCases, runType);
    if |testCases| == 0 {
      return NoCases;
    }
    sel := Selected(question.value, testCases);
  }

  /** Set status ERROR with the message and commit. */
  method SetError(sub: Submission, message: string)
    modifies sub
    ensures sub.State() == Fail(old(sub.State()), message)
    ensures sub.executionTimeMs == old(sub.executionTimeMs) && sub.memoryUsedKb == old(sub.memoryUsedKb)
    ensures sub.compilationError == old(sub.compilationError)
  {
    sub.status := ERROR;
    sub.runtimeError := Some(message);
    sub.commits := sub.commits + [ERROR];
  }

  /** Store what the loop produced and commit. */
  method StoreOutcome(sub: Submission, outcome: LoopState)
    modifies sub
    ensures sub.State() == Finished(old(sub.State()), sub, outcome)
    ensures sub.executionTimeMs == old(sub.executionTimeMs) && sub.memoryUsedKb == old(sub.memoryUsedKb)
    ensures sub.compilationError == old(sub.compilationError)
  {
    match outcome {
      case Raised(message, rows) =>
        sub.results := sub.results + rows;
        SetError(sub, message);
      case Running(rows, total, overall) =>
        sub.results := sub.results + rows;
        sub.status := COMPLETED;
        sub.overallVerdict := Some(overall);
        sub.totalScore := total;
        sub.executedAt := Some(sub.submittedAt);
        sub.commits := sub.commits + [COMPLETED];
        if sub.isFinalSubmission {
          SetError(sub, NAME_ERROR_MESSAGE);
        }
    }
  }

  /** The job. A missing submission (`sub == null`) is logged and left
      alone. The result rows the loop adds are committed with whatever
      status is committed next, so a loop that raises still leaves the rows
      of the cases before the exception. */
  method ExecuteCodeAsync(sub: Submission?, links: Option<seq<AssessmentQuestion>>,
                          runType: string, tempDir: string, oracle: nat -> SandboxRun)
    modifies sub
    ensures sub != null ==>
              sub.State() == JobSpec(old(sub.State()), sub, links, runType, Executor(tempDir, sub.code, sub.language, oracle))
    ensures sub != null ==>
              && sub.executionTimeMs == old(sub.executionTimeMs)
              && sub.memoryUsedKb == old(sub.memoryUsedKb)
              && sub.compilationError == old(sub.compilationError)
  {
    if sub == null {
      return;
    }
    sub.status := RUNNING;
    sub.commits := sub.commits + [RUNNING];

    var sel := SelectQuestionAndCases(sub.questionId, links, runType);
    match sel {
      case NoEnrolment => SetError(sub, INDEX_ERROR_MESSAGE);
      case NoQuestion => SetError(sub, QUESTION_NOT_FOUND);
      case NoCases => SetError(sub, NO_TEST_CASES);
      case Selected(question, testCases) =>
        var totalWeight := SumWeights(testCases);
        var run := Run(sub.id, testCases, totalWeight, question.maxScore,
                       Executor(tempDir, sub.code, sub.language, oracle));
        var outcome := RunTestCases(run);
        StoreOutcome(sub, outcome);
    }
  }

  // ---------------------------------------------------------------------
  // Properties of the job

  /** Where the lookup ends, in terms of the inputs: no assessment row; no
      link to the question; a question whose selection is empty (no case at
      all, or a "test" run and no public case); or the question of the first
      link to it and its selected cases. */
  lemma SelectionCases(questionId: int, links: Option<seq<AssessmentQuestion>>, runType: string)
    ensures SelectionFor(questionId, links, runType).NoEnrolment? <==> links.None?
    ensures SelectionFor(questionId, links, runType).NoQuestion? <==>
              links.Some? && forall k :: 0 <= k < |links.value| ==> links.value[k].questionId != questionId
    ensures SelectionFor(questionId, links, runType).NoCases? <==>
              links.Some? && QuestionFor(links.value, questionId).Some?
              && forall tc :: tc in QuestionFor(links.value, questionId).value.testCases ==>
                                runType == "test" && !tc.isPublic
    ensures SelectionFor(questionId, links, runType).Selected? ==>
              var sel := SelectionFor(questionId, links, runType);
              && links.Some? && QuestionFor(links.value, questionId) == Some(sel.question)
              && sel.cases == SelectTestCases(sel.question.testCases, runType) && |sel.cases| > 0
  {
    if links.Some? && QuestionFor(links.value, questionId).Some? {
      var cases := SelectTestCases(QuestionFor(links.value, questionId).value.testCases, runType);
      if |cases| > 0 {
        assert cases[0] in cases;
      }
    }
  }

  /** Whatever happens, the job commits RUNNING first and then either its
      final status alone or COMPLETED followed by ERROR, so it ends in
      COMPLETED or ERROR; it only adds result rows; a COMPLETED submission
      carries its verdict and its execution time, an ERROR one its message. */
  lemma JobLifecycle(st: GradingState, sub: Submission, links: Option<seq<AssessmentQuestion>>,
                     runType: string, execute: (TestCase, nat) -> ExecResult)
    ensures var r := JobSpec(st, sub, links, runType, execute);
            && (r.status == COMPLETED || r.status == ERROR)
            && (r.commits == st.commits + [RUNNING, r.status]
                || r.commits == st.commits + [RUNNING, COMPLETED, ERROR])
            && st.results <= r.results
            && (r.status == COMPLETED ==> r.executedAt == Some(sub.submittedAt) && r.overallVerdict.Some?)
            && (r.status == ERROR ==> r.runtimeError.Some?)
  {
    var running := Started(st);
    match SelectionFor(sub.questionId, links, runType) {
      case Selected(question, cases) =>
        FinishedLifecycle(running, sub, Fold(Outcomes(RunFor(sub, question, cases, execute))));
      case _ =>
    }
  }

  /** The same for the part after the loop, from the RUNNING state. */
  lemma FinishedLifecycle(running: GradingState, sub: Submission, outcome: LoopState)
    ensures var r := Finished(running, sub, outcome);
            && (r.status == COMPLETED || r.status == ERROR)
            && (r.commits == running.commits + [r.status]
                || r.commits == running.commits + [COMPLETED, ERROR])
            && running.results <= r.results
            && (r.status == COMPLETED ==> r.executedAt == Some(sub.submittedAt) && r.overallVerdict.Some?)
            && (r.status == ERROR ==> r.runtimeError.Some?)
  {
    assert running.results <= running.results + outcome.results;
    if outcome.Running? && sub.isFinalSubmission {
      assert running.commits + [COMPLETED] + [ERROR] == running.commits + [COMPLETED, ERROR];
    }
  }

  /** The three early exits: each stores its own message, commits ERROR
      right after RUNNING and adds no result row. */
  lemma JobEarlyExit(st: GradingState, sub: Submission, links: Option<seq<AssessmentQuestion>>,
                     runType: string, execute: (TestCase, nat) -> ExecResult)
    requires !SelectionFor(sub.questionId, links, runType).Selected?
    ensures var r := JobSpec(st, sub, links, runType, execute);
            var sel := SelectionFor(sub.questionId, links, runType);
            && r.status == ERROR && r.commits == st.commits + [RUNNING, ERROR]
            && r.results == st.results && r.totalScore == st.totalScore
            && r.overallVerdict == st.overallVerdict && r.executedAt == st.executedAt
            && r.runtimeError == Some(if sel.NoEnrolment? then INDEX_ERROR_MESSAGE
                                      else if sel.NoQuestion? then QUESTION_NOT_FOUND
                                      else NO_TEST_CASES)
  {
  }

  /** The job once the cases are selected, in terms of the loop: its rows
      are added after the existing ones; a loop that ran to the end stores
      its total and verdict and commits COMPLETED (and a final submission
      then ERROR with the NameError); a loop that raised did so with the
      ZeroDivisionError of a total weight of 0, committed as ERROR. */
  lemma JobAfterLoop(st: GradingState, sub: Submission, links: Option<seq<AssessmentQuestion>>,
                     runType: string, execute: (TestCase, nat) -> ExecResult)
    requires SelectionFor(sub.questionId, links, runType).Selected?
    ensures var sel := SelectionFor(sub.questionId, links, runType);
            var out := Fold(Outcomes(RunFor(sub, sel.question, sel.cases, execute)));
            var r := JobSpec(st, sub, links, runType, execute);
            && r.results == st.results + out.results
            && (out.Running? ==>
                  && r.totalScore == out.totalScore && r.overallVerdict == Some(out.overall)
                  && r.executedAt == Some(sub.submittedAt)
                  && (!sub.isFinalSubmission ==>
                        r.status == COMPLETED && r.commits == st.commits + [RUNNING, COMPLETED])
                  && (sub.isFinalSubmission ==>
                        && r.status == ERROR && r.runtimeError == Some(NAME_ERROR_MESSAGE)
                        && r.commits == st.commits + [RUNNING, COMPLETED, ERROR]))
            && (out.Raised? ==>
                  && r.status == ERROR && r.runtimeError == Some(ZERO_DIVISION_MESSAGE)
                  && r.commits == st.commits + [RUNNING, ERROR]
                  && SumWeights(sel.cases) == 0.0)
  {
    var sel := SelectionFor(sub.questionId, links, runType);
    var run := RunFor(sub, sel.question, sel.cases, execute);
    LoopRaises(run);
  }

  /** A completed grading holds one new row per selected case, in order, the
      sum of their scores and the overall verdict of those rows; it
      completes exactly when no case raised. */
  lemma JobRows(st: GradingState, sub: Submission, links: Option<seq<AssessmentQuestion>>,
                runType: string, execute: (TestCase, nat) -> ExecResult)
    requires SelectionFor(sub.questionId, links, runType).Selected?
    ensures var sel := SelectionFor(sub.questionId, links, runType);
            var run := RunFor(sub, sel.question, sel.cases, execute);
            var r := JobSpec(st, sub, links, runType, execute);
            && (Fold(Outcomes(run)).Running? <==> forall k :: 0 <= k < |sel.cases| ==> GradeCase(run, k).Graded?)
            && (Fold(Outcomes(run)).Running? ==>
                  var rows := r.results[|st.results|..];
                  && |rows| == |sel.cases|
                  && (forall k :: 0 <= k < |sel.cases| ==> GradeCase(run, k) == Graded(rows[k]))
                  && r.totalScore == SumScores(rows)
                  && r.overallVerdict == Some(OverallOf(rows)))
  {
    var sel := SelectionFor(sub.questionId, links, runType);
    var run := RunFor(sub, sel.question, sel.cases, execute);
    LoopRunsToEnd(run);
    JobAfterLoop(st, sub, links, runType, execute);
    if Fold(Outcomes(run)).Running? {
      LoopRows(run);
      var r := JobSpec(st, sub, links, runType, execute);
      assert r.results[|st.results|..] == Fold(Outcomes(run)).results;
    }
  }

  /** With no negative weight and a positive total weight, grading always
      reaches the COMPLETED commit; the total lies between 0 and the
      question's maximum, and is the maximum when the overall verdict is
      OK. */
  lemma JobScoreBounds(st: GradingState, sub: Submission, links: Option<seq<AssessmentQuestion>>,
                       runType: string, execute: (TestCase, nat) -> ExecResult)
    requires SelectionFor(sub.questionId, links, runType).Selected?
    requires var cases := SelectionFor(sub.questionId, links, runType).cases;
             (forall k :: 0 <= k < |cases| ==> cases[k].weight >= 0.0) && SumWeights(cases) > 0.0
    requires SelectionFor(sub.questionId, links, runType).question.maxScore >= 0.0
    ensures var sel := SelectionFor(sub.questionId, links, runType);
            var r := JobSpec(st, sub, links, runType, execute);
            && |r.commits| > |st.commits| + 1 && r.commits[|st.commits| + 1] == COMPLETED
            && 0.0 <= r.totalScore <= sel.question.maxScore
            && (r.overallVerdict == Some(OK) ==> r.totalScore == sel.question.maxScore)
  {
    var sel := SelectionFor(sub.questionId, links, runType);
    var run := RunFor(sub, sel.question, sel.cases, execute);
    JobAfterLoop(st, sub, links, runType, execute);
    assert Fold(Outcomes(run)).Running?;
    TotalBounds(run);
    LoopRows(run);
    OverallOfMeaning(Fold(Outcomes(run)).results);
  }

  /** A submission in a language outside the table is graded, not failed:
      every case is CE with the "Unsupported language" message, the total
      is 0 and the overall verdict CE. */
  lemma UnsupportedLanguage(st: GradingState, sub: Submission, links: Option<seq<AssessmentQuestion>>,
                            runType: string, tempDir: string, oracle: nat -> SandboxRun)
    requires SelectionFor(sub.questionId, links, runType).Selected?
    requires LookupLanguage(sub.language).None? && !sub.isFinalSubmission
    ensures var r := JobSpec(st, sub, links, runType, Executor(tempDir, sub.code, sub.language, oracle));
            && r.status == COMPLETED && r.overallVerdict == Some(CE) && r.totalScore == 0.0
            && forall k :: |st.results| <= k < |r.results| ==>
                 r.results[k].verdict == CE
                 && r.results[k].errorMessage == "Unsupported language: " + sub.language
  {
    var sel := SelectionFor(sub.questionId, links, runType);
    var execute := Executor(tempDir, sub.code, sub.language, oracle);
    var run := RunFor(sub, sel.question, sel.cases, execute);
    forall k | 0 <= k < |run.cases|
      ensures run.execute(run.cases[k], k).verdict == CE
      ensures run.execute(run.cases[k], k).error == "Unsupported language: " + sub.language
    {
      var tc := run.cases[k];
      assert run.execute(tc, k)
             == ExecuteCode(tempDir, sub.code, sub.language, tc.inputData, tc.timeLimitSeconds,
                            tc.memoryLimitMb, oracle(k));
    }
    UniformFailure(run, CE);
    JobAfterLoop(st, sub, links, runType, execute);
  }

  /** When the compiler of a compiled language rejects the code on every
      run, every case is CE carrying the compiler's stderr, the total is 0
      and the overall verdict CE. */
  lemma CompileErrorEverywhere(st: GradingState, sub: Submission, links: Option<seq<AssessmentQuestion>>,
                               runType: string, tempDir: string, oracle: nat -> SandboxRun)
    requires SelectionFor(sub.questionId, links, runType).Selected? && !sub.isFinalSubmission
    requires LookupLanguage(sub.language).Some? && LookupLanguage(sub.language).value.compileCommand.Some?
    requires forall i :: oracle(i).writeError.None? && oracle(i).compile.CompileExited?
                         && oracle(i).compile.exitCode != 0
    ensures var r := JobSpec(st, sub, links, runType, Executor(tempDir, sub.code, sub.language, oracle));
            && r.status == COMPLETED && r.overallVerdict == Some(CE) && r.totalScore == 0.0
            && forall k :: |st.results| <= k < |r.results| ==>
                 r.results[k].verdict == CE
                 && r.results[k].errorMessage == oracle(k - |st.results|).compile.stderr
  {
    var sel := SelectionFor(sub.questionId, links, runType);
    var execute := Executor(tempDir, sub.code, sub.language, oracle);
    var run := RunFor(sub, sel.question, sel.cases, execute);
    forall k | 0 <= k < |run.cases|
      ensures run.execute(run.cases[k], k).verdict == CE
      ensures run.execute(run.cases[k], k).error == oracle(k).compile.stderr
    {
      var tc := run.cases[k];
      assert run.execute(tc, k)
             == ExecuteCode(tempDir, sub.code, sub.language, tc.inputData, tc.timeLimitSeconds,
                            tc.memoryLimitMb, oracle(k));
    }
    UniformFailure(run, CE);
    JobAfterLoop(st, sub, links, runType, execute);
  }

  /** Selected cases that weigh 0 in total cannot score: as soon as one
      passes, the score's division raises ZeroDivisionError and the job
      ends in ERROR; when none passes the loop completes with total 0. */
  lemma ZeroTotalWeight(st: GradingState, sub: Submission, links: Option<seq<AssessmentQuestion>>,
                        runType: string, execute: (TestCase, nat) -> ExecResult)
    requires SelectionFor(sub.questionId, links, runType).Selected?
    requires SumWeights(SelectionFor(sub.questionId, links, runType).cases) == 0.0
    ensures var sel := SelectionFor(sub.questionId, links, runType);
            var run := RunFor(sub, sel.question, sel.cases, execute);
            var r := JobSpec(st, sub, links, runType, execute);
            && ((exists k :: 0 <= k < |sel.cases| && Passes(run, k)) ==>
                  r.status == ERROR && r.runtimeError == Some(ZERO_DIVISION_MESSAGE)
                  && r.commits == st.commits + [RUNNING, ERROR])
            && ((forall k :: 0 <= k < |sel.cases| ==> !Passes(run, k)) ==>
                  r.commits[|st.commits| + 1] == COMPLETED && r.totalScore == 0.0)
  {
    var sel := SelectionFor(sub.questionId, links, runType);
    var run := RunFor(sub, sel.question, sel.cases, execute);
    LoopRaises(run);
    JobAfterLoop(st, sub, links, runType, execute);
    if forall k :: 0 <= k < |sel.cases| ==> !Passes(run, k) {
      LoopRows(run);
      var rows := Fold(Outcomes(run)).results;
      forall k | 0 <= k < |rows| ensures rows[k].score == 0.0 {
        GradeCaseFacts(run, k);
      }
      SumOfZeroScores(rows);
    }
  }

  /** A final submission that is graded to the end is stored as graded and
      committed COMPLETED, but the lookup of the candidate's assessment row
      that follows raises NameError: the submission ends in ERROR with that
      message, and the candidate's aggregate score is never recomputed. */
  lemma FinalSubmissionEndsInError(st: GradingState, sub: Submission, links: Option<seq<AssessmentQuestion>>,
                                   runType: string, execute: (TestCase, nat) -> ExecResult)
    requires SelectionFor(sub.questionId, links, runType).Selected? && sub.isFinalSubmission
    requires var sel := SelectionFor(sub.questionId, links, runType);
             SumWeights(sel.cases) != 0.0
    ensures var r := JobSpec(st, sub, links, runType, execute);
            && r.status == ERROR && r.runtimeError == Some(NAME_ERROR_MESSAGE)
            && r.commits == st.commits + [RUNNING, COMPLETED, ERROR]
            && r.executedAt == Some(sub.submittedAt) && r.overallVerdict.Some?
  {
    JobAfterLoop(st, sub, links, runType, execute);
  }
}

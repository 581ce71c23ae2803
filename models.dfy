/** Record shapes of the question bank: questions, their test cases and the
    link rows that put a question into an assessment. */
module QuestionModels {
  import opened Strings

  datatype QuestionType = MCQ | CODING

  datatype DifficultyLevel = EASY | MEDIUM | HARD

  /** One (input, expected output) pair of a question. The two limits are
      nullable integer columns, hence `Option`. */
  datatype TestCase = TestCase(
    id: int,
    questionId: int,
    inputData: string,
    expectedOutput: string,
    isPublic: bool,
    weight: real,
    timeLimitSeconds: Option<int>,
    memoryLimitMb: Option<int>)

  datatype Question = Question(
    id: int,
    title: string,
    description: string,
    questionType: QuestionType,
    difficulty: DifficultyLevel,
    maxScore: real,
    timeLimitMinutes: int,
    testCases: seq<TestCase>)

  /** Every test case of the question points back to it. */
  predicate OwnsTestCases(q: Question) {
    forall tc :: tc in q.testCases ==> tc.questionId == q.id
  }

  /** A test case row created with only its required columns: the column
      defaults fill in the rest. */
  function NewTestCase(id: int, questionId: int, inputData: string, expectedOutput: string): (tc: TestCase)
    ensures tc.id == id && tc.questionId == questionId
    ensures tc.inputData == inputData && tc.expectedOutput == expectedOutput
    ensures tc.isPublic && tc.weight == 1.0
    ensures tc.timeLimitSeconds == Some(5) && tc.memoryLimitMb == Some(128)
  {
    TestCase(id, questionId, inputData, expectedOutput, true, 1.0, Some(5), Some(128))
  }

  /** A question row created with only its required columns. */
  function NewQuestion(id: int, title: string, description: string, questionType: QuestionType): (q: Question)
    ensures q.id == id && q.title == title && q.description == description
    ensures q.questionType == questionType
    ensures q.difficulty == MEDIUM && q.maxScore == 100.0 && q.timeLimitMinutes == 30
    ensures q.testCases == [] && OwnsTestCases(q)
  {
    Question(id, title, description, questionType, MEDIUM, 100.0, 30, [])
  }

  /** Appending a test case through the relationship keeps ownership when the
      new case points to the question. */
  function AddTestCase(q: Question, tc: TestCase): (r: Question)
    requires tc.questionId == q.id
    ensures r.testCases == q.testCases + [tc] && r.id == q.id
    ensures OwnsTestCases(q) ==> OwnsTestCases(r)
  {
    q.(testCases := q.testCases + [tc])
  }

  /** The link row placing a question into an assessment, with the question
      it loads. */
  datatype AssessmentQuestion = AssessmentQuestion(
    assessmentId: int,
    questionId: int,
    question: Question,
    weight: real)
}

/** Record shapes of a grading attempt: the closed status and verdict sets,
    the per-test-case result row and the submission itself. */
module SubmissionModels {
  import opened Strings

  datatype SubmissionStatus = PENDING | RUNNING | COMPLETED | ERROR

  datatype Verdict = OK | WA | TLE | MLE | RTE | CE

  /** One row per (submission, test case) pair written by the grading job. */
  datatype SubmissionResult = SubmissionResult(
    submissionId: int,
    testCaseId: int,
    verdict: Verdict,
    executionTimeMs: int,
    memoryUsedKb: int,
    score: real,
    actualOutput: string,
    errorMessage: string)

  /** The part of a submission the grading job assigns, with the statuses that
      were committed so far. */
  datatype GradingState = GradingState(
    status: SubmissionStatus,
    overallVerdict: Option<Verdict>,
    totalScore: real,
    runtimeError: Option<string>,
    executedAt: Option<int>,
    results: seq<SubmissionResult>,
    commits: seq<SubmissionStatus>)

  /** The submission row. The columns the grading job never assigns are
      constants; the ones it assigns in place are fields. `results` holds the
      result rows that belong to the submission, in the order they were added.
      `commits` records the status that each database commit persisted. */
  class Submission {
    const id: int
    const candidateId: int
    const questionId: int
    const assessmentId: Option<int>
    const code: string
    const language: string
    const isFinalSubmission: bool
    const submittedAt: int

    var status: SubmissionStatus
    var overallVerdict: Option<Verdict>
    var totalScore: real
    var executionTimeMs: int
    var memoryUsedKb: int
    var compilationError: Option<string>
    var runtimeError: Option<string>
    var executedAt: Option<int>
    var results: seq<SubmissionResult>
    ghost var commits: seq<SubmissionStatus>

    ghost function State(): GradingState
      reads this
    {
      GradingState(status, overallVerdict, totalScore, runtimeError, executedAt, results, commits)
    }

    /** A new row as the intake creates it: only the required columns and the
        final-submission flag are given; `submittedAt` is the server clock. */
    constructor (id: int, candidateId: int, questionId: int, assessmentId: Option<int>,
                 code: string, language: string, isFinalSubmission: bool, submittedAt: int)
      ensures this.id == id && this.candidateId == candidateId && this.questionId == questionId
      ensures this.assessmentId == assessmentId && this.code == code && this.language == language
      ensures this.isFinalSubmission == isFinalSubmission && this.submittedAt == submittedAt
      ensures status == PENDING && overallVerdict == None && totalScore == 0.0
      ensures executionTimeMs == 0 && memoryUsedKb == 0
      ensures compilationError == None && runtimeError == None && executedAt == None
      ensures results == [] && commits == [PENDING]
    {
      this.id := id;
      this.candidateId := candidateId;
      this.questionId := questionId;
      this.assessmentId := assessmentId;
      this.code := code;
      this.language := language;
      this.isFinalSubmission := isFinalSubmission;
      this.submittedAt := submittedAt;
      status := PENDING;
      overallVerdict := None;
      totalScore := 0.0;
      executionTimeMs := 0;
      memoryUsedKb := 0;
      compilationError := None;
      runtimeError := None;
      executedAt := None;
      results := [];
      commits := [PENDING];
    }
  }
}

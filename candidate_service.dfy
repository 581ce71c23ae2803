/** The candidate-side bookkeeping: the aggregate score of one candidate in
    one assessment, computed from the candidate's final submissions, and the
    login link mailed to the candidate. */
module CandidateService {
  import opened Strings
  import opened QuestionModels
  import opened Utils

  datatype CandidateStatus = ASSIGNED | IN_PROGRESS | SUBMITTED | COMPLETED

  /** The columns of a submission row that the aggregate query reads. */
  datatype SubmissionRow = SubmissionRow(
    candidateId: int,
    assessmentId: Option<int>,
    isFinalSubmission: bool,
    totalScore: real)

  /** The enrolment row of a candidate in an assessment. The four scoring
      columns are the ones the aggregate rewrites in place. */
  class AssessmentCandidate {
    const id: int
    const assessmentId: int
    const candidateId: int

    var status: CandidateStatus
    var totalTimeSpentMinutes: int
    var totalScore: real
    var percentageScore: real
    var questionsAttempted: int
    var questionsCorrect: int

    /** A new enrolment with the column defaults. */
    constructor (id: int, assessmentId: int, candidateId: int)
      ensures this.id == id && this.assessmentId == assessmentId && this.candidateId == candidateId
      ensures status == ASSIGNED && totalTimeSpentMinutes == 0
      ensures totalScore == 0.0 && percentageScore == 0.0
      ensures questionsAttempted == 0 && questionsCorrect == 0
    {
      this.id := id;
      this.assessmentId := assessmentId;
      this.candidateId := candidateId;
      status := ASSIGNED;
      totalTimeSpentMinutes := 0;
      totalScore := 0.0;
      percentageScore := 0.0;
      questionsAttempted := 0;
      questionsCorrect := 0;
    }
  }

  /** The filter of the aggregate query: the candidate's final submissions
      in the assessment. */
  predicate CountsFor(s: SubmissionRow, candidateId: int, assessmentId: int) {
    s.candidateId == candidateId && s.assessmentId == Some(assessmentId) && s.isFinalSubmission
  }

  /** The rows the query returns, in table order. */
  function FinalSubmissions(table: seq<SubmissionRow>, candidateId: int, assessmentId: int): (r: seq<SubmissionRow>)
    ensures |r| <= |table|
    ensures forall s :: s in r <==> s in table && CountsFor(s, candidateId, assessmentId)
  {
    if |table| == 0 then []
    else
      var init := FinalSubmissions(table[..|table| - 1], candidateId, assessmentId);
      var last := table[|table| - 1];
      assert table == table[..|table| - 1] + [last];
      if CountsFor(last, candidateId, assessmentId) then init + [last] else init
  }

  /** `sum(sub.total_score for sub in subs)`. */
  function TotalOf(subs: seq<SubmissionRow>): real {
    if |subs| == 0 then 0.0 else TotalOf(subs[..|subs| - 1]) + subs[|subs| - 1].totalScore
  }

  /** The number of submissions with a positive score. */
  function ScoringCount(subs: seq<SubmissionRow>): (n: nat)
    ensures n <= |subs|
  {
    if |subs| == 0 then 0
    else ScoringCount(subs[..|subs| - 1]) + (if subs[|subs| - 1].totalScore > 0.0 then 1 else 0)
  }

  /** The best total the assessment allows: each question's maximum score
      times the weight of its link. */
  function MaxPossibleScore(links: seq<AssessmentQuestion>): real {
    if |links| == 0 then 0.0
    else MaxPossibleScore(links[..|links| - 1]) + links[|links| - 1].question.maxScore * links[|links| - 1].weight
  }

  /** Recomputes the candidate's four scoring columns from the submission
      table and the assessment's question links, and returns the new total.
      The enrolment's other columns are left as they were. */
  method CalculateAssessmentScore(ac: AssessmentCandidate, table: seq<SubmissionRow>,
                                  links: seq<AssessmentQuestion>) returns (total: real)
    modifies ac
    ensures var subs := FinalSubmissions(table, ac.candidateId, ac.assessmentId);
      && ac.totalScore == TotalOf(subs)
      && ac.questionsAttempted == |subs|
      && ac.questionsCorrect == ScoringCount(subs)
      && ac.percentageScore == CalculateScorePercentage(TotalOf(subs), MaxPossibleScore(links))
    ensures total == ac.totalScore
    ensures ac.status == old(ac.status) && ac.totalTimeSpentMinutes == old(ac.totalTimeSpentMinutes)
  {
    var subs := FinalSubmissions(table, ac.candidateId, ac.assessmentId);
    var sum := TotalOf(subs);
    ac.totalScore := sum;
    ac.questionsAttempted := |subs|;
    ac.questionsCorrect := ScoringCount(subs);
    var maxPossible := MaxPossibleScore(links);
    if maxPossible > 0.0 {
      ac.percentageScore := (sum / maxPossible) * 100.0;
    } else {
      ac.percentageScore := 0.0;
    }
    total := ac.totalScore;
  }

  /** A new row in the table changes the candidate's aggregate exactly when it
      is one of the candidate's final submissions in that assessment: it then
      adds its score to the total, one attempt, and one correct answer when
      its score is positive. */
  lemma {:induction false} AddingASubmission(table: seq<SubmissionRow>, s: SubmissionRow, candidateId: int, assessmentId: int)
    ensures var before := FinalSubmissions(table, candidateId, assessmentId);
      var after := FinalSubmissions(table + [s], candidateId, assessmentId);
      if CountsFor(s, candidateId, assessmentId) then
        TotalOf(after) == TotalOf(before) + s.totalScore && |after| == |before| + 1
        && ScoringCount(after) == ScoringCount(before) + (if s.totalScore > 0.0 then 1 else 0)
      else
        after == before
  {
    var t := table + [s];
    assert t[..|t| - 1] == table;
    var before := FinalSubmissions(table, candidateId, assessmentId);
    var after := FinalSubmissions(t, candidateId, assessmentId);
    if CountsFor(s, candidateId, assessmentId) {
      assert after == before + [s];
      assert after[..|after| - 1] == before;
    }
  }

  /** A positive count of correct answers means a positive score somewhere,
      and the other way round. */
  lemma {:induction false} ScoringCountMeaning(subs: seq<SubmissionRow>)
    ensures ScoringCount(subs) == 0 <==> forall s :: s in subs ==> s.totalScore <= 0.0
  {
    if |subs| > 0 {
      var init := subs[..|subs| - 1];
      ScoringCountMeaning(init);
      assert subs == init + [subs[|subs| - 1]];
    }
  }

  /** With scores that are never negative, the total is zero exactly when no
      submission scored, and it is never negative. */
  lemma {:induction false} TotalOfNonNegative(subs: seq<SubmissionRow>)
    requires forall s :: s in subs ==> s.totalScore >= 0.0
    ensures TotalOf(subs) >= 0.0
    ensures TotalOf(subs) == 0.0 <==> ScoringCount(subs) == 0
  {
    if |subs| > 0 {
      var init := subs[..|subs| - 1];
      assert forall s :: s in init ==> s in subs;
      TotalOfNonNegative(init);
    }
  }

  /** With non-negative maxima and weights the best total is not negative. */
  lemma {:induction false} MaxPossibleNonNegative(links: seq<AssessmentQuestion>)
    requires forall aq :: aq in links ==> aq.question.maxScore >= 0.0 && aq.weight >= 0.0
    ensures MaxPossibleScore(links) >= 0.0
  {
    if |links| > 0 {
      var init := links[..|links| - 1];
      var last := links[|links| - 1];
      assert forall aq :: aq in init ==> aq in links;
      MaxPossibleNonNegative(init);
      assert last in links;
      assert last.question.maxScore * last.weight >= 0.0;
    }
  }

  /** A candidate without final submissions in the assessment gets zeros in
      all four columns. */
  lemma {:induction false} NoFinalSubmissions(table: seq<SubmissionRow>, candidateId: int, assessmentId: int,
                           links: seq<AssessmentQuestion>)
    requires forall s :: s in table ==> !CountsFor(s, candidateId, assessmentId)
    ensures var subs := FinalSubmissions(table, candidateId, assessmentId);
      TotalOf(subs) == 0.0 && |subs| == 0 && ScoringCount(subs) == 0
      && CalculateScorePercentage(TotalOf(subs), MaxPossibleScore(links)) == 0.0
  {
    if |table| > 0 {
      var init := table[..|table| - 1];
      assert forall s :: s in init ==> s in table;
      NoFinalSubmissions(init, candidateId, assessmentId, links);
      assert table[|table| - 1] in table;
    }
  }

  /** The default server address the link is built on. */
  const DEFAULT_BASE_URL: string := "http://localhost:8000"

  /** The path of the candidate login endpoint. */
  const LOGIN_PATH: string := "/auth/candidate-login/"

  /** The candidate's login link: the base address, the login path, then the
      token. The enrolment id is accepted and not used. */
  function GenerateCandidateAccessLink(assessmentCandidateId: int, token: string, baseUrl: string): (link: string)
    ensures StartsWith(link, baseUrl + LOGIN_PATH)
    ensures link[|baseUrl + LOGIN_PATH|..] == token
  {
    baseUrl + LOGIN_PATH + token
  }

  /** Two enrolments given the same token and base get the same link, and
      the token can be read back off the link, so distinct tokens give
      distinct links. */
  lemma AccessLinkDependsOnlyOnToken(id1: int, id2: int, token1: string, token2: string, baseUrl: string)
    ensures GenerateCandidateAccessLink(id1, token1, baseUrl) == GenerateCandidateAccessLink(id2, token1, baseUrl)
    ensures GenerateCandidateAccessLink(id1, token1, baseUrl) == GenerateCandidateAccessLink(id2, token2, baseUrl)
            <==> token1 == token2
  {
    var l1 := GenerateCandidateAccessLink(id1, token1, baseUrl);
    var l2 := GenerateCandidateAccessLink(id2, token2, baseUrl);
    if l1 == l2 {
      assert token1 == l1[|baseUrl + LOGIN_PATH|..];
    }
  }

  /** Without a base address, the link points at the local development
      server. */
  lemma DefaultAccessLink(assessmentCandidateId: int, token: string)
    ensures GenerateCandidateAccessLink(assessmentCandidateId, token, DEFAULT_BASE_URL)
            == "http://localhost:8000/auth/candidate-login/" + token
  {
  }
}

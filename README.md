# Online judge: grading, candidate scoring and helpers

This project models the judging core of an online assessment platform, and proves properties of the model.

- **Sandboxed runner** (`CodeExecutor`). It covers the four-language table and the argv templates of the compile and run steps. It covers the search for the Java entry class, and how the compiler's and the program's answers are classified into a verdict. The operating system is an oracle: a `SandboxRun` value says whether the source write failed, what the compiler did and what the program did. `Plan` states the files, commands, ceilings and stdin the runner asks for.
- **Grading job** (`Grading`, `GradingJob`). The job runs in this order:
  - it commits RUNNING;
  - it finds the question through the candidate's first assessment row, then selects the test cases (public ones for a "test" run);
  - it runs the per-case loop, which judges and scores every case, adds a result row per case and keeps a running total and overall verdict;
  - it commits the final status.

  The submission is a class whose fields the job assigns in place. A ghost field records the status each commit persisted. The loop is a method proved against a fold over the cases' outcomes. The whole job is a method proved against `JobSpec`.
- **Candidate aggregate** (`CandidateService`). This is the in-place recomputation of an enrolment's total, attempt count, correct count and percentage from the candidate's final submissions, plus the login link.
- **Helpers** (`Utils`, `RateLimiting`). These are the string helpers: duration, tags, truncation, redirect check, client address, language names, imports and complexity. There is also the in-memory sliding-window rate limiter, a class holding a map of timestamp lists that its methods rebuild; the clock is an integer parameter.
- **Records** (`QuestionModels`, `SubmissionModels`). These are the closed enums and the column defaults of questions, test cases, submissions and result rows.

Scores and percentages are `real`: the identities hold exactly, and float rounding is not modelled. Python's `str.strip`, `str.split`, `str.lower` and `in` on strings are defined in `Strings`.

In these places the model follows the code as written:
- **Overall verdict.** It is the verdict of the last case that is not OK, not the most severe one (`OverallOfMeaning`).
- **MLE never arises.** No memory is measured, so memory is always reported as 0 (`CodeExecutor.ExecuteCode`).
- **A compiler that hits its 30-second ceiling gives RTE.** The exception reaches the outer handler (`CodeExecutor.ExecuteCode`).
- **An unsupported language is graded, not failed.** Every case is CE (`GradingJob.UnsupportedLanguage`).
- **A final submission ends in ERROR.** The job uses `AssessmentCandidate` at line 304 without importing it, so it raises NameError after COMPLETED was committed. The submission then ends in ERROR, and the candidate's aggregate is never recomputed (`GradingJob.FinalSubmissionEndsInError`).

## Model

| member | source | states |
|---|---|---|
| QuestionModels.NewTestCase | app/models/question.py:45-55 | a new test case is public, weighs 1.0, and has limits of 5 s and 128 MB |
| QuestionModels.NewQuestion | app/models/question.py:16-26 | a new question is MEDIUM, worth 100.0, 30 minutes long, and has no test cases |
| QuestionModels.AddTestCase | app/models/question.py:42-49 | appending a case that points to the question keeps the list ordered and every case owned by the question |
| SubmissionModels.Submission.constructor | app/models/submission.py:21-47 | a new submission is PENDING with total 0.0, time and memory 0, no verdict, no errors, no execution time and no result rows |
| CodeExecutor.LookupLanguage | app/services/code_executor.py:25-50 | exactly python, cpp, c and java are supported; each has the 10 s default; only python has no compile step |
| CodeExecutor.LanguageTable | app/services/code_executor.py:25-50 | the table entry of each of the four languages |
| CodeExecutor.FormatCommand | app/services/code_executor.py:105-108 | one argv word per template word, each with its slots filled in |
| CodeExecutor.PythonCommands | app/services/code_executor.py:26-31 | python writes solution.py, does not compile, and runs `python3 <source>` |
| CodeExecutor.NativeRunCommand | app/services/code_executor.py:128-131 | the c and cpp run command is `./solution`, whatever the file name and class name |
| CodeExecutor.CppCommands | app/services/code_executor.py:104-131 | cpp compiles with `g++ -o <dir>/solution <source> -std=c++17` and runs `./solution` |
| CodeExecutor.CCommands | app/services/code_executor.py:104-131 | c compiles with `gcc -o <dir>/solution <source>` and runs `./solution` |
| CodeExecutor.JavaCommands | app/services/code_executor.py:88-131 | java writes solution.java and `<Class>.java`, compiles the latter with javac, and runs `java <Class>` |
| CodeExecutor.LimitsOfPlan | app/services/code_executor.py:76-78 | the compile ceiling is a fixed 30 s and the commands do not depend on the case's limits; a missing or zero limit falls back to the default |
| CodeExecutor.OrDefault | app/services/code_executor.py:77-78 | Python's `x or default`: None and 0 give the default, any other value is kept |
| CodeExecutor.Plan | app/services/code_executor.py:76-131 | the source file is the last file written, and java alone writes a second file named after its class; a compile command exactly when the language has one, under the fixed 30 s ceiling; the case's input is the stdin |
| CodeExecutor.SpaceRun | app/services/code_executor.py:201 | the maximal whitespace run at a position (greedy `\s+`) |
| CodeExecutor.WordRun | app/services/code_executor.py:201 | the maximal word-character run at a position (greedy `\w+`) |
| CodeExecutor.MatchAt | app/services/code_executor.py:201 | a match of `public\s+class\s+(\w+)` at a position captures a non-empty word |
| CodeExecutor.SearchFrom | app/services/code_executor.py:202 | `re.search` finds the leftmost position that matches, and None when there is none |
| CodeExecutor.ExtractJavaClassName | app/services/code_executor.py:198-203 | the class name is the capture of the leftmost match, else "Solution"; it is never empty, so the "No public class" CE branch is dead |
| CodeExecutor.JavaClassNameFound | app/services/code_executor.py:198-203 | "public class Main {}" is compiled under the name Main |
| CodeExecutor.JavaClassNameDefault | app/services/code_executor.py:198-203 | a source without `public class` gives "Solution" |
| CodeExecutor.RunPhase | app/services/code_executor.py:133-186 | OK iff the program exited 0, TLE iff it timed out, RTE iff it exited non-zero or raised; OK keeps the stripped stdout, the stderr and the time; a non-zero exit keeps the unstripped stdout; TLE reports "Time limit exceeded" and the limit in ms; a raise reports its message and time 0 |
| CodeExecutor.ExecuteCode | app/services/code_executor.py:63-196 | an unknown language gives CE "Unsupported language: <tag>"; CE iff a compiler exited non-zero, carrying its stderr; TLE iff the run timed out, with the error "Time limit exceeded" and time = limit × 1000; OK iff every step succeeded, with stdout stripped, stderr as the error and the measured time; a non-zero exit gives RTE with the unstripped stdout, the stderr and the measured time; a raising run gives RTE with its message, no output and time 0; a failed write or a raising compiler gives RTE; memory is 0, so no MLE and no WA |
| Grading.QuestionFor | app/services/code_executor.py:222-226 | None iff no link names the question; otherwise the question of the first link that does |
| Grading.FindQuestion | app/services/code_executor.py:221-226 | the loop over the links with `break` finds the question of the first matching link |
| Grading.FirstLinkWins | app/services/code_executor.py:223-226 | an earlier link to the same question hides any later one |
| Grading.PublicCases | app/services/code_executor.py:236 | the public cases, and only those |
| Grading.PublicCasesAppend | app/services/code_executor.py:236 | the filter commutes with concatenation, so the stored order is kept |
| Grading.PublicCasesAllPublic | app/services/code_executor.py:236 | nothing is dropped iff every case is public |
| Grading.SelectTestCases | app/services/code_executor.py:234-238 | a "test" run gets exactly the public cases; any other run type gets all of them |
| Grading.JudgeCase | app/services/code_executor.py:260-272 | OK iff the run was OK and the stripped outputs agree; a mismatch becomes WA; other verdicts pass through with score 0; a match scores weight / total × max, and raises when the total weight is 0 |
| Grading.ShareScales | app/services/code_executor.py:270 | a case's share times the total weight is its weight × max score |
| Grading.Executor | app/services/code_executor.py:252-258 | a per-case run never reports memory use and is never judged MLE or WA; two cases with the same input and limits get the same result from the same OS answer |
| Grading.Outcomes | app/services/code_executor.py:251-291 | one outcome per selected case |
| Grading.GradeCase | app/services/code_executor.py:252-291 | a case raises only on a match at zero total weight, and then with the division error; its row names the submission and the case |
| Grading.Step | app/services/code_executor.py:251-291 | a raised exception ends the loop; rows are only added, at most one per case; the loop goes on only after a graded case, whose row it adds |
| Grading.Fold | app/services/code_executor.py:247-291 | the loop never adds more rows than cases, and exactly one per case when it runs to the end |
| Grading.FoldAppend | app/services/code_executor.py:251-291 | running the loop over one more case is one more loop step |
| Grading.RaisedStays | app/services/code_executor.py:251-291 | once a case raises, later cases change nothing |
| Grading.GradeTestCase | app/services/code_executor.py:252-291 | one loop iteration yields the row that `GradeCase` describes |
| Grading.RunTestCases | app/services/code_executor.py:247-291 | the loop ends in the fold of all the cases' outcomes |
| Grading.SameOutcomes | app/services/code_executor.py:251-291 | the outcomes seen so far are a prefix of all the outcomes |
| Grading.FoldOfPrefix | app/services/code_executor.py:251-291 | a prefix decides the loop once it is complete or has raised |
| Grading.Rows | app/services/code_executor.py:281-291 | no more rows than outcomes |
| Grading.OverallOf | app/services/code_executor.py:249-276 | the overall verdict stays OK when every row is OK |
| Grading.OverallOfMeaning | app/services/code_executor.py:249-276 | the overall verdict is OK iff every row is OK; otherwise it is the verdict of the last row that is not OK |
| Grading.FoldGraded | app/services/code_executor.py:247-291 | a loop in which no case raised holds its rows, their sum and their overall verdict |
| Grading.FoldResults | app/services/code_executor.py:281-291 | the rows of such a loop are the rows of the outcomes |
| Grading.FoldTotal | app/services/code_executor.py:278 | its total is the sum of the rows' scores |
| Grading.FoldOverall | app/services/code_executor.py:275-276 | its verdict is the overall verdict of the rows |
| Grading.RunningMeansGraded | app/services/code_executor.py:251-291 | a loop that ran to the end met no exception |
| Grading.FoldFailed | app/services/code_executor.py:270-319 | the first case that raises ends the loop with its message and the rows before it |
| Grading.GradeCaseFacts | app/services/code_executor.py:260-291 | a row names the submission and the case, and keeps the executor's output, error and time; it fails iff a match meets a zero total weight, with the ZeroDivisionError message |
| Grading.ShareAdds | app/services/code_executor.py:270-278 | shares add up like their weights |
| Grading.SumScoresShare | app/services/code_executor.py:270-278 | scores that follow their weights sum to the share of the OK weight |
| Grading.RunScoredByWeight | app/services/code_executor.py:262-272 | every OK row scores its share and every other row scores 0 |
| Grading.OkWeightBounds | app/services/code_executor.py:248 | with no negative weight, the OK weight is between 0 and the total weight, and equals the total when all are OK |
| Grading.ShareBounds | app/services/code_executor.py:270 | a share of part of the weight is part of max score; all of the weight earns all of it |
| Grading.RowsOfGraded | app/services/code_executor.py:281-291 | with no raise, the k-th row comes from the k-th case |
| Grading.LoopRunsToEnd | app/services/code_executor.py:251-291 | the loop runs to the end iff no case raises |
| Grading.LoopRows | app/services/code_executor.py:247-291 | one row per case in order, the total is their sum and the verdict is their overall verdict |
| Grading.LoopTotal | app/services/code_executor.py:270-278 | the total is the share of max score that the OK weight earns |
| Grading.TotalBounds | app/services/code_executor.py:247-278 | with non-negative weights, 0 ≤ total ≤ max score, and total == max score when every case is OK |
| Grading.RaisedMessage | app/services/code_executor.py:314-319 | the loop stops with the message of one of its cases |
| Grading.LoopRaises | app/services/code_executor.py:248-270 | the only exception is the ZeroDivisionError of a zero total weight; with a zero total it is raised iff some case passes |
| Grading.SumOfZeroScores | app/services/code_executor.py:278 | scores that are all 0 sum to 0 |
| Grading.UniformRows | app/services/code_executor.py:261-276 | the same non-OK verdict from the executor gives every row that verdict, its error and no score |
| Grading.UniformFailure | app/services/code_executor.py:247-291 | in that case the loop completes with total 0 and that overall verdict |
| Grading.TrailingNewlineIgnored | app/services/code_executor.py:266-269 | a trailing newline does not matter in the comparison; inner whitespace does |
| Grading.ExampleFirstCase | app/services/code_executor.py:260-291 | weights 1 and 3, max 100: the matching first case scores 25.0 |
| Grading.ExampleSecondCase | app/services/code_executor.py:260-291 | the mismatching second case is WA with score 0 |
| Grading.WeightedExample | app/services/code_executor.py:247-291 | the example grades to total 25.0, overall WA, rows OK then WA |
| GradingJob.Fail | app/services/code_executor.py:229-319 | the error exits set ERROR with the message and commit it; rows, total and verdict are kept |
| GradingJob.Started | app/services/code_executor.py:217-219 | RUNNING is set and committed before anything else |
| GradingJob.SelectionFor | app/services/code_executor.py:221-244 | no assessment row iff the candidate has none; selected cases are the question's own, and there is at least one |
| GradingJob.Finished | app/services/code_executor.py:293-319 | the status ends COMPLETED or ERROR; the loop's rows are added in either case; earlier commits stay and the last commit is the final status |
| GradingJob.JobSpec | app/services/code_executor.py:217-319 | the job ends COMPLETED or ERROR; RUNNING is committed first and the last commit is the final status |
| GradingJob.SelectQuestionAndCases | app/services/code_executor.py:221-244 | the lookup ends as `SelectionFor` says |
| GradingJob.SetError | app/services/code_executor.py:228-231 | the submission afterwards is `Fail` of the one before; time, memory and compile error are unchanged |
| GradingJob.StoreOutcome | app/services/code_executor.py:293-319 | the submission afterwards is `Finished` of the one before; time, memory and compile error are unchanged |
| GradingJob.ExecuteCodeAsync | app/services/code_executor.py:205-323 | a missing submission is left alone; otherwise the submission ends in the state `JobSpec` describes, with time, memory and compile error unchanged |
| GradingJob.SelectionCases | app/services/code_executor.py:221-244 | no assessment row, no link to the question, an empty selection, or the question of the first link with its non-empty selection |
| GradingJob.JobLifecycle | app/services/code_executor.py:217-319 | RUNNING is committed first, then either the final status alone or COMPLETED followed by ERROR; the job ends COMPLETED (with verdict and executed_at) or ERROR (with a message); rows are only added |
| GradingJob.FinishedLifecycle | app/services/code_executor.py:293-319 | the same for the part after the loop |
| GradingJob.JobEarlyExit | app/services/code_executor.py:223-244 | a missing enrolment, question or test case set gives ERROR with its message right after RUNNING, and no rows |
| GradingJob.JobAfterLoop | app/services/code_executor.py:246-319 | the loop's rows are appended; a completed loop stores total, verdict and executed_at = submitted_at and commits COMPLETED (then ERROR with the NameError for a final submission); a raising loop ends in ERROR with the ZeroDivisionError of a zero total weight |
| GradingJob.JobRows | app/services/code_executor.py:246-299 | a completed grading holds one new row per selected case in order, their sum and their overall verdict |
| GradingJob.JobScoreBounds | app/services/code_executor.py:247-299 | with non-negative weights and a positive total, COMPLETED is always committed, 0 ≤ total ≤ max score, and an OK verdict earns max score |
| GradingJob.UnsupportedLanguage | app/services/code_executor.py:67-299 | an unsupported language completes with every row CE "Unsupported language: <tag>", total 0 and verdict CE |
| GradingJob.CompileErrorEverywhere | app/services/code_executor.py:118-299 | a compiler that always fails gives CE rows carrying its stderr, total 0 and verdict CE |
| GradingJob.ZeroTotalWeight | app/services/code_executor.py:248-319 | with a zero total weight, a passing case ends the job in ERROR, and otherwise it completes with total 0 |
| GradingJob.FinalSubmissionEndsInError | app/services/code_executor.py:301-319 | a graded final submission commits COMPLETED, then ends in ERROR with the NameError, keeping its verdict and executed_at |
| CandidateService.AssessmentCandidate.constructor | app/models/assessment.py:62-80 | a new enrolment is ASSIGNED with zero time, score, percentage and counts |
| CandidateService.FinalSubmissions | app/services/candidate_service.py:18-22 | exactly the table's final submissions of that candidate in that assessment |
| CandidateService.ScoringCount | app/services/candidate_service.py:26 | correct ≤ attempted |
| CandidateService.CalculateAssessmentScore | app/services/candidate_service.py:14-46 | total = sum of the final submissions' scores, attempted = their number, correct = those scoring > 0, percentage = total / max × 100 (0 when max ≤ 0); returns the new total; status and time are unchanged |
| CandidateService.AddingASubmission | app/services/candidate_service.py:18-26 | a new row changes the aggregate iff it is a final submission of that candidate in that assessment, adding its score, one attempt and one correct answer if it scored |
| CandidateService.ScoringCountMeaning | app/services/candidate_service.py:26 | correct is 0 iff no submission has a positive score |
| CandidateService.TotalOfNonNegative | app/services/candidate_service.py:24-26 | with non-negative scores the total is ≥ 0, and it is 0 iff correct is 0 |
| CandidateService.MaxPossibleNonNegative | app/services/candidate_service.py:34-37 | with non-negative maxima and weights, the maximum possible score is ≥ 0 |
| CandidateService.NoFinalSubmissions | app/services/candidate_service.py:24-42 | without final submissions, total, attempted, correct and percentage are all 0 |
| CandidateService.GenerateCandidateAccessLink | app/services/candidate_service.py:10-12 | the link is the base, the login path, then the token |
| CandidateService.DefaultAccessLink | app/services/candidate_service.py:10-12 | without a base address the link is "http://localhost:8000/auth/candidate-login/" followed by the token |
| CandidateService.AccessLinkDependsOnlyOnToken | app/services/candidate_service.py:10-12 | the enrolment id does not matter, and links are equal iff tokens are |
| Utils.FormatDuration | app/utils.py:38-49 | under 60 gives "<s>s"; under 3600 gives "<m>m <s>s" with s < 60; from 3600 on gives "<h>h <m>m" with m < 60, for the hour and minute containing the duration |
| Utils.HourParts | app/utils.py:47-48 | the hour and minute fields are read back from h:m:s |
| Utils.HourForm | app/utils.py:46-49 | from an hour on, the text is the hour, then the minute within the hour |
| Utils.SecondsDroppedFromAnHour | app/utils.py:46-49 | from an hour on, a duration prints as the start of its minute: the seconds do not change the text |
| Utils.CalculateScorePercentage | app/utils.py:51-55 | a positive max gives p with p × max == score × 100; otherwise 0 |
| Utils.ScorePercentageBounds | app/utils.py:51-55 | a score in [0, max] gives a percentage in [0, 100], and the full score gives 100 |
| Utils.StripEach | app/utils.py:62 | every piece stripped, in order |
| Utils.NonEmpty | app/utils.py:63 | exactly the non-empty tags |
| Utils.ParseTags | app/utils.py:57-63 | every parsed tag is non-empty and stripped |
| Utils.FormatTags | app/utils.py:65-67 | no tags give "", a single tag is kept as it is (`ParseFormatRoundTrip` proves the round trip) |
| Utils.SplitPiecesLackSeparator | app/utils.py:62 | no piece of a split holds the separator |
| Utils.StripAddsNothing | app/utils.py:62 | stripping adds no character |
| Utils.ParsedTagsAreClean | app/utils.py:57-63 | every parsed tag is non-empty, stripped and free of commas |
| Utils.SplitJoined | app/utils.py:62-67 | splitting the ", "-joined tags on commas gives the tags, each after the first with a leading blank |
| Utils.NonEmptyKeepsAll | app/utils.py:63 | nothing is dropped when no tag is empty |
| Utils.StripSpacedPieces | app/utils.py:62 | stripping removes those blanks again |
| Utils.ParseFormatRoundTrip | app/utils.py:57-67 | parse_tags(format_tags(ts)) == ts for clean tags |
| Utils.SliceEnd | app/utils.py:93 | Python's `text[:end]` stops within the text, at `end` when 0 ≤ end ≤ length |
| Utils.TruncateText | app/utils.py:88-93 | text that fits is unchanged; otherwise the result ends with the suffix, and it is exactly max_length long when the suffix fits |
| Utils.TruncateOverlongSuffix | app/utils.py:88-93 | "abcdef" cut to 2 with "..." gives "abcde...", longer than the limit |
| Utils.TruncateTextBounded | app/utils.py:88-93 | a truncated text is never longer than max(0, max_length) |
| Utils.TruncationsAgreeWhenSuffixFits | app/utils.py:88-93 | the bounded truncation and the helper agree wherever the suffix fits |
| Utils.IsSafeRedirectUrl | app/utils.py:73-86 | empty is rejected; a leading '/' is accepted; otherwise it is safe iff the URL starts with http:// or https:// followed by an allowed host |
| Utils.RedirectLookalikes | app/utils.py:79-84 | "http://example.com.evil.org/", "http://example.com:x@evil.org/", "//evil.org/" and "/\evil.org/" are accepted when only example.com is allowed |
| Utils.LookalikeHostRejected | app/utils.py:83 | example.com is not the host of "http://example.com.evil.org/" |
| Utils.UserinfoHostRejected | app/utils.py:83 | example.com is not the host of "http://example.com:x@evil.org/", whose user info comes before evil.org |
| Utils.SlashTrickRejected | app/utils.py:79-80 | under the strict check, a '/' followed by '/', '\\', a tab or a line break is rejected whatever the allowed hosts |
| Utils.StrictRejectsLookalikes | app/utils.py:79-84 | the strict check rejects the prefix lookalike, the user-info lookalike, "//evil.org/", "/\\evil.org/" and "/\t/evil.org" when only example.com is allowed |
| Utils.StrictRedirectCheck | app/utils.py:73-86 | the strict check only accepts what the helper accepts, rejects the prefix, user-info, "//", "/\\" and "/\t/" lookalikes, and accepts local paths and the allowed hosts |
| Utils.GetClientIp | app/utils.py:109-124 | a non-empty X-Forwarded-For wins with a stripped value; else a non-empty X-Real-IP; else the peer address |
| Utils.ForwardedForFirstHop | app/utils.py:112-114 | for X-Forwarded-For = blanks, hop, blanks, then nothing or a comma and the rest, the client is the hop |
| Utils.ForwardedForSingleHop | app/utils.py:112-114 | "1.2.3.4" gives "1.2.3.4" |
| Utils.ForwardedForBlankBeforeComma | app/utils.py:112-114 | "1.2.3.4 , 5.6.7.8" gives "1.2.3.4" |
| Utils.ValidateProgrammingLanguage | app/utils.py:126-129 | an accepted name has 1 to 10 characters |
| Utils.ValidationIgnoresCase | app/utils.py:129 | names that lower-case alike get the same answer |
| Utils.ValidationOfLowered | app/utils.py:129 | a name is accepted iff its lower-cased form is |
| Utils.ValidationOfLowerCase | app/utils.py:126-129 | a name without capitals is accepted iff it is one of python, cpp, c, java, javascript, js |
| Utils.ValidationMeaning | app/utils.py:126-129 | a name is accepted iff it lower-cases to the lower-cased form of a listed name, that is, iff it is a listed name in some mix of case |
| Utils.ValidationWiderThanRunner | app/utils.py:126-129 | every language the runner supports is accepted, but "javascript" and "Python" are accepted without being runnable |
| Utils.LowerOfLowerCase | app/utils.py:133 | lower-casing a lower-case name changes nothing |
| Utils.AliasTargetsAreCanonical | app/utils.py:135-139 | the alias targets are lower-case, stripped, and not aliases themselves |
| Utils.NormalizeLanguageName | app/utils.py:131-141 | the result is stripped, lower-case, and never an alias |
| Utils.StripKeepsLowerCase | app/utils.py:133 | stripping keeps a name lower-case |
| Utils.NormalizeIdempotent | app/utils.py:131-141 | normalising twice is normalising once |
| Utils.NormalizeJavaScriptAlias | app/utils.py:131-141 | " JS" normalises to "javascript" |
| Utils.NormalizeCppAlias | app/utils.py:131-141 | "C++" normalises to "cpp" |
| Utils.NormalizePythonAlias | app/utils.py:131-141 | "PY" normalises to "python" |
| Utils.NormalizeKeepsCanonical | app/utils.py:133-141 | a stripped, lower-case name that is not an alias is kept as it is |
| Utils.NormalizeThroughCanonical | app/utils.py:133 | normalising a name gives what normalising its lower-cased, stripped form gives |
| Utils.NormalizeIgnoresCase | app/utils.py:133 | names that lower-case alike normalise alike |
| Utils.ImportLines | app/utils.py:166-180 | every extracted line is stripped and carries a prefix; no prefixes give nothing |
| Utils.ImportLinesMeaning | app/utils.py:166-180 | a string is extracted iff it is the stripped form of a line and starts with a prefix |
| Utils.ExtractImports | app/utils.py:161-182 | the loop yields the stripped import lines of the code in order, and [] for a language with no prefixes |
| Utils.NonBlankLines | app/utils.py:146 | exactly the lines that are not blank |
| Utils.KeywordHits | app/utils.py:153-155 | at most one hit per keyword |
| Utils.KeywordHitsCountsPresent | app/utils.py:153-155 | with no keyword listed twice, a line's hits are the number of distinct keywords occurring in its lower-cased form |
| Utils.ControlKeywordsDistinct | app/utils.py:152 | no control keyword is listed twice |
| Utils.ControlCountBound | app/utils.py:152-155 | at most 8 hits per line |
| Utils.NoKeywordNoCount | app/utils.py:152-155 | lines without keywords have no hits |
| Utils.NoHits | app/utils.py:153-155 | a line without keywords has no hits |
| Utils.CalculateComplexityScore | app/utils.py:143-159 | for n non-blank lines the score lies in [n, 17 n] and has the parity of n, two points per keyword hit |
| Utils.ComplexityBounds | app/utils.py:143-159 | n ≤ score ≤ 17 n for n non-blank lines, and score == n without keywords |
| Utils.ScoreOfLinesMeaning | app/utils.py:146-158 | summing each line's contribution (0 when blank, else 1 plus 2 per control keyword present) gives the non-blank line count plus twice the hits |
| Utils.ComplexityPerLine | app/utils.py:143-159 | the score is the sum over the lines of 0 for a blank line and 1 + 2 · (number of control keywords present) for any other |
| Utils.ScoreOfLinesConcat | app/utils.py:146-158 | the per-line sum over two runs of lines is the sum of their sums |
| Utils.FirstLineAdds | app/utils.py:143-159 | putting a line (without a newline) before the code adds exactly that line's contribution to the score |
| RateLimiting.Recent | app/utils.py:229-232 | exactly the times after the window start |
| RateLimiting.Admit | app/utils.py:222-241 | the key gets a list; admitted iff fewer than max times remain in the window, and an admitted list holds at most max; the pruned times are kept in order and at most `now` joins them |
| RateLimiting.AdmitEffect | app/utils.py:222-241 | only the key's list changes: it is pruned to the window and gets `now` iff fewer than max remain; the answer is that test |
| RateLimiting.Remaining | app/utils.py:243-257 | a non-negative max gives a result in [0, max] |
| RateLimiting.RateLimiter.constructor | app/utils.py:219-220 | the limiter starts with no keys |
| RateLimiting.RateLimiter.IsAllowed | app/utils.py:222-241 | the new table and the answer are those of `Admit` on the old table |
| RateLimiting.RateLimiter.GetRemainingRequests | app/utils.py:243-257 | the result is `Remaining` of the table, which is left unchanged, and lies in [0, max] |
| RateLimiting.AdmitKeepsBound | app/utils.py:236-241 | checks with one limit keep every list within that limit |
| RateLimiting.AppendLatest | app/utils.py:238 | appending the latest time keeps a list sorted |
| RateLimiting.RecentKeepsOrder | app/utils.py:229-232 | pruning keeps a list sorted |
| RateLimiting.AdmitKeepsOrder | app/utils.py:222-241 | checks with a clock that does not go back keep every list sorted and not after `now` |
| RateLimiting.RemainingMatchesAdmission | app/utils.py:222-257 | the remaining count is positive iff the next check would admit |
| RateLimiting.RecentTwice | app/utils.py:229-232 | pruning twice is pruning once to the later start |
| RateLimiting.RecentAppend | app/utils.py:229-238 | pruning a list with one more time prunes the list, then keeps that time if it is inside the window |
| RateLimiting.AdmissionUsesOneSlot | app/utils.py:237-257 | an admitted request takes exactly one remaining slot |
| RateLimiting.CountIn | app/utils.py:252-255 | the times in a window number no more than the list |
| RateLimiting.CountInWithinRecent | app/utils.py:229-232 | the times in a window within the pruned range are among the pruned list |
| RateLimiting.CountInAbove | app/utils.py:238 | a later time does not count in an earlier window |
| RateLimiting.KeptIsRecent | app/utils.py:228-234 | on a key the limiter tracks, the pruned list is the admitted times inside the window |
| RateLimiting.StepTracks | app/utils.py:222-241 | one check keeps that correspondence |
| RateLimiting.StepWindowLimit | app/utils.py:236-241 | one check never pushes a window past max |
| RateLimiting.ReplayTracksWindow | app/utils.py:222-241 | over a run of checks on a new key, the list is always the admitted times inside the current window |
| RateLimiting.SlidingWindowLimit | app/utils.py:216-241 | over a run of checks on a new key with a clock that does not go back, no window of the given length holds more than max admitted requests |
| Strings.Strip | app/services/code_executor.py:163 | `str.strip`: the result has no leading or trailing whitespace |
| Strings.StripCutsSpace | app/services/code_executor.py:266-267 | the stripped text is a piece of the text, and is empty iff the text is all whitespace |
| Strings.StripIdempotent | app/services/code_executor.py:163-267 | stripping the already stripped output changes nothing |
| Strings.Lower | app/utils.py:129 | `str.lower` on ASCII: every character lower-cased |
| Strings.Split | app/utils.py:62 | `str.split` yields at least one piece |
| Strings.SplitAtSeparator | app/utils.py:62 | the text before a separator is the first piece |
| Strings.NatToStringRoundTrip | app/utils.py:41 | the decimal text of a number reads back as that number |

## Left out

- The operating system is not modelled: the temporary directory, file writes, starting processes, killing a process on timeout, cleanup, and the wall clock behind the execution time. Each execute_code call receives what the OS answered as a `SandboxRun`, and the job receives one answer per call. The executor's directory is a parameter rather than object state.
- The database session is not modelled: query, commit, close and relationship loading. Rows are sequences. A ghost field lists the status each commit persisted. The candidate's assessment row is an `Option` of the assessment's question links; None stands for the IndexError of an empty list.
- Job dispatch over the queue, concurrency between workers, logging, routers, templates, browser code, export and backup are not part of this model.
- Helpers built on randomness, hashing, JSON or the clock are not modelled: generate_secure_token, generate_assessment_token, generate_file_hash, parse_json_safely, format_json_safely and calculate_time_remaining.
- validate_email and detect_potential_cheating_patterns are not modelled: they are regular expressions and nothing else.
- sanitize_filename is not modelled: its character class `[^\w\s-.]` is a bad range that Python's `re` rejects, so it always raises.
- Floating point is not modelled: scores, weights and percentages are reals, and `int()` of the elapsed milliseconds is the oracle's integer.
- Utils.StrictRedirectCheck: an allowed host name that itself contains '@' is not promised to be accepted, since the strict check reads '@' as the end of user info; host names do not contain '@'.
- Utils.GetClientIp: header names are looked up exactly as written, where the framework looks them up case-insensitively. The peer address stands for `request.client.host`.
- Strings.Lower: `str.lower` is modelled on ASCII letters only. `\w` in the Java class pattern is also modelled on ASCII only; `\s` uses the full `str.isspace` set.
- The `str()` of an exception is modelled only where the model names it: ZeroDivisionError, NameError and IndexError. Other exceptions carry their message as given by the oracle.
- In the job's handler, `if submission:` would itself raise if the first query had raised. That query is not modelled, so neither is this path.
- Memory limits are computed but never enforced or measured by the code, so no member produces MLE.
- Weights and maximum scores are never null in the model. The schema allows null in `weight` and `max_score`, and a null weight would make `sum` raise at app/services/code_executor.py:248. The admin forms always fill both columns.
- `Submission.compilation_error` and `execution_time_ms` are never assigned by the job. The model states that they stay unchanged.

## Findings

| source | as written | input that shows it | evidently intended | confidence | as-written member | corrected member |
|---|---|---|---|---|---|---|
| app/utils.py:93 | when the suffix is longer than max_length, the slice end is negative and counts from the back of the text | truncate_text("abcdef", 2, "...") gives "abcde...", 8 characters for a limit of 2 | a truncated text is never longer than max_length | high, not executed | Utils.TruncateOverlongSuffix | Utils.TruncateTextBounded |
| app/utils.py:83 | the allowed host is matched as a prefix of the rest of the URL | is_safe_redirect_url("http://example.com.evil.org/", ["example.com"]) is True | the URL's host must equal an allowed host, with no user info in front of it | high, not executed | Utils.RedirectLookalikes | Utils.StrictRedirectCheck |
| app/utils.py:83 | user info in front of the host passes the prefix test | is_safe_redirect_url("http://example.com:x@evil.org/", ["example.com"]) is True, but the host of that URL is evil.org | the URL's host must equal an allowed host, with no user info in front of it | high, not executed | Utils.RedirectLookalikes | Utils.StrictRedirectCheck |
| app/utils.py:79-80 | every URL that starts with '/' counts as relative | is_safe_redirect_url("//evil.org/", ["example.com"]) and is_safe_redirect_url("/\\evil.org/", ["example.com"]) are True, but browsers read both as scheme-relative URLs to evil.org | only a '/' not followed by '/', '\\', a tab or a line break marks a path on this site | high, not executed | Utils.RedirectLookalikes | Utils.StrictRedirectCheck |

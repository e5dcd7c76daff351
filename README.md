# Training platform: progression, assessment and certificates, in Dafny

This project models the core of a NestJS training-platform backend. Students enrol in
courses made of modules and lessons, complete the lessons in order, sit the course's
final exam and receive a certificate when they pass. It models these parts:

- **Lesson sequencing** (`progress.dfy`, `student_courses.dfy`, `curriculum.dfy`):
  - the watch heartbeat;
  - the course view with its "previous lesson done" lock rule;
  - `completeLesson` with its no-skipping check;
  - closing a finished enrollment;
  - the student course view with its COMPLETED / UNLOCKED / BLOCKED statuses and its
    progress percentage.
- **Exams** (`exams.dfy`):
  - the one-exam-per-course rule and the exactly-one-correct-option rule;
  - the course-complete gate and the student view that hides the right answers;
  - starting an attempt under the attempt limit;
  - submitting an attempt with its ordered refusals, the answer map, the scoring
    loop, the fixed 75 % pass line, and the all-or-nothing write of answers, attempt
    and certificate.
- **Certificates** (`certificates.dfy`, `calendar.dfy`):
  - the ordered eligibility checks and the best passed attempt;
  - the certificate upsert that keeps `issuedAt`;
  - the NR number taken from the course title;
  - the start and expiration dates and the `dd/MM/yyyy` format.
- **Student views** (`students.dfy`):
  - e-mail normalisation and student creation;
  - the per-enrollment course list with exam-unlock flags;
  - the exam list, the certificate LOCKED / UNLOCKED list and the single-certificate
    detail.
- **Registration** (`auth.dfy`): CPF normalisation, the módulo-11 check digits, the
  ordered refusals of `registerStudent`, and the password change.
- **Checkout** (`checkout.dfy`, `checkout_dev.dfy`): the course filtering and total of
  `createOrder`, and the development checkout's create and pay endpoints.
- **Library** (`library.dfy`, `library_upload.dfy`, `local_upload.dfy`, `paths.dfy`,
  `patterns.dfy`):
  - item defaults, keys and URLs, soft removal, and the per-course listings;
  - the two file-name sanitisers and the PDF filter.
- **Role guard** (`roles.dfy`).

The database is the class `Store.Db`, with one map (or set) field per table. Every
service operation that writes is a method whose `modifies` clause names only the
tables it writes. Its `ensures` gives the new contents of each one and the result,
or the refusal together with unchanged tables. Refusals are values of a `Result`
or `Option` type, listed in the order the source checks them. The clock, the random
file-name suffixes, new row ids and the configured attempt limit are parameters.
Strings are ASCII: `trim` removes ASCII whitespace and `toLowerCase` maps `A`–`Z`.

`Math.round(c / t * 100)` for `0 <= c <= t`, `t > 0` is modelled as the exact integer
`(200 * c + t) / (2 * t)`: the ratio rounded half up in exact arithmetic.

Where the documented behaviour and the code disagree, the model follows the code:

- The course view of `getCourseProgress` locks a lesson only when the lesson just before
  it is incomplete. It does not lock every lesson after the first incomplete one.
  `StudentCourses.LockRulesDifferOffPrefix` gives three lessons on which the two lock
  rules differ.
- Grading uses the fixed 75 % pass line. The exam's own `passScore` (default 70) is
  stored but never read.
- A submit after a passed attempt is refused, so a second passing attempt never
  reaches the certificate upsert. The upsert in the certificate download keeps
  `issuedAt`; the one in submit overwrites it.

## Model

| member | source | states |
|---|---|---|
| Common.RoundPercent | src/modules/student-courses/student-courses.service.ts:85-88 | the integer nearest to part/whole·100, halves rounded up; 100 for the whole and 0 for nothing |
| Common.RoundPercentMonotone | src/modules/students/students.service.ts:217-220 | completing more lessons never lowers the rounded percentage |
| Curriculum.FlatLessonsMembers | src/modules/progress/progress.service.ts:153 | the flattened lesson sequence holds exactly the lessons of the course's modules |
| Curriculum.IndexOf | src/modules/progress/progress.service.ts:154 | `findIndex`: none exactly when the id is absent, otherwise the first position holding it |
| Curriculum.LessonIds | src/modules/progress/progress.service.ts:160 | the ids of the lessons, position by position |
| LessonProgress.WatchedPosition | src/modules/progress/progress.service.ts:35 | a missing time is 0; otherwise floor(currentTime), and 0 for any time below 1 |
| LessonProgress.Watched | src/modules/progress/progress.service.ts:39-52 | the upserted row: both positions set to the time; an existing row keeps its `completed` and `completedAt`; a new row is not completed |
| LessonProgress.WatchMyLesson | src/modules/progress/progress.service.ts:25-59 | an unknown lesson is refused and nothing is written; otherwise the row becomes `Watched` and `allowedTime` is the time; no lesson's completion changes |
| LessonProgress.ModuleLessonViews | src/modules/progress/progress.service.ts:108-123 | the inner loop: each lesson's view is its view at its place in the whole sequence, and `previousLessonDone` leaves as the completion of the last lesson seen |
| LessonProgress.ViewsOf | src/modules/progress/progress.service.ts:104-123 | one view per position: completed from its row; locked exactly when it is not first and the lesson just before it, across module boundaries, is incomplete |
| LessonProgress.CourseViews | src/modules/progress/progress.service.ts:105-126 | the module walk keeps every module's id and order, and its flattened lessons are `ViewsOf` the flattened sequence |
| LessonProgress.GetCourseProgress | src/modules/progress/progress.service.ts:79-129 | an unknown course is refused; otherwise the views are `ViewsOf` the course's lesson sequence |
| LessonProgress.Missing | src/modules/progress/progress.service.ts:167-168 | the earlier lesson ids that have no completed row |
| LessonProgress.CompletionCheck | src/modules/progress/progress.service.ts:131-175 | refusals in order: unknown lesson, unknown course, lesson not in its course's sequence; admitted exactly when every earlier lesson of the sequence is completed |
| LessonProgress.Completed | src/modules/progress/progress.service.ts:178-182 | the upserted row is completed at `now` and keeps an existing row's positions |
| LessonProgress.FinishedIffAllDone | src/modules/progress/progress.service.ts:196-214 | the count test holds exactly when the course has a lesson and every lesson of it is completed |
| LessonProgress.MarkFinished | src/modules/progress/progress.service.ts:217-223 | only the (student, course) enrollment changes: it becomes COMPLETED at `now`; no enrollment is created |
| LessonProgress.TryFinishCourse | src/modules/progress/progress.service.ts:196-224 | a finished course marks its enrollment; otherwise no enrollment changes |
| LessonProgress.CompleteLesson | src/modules/progress/progress.service.ts:131-188 | a refusal writes nothing; otherwise the lesson's row becomes `Completed` and the enrollment is closed exactly when the course is finished |
| LessonProgress.CompletionOnlyAdds | src/modules/progress/progress.service.ts:178-182 | completing a lesson adds that one lesson to the completed set and removes none |
| LessonProgress.CompletionKeepsDonePrefix | src/modules/progress/progress.service.ts:157-182 | when the completed lessons form a prefix of the sequence, they still do after an admitted completion |
| LessonProgress.CompletionRepeatable | src/modules/progress/progress.service.ts:178-182 | completing the same lesson again is admitted and only moves its `completedAt` |
| LessonProgress.FinishedStaysFinished | src/modules/progress/progress.service.ts:213-214 | once finished, a course stays finished after any completion |
| StudentCourses.CountDone | src/modules/student-courses/student-courses.service.ts:64 | the number of completed lessons among the first n, at most n |
| StudentCourses.StatusViewsOf | src/modules/student-courses/student-courses.service.ts:72-81 | one status per position: COMPLETED when its row is completed, else UNLOCKED when every earlier lesson is completed, else BLOCKED |
| StudentCourses.ModuleStatuses | src/modules/student-courses/student-courses.service.ts:59-82 | the inner loop keeps `unlocked`, `totalLessons` and `completedCount` equal to "all so far completed", the lessons seen and the completed ones seen |
| StudentCourses.CourseStatuses | src/modules/student-courses/student-courses.service.ts:52-83 | the module walk yields the statuses of the flattened sequence, every lesson counted in `totalLessons` and exactly the completed ones in `completedCount` |
| StudentCourses.ProgressPercent | src/modules/student-courses/student-courses.service.ts:85-88 | 0 without lessons, else the rounded percentage; never above 100 |
| StudentCourses.GetCourse | src/modules/student-courses/student-courses.service.ts:12-98 | no enrollment gives Forbidden; otherwise the statuses of the course's sequence and the percentage of completed lessons |
| StudentCourses.CountFullIffAllDone | src/modules/student-courses/student-courses.service.ts:60-64 | the count reaches n exactly when the first n lessons are all completed |
| StudentCourses.AtMostOneUnlocked | src/modules/student-courses/student-courses.service.ts:66-80 | every lesson before an UNLOCKED one is COMPLETED, so at most one lesson is UNLOCKED |
| StudentCourses.FirstIncompleteIsUnlocked | src/modules/student-courses/student-courses.service.ts:66-80 | the first incomplete lesson is UNLOCKED |
| StudentCourses.LockRulesAgree | src/modules/student-courses/student-courses.service.ts:52-80 | when the completed lessons form a prefix, a lesson is locked in the course view exactly when it is BLOCKED here |
| StudentCourses.LockRulesDifferOffPrefix | src/modules/progress/progress.service.ts:105-114 | with only the middle of three lessons completed, the third is unlocked in the course view but BLOCKED in the student view |
| StudentCourses.RoundedFullBeforeDone | src/modules/student-courses/student-courses.service.ts:88 | 199 of 200 lessons already round to 100 % |
| Exams.ExamOfUnique | src/modules/exams/exams.service.ts:65-73 | under one exam per course, any exam of the course is the course's exam |
| Exams.CreateExam | src/modules/exams/exams.service.ts:58-84 | an unknown course, then a course that already has an exam, is refused with nothing written; otherwise the new exam has the trimmed title, pass score default 70, active unless told otherwise, no questions |
| Exams.CreateKeepsOneExamPerCourse | src/modules/exams/exams.service.ts:65-75 | adding an exam for a course without one keeps one exam per course |
| Exams.CorrectCount | src/modules/exams/exams.service.ts:118 | the number of options marked correct, at most the number of options |
| Exams.ValidateOptions | src/modules/exams/exams.service.ts:117-124 | accepted exactly when exactly one option is correct; otherwise BadRequest |
| Exams.CorrectCountZero | src/modules/exams/exams.service.ts:118 | the count of correct options is 0 exactly when no option is correct |
| Exams.CorrectCountOne | src/modules/exams/exams.service.ts:118-119 | the count is 1 exactly when one option, and no other, is correct |
| Exams.CourseCompletedMeaning | src/modules/exams/exams.service.ts:438-471 | the gate holds exactly when the enrollment has `completedAt`, or the course has a module, has a lesson and every lesson is completed |
| Exams.FinishedEnrollmentOpensGate | src/modules/exams/exams.service.ts:442-447 | an enrollment closed by `completeLesson` passes the gate |
| Exams.QuestionViewOf | src/modules/exams/exams.service.ts:224-229 | a question's view keeps id, title, order and each option's id and label only |
| Exams.ExamViewOf | src/modules/exams/exams.service.ts:218-230 | the exam view keeps the exam's fields and every question's view, in order |
| Exams.GetStudentExam | src/modules/exams/exams.service.ts:194-231 | refused, in order, for a missing exam, an inactive exam and an incomplete course; otherwise the view |
| Exams.StartStudentAttempt | src/modules/exams/exams.service.ts:237-277 | the view's refusals, then a passed attempt, then the attempt limit, each with nothing written; otherwise one new attempt numbered count+1, score 0, not passed, unfinished |
| Exams.AttemptsOfAdd | src/modules/exams/exams.service.ts:248-262 | a new attempt adds one to its own (student, exam) count and to no other |
| Exams.StartKeepsNumbering | src/modules/exams/exams.service.ts:248-268 | starting keeps every attempt numbered within 1..limit and every unfinished attempt not passed |
| Exams.CollectAnswers | src/modules/exams/exams.service.ts:336-341 | the `sentByQuestion` loop builds `AnswerMap` of the sent entries |
| Exams.AnswerMapKeys | src/modules/exams/exams.service.ts:337-341 | a question is answered exactly when some entry with both ids names it |
| Exams.AnswerMapLastWins | src/modules/exams/exams.service.ts:337-341 | the last usable entry for a question decides its option |
| Exams.CheckAllAnswered | src/modules/exams/exams.service.ts:344-350 | true exactly when every question is answered |
| Exams.CheckOptionsBelong | src/modules/exams/exams.service.ts:353-357 | true exactly when every chosen option is one of its question's options |
| Exams.FirstCorrect | src/modules/exams/exams.service.ts:363 | none exactly when no option is correct, otherwise the id of the first correct one |
| Exams.CountCorrect | src/modules/exams/exams.service.ts:360-365 | the `correct++` loop counts the questions answered with their first correct option |
| Exams.FullCountIffAllRight | src/modules/exams/exams.service.ts:360-365 | the count reaches the question count exactly when every question is answered right |
| Exams.RightIffChosenCorrect | src/modules/exams/exams.service.ts:361-364 | with one correct option and distinct ids, a question is right exactly when the chosen option is marked correct |
| Exams.GradeOf | src/modules/exams/exams.service.ts:367-369 | score in 0..100, 100 when all are right; passed exactly when the score is at least 75, that is when correct/total is at least 74.5 % |
| Exams.PassLine | src/modules/exams/exams.service.ts:368-369 | the rounded score reaches 75 exactly when 200·correct ≥ 149·total |
| Exams.PassLineExamples | src/modules/exams/exams.service.ts:22 | 3 of 4 scores 75 and passes; 7 of 10 scores the default pass score 70 and fails |
| Exams.AnswerRows | src/modules/exams/exams.service.ts:376-382 | one answer row per question, in question order, with the chosen option |
| Exams.CertificateOnPass | src/modules/exams/exams.service.ts:403-421 | the (student, course) certificate is created or overwritten with this attempt, score and a new `issuedAt`, keeping an existing id; no other certificate changes |
| Exams.SubmitCheck | src/modules/exams/exams.service.ts:302-357 | an admitted submit has an existing attempt of an existing exam with questions, all answered |
| Exams.SubmitAdmittedIff | src/modules/exams/exams.service.ts:302-357 | admitted exactly when: the attempt exists, is the caller's and unfinished; its exam exists and is active; no attempt passed; the course is complete; there are questions and answers; all are answered; options belong |
| Exams.SubmitOwnerBeforeState | src/modules/exams/exams.service.ts:303-308 | another student's attempt is refused as not theirs before a finished one is refused |
| Exams.UnusableAnswersRefused | src/modules/exams/exams.service.ts:333-350 | a non-empty list whose entries all lack an id is refused, but not as an empty list |
| Exams.CheckSubmit | src/modules/exams/exams.service.ts:302-357 | the checks compute `SubmitCheck` and, when admitted, the answer map |
| Exams.RecordSubmission | src/modules/exams/exams.service.ts:373-431 | the transaction: answers replaced by one row per question, attempt finished with its grade, certificate upserted only when passed |
| Exams.SubmitStudentAttempt | src/modules/exams/exams.service.ts:283-432 | a refused submit writes nothing; an admitted one records the submission and returns the grade |
| Exams.SubmitKeepsCertificatesBacked | src/modules/exams/exams.service.ts:373-421 | every certificate still points at a passed attempt of its student for its course's exam, and unfinished attempts stay not passed |
| Certificates.ListByStudent | src/modules/certificates/certificates.service.ts:30-49 | each item is the mapping of a row of the student, and every row of the student is mapped; a one-row table gives its item exactly when the row is the student's |
| Certificates.ListOnlyOwnRows | src/modules/certificates/certificates.service.ts:31-32 | other students' rows never reach the list |
| Certificates.ListByStudentAppend | src/modules/certificates/certificates.service.ts:31-48 | the listing of two row sequences one after the other is the two listings one after the other: the query order is kept |
| Certificates.ListCoursesDistinct | src/modules/certificates/certificates.service.ts:31-48 | rows with distinct (student, course) keys list each course at most once |
| Certificates.ListOfTable | src/modules/certificates/certificates.service.ts:31-48 | rows that list the certificate table once give exactly one item per certificate of the student, each the mapping of that table row |
| Certificates.DigitRun | src/modules/certificates/certificates.service.ts:142 | `\d+`: the longest digit run at a position |
| Certificates.NrAt | src/modules/certificates/certificates.service.ts:142 | a match of `NR\s?\d+` at a position yields a non-empty digit string |
| Certificates.FirstNrAt | src/modules/certificates/certificates.service.ts:142 | the leftmost position where `NR\s?\d+` matches, case-insensitively |
| Certificates.NrNumber | src/modules/certificates/certificates.service.ts:142-143 | the digits of the leftmost match, or "35" when there is none; always a non-empty digit string |
| Certificates.NrNumberExamples | src/modules/certificates/certificates.service.ts:142-143 | "NR 10" gives "10", "nr06" gives "06", "NR-12" gives "35" |
| Certificates.BestPassedAttempt | src/modules/certificates/certificates.service.ts:82-85 | none exactly when no attempt passed; otherwise a passed attempt with the highest score |
| Certificates.CertificateOnGenerate | src/modules/certificates/certificates.service.ts:91-104 | creates with `issuedAt = now`, or overwrites only score and attempt, keeping id and `issuedAt`; no other certificate changes |
| Certificates.UpsertsDisagreeOnIssuedAt | src/modules/certificates/certificates.service.ts:100-103 | on an existing certificate the download keeps `issuedAt` while the submit replaces it |
| Certificates.GenerateKeepsCertificatesBacked | src/modules/certificates/certificates.service.ts:82-104 | the upsert keeps every certificate backed by a passed attempt |
| Certificates.StartDate | src/modules/certificates/certificates.service.ts:133-134 | five days later is the conclusion date |
| Certificates.ExpirationDate | src/modules/certificates/certificates.service.ts:135-136 | two years later, same month and day except from 29 February |
| Certificates.CertificateDataOf | src/modules/certificates/certificates.service.ts:145-157 | the template data: name and CPF defaults, title, NR number, hours default 0, verification code = certificate id, three formatted dates |
| Certificates.GenerateAdmittedIff | src/modules/certificates/certificates.service.ts:72-88 | admitted exactly when the enrollment exists, has `completedAt`, and the course's exam has a passed attempt |
| Certificates.CheckGenerate | src/modules/certificates/certificates.service.ts:59-88 | the checks compute the refusals in order: no enrollment, not concluded, no exam, not passed |
| Certificates.IssueCertificate | src/modules/certificates/certificates.service.ts:82-157 | upserts with a best passed attempt and returns the template data, its conclusion date the calendar day of the enrollment's `completedAt` |
| Certificates.GenerateCertificate | src/modules/certificates/certificates.service.ts:54-161 | a refusal writes nothing; otherwise the best-attempt upsert and the template data, dated from the enrollment's `completedAt` |
| Calendar.PlusMinus | src/modules/certificates/certificates.service.ts:133-134 | going back n days and forward n days returns to the date |
| Calendar.MinusDays | src/modules/certificates/certificates.service.ts:134 | `setDate(getDate() - n)`: a valid date, rolling into earlier months and years |
| Calendar.PlusDays | src/modules/certificates/certificates.service.ts:134 | n days later, a valid date |
| Calendar.NextOfPrev | src/modules/certificates/certificates.service.ts:134 | the day after the day before is the date |
| Calendar.PrevOfNext | src/modules/certificates/certificates.service.ts:134 | the day before the day after is the date |
| Calendar.PlusDaysLast | src/modules/certificates/certificates.service.ts:134 | n+1 days later is the day after n days later |
| Calendar.DateOf | src/modules/certificates/certificates.service.ts:132-153 | the calendar day of a timestamp: a valid date, 1 January 1970 for the first day after the epoch |
| Calendar.DateOfNextDay | src/modules/certificates/certificates.service.ts:132-153 | a timestamp one day later falls on the next calendar day |
| Calendar.AddYears | src/modules/certificates/certificates.service.ts:136 | `setFullYear(+n)`: same month and day, or 1 March for 29 February in a non-leap year |
| Calendar.YearOfEra | src/modules/certificates/certificates.service.ts:152-154 | the year the `yyyy` token prints: at least 1, and the year itself for positive years |
| Calendar.FormatDate | src/modules/certificates/certificates.service.ts:152-154 | `dd/MM/yyyy`: ten characters whose fields read back as the day, month and year |
| Students.NormalizeEmail | src/modules/students/students.service.ts:14-16 | no upper-case letter, no whitespace at either end, and each character is the lower-cased character of an infix of the input that has only whitespace around it; a missing e-mail is empty |
| Students.NormalizeEmailIdempotent | src/modules/students/students.service.ts:14-16 | normalising twice is normalising once |
| Students.NormalizedIsFixed | src/modules/students/students.service.ts:14-16 | a trimmed lower-case e-mail is its own normal form |
| Students.AddKeepsEmailsUnique | src/modules/students/students.service.ts:65-86 | inserting a row whose e-mail is free keeps e-mails unique |
| Students.EnsureCompanyId | src/modules/students/students.service.ts:18-36 | a given company id is kept; otherwise a company named "Sem empresa", created when none exists |
| Students.CreatedStudent | src/modules/students/students.service.ts:78-86 | the new row: normalised e-mail, trimmed name, temporary password, must change it, active |
| Students.InsertStudent | src/modules/students/students.service.ts:75-103 | the write: the new row with the resolved company, the course link exactly when a course id was given, and at most the default company added |
| Students.CreateStudent | src/modules/students/students.service.ts:64-106 | refused exactly when the normalised e-mail is taken, with nothing written; otherwise the row, and the course link when a course id was given |
| Students.EntryOf | src/modules/students/students.service.ts:213-243 | an entry: counts, percentage 0..100 (100 when all done, 0 when none), `hasExam` exactly when an active exam exists, unlocked only with an exam and lessons |
| Students.NonEmpty | src/modules/students/students.service.ts:239-240 | the falsy-to-null idiom: none exactly for the empty string, otherwise the string |
| Students.CourseEntryMeaning | src/modules/students/students.service.ts:183-226 | completed ≤ total; `examUnlocked` exactly when there is an active exam, the course has lessons and all are completed |
| Students.UnlockedExamPassesGate | src/modules/students/students.service.ts:226 | an unlocked exam in this list passes the exam service's course-complete gate |
| Students.LinkedCourses | src/modules/students/students.service.ts:131-139 | exactly the courses the student is linked to, once each when the links are distinct; a single link gives its course exactly when it is the student's |
| Students.LinkedCoursesAppend | src/modules/students/students.service.ts:131-139 | the links of two sequences one after the other are the two link lists one after the other: link order is kept |
| Students.EntriesOfTable | src/modules/students/students.service.ts:131-244 | when the links list the student-course table once, the entries are one per linked course of the table, each at most once |
| Students.CountByCourse | src/modules/students/students.service.ts:180-192 | the tally loop: for each enrolled course, the number of given lessons in it, and no other key |
| Students.LessonsInMeaning | src/modules/students/students.service.ts:183-209 | the two tallies count the course's lessons and its completed lessons; lessons outside enrolled courses are ignored |
| Students.ExamsByCourse | src/modules/students/students.service.ts:147-158 | exactly the enrolled courses with an exam, each mapped to an exam of that course |
| Students.DoneLessons | src/modules/students/students.service.ts:195-198 | exactly the lessons with a completed row of the student |
| Students.GetStudentCourses | src/modules/students/students.service.ts:129-244 | one entry per linked course, in link order, empty without links, each the course's entry; every linked course of the table appears exactly once |
| Students.ExamEntryOf | src/modules/students/students.service.ts:259-266 | course, unlock flag and percentage copied from the course entry |
| Students.StudentExams | src/modules/students/students.service.ts:254-267 | exactly the entries with an exam, projected |
| Students.StudentExamsAppend | src/modules/students/students.service.ts:257-266 | the filter keeps the course order |
| Students.CertificateEntryOf | src/modules/students/students.service.ts:310-352 | UNLOCKED with the certificate's id, score and date exactly when the course has an exam and a certificate; otherwise LOCKED, with no-exam or not-passed reason and empty fields |
| Students.StudentCertificates | src/modules/students/students.service.ts:281-353 | one status per course entry, in order |
| Students.PassUnlocksCertificate | src/modules/students/students.service.ts:327-339 | after a passing submit the course's status is UNLOCKED with that score and date |
| Students.MyCertificateByCourse | src/modules/students/students.service.ts:358-380 | none exactly without a certificate; otherwise its fields and the course title, "" for an unknown course |
| Students.DetailAgreesWithStatus | src/modules/students/students.service.ts:358-380 | an UNLOCKED status and the detail show the same certificate |
| Auth.KeepDigits | src/modules/auth/auth.service.ts:32 | `\D` removed: only digits, and a digit string is unchanged; one character is kept exactly when it is a digit |
| Auth.KeepDigitsAppend | src/modules/auth/auth.service.ts:32 | removing non-digits from two strings one after the other is removing them from each: the digits stay in order |
| Auth.KeepDigitsOfSpace | src/modules/auth/auth.service.ts:31-33 | whitespace holds no digit |
| Auth.NormalizeCpf | src/modules/auth/auth.service.ts:31-33 | the digits of the input in order, trimming aside: the same as removing every non-digit from the untrimmed input |
| Auth.NormalizeCpfIdempotent | src/modules/auth/auth.service.ts:31-33 | normalising twice is normalising once |
| Auth.CheckDigitOf | src/modules/auth/auth.service.ts:266-267 | a decimal digit; 0 exactly when the remainder is below 2; otherwise it brings the sum to a multiple of 11 |
| Auth.CheckDigit | src/modules/auth/auth.service.ts:261-268 | the loop computes the check digit of the weighted sum with weights factor..factor−n+1 |
| Auth.IsValidCpf | src/modules/auth/auth.service.ts:257-274 | valid exactly for 11 digits, not one digit repeated, whose last two are the check digits of the first 9 (weights 10..2) and first 10 (weights 11..2) |
| Auth.ValidCpfExample | src/modules/auth/auth.service.ts:261-273 | 529.982.247-25 is valid and 529.982.247-26 is not |
| Auth.RepeatedCpfExample | src/modules/auth/auth.service.ts:259 | 111.111.111-11 has correct check digits and is still refused |
| Auth.PasswordOf | src/modules/auth/auth.service.ts:141-142 | the trimmed password, or "123456" when it is blank |
| Auth.InputCheck | src/modules/auth/auth.service.ts:134-146 | refusals, in order, about the request alone: name, e-mail, CPF, password length |
| Auth.LookupCheck | src/modules/auth/auth.service.ts:148-195 | refusals that read the store: e-mail, CPF, company |
| Auth.InputChecksIgnoreStore | src/modules/auth/auth.service.ts:134-146 | a request refused on its own content is refused the same way whatever the store holds |
| Auth.EmailBeforeCpf | src/modules/auth/auth.service.ts:148-164 | a taken e-mail is reported even when the CPF is taken too |
| Auth.CheckRegister | src/modules/auth/auth.service.ts:127-195 | the checks compute the refusals; an admitted request gets an existing company, matched by name ignoring case or the configured default |
| Auth.RegisteredStudent | src/modules/auth/auth.service.ts:199-208 | the new row: trimmed name, normalised e-mail and CPF, chosen password, active, no forced change |
| Auth.RegisterStudent | src/modules/auth/auth.service.ts:127-230 | a refusal writes nothing; otherwise exactly the new row |
| Auth.RegisterKeepsEmailsUnique | src/modules/auth/auth.service.ts:148-164 | a registration keeps e-mails unique and stores an 11-digit valid CPF |
| Auth.ChangeStudentPassword | src/modules/auth/auth.service.ts:235-252 | a trimmed password under 6 characters is refused; otherwise the password is set and the forced change cleared |
| Checkout.Offered | src/modules/checkout/pagamento.service.ts:19-25 | exactly the requested courses that are active and paid, once each when the rows are distinct |
| Checkout.NotEnrolled | src/modules/checkout/pagamento.service.ts:39-40 | exactly those without an enrollment, once each when the input is distinct |
| Checkout.OfferedAppend | src/modules/checkout/pagamento.service.ts:19-25 | filtering two row sequences one after the other is filtering each: the row order is kept |
| Checkout.OrderFromTable | src/modules/checkout/pagamento.service.ts:19-44 | rows listing the course table once: nothing offered exactly when no requested course is active and paid; the final courses are distinct and exactly the requested, active, paid, not-enrolled ones |
| Checkout.FinalCourses | src/modules/checkout/pagamento.service.ts:19-44 | the courses that remain after both filters are known courses |
| Checkout.ItemsOf | src/modules/checkout/pagamento.service.ts:61-64 | one item per course, in order, at its price |
| Checkout.TotalBounds | src/modules/checkout/pagamento.service.ts:53 | with positive prices the total is positive and at least each price |
| Checkout.AcceptedOrder | src/modules/checkout/pagamento.service.ts:14-53 | an accepted order has items, a positive total, and only requested, active, paid, not-enrolled courses at positive prices |
| Checkout.CheckOrder | src/modules/checkout/pagamento.service.ts:14-50 | refusals in order: no course, none offered, all enrolled, a missing price |
| Checkout.CreateOrder | src/modules/checkout/pagamento.service.ts:13-76 | for rows listing the course table once, a refusal writes nothing; otherwise one order with the total and items, and a PENDING payment |
| CheckoutDev.NrPattern | src/modules/checkout/checkout.dev.controller.ts:31-33 | "NR " and two digits that read back as the NR |
| CheckoutDev.NrPatternPadded | src/modules/checkout/checkout.dev.controller.ts:31 | NR 1 is searched as "NR 01" |
| CheckoutDev.NrPatternTwoDigits | src/modules/checkout/checkout.dev.controller.ts:31 | NR 35 is searched as "NR 35" |
| CheckoutDev.DevBilling | src/modules/checkout/checkout.dev.controller.ts:53 | credit card exactly when asked for, otherwise PIX |
| CheckoutDev.CreateDevOrder | src/modules/checkout/checkout.dev.controller.ts:21-73 | refusals in order: not a student, NR outside 1..38, no course titled with the pattern; otherwise an order of 4990 with one item, PENDING_PAYMENT, and a DEV payment |
| CheckoutDev.Activate | src/modules/checkout/checkout.dev.controller.ts:105-109 | the enrollment upsert: status ACTIVE, an existing enrollment keeps `completedAt` and `enrolledAt` |
| CheckoutDev.ActivateKeepsGate | src/modules/checkout/checkout.dev.controller.ts:105-109 | reactivating a completed enrollment does not change the exam gate |
| CheckoutDev.PayDevOrder | src/modules/checkout/checkout.dev.controller.ts:77-119 | refusals: not a student, not the caller's order; order and payment PAID; then the first item's course enrolled ACTIVE and linked |
| Library.CoursesMin | src/modules/library/library.service.ts:18-24 | exactly the active courses, once each when the rows are distinct |
| Library.ActiveItemsOf | src/modules/library/library.service.ts:78-80 | exactly the active items of the course, once each when the rows are distinct |
| Library.ActiveItemsOfTable | src/modules/library/library.service.ts:78-80 | rows listing the item table once give each active item of the course exactly once |
| Library.ListByCourse | src/modules/library/library.service.ts:68-96 | refusals in order: no course id, unknown course; otherwise the course's active items, each exactly once when the rows list the item table once |
| Library.MyLibrary | src/modules/library/library.service.ts:155-159 | one group per enrolled course, in order, holding exactly that course's active items, each once when the rows list the item table once |
| Library.FoundGroupsAreActiveItems | src/modules/library/library.service.ts:131-153 | grouping the fetched rows by course gives each enrolled course its active items |
| Library.GroupByCourse | src/modules/library/library.service.ts:148-153 | the `byCourse` loop groups every row under its course, in row order |
| Library.ListMyLibrary | src/modules/library/library.service.ts:118-160 | no student is refused; otherwise one group per ACTIVE enrollment, each course once, each group holding every active item of its course exactly once |
| Library.MyLibraryByCourse | src/modules/library/library.service.ts:162-200 | refusals in order: no student, no course id, no ACTIVE enrollment (Forbidden), unknown course |
| Library.ByCourseAgreesWithListings | src/modules/library/library.service.ts:162-200 | for an enrolled course it gives the admin listing and the group of `listMyLibrary` |
| Library.ItemTitle | src/modules/library/library.service.ts:47-48 | the trimmed title, else the trimmed original name, else "Material PDF" |
| Library.EmptyTitleIffBlankChoice | src/modules/library/library.service.ts:47-48 | the title is empty exactly when the chosen value is all whitespace |
| Library.Description | src/modules/library/library.service.ts:54 | none for an empty description, otherwise it trimmed |
| Library.FileKey | src/modules/library/library.service.ts:44 | "library/" followed by the stored file name |
| Library.FileUrl | src/modules/library/library.service.ts:45 | "/uploads/" followed by the key |
| Library.FileUrlRoundTrip | src/modules/library/library.service.ts:44-45 | the URL is "/uploads/library/" followed by the stored name |
| Library.NewItem | src/modules/library/library.service.ts:50-64 | the new row: course, key, URL, title, description, name, size, MIME default application/pdf, active |
| Library.CreateItem | src/modules/library/library.service.ts:26-66 | refusals in order: no course id, no file, unknown course, with nothing written; otherwise the new row |
| Library.CreatedItemListedFirst | src/modules/library/library.service.ts:78-80 | a new item is listed first for its course |
| Library.RemoveItem | src/modules/library/library.service.ts:98-112 | refusals: no id, unknown item; otherwise only `isActive` becomes false |
| Library.RemovedItemLeavesListings | src/modules/library/library.service.ts:108-111 | after a removal every listing is the old one without that item |
| LocalUpload.CleanBase | src/common/upload/local-upload.ts:8-14 | only `[A-Za-z0-9-_]`, at most 60 characters, empty exactly when nothing but blanks was kept |
| LocalUpload.OrFallback | src/common/upload/local-upload.ts:21 | an empty base becomes "file" |
| LocalUpload.StoredExt | src/common/upload/local-upload.ts:16 | the lower-cased extension when it is non-empty and at most 10 characters, otherwise ".pdf" |
| LocalUpload.StoredBase | src/common/upload/local-upload.ts:5-14 | a non-empty base of allowed characters, at most 60 |
| LocalUpload.Joined | src/common/upload/local-upload.ts:21 | `base-stamp-rand` plus the extension: one path segment whose extension is the one appended |
| LocalUpload.SafeFilename | src/common/upload/local-upload.ts:3-22 | `base-stamp-rand` plus the stored extension; one path segment whose extension is the stored one |
| LocalUpload.IsPdf | src/common/upload/local-upload.ts:24-26 | true exactly for "application/pdf" |
| LocalUpload.CleanOfLetters | src/common/upload/local-upload.ts:8-14 | a name whose kept characters are up to 60 letters cleans to exactly those letters |
| LocalUpload.CleanOfWords | src/common/upload/local-upload.ts:8-14 | two words of kept characters with whitespace before, between and after clean to the first word, one '-', the second word, cut at 60 |
| LocalUpload.CleanOfWord | src/common/upload/local-upload.ts:12-13 | trimming and squashing whitespace runs leave a word unchanged |
| LocalUpload.LowerExtBaseIsStem | src/common/upload/local-upload.ts:4-5 | a name whose extension is already lower-case gets its cleaned stem as base |
| LocalUpload.UpperCaseExtensionKept | src/common/upload/local-upload.ts:4-5 | a name whose extension has an upper-case letter keeps the extension's letters in its base |
| LocalUpload.StoredBaseFixed | src/common/upload/local-upload.ts:5 | the base with the extension cut off as it is written |
| LocalUpload.SafeFilenameFixed | src/common/upload/local-upload.ts:3-22 | the corrected name: `base-stamp-rand` plus the stored extension |
| LocalUpload.UpperCaseExtensionStripped | src/common/upload/local-upload.ts:4-5 | corrected, the same name gets the stem alone as its base |
| LocalUpload.FixedBaseIsStem | src/common/upload/local-upload.ts:5 | corrected, a name ending in its extension gets its cleaned stem as base |
| LibraryUpload.StripDashEnds | src/modules/library/dto/upload/library-upload.middleware.ts:24 | the input with one leading '-' removed when there is one and one trailing '-' removed when there is one; no '-' at either end when the input had no "--" |
| LibraryUpload.Sanitised | src/modules/library/dto/upload/library-upload.middleware.ts:19-24 | empty, or only `[a-z0-9-_]`, no "--" and no '-' at either end |
| LibraryUpload.SafeBaseName | src/modules/library/dto/upload/library-upload.middleware.ts:18-27 | the sanitised base, or "arquivo" when it is empty; always of the safe shape |
| LibraryUpload.SafeBaseNameIdempotent | src/modules/library/dto/upload/library-upload.middleware.ts:18-27 | a safe base is its own safe base |
| LibraryUpload.SanitisedOfSafe | src/modules/library/dto/upload/library-upload.middleware.ts:19-24 | a base of the safe shape goes through the chain unchanged |
| LibraryUpload.StoredExt | src/modules/library/dto/upload/library-upload.middleware.ts:47 | the lower-cased extension, or ".pdf" when there is none |
| LibraryUpload.StoredName | src/modules/library/dto/upload/library-upload.middleware.ts:46-52 | `base-time-rand` plus the stored extension, the base made from the name or "pdf"; one path segment with that extension |
| LibraryUpload.FileFilter | src/modules/library/dto/upload/library-upload.middleware.ts:55-65 | accepted exactly for the PDF MIME type or a name ending in ".pdf" in any case |
| LibraryUpload.AcceptedByNameStoredAsPdf | src/modules/library/dto/upload/library-upload.middleware.ts:47-58 | a file accepted by its name is stored with the extension ".pdf" |
| Roles.CanActivate | src/common/guards/roles.guard.ts:10-26 | allowed without required roles; refused without a user role; otherwise allowed exactly when the role is required |
| Roles.MoreRolesKeepAccess | src/common/guards/roles.guard.ts:25 | requiring more roles never takes access away |
| Roles.OnlyTheSetMatters | src/common/guards/roles.guard.ts:17-25 | the decision depends on which roles are required, not their order or repetition |
| Roles.SingleRoleAdmitsOnlyIt | src/common/guards/roles.guard.ts:25 | a route requiring one role admits that role alone |
| Text.Trim | src/modules/auth/auth.service.ts:27-29 | the infix of the input with only whitespace before and after it that neither starts nor ends with whitespace; empty exactly for all-whitespace input |
| Text.TrimIdempotent | src/modules/auth/auth.service.ts:27-29 | trimming twice is trimming once |
| Text.TrimOfPadded | src/modules/auth/auth.service.ts:27-29 | whitespace around a string without whitespace at its ends is exactly what trimming removes |
| Text.TrimOfTrimmed | src/modules/auth/auth.service.ts:27-29 | a string without whitespace at its ends is its own trim |
| Text.ToLowerIdempotent | src/modules/students/students.service.ts:15 | lower-casing twice is lower-casing once |
| Text.ToLower | src/modules/students/students.service.ts:15 | same length, each character lower-cased |
| Text.DecimalString | src/modules/checkout/checkout.dev.controller.ts:31 | `String(n)`: digits, no leading zero |
| Text.DecimalRoundTrip | src/modules/checkout/checkout.dev.controller.ts:31 | reading the printed digits back gives the number |
| Text.PadStart | src/modules/checkout/checkout.dev.controller.ts:31 | `padStart(w, c)`: the string, preceded by c up to width w, never shortened |
| Text.ZeroPadded | src/modules/checkout/checkout.dev.controller.ts:31 | a digit string that reads back as n, of width w when n has at most w digits |
| Text.PaddedRoundTrip | src/modules/checkout/checkout.dev.controller.ts:31 | `padStart(w, '0')` of the printed number reads back as the number and has width w when it fits |
| Paths.ExtName | src/common/upload/local-upload.ts:4 | `path.extname`: empty or a '.' and non-dot characters, ending the last segment and shorter than it |
| Paths.LastSegment | src/common/upload/local-upload.ts:5 | the last path segment, trailing separators ignored: no separator and no longer than the path |
| Paths.BaseName | src/common/upload/local-upload.ts:5 | `path.basename`: the last segment, with the suffix cut off when it ends with it |
| Paths.BaseAndExtRoundTrip | src/common/upload/local-upload.ts:4-5 | the base and the extension put together give the last segment |
| Paths.ExtNameOfJoined | src/common/upload/local-upload.ts:21 | appending an extension to a name that does not end in '/' or '.' makes it the extension |
| Patterns.Keep | src/common/upload/local-upload.ts:11 | only the kept characters, every kept character of the input, the input itself when every character is kept |
| Patterns.KeepAppend | src/common/upload/local-upload.ts:11 | filtering two strings one after the other is filtering each: the kept characters stay in order |
| Patterns.Squash | src/common/upload/local-upload.ts:13 | each run of matching characters becomes one '-': empty only for empty input, the first character mapped, every character a '-' or a non-matching input character |
| Patterns.SquashRun | src/common/upload/local-upload.ts:13 | a non-empty run of matching characters becomes one '-' |
| Patterns.SquashNothing | src/common/upload/local-upload.ts:13 | a string without matching characters is unchanged |
| Patterns.SquashAppend | src/common/upload/local-upload.ts:13 | where no run crosses the seam, squashing two strings one after the other is squashing each |
| Patterns.DropWhileAppend | src/common/upload/local-upload.ts:13 | dropping a run from the front of two strings drops it from the first, and from the second only when the first was all run |
| Patterns.Take | src/common/upload/local-upload.ts:14 | `slice(0, n)`: the first min(n, length) characters |
| Patterns.RemoveFirst | src/modules/library/dto/upload/library-upload.middleware.ts:20 | the leftmost occurrence of the pattern cut out, the text before it and after it kept; the input unchanged without one |

## Left out

- Password hashing and JWTs: a password stands for its hash, and no token is modelled.
- PDF and HTML rendering, the logo file read, and `buildCertificateHtml` are not modelled. The certificate download returns its template data.
- The payment-provider steps after the order is written (`pagamento.service.ts` from line 78) are network calls, and are left out.
- The dashboard, CSV import and the plain CRUD services are outside the model. So are exam update and delete, question add, update and delete, and student `list` and `deactivate`. `validateOptions` is modelled.
- Controllers, DTO validation and routing are left out. Each operation takes the student id as a parameter.
- Concurrency is left out: every service call is one atomic step.
- Clocks and randomness are parameters: `now`, `Date.now()`, `Math.random`, `crypto.randomBytes`, and the ids a new row receives.
- `MAX_ATTEMPTS_PER_EXAM` is the parameter `maxAttempts`. Reading and parsing it from the environment is left out.
- Floating point is left out. `Math.round` of a ratio is the exact integer formula, and `Math.floor(currentTime)` is taken on a real number.
- Common.RoundPercent: where the double `c / t * 100` falls just under a half, the model is one above the program. For 23 of 40 the program computes 57.49999999999999 and stores 57, and the model gives 58; 29/200, 57/200, 113/200, 115/200 and 46/80 behave the same. This carries over to Exams.GradeOf, StudentCourses.ProgressPercent and Students.EntryOf. The 75 % pass line does not move for any total up to 5000.
- Unicode is left out: no NFD accent stripping (`local-upload.ts:9-10`) and no non-ASCII case or whitespace rules.
- `ensureDirSync`, the multer storage destination and the 20 MB size limit are left out; they are file-system and library configuration.
- Orderings from the database are not modelled. A query with an `orderBy` (newest first, by `enrolledAt`, by `issuedAt`) takes its rows as a sequence argument in that order; the model applies the query's filter.
- `createdAt`, `description`, `imageUrl` and other display-only columns are carried only where a contract mentions them.
- Foreign keys and schema defaults are not enforced by the store. A few methods require what the schema guarantees: a fresh id for a new row, and a course row for each enrolled course.
- Students.EnsureCompanyId: `findFirst` of a company named "Sem empresa" returns some matching company, not a particular one, because the model has no row order.
- Students.GetStudentCourses: the `moduleToCourse` step is folded into the lesson-to-course path of the store, so a lesson whose module has no course is not modelled.
- Students.MyCertificateByCourse: the certificates are a map keyed by (student, course), so the `certByCourse` map of `getStudentCertificates` is that keyed lookup.
- Auth.IsValidCpf: requires a digit string; its only caller passes `normalizeCpf` output.
- CheckoutDev.CreateDevOrder: the NR is an integer; a fractional or non-numeric `Number(dto.nr)` (NaN) is not modelled.
- Checkout.CreateOrder: the order's `status` is the schema default, written as `SchemaDefault`.
- Paths.BaseName: modelled for an empty suffix or one shorter than the last segment, which are the only calls the upload helpers make.
- Calendar.DateOf: `completedAt` is read as a UTC calendar day (floor division by the milliseconds of a day). The source formats it in the server's local time zone, and time zones are not modelled.
- The query results that stand for a whole table (the student-course links, the course rows of `createOrder`, the library item rows, the certificate rows) are required to list their table once each. The database guarantees this; the model states it as `Enumerates`.
- Roles.CanActivate: the role enumeration is ADMIN and STUDENT; reading the metadata through the reflector is left out.

## Findings

| source | as written | input that shows it | evidently intended | confidence | as-written member | corrected member |
|---|---|---|---|---|---|---|
| src/common/upload/local-upload.ts:4-5 | the extension is lower-cased before it is passed to `path.basename`. POSIX `basename` compares the suffix exactly, so an extension written in upper case is not cut off the base. | "a.PDF" gets the base "aPDF" and the name "aPDF-<stamp>-<rand>.pdf" | base "a", name "a-<stamp>-<rand>.pdf" | high; not executed | LocalUpload.UpperCaseExtensionKept | LocalUpload.UpperCaseExtensionStripped |

/** The exam engine: one exam per course, the course-complete gate, the attempt
    state machine (start, submit), grading with the fixed 75 % pass line and the
    certificate written by a passing submit. */
module Exams {
  import opened Common
  import opened Store
  import opened Text
  import opened LessonProgress

  /** The pass line used for grading; an exam's own `passScore` plays no part. */
  const PASS_SCORE_PERCENT: nat := 75

  /** The attempt limit when `EXAM_MAX_ATTEMPTS` is not configured. */
  const DEFAULT_MAX_ATTEMPTS: int := 3

  /** The `passScore` stored when the admin gives none. */
  const DEFAULT_PASS_SCORE: int := 70

  /** Why an exam operation is refused; `Kind` is the exception it is thrown as. */
  datatype ExamError =
    | ExamNotFound       // getStudentExam: no such exam
    | ExamInactive       // exam deactivated
    | CourseIncomplete   // the course-complete gate is closed
    | AlreadyPassed      // a passed attempt exists for (student, exam)
    | AttemptLimit       // the attempt count reached the limit
    | AttemptNotFound
    | NotAttemptOwner
    | AttemptFinished
    | InvalidExam        // submit: the attempt's exam is missing
    | NoQuestions
    | NoAnswers
    | Unanswered
    | InvalidOption
  {
    function Kind(): Exception {
      match this
      case ExamNotFound | AttemptNotFound => NotFound
      case CourseIncomplete | NotAttemptOwner => Forbidden
      case _ => BadRequest
    }
  }

  // ------------------------------------------------------------ admin: exams

  /** The admin's input for a new exam; absent optional fields are `None`. */
  datatype NewExam = NewExam(courseId: Id, title: string, passScore: Option<int>, isActive: Option<bool>)

  predicate HasExamFor(exams: map<Id, Exam>, courseId: Id) {
    exists id :: id in exams && exams[id].courseId == courseId
  }

  /** The unique constraint on `Exam.courseId`. */
  predicate OneExamPerCourse(exams: map<Id, Exam>) {
    forall a, b :: a in exams && b in exams && exams[a].courseId == exams[b].courseId ==> a == b
  }

  /** The exam of a course (at most one, by the unique constraint). */
  ghost function ExamOf(exams: map<Id, Exam>, courseId: Id): (examId: Id)
    requires HasExamFor(exams, courseId)
    ensures examId in exams && exams[examId].courseId == courseId
  {
    var examId :| examId in exams && exams[examId].courseId == courseId;
    examId
  }

  /** Under the unique constraint, any exam of the course is the course's exam. */
  lemma ExamOfUnique(exams: map<Id, Exam>, courseId: Id, examId: Id)
    requires OneExamPerCourse(exams)
    requires examId in exams && exams[examId].courseId == courseId
    ensures HasExamFor(exams, courseId) && examId == ExamOf(exams, courseId)
  {
  }

  /** createExam; `examId` is the id the store assigns to the new row. */
  method CreateExam(db: Db, examId: Id, dto: NewExam) returns (r: Result<Exam, Exception>)
    requires examId !in db.exams
    modifies db`exams
    ensures dto.courseId !in db.courses ==> r == Err(BadRequest) && db.exams == old(db.exams)
    ensures dto.courseId in db.courses && HasExamFor(old(db.exams), dto.courseId) ==>
      r == Err(BadRequest) && db.exams == old(db.exams)
    ensures dto.courseId in db.courses && !HasExamFor(old(db.exams), dto.courseId) ==>
      && r.Ok?
      && r.value.courseId == dto.courseId
      && r.value.title == Trim(dto.title)
      && r.value.passScore == (if dto.passScore.Some? then dto.passScore.value else DEFAULT_PASS_SCORE)
      && r.value.isActive == (dto.isActive != Some(false))
      && r.value.questions == []
      && db.exams == old(db.exams)[examId := r.value]
  {
    if dto.courseId !in db.courses {
      return Err(BadRequest);
    }
    if exists id | id in db.exams :: db.exams[id].courseId == dto.courseId {
      return Err(BadRequest);
    }
    var passScore := if dto.passScore.Some? then dto.passScore.value else DEFAULT_PASS_SCORE;
    var isActive := if dto.isActive.Some? then dto.isActive.value else true;
    var exam := Exam(dto.courseId, Trim(dto.title), passScore, isActive, []);
    db.exams := db.exams[examId := exam];
    return Ok(exam);
  }

  /** Adding an exam for a course that has none keeps one exam per course. */
  lemma CreateKeepsOneExamPerCourse(exams: map<Id, Exam>, examId: Id, exam: Exam)
    requires OneExamPerCourse(exams) && examId !in exams && !HasExamFor(exams, exam.courseId)
    ensures OneExamPerCourse(exams[examId := exam])
  {
  }

  // ------------------------------------------------------------ admin: options

  /** An option as the admin sends it, after `(label || '').trim()` and `!!isCorrect`;
      `text` is the label. */
  datatype OptionInput = OptionInput(text: string, isCorrect: bool)

  /** `options.filter(o => !!o.isCorrect).length`. */
  function CorrectCount(options: seq<OptionInput>): (n: nat)
    ensures n <= |options|
  {
    if options == [] then 0
    else CorrectCount(options[..|options| - 1]) + (if options[|options| - 1].isCorrect then 1 else 0)
  }

  predicate ExactlyOneCorrect(options: seq<OptionInput>) {
    exists i :: 0 <= i < |options| && OnlyCorrect(options, i)
  }

  /** Option i is correct and no other option is. */
  predicate OnlyCorrect(options: seq<OptionInput>, i: int) {
    0 <= i < |options| && options[i].isCorrect
    && forall j :: 0 <= j < |options| && j != i ==> !options[j].isCorrect
  }

  /** validateOptions: refuses (BadRequest) unless exactly one option is correct. */
  function ValidateOptions(options: seq<OptionInput>): (r: Option<Exception>)
    ensures r.None? <==> ExactlyOneCorrect(options)
    ensures r.Some? ==> r.value == BadRequest
  {
    CorrectCountOne(options);
    if CorrectCount(options) != 1 then Some(BadRequest) else None
  }

  lemma {:induction false} CorrectCountZero(options: seq<OptionInput>)
    ensures CorrectCount(options) == 0 <==> forall j :: 0 <= j < |options| ==> !options[j].isCorrect
  {
    if options != [] {
      var init := options[..|options| - 1];
      CorrectCountZero(init);
      assert forall j :: 0 <= j < |init| ==> init[j] == options[j];
    }
  }

  /** The count is one exactly when one option, and no other, is correct. */
  lemma {:induction false} CorrectCountOne(options: seq<OptionInput>)
    ensures CorrectCount(options) == 1 <==> ExactlyOneCorrect(options)
  {
    if options != [] {
      if options[|options| - 1].isCorrect {
        OneWhenLastCorrect(options);
      } else {
        CorrectCountOne(options[..|options| - 1]);
        OneWhenLastWrong(options);
      }
    }
  }

  lemma OneWhenLastCorrect(options: seq<OptionInput>)
    requires options != [] && options[|options| - 1].isCorrect
    ensures CorrectCount(options) == 1 <==> ExactlyOneCorrect(options)
  {
    var n := |options|;
    var init := options[..n - 1];
    assert forall j :: 0 <= j < n - 1 ==> init[j] == options[j];
    CorrectCountZero(init);
    if CorrectCount(options) == 1 {
      forall j | 0 <= j < n - 1
        ensures !options[j].isCorrect
      {
        assert !init[j].isCorrect;
      }
      assert OnlyCorrect(options, n - 1);
    }
    if ExactlyOneCorrect(options) {
      var i :| 0 <= i < n && OnlyCorrect(options, i);
      OnlyCorrectIsUnique(options, i, n - 1);
      forall j | 0 <= j < n - 1
        ensures !init[j].isCorrect
      {
        assert init[j] == options[j];
      }
    }
  }

  lemma OneWhenLastWrong(options: seq<OptionInput>)
    requires options != [] && !options[|options| - 1].isCorrect
    requires var init := options[..|options| - 1];
      CorrectCount(init) == 1 <==> ExactlyOneCorrect(init)
    ensures CorrectCount(options) == 1 <==> ExactlyOneCorrect(options)
  {
    var init := options[..|options| - 1];
    assert CorrectCount(options) == CorrectCount(init);
    OneCorrectDropWrong(options);
  }

  /** A wrong last option does not change whether exactly one is correct. */
  lemma OneCorrectDropWrong(options: seq<OptionInput>)
    requires options != [] && !options[|options| - 1].isCorrect
    ensures ExactlyOneCorrect(options) <==> ExactlyOneCorrect(options[..|options| - 1])
  {
    var init := options[..|options| - 1];
    if ExactlyOneCorrect(init) {
      var i :| 0 <= i < |init| && OnlyCorrect(init, i);
      OnlyCorrectDropWrong(options, i);
    }
    if ExactlyOneCorrect(options) {
      var i :| 0 <= i < |options| && OnlyCorrect(options, i);
      OnlyCorrectDropWrong(options, i);
    }
  }

  /** The only correct option is any correct option. */
  lemma OnlyCorrectIsUnique(options: seq<OptionInput>, i: int, k: int)
    requires OnlyCorrect(options, i) && 0 <= k < |options| && options[k].isCorrect
    ensures i == k
  {
  }

  lemma OnlyCorrectDropWrong(options: seq<OptionInput>, i: int)
    requires options != [] && !options[|options| - 1].isCorrect
    ensures OnlyCorrect(options, i) <==> OnlyCorrect(options[..|options| - 1], i)
  {
    var n := |options|;
    var init := options[..n - 1];
    assert forall j :: 0 <= j < n - 1 ==> init[j] == options[j];
  }

  // ------------------------------------------------------------ the course-complete gate

  /** isCourseCompletedForStudent: the enrollment's completedAt is set, or else the
      course has a module, has a lesson, and the completed-progress count equals
      the lesson count. */
  predicate CourseCompleted(
    courses: map<Id, Course>, enrollments: map<(Id, Id), Enrollment>, lessonCourse: map<Id, Id>,
    progress: map<(Id, Id), Progress>, studentId: Id, courseId: Id)
  {
    var key := (studentId, courseId);
    if key in enrollments && enrollments[key].completedAt.Some? then true
    else if courseId !in courses || |courses[courseId].modules| == 0 then false
    else
      var lessons := CourseLessons(lessonCourse, courseId);
      lessons != {} && |CompletedLessons(progress, lessonCourse, studentId, courseId)| == |lessons|
  }

  /** The gate opens exactly when the enrollment records completion, or the course has
      a module and a lesson and every one of its lessons is completed. */
  lemma CourseCompletedMeaning(
    courses: map<Id, Course>, enrollments: map<(Id, Id), Enrollment>, lessonCourse: map<Id, Id>,
    progress: map<(Id, Id), Progress>, studentId: Id, courseId: Id)
    ensures CourseCompleted(courses, enrollments, lessonCourse, progress, studentId, courseId) <==>
      || ((studentId, courseId) in enrollments && enrollments[(studentId, courseId)].completedAt.Some?)
      || (&& courseId in courses && |courses[courseId].modules| > 0
          && CourseLessons(lessonCourse, courseId) != {}
          && forall l :: l in CourseLessons(lessonCourse, courseId) ==> IsDone(progress, studentId, l))
  {
    var all := CourseLessons(lessonCourse, courseId);
    var done := CompletedLessons(progress, lessonCourse, studentId, courseId);
    assert done <= all;
    SubsetSize(done, all);
    FinishedIffAllDone(progress, lessonCourse, studentId, courseId);
  }

  lemma SubsetSize<T>(a: set<T>, b: set<T>)
    requires a <= b
    ensures |a| <= |b|
  {
    assert b == a + (b - a);
  }

  /** A course whose enrollment completeLesson has marked finished passes the gate. */
  lemma FinishedEnrollmentOpensGate(
    courses: map<Id, Course>, enrollments: map<(Id, Id), Enrollment>, lessonCourse: map<Id, Id>,
    progress: map<(Id, Id), Progress>, studentId: Id, courseId: Id, now: Time)
    requires (studentId, courseId) in enrollments
    ensures CourseCompleted(courses, MarkFinished(enrollments, studentId, courseId, now), lessonCourse, progress, studentId, courseId)
  {
  }

  // ------------------------------------------------------------ student: exam view

  /** An option as the student sees it: its id and label (`text`), no `isCorrect`. */
  datatype OptionView = OptionView(id: Id, text: string)

  datatype QuestionView = QuestionView(id: Id, title: string, order: int, options: seq<OptionView>)

  datatype ExamView = ExamView(
    id: Id, courseId: Id, title: string, passScore: int, isActive: bool, questions: seq<QuestionView>)

  function QuestionViewOf(q: Question): (v: QuestionView)
    ensures v.id == q.id && v.title == q.title && v.order == q.order
    ensures |v.options| == |q.options|
    ensures forall k :: 0 <= k < |q.options| ==> v.options[k] == OptionView(q.options[k].id, q.options[k].text)
  {
    QuestionView(q.id, q.title, q.order, seq(|q.options|, k requires 0 <= k < |q.options| => OptionView(q.options[k].id, q.options[k].text)))
  }

  function ExamViewOf(examId: Id, exam: Exam): (v: ExamView)
    ensures v.id == examId && v.courseId == exam.courseId && v.title == exam.title
    ensures v.passScore == exam.passScore && v.isActive == exam.isActive
    ensures |v.questions| == |exam.questions|
    ensures forall k :: 0 <= k < |exam.questions| ==> v.questions[k] == QuestionViewOf(exam.questions[k])
  {
    ExamView(examId, exam.courseId, exam.title, exam.passScore, exam.isActive,
      seq(|exam.questions|, k requires 0 <= k < |exam.questions| => QuestionViewOf(exam.questions[k])))
  }

  /** getStudentExam: a missing exam, an inactive exam and a closed gate are refused,
      in that order; otherwise the view, which carries no option's `isCorrect`. */
  function GetStudentExam(db: Db, examId: Id, studentId: Id): (r: Result<ExamView, ExamError>)
    reads db
    ensures examId !in db.exams <==> r == Err(ExamNotFound)
    ensures r == Err(ExamInactive) <==> examId in db.exams && !db.exams[examId].isActive
    ensures r == Err(CourseIncomplete) <==>
      && examId in db.exams && db.exams[examId].isActive
      && !CourseCompleted(db.courses, db.enrollments, db.lessonCourse, db.progress, studentId, db.exams[examId].courseId)
    ensures r.Ok? ==> examId in db.exams && r.value == ExamViewOf(examId, db.exams[examId])
  {
    if examId !in db.exams then Err(ExamNotFound)
    else
      var exam := db.exams[examId];
      if !exam.isActive then Err(ExamInactive)
      else if !CourseCompleted(db.courses, db.enrollments, db.lessonCourse, db.progress, studentId, exam.courseId) then Err(CourseIncomplete)
      else Ok(ExamViewOf(examId, exam))
  }

  // ------------------------------------------------------------ student: start an attempt

  /** The student's attempts at the exam. */
  function AttemptsOf(attempts: map<Id, Attempt>, studentId: Id, examId: Id): set<Id> {
    set id | id in attempts && attempts[id].studentId == studentId && attempts[id].examId == examId
  }

  predicate HasPassed(attempts: map<Id, Attempt>, studentId: Id, examId: Id) {
    exists id :: id in attempts && attempts[id].studentId == studentId && attempts[id].examId == examId && attempts[id].passed
  }

  datatype AttemptStarted = AttemptStarted(
    attemptId: Id, attemptNumber: int, maxAttempts: int, passMinPercent: int, exam: ExamView)

  /** startStudentAttempt: the exam view's refusals, then a prior pass, then the
      attempt limit; otherwise a fresh in-progress attempt numbered count + 1.
      `maxAttempts` is the configured limit and `attemptId` the id the store assigns. */
  method StartStudentAttempt(db: Db, examId: Id, studentId: Id, maxAttempts: int, attemptId: Id, now: Time)
    returns (r: Result<AttemptStarted, ExamError>)
    requires attemptId !in db.attempts
    modifies db`attempts
    ensures GetStudentExam(db, examId, studentId).Err? ==>
      r == Err(GetStudentExam(db, examId, studentId).error) && db.attempts == old(db.attempts)
    ensures GetStudentExam(db, examId, studentId).Ok? && HasPassed(old(db.attempts), studentId, examId) ==>
      r == Err(AlreadyPassed) && db.attempts == old(db.attempts)
    ensures (&& GetStudentExam(db, examId, studentId).Ok? && !HasPassed(old(db.attempts), studentId, examId)
             && |AttemptsOf(old(db.attempts), studentId, examId)| >= maxAttempts) ==>
      r == Err(AttemptLimit) && db.attempts == old(db.attempts)
    ensures (&& GetStudentExam(db, examId, studentId).Ok? && !HasPassed(old(db.attempts), studentId, examId)
             && |AttemptsOf(old(db.attempts), studentId, examId)| < maxAttempts) ==>
      var number := |AttemptsOf(old(db.attempts), studentId, examId)| + 1;
      && r == Ok(AttemptStarted(attemptId, number, maxAttempts, PASS_SCORE_PERCENT, GetStudentExam(db, examId, studentId).value))
      && db.attempts == old(db.attempts)[attemptId := Attempt(studentId, examId, number, 0, false, now, None)]
  {
    var view := GetStudentExam(db, examId, studentId);
    if view.Err? {
      return Err(view.error);
    }
    if HasPassed(db.attempts, studentId, examId) {
      return Err(AlreadyPassed);
    }
    var count := |AttemptsOf(db.attempts, studentId, examId)|;
    if count >= maxAttempts {
      return Err(AttemptLimit);
    }
    db.attempts := db.attempts[attemptId := Attempt(studentId, examId, count + 1, 0, false, now, None)];
    return Ok(AttemptStarted(attemptId, count + 1, maxAttempts, PASS_SCORE_PERCENT, view.value));
  }

  /** Attempt numbering: each attempt's number lies in 1..(its pair's attempt count),
      that count is within the limit, and no two attempts of a pair share a number. */
  predicate NumberedWithin(attempts: map<Id, Attempt>, maxAttempts: int) {
    && (forall id :: id in attempts ==>
         var n := |AttemptsOf(attempts, attempts[id].studentId, attempts[id].examId)|;
         1 <= attempts[id].attemptNumber <= n <= maxAttempts)
    && (forall a, b :: a in attempts && b in attempts && a != b
         && attempts[a].studentId == attempts[b].studentId && attempts[a].examId == attempts[b].examId
         ==> attempts[a].attemptNumber != attempts[b].attemptNumber)
  }

  /** An attempt still in progress has not passed. */
  predicate UnfinishedNotPassed(attempts: map<Id, Attempt>) {
    forall id :: id in attempts && attempts[id].finishedAt.None? ==> !attempts[id].passed
  }

  /** Adding an attempt grows its own pair's set by one and leaves every other pair's alone. */
  lemma AttemptsOfAdd(attempts: map<Id, Attempt>, id: Id, a: Attempt, studentId: Id, examId: Id)
    requires id !in attempts
    ensures AttemptsOf(attempts[id := a], studentId, examId) ==
      if a.studentId == studentId && a.examId == examId then AttemptsOf(attempts, studentId, examId) + {id}
      else AttemptsOf(attempts, studentId, examId)
  {
  }

  /** A start that passes the guards keeps the numbering invariant and the
      in-progress invariant. */
  lemma StartKeepsNumbering(attempts: map<Id, Attempt>, maxAttempts: int, attemptId: Id, studentId: Id, examId: Id, now: Time)
    requires NumberedWithin(attempts, maxAttempts) && UnfinishedNotPassed(attempts)
    requires attemptId !in attempts
    requires |AttemptsOf(attempts, studentId, examId)| < maxAttempts
    ensures var count := |AttemptsOf(attempts, studentId, examId)|;
      var next := attempts[attemptId := Attempt(studentId, examId, count + 1, 0, false, now, None)];
      NumberedWithin(next, maxAttempts) && UnfinishedNotPassed(next)
  {
    var count := |AttemptsOf(attempts, studentId, examId)|;
    var a := Attempt(studentId, examId, count + 1, 0, false, now, None);
    var next := attempts[attemptId := a];
    forall id | id in next
      ensures var n := |AttemptsOf(next, next[id].studentId, next[id].examId)|;
        1 <= next[id].attemptNumber <= n <= maxAttempts
    {
      var s, e := next[id].studentId, next[id].examId;
      AttemptsOfAdd(attempts, attemptId, a, s, e);
      if s == studentId && e == examId {
        assert attemptId !in AttemptsOf(attempts, s, e);
        assert |AttemptsOf(next, s, e)| == count + 1;
      }
    }
    forall x, y | x in next && y in next && x != y
      && next[x].studentId == next[y].studentId && next[x].examId == next[y].examId
      ensures next[x].attemptNumber != next[y].attemptNumber
    {
      if x == attemptId {
        assert y in AttemptsOf(attempts, studentId, examId);
      } else if y == attemptId {
        assert x in AttemptsOf(attempts, studentId, examId);
      }
    }
  }

  // ------------------------------------------------------------ student: submit

  /** One entry of the submitted answer list; an empty string stands for a missing
      or falsy `questionId` / `optionId`. */
  datatype SentAnswer = SentAnswer(questionId: Id, optionId: Id)

  predicate Usable(a: SentAnswer) {
    a.questionId != "" && a.optionId != ""
  }

  /** `sentByQuestion` after the loop: usable entries set the map in order, so a later
      entry for a question replaces an earlier one. */
  function AnswerMap(sent: seq<SentAnswer>): map<Id, Id> {
    if sent == [] then map[]
    else
      var m := AnswerMap(sent[..|sent| - 1]);
      var a := sent[|sent| - 1];
      if Usable(a) then m[a.questionId := a.optionId] else m
  }

  /** The `sentByQuestion` loop. */
  method CollectAnswers(sent: seq<SentAnswer>) returns (m: map<Id, Id>)
    ensures m == AnswerMap(sent)
  {
    m := map[];
    var i := 0;
    while i < |sent|
      invariant 0 <= i <= |sent|
      invariant m == AnswerMap(sent[..i])
    {
      assert sent[..i + 1][..i] == sent[..i];
      var a := sent[i];
      if a.questionId != "" && a.optionId != "" {
        m := m[a.questionId := a.optionId];
      }
      i := i + 1;
    }
    assert sent[..|sent|] == sent;
  }

  /** A question is answered exactly when some usable entry names it. */
  lemma {:induction false} AnswerMapKeys(sent: seq<SentAnswer>)
    ensures forall q :: q in AnswerMap(sent) <==>
      exists i :: 0 <= i < |sent| && Usable(sent[i]) && sent[i].questionId == q
  {
    if sent != [] {
      var init := sent[..|sent| - 1];
      AnswerMapKeys(init);
      assert forall i :: 0 <= i < |init| ==> init[i] == sent[i];
    }
  }

  /** The last usable entry for a question decides its chosen option. */
  lemma {:induction false} AnswerMapLastWins(sent: seq<SentAnswer>, i: nat)
    requires i < |sent| && Usable(sent[i])
    requires forall j :: i < j < |sent| && Usable(sent[j]) ==> sent[j].questionId != sent[i].questionId
    ensures sent[i].questionId in AnswerMap(sent)
    ensures AnswerMap(sent)[sent[i].questionId] == sent[i].optionId
  {
    var n := |sent|;
    var init := sent[..n - 1];
    if i < n - 1 {
      assert forall j :: 0 <= j < n - 1 ==> init[j] == sent[j];
      AnswerMapLastWins(init, i);
    }
  }

  predicate AllAnswered(questions: seq<Question>, chosen: map<Id, Id>) {
    forall k :: 0 <= k < |questions| ==> questions[k].id in chosen
  }

  /** `q.options.find(o => o.id === optionId)` finds something. */
  predicate HasOption(q: Question, optionId: Id) {
    exists o :: o in q.options && o.id == optionId
  }

  predicate OptionsBelong(questions: seq<Question>, chosen: map<Id, Id>)
    requires AllAnswered(questions, chosen)
  {
    forall k :: 0 <= k < |questions| ==> HasOption(questions[k], chosen[questions[k].id])
  }

  /** The "every question answered" loop. */
  method CheckAllAnswered(questions: seq<Question>, chosen: map<Id, Id>) returns (ok: bool)
    ensures ok == AllAnswered(questions, chosen)
  {
    var i := 0;
    while i < |questions|
      invariant 0 <= i <= |questions|
      invariant forall k :: 0 <= k < i ==> questions[k].id in chosen
    {
      if questions[i].id !in chosen {
        return false;
      }
      i := i + 1;
    }
    return true;
  }

  /** The "chosen option belongs to its question" loop. */
  method CheckOptionsBelong(questions: seq<Question>, chosen: map<Id, Id>) returns (ok: bool)
    requires AllAnswered(questions, chosen)
    ensures ok == OptionsBelong(questions, chosen)
  {
    var i := 0;
    while i < |questions|
      invariant 0 <= i <= |questions|
      invariant forall k :: 0 <= k < i ==> HasOption(questions[k], chosen[questions[k].id])
    {
      var q := questions[i];
      if !exists o | o in q.options :: o.id == chosen[q.id] {
        return false;
      }
      i := i + 1;
    }
    return true;
  }

  /** `q.options.find(o => o.isCorrect)`: the id of the first option marked correct. */
  function FirstCorrect(options: seq<ExamOption>): (r: Option<Id>)
    ensures r.None? <==> forall j :: 0 <= j < |options| ==> !options[j].isCorrect
    ensures r.Some? ==>
      exists i :: 0 <= i < |options| && options[i].isCorrect && options[i].id == r.value
        && forall j :: 0 <= j < i ==> !options[j].isCorrect
  {
    if options == [] then None
    else if options[0].isCorrect then Some(options[0].id)
    else
      var r := FirstCorrect(options[1..]);
      assert forall j :: 1 <= j < |options| ==> options[1..][j - 1] == options[j];
      assert r.Some? ==>
        exists i :: 1 <= i < |options| && options[i].isCorrect && options[i].id == r.value
          && forall j :: 0 <= j < i ==> !options[j].isCorrect;
      r
  }

  /** The question counts as right: the chosen id is the first correct option's id. */
  predicate AnsweredRight(q: Question, chosen: map<Id, Id>) {
    q.id in chosen && FirstCorrect(q.options) == Some(chosen[q.id])
  }

  /** How many of the first n questions are answered right. */
  function CorrectUpTo(questions: seq<Question>, chosen: map<Id, Id>, n: nat): (c: nat)
    requires n <= |questions|
    ensures c <= n
  {
    if n == 0 then 0
    else CorrectUpTo(questions, chosen, n - 1) + (if AnsweredRight(questions[n - 1], chosen) then 1 else 0)
  }

  /** The `correct++` loop. */
  method CountCorrect(questions: seq<Question>, chosen: map<Id, Id>) returns (correct: nat)
    requires AllAnswered(questions, chosen)
    ensures correct == CorrectUpTo(questions, chosen, |questions|)
  {
    correct := 0;
    var i := 0;
    while i < |questions|
      invariant 0 <= i <= |questions|
      invariant correct == CorrectUpTo(questions, chosen, i)
    {
      var q := questions[i];
      var chosenId := chosen[q.id];
      var right := FirstCorrect(q.options);
      if right.Some? && chosenId == right.value {
        correct := correct + 1;
      }
      i := i + 1;
    }
  }

  /** Every question is right exactly when the count reaches the question count. */
  lemma {:induction false} FullCountIffAllRight(questions: seq<Question>, chosen: map<Id, Id>, n: nat)
    requires n <= |questions|
    ensures CorrectUpTo(questions, chosen, n) == n <==> forall k :: 0 <= k < n ==> AnsweredRight(questions[k], chosen)
  {
    if n > 0 {
      FullCountIffAllRight(questions, chosen, n - 1);
    }
  }

  /** No option ids repeat within a question (option rows have primary keys). */
  predicate DistinctOptionIds(options: seq<ExamOption>) {
    forall i, j :: 0 <= i < j < |options| ==> options[i].id != options[j].id
  }

  /** Exactly one option of the stored question is correct (what validateOptions admits). */
  predicate OneCorrectOption(options: seq<ExamOption>) {
    exists i :: 0 <= i < |options| && options[i].isCorrect
      && forall j :: 0 <= j < |options| && j != i ==> !options[j].isCorrect
  }

  /** For a question validateOptions admitted, the chosen option is graded right
      exactly when that option is the one marked correct. */
  lemma RightIffChosenCorrect(q: Question, chosen: map<Id, Id>, k: nat)
    requires OneCorrectOption(q.options) && DistinctOptionIds(q.options)
    requires q.id in chosen && k < |q.options| && q.options[k].id == chosen[q.id]
    ensures AnsweredRight(q, chosen) <==> q.options[k].isCorrect
  {
    var first := FirstCorrect(q.options);
    if q.options[k].isCorrect {
      assert first.Some?;
      var i :| 0 <= i < |q.options| && q.options[i].isCorrect && q.options[i].id == first.value
        && forall j :: 0 <= j < i ==> !q.options[j].isCorrect;
      var c :| 0 <= c < |q.options| && q.options[c].isCorrect
        && forall j :: 0 <= j < |q.options| && j != c ==> !q.options[j].isCorrect;
      assert i == c && k == c;
    }
    if AnsweredRight(q, chosen) {
      var i :| 0 <= i < |q.options| && q.options[i].isCorrect && q.options[i].id == first.value
        && forall j :: 0 <= j < i ==> !q.options[j].isCorrect;
      assert q.options[i].id == q.options[k].id;
      assert i == k;
    }
  }

  /** The outcome of grading. */
  datatype Grade = Grade(correct: nat, total: nat, scorePercent: nat, passed: bool)

  /** Grading: the rounded percentage of right answers, passed at 75 or more. */
  function GradeOf(questions: seq<Question>, chosen: map<Id, Id>): (g: Grade)
    requires |questions| > 0
    ensures g.total == |questions| && g.correct <= g.total
    ensures g.correct == CorrectUpTo(questions, chosen, |questions|)
    ensures g.scorePercent <= 100
    ensures g.passed <==> g.scorePercent >= PASS_SCORE_PERCENT
    ensures g.passed <==> 200 * g.correct >= 149 * g.total
    ensures g.scorePercent == 100 <== g.correct == g.total
  {
    var correct := CorrectUpTo(questions, chosen, |questions|);
    var score := RoundPercent(correct, |questions|);
    PassLine(correct, |questions|);
    Grade(correct, |questions|, score, score >= PASS_SCORE_PERCENT)
  }

  /** The rounded percentage reaches 75 exactly when correct / total >= 74.5 %. */
  lemma PassLine(correct: nat, total: nat)
    requires total > 0
    ensures RoundPercent(correct, total) >= 75 <==> 200 * correct >= 149 * total
  {
    var p := RoundPercent(correct, total);
    if p >= 75 {
      assert 2 * total * p >= 2 * total * 75;
    }
    if 200 * correct >= 149 * total {
      assert 2 * total * 75 < 2 * total * (p + 1);
      MulLeftCancel(2 * total, 75, p + 1);
    }
  }

  /** Three right out of four is exactly the pass line; seven out of ten scores the
      default `passScore` of 70 and still fails. */
  lemma PassLineExamples()
    ensures RoundPercent(3, 4) == 75 && RoundPercent(3, 4) >= PASS_SCORE_PERCENT
    ensures RoundPercent(7, 10) == DEFAULT_PASS_SCORE && RoundPercent(7, 10) < PASS_SCORE_PERCENT
  {
  }

  /** The answer rows written for the attempt: one per question, in question order. */
  function AnswerRows(questions: seq<Question>, chosen: map<Id, Id>): (rows: seq<Answer>)
    requires AllAnswered(questions, chosen)
    ensures |rows| == |questions|
    ensures forall k :: 0 <= k < |questions| ==>
      rows[k].questionId == questions[k].id && rows[k].optionId == chosen[questions[k].id]
  {
    seq(|questions|, k requires 0 <= k < |questions| => Answer(questions[k].id, chosen[questions[k].id]))
  }

  /** The certificate upsert of a passing submit: keyed by (student, course), it points
      at the attempt, carries its score and a fresh `issuedAt`; an existing row keeps its id. */
  function CertificateOnPass(
    certs: map<(Id, Id), Certificate>, studentId: Id, courseId: Id, attemptId: Id, score: int, now: Time, newId: Id)
    : (r: map<(Id, Id), Certificate>)
    ensures r.Keys == certs.Keys + {(studentId, courseId)}
    ensures forall k :: k in certs && k != (studentId, courseId) ==> r[k] == certs[k]
    ensures r[(studentId, courseId)].attemptId == attemptId
    ensures r[(studentId, courseId)].scorePercent == score
    ensures r[(studentId, courseId)].issuedAt == now
    ensures r[(studentId, courseId)].id == if (studentId, courseId) in certs then certs[(studentId, courseId)].id else newId
  {
    var key := (studentId, courseId);
    if key in certs then certs[key := certs[key].(scorePercent := score, attemptId := attemptId, issuedAt := now)]
    else certs[key := Certificate(newId, attemptId, score, now)]
  }

  /** The refusals of submitStudentAttempt, checked in the source's order. */
  function SubmitCheck(db: Db, attemptId: Id, studentId: Id, sent: seq<SentAnswer>): (e: Option<ExamError>)
    reads db
    ensures e.None? ==>
      && attemptId in db.attempts
      && db.attempts[attemptId].examId in db.exams
      && |db.exams[db.attempts[attemptId].examId].questions| > 0
      && AllAnswered(db.exams[db.attempts[attemptId].examId].questions, AnswerMap(sent))
  {
    if attemptId !in db.attempts then Some(AttemptNotFound)
    else
      var a := db.attempts[attemptId];
      if a.studentId != studentId then Some(NotAttemptOwner)
      else if a.finishedAt.Some? then Some(AttemptFinished)
      else if a.examId !in db.exams then Some(InvalidExam)
      else
        var exam := db.exams[a.examId];
        if !exam.isActive then Some(ExamInactive)
        else if HasPassed(db.attempts, studentId, a.examId) then Some(AlreadyPassed)
        else if !CourseCompleted(db.courses, db.enrollments, db.lessonCourse, db.progress, studentId, exam.courseId) then Some(CourseIncomplete)
        else if |exam.questions| == 0 then Some(NoQuestions)
        else if |sent| == 0 then Some(NoAnswers)
        else
          var chosen := AnswerMap(sent);
          if !AllAnswered(exam.questions, chosen) then Some(Unanswered)
          else if !OptionsBelong(exam.questions, chosen) then Some(InvalidOption)
          else None
  }

  /** A submit is admitted exactly when the attempt exists, is the student's own and
      in progress, its exam exists and is active, the student has no passed attempt
      at it, the course gate is open, the exam has questions, the answer list is
      non-empty, every question is answered and every chosen option is the question's. */
  lemma SubmitAdmittedIff(db: Db, attemptId: Id, studentId: Id, sent: seq<SentAnswer>)
    ensures SubmitCheck(db, attemptId, studentId, sent).None? <==>
      && attemptId in db.attempts
      && db.attempts[attemptId].studentId == studentId
      && db.attempts[attemptId].finishedAt.None?
      && db.attempts[attemptId].examId in db.exams
      && db.exams[db.attempts[attemptId].examId].isActive
      && !HasPassed(db.attempts, studentId, db.attempts[attemptId].examId)
      && CourseCompleted(db.courses, db.enrollments, db.lessonCourse, db.progress, studentId,
           db.exams[db.attempts[attemptId].examId].courseId)
      && |db.exams[db.attempts[attemptId].examId].questions| > 0
      && sent != []
      && AllAnswered(db.exams[db.attempts[attemptId].examId].questions, AnswerMap(sent))
      && OptionsBelong(db.exams[db.attempts[attemptId].examId].questions, AnswerMap(sent))
  {
  }

  /** Ownership is checked before the attempt's state: another student's attempt is
      refused as not theirs whether or not it is finished, and a finished attempt of
      the student's own is refused before anything about its exam is looked at. */
  lemma SubmitOwnerBeforeState(db: Db, attemptId: Id, studentId: Id, sent: seq<SentAnswer>)
    requires attemptId in db.attempts
    ensures db.attempts[attemptId].studentId != studentId ==>
      SubmitCheck(db, attemptId, studentId, sent) == Some(NotAttemptOwner)
    ensures db.attempts[attemptId].studentId == studentId && db.attempts[attemptId].finishedAt.Some? ==>
      SubmitCheck(db, attemptId, studentId, sent) == Some(AttemptFinished)
  {
  }

  /** A non-empty answer list whose entries all lack an id is never admitted, and is
      not refused as empty either. */
  lemma UnusableAnswersRefused(db: Db, attemptId: Id, studentId: Id, sent: seq<SentAnswer>)
    requires sent != [] && forall i :: 0 <= i < |sent| ==> !Usable(sent[i])
    ensures SubmitCheck(db, attemptId, studentId, sent) != None
    ensures SubmitCheck(db, attemptId, studentId, sent) != Some(NoAnswers)
  {
    AnswerMapKeys(sent);
    if attemptId in db.attempts && db.attempts[attemptId].examId in db.exams {
      var questions := db.exams[db.attempts[attemptId].examId].questions;
      if |questions| > 0 {
        assert questions[0].id !in AnswerMap(sent);
      }
    }
  }

  /** What a successful submit returns. */
  datatype Submitted = Submitted(
    id: Id, attemptNumber: int, scorePercent: nat, passed: bool, finishedAt: Time,
    correctAnswers: nat, totalQuestions: nat, passMinPercent: nat)

  /** The checking half of submitStudentAttempt: the refusals in order, with the
      `sentByQuestion` map built on the way. */
  method CheckSubmit(db: Db, attemptId: Id, studentId: Id, sent: seq<SentAnswer>)
    returns (refusal: Option<ExamError>, chosen: map<Id, Id>)
    ensures refusal == SubmitCheck(db, attemptId, studentId, sent)
    ensures refusal.None? ==> chosen == AnswerMap(sent)
  {
    chosen := map[];
    if attemptId !in db.attempts {
      return Some(AttemptNotFound), chosen;
    }
    var attempt := db.attempts[attemptId];
    if attempt.studentId != studentId {
      return Some(NotAttemptOwner), chosen;
    }
    if attempt.finishedAt.Some? {
      return Some(AttemptFinished), chosen;
    }
    if attempt.examId !in db.exams {
      return Some(InvalidExam), chosen;
    }
    var exam := db.exams[attempt.examId];
    if !exam.isActive {
      return Some(ExamInactive), chosen;
    }
    if HasPassed(db.attempts, studentId, attempt.examId) {
      return Some(AlreadyPassed), chosen;
    }
    if !CourseCompleted(db.courses, db.enrollments, db.lessonCourse, db.progress, studentId, exam.courseId) {
      return Some(CourseIncomplete), chosen;
    }
    var questions := exam.questions;
    if |questions| == 0 {
      return Some(NoQuestions), chosen;
    }
    if |sent| == 0 {
      return Some(NoAnswers), chosen;
    }
    chosen := CollectAnswers(sent);
    var answered := CheckAllAnswered(questions, chosen);
    if !answered {
      return Some(Unanswered), chosen;
    }
    var belong := CheckOptionsBelong(questions, chosen);
    if !belong {
      return Some(InvalidOption), chosen;
    }
    return None, chosen;
  }

  /** The transaction of submitStudentAttempt: the attempt's answers replaced by one
      row per question, the attempt graded and finished, and on a pass the
      (student, course) certificate upserted. */
  method RecordSubmission(
    db: Db, attemptId: Id, studentId: Id, courseId: Id, questions: seq<Question>, chosen: map<Id, Id>,
    now: Time, newCertificateId: Id)
    returns (res: Submitted)
    requires attemptId in db.attempts && |questions| > 0 && AllAnswered(questions, chosen)
    modifies db`attempts, db`answers, db`certificates
    ensures var a := old(db.attempts[attemptId]);
      var g := GradeOf(questions, chosen);
      && res == Submitted(attemptId, a.attemptNumber, g.scorePercent, g.passed, now, g.correct, g.total, PASS_SCORE_PERCENT)
      && db.answers == old(db.answers)[attemptId := AnswerRows(questions, chosen)]
      && db.attempts == old(db.attempts)[attemptId := a.(scorePercent := g.scorePercent, passed := g.passed, finishedAt := Some(now))]
      && db.certificates == (if g.passed then CertificateOnPass(old(db.certificates), studentId, courseId, attemptId, g.scorePercent, now, newCertificateId)
         else old(db.certificates))
  {
    var attempt := db.attempts[attemptId];
    var correct := CountCorrect(questions, chosen);
    var total := |questions|;
    var score := RoundPercent(correct, total);
    var passed := score >= PASS_SCORE_PERCENT;
    db.answers := db.answers[attemptId := AnswerRows(questions, chosen)];
    db.attempts := db.attempts[attemptId := attempt.(scorePercent := score, passed := passed, finishedAt := Some(now))];
    if passed {
      db.certificates := CertificateOnPass(db.certificates, studentId, courseId, attemptId, score, now, newCertificateId);
    }
    return Submitted(attemptId, attempt.attemptNumber, score, passed, now, correct, total, PASS_SCORE_PERCENT);
  }

  /** submitStudentAttempt: every refusal comes before any write; a submit that passes
      them replaces the attempt's answers, finishes and grades the attempt, and on a
      pass upserts the (student, course) certificate. `newCertificateId` is the id the
      store would give a created certificate. */
  method SubmitStudentAttempt(db: Db, attemptId: Id, studentId: Id, sent: seq<SentAnswer>, now: Time, newCertificateId: Id)
    returns (r: Result<Submitted, ExamError>)
    modifies db`attempts, db`answers, db`certificates
    ensures old(SubmitCheck(db, attemptId, studentId, sent)).Some? ==>
      && r == Err(old(SubmitCheck(db, attemptId, studentId, sent)).value)
      && db.attempts == old(db.attempts) && db.answers == old(db.answers) && db.certificates == old(db.certificates)
    ensures old(SubmitCheck(db, attemptId, studentId, sent)).None? ==>
      var a := old(db.attempts[attemptId]);
      var exam := db.exams[a.examId];
      var chosen := AnswerMap(sent);
      var g := GradeOf(exam.questions, chosen);
      && r == Ok(Submitted(attemptId, a.attemptNumber, g.scorePercent, g.passed, now, g.correct, g.total, PASS_SCORE_PERCENT))
      && db.answers == old(db.answers)[attemptId := AnswerRows(exam.questions, chosen)]
      && db.attempts == old(db.attempts)[attemptId := a.(scorePercent := g.scorePercent, passed := g.passed, finishedAt := Some(now))]
      && db.certificates == (if g.passed then CertificateOnPass(old(db.certificates), studentId, exam.courseId, attemptId, g.scorePercent, now, newCertificateId)
         else old(db.certificates))
  {
    var refusal, chosen := CheckSubmit(db, attemptId, studentId, sent);
    if refusal.Some? {
      return Err(refusal.value);
    }
    var exam := db.exams[db.attempts[attemptId].examId];
    var res := RecordSubmission(db, attemptId, studentId, exam.courseId, exam.questions, chosen, now, newCertificateId);
    return Ok(res);
  }

  /** The certificate of (student, course) points at a passed attempt of that student
      at an exam of that course. */
  predicate Backs(attempts: map<Id, Attempt>, exams: map<Id, Exam>, key: (Id, Id), attemptId: Id) {
    && attemptId in attempts
    && attempts[attemptId].passed
    && attempts[attemptId].studentId == key.0
    && attempts[attemptId].examId in exams
    && exams[attempts[attemptId].examId].courseId == key.1
  }

  predicate CertificatesBacked(certs: map<(Id, Id), Certificate>, attempts: map<Id, Attempt>, exams: map<Id, Exam>) {
    forall key :: key in certs ==> Backs(attempts, exams, key, certs[key].attemptId)
  }

  /** A submit's writes keep every certificate backed by a passed attempt and keep
      in-progress attempts unpassed. */
  lemma SubmitKeepsCertificatesBacked(
    certs: map<(Id, Id), Certificate>, attempts: map<Id, Attempt>, exams: map<Id, Exam>,
    attemptId: Id, studentId: Id, score: int, passed: bool, now: Time, newId: Id)
    requires CertificatesBacked(certs, attempts, exams) && UnfinishedNotPassed(attempts)
    requires attemptId in attempts && attempts[attemptId].studentId == studentId
    requires attempts[attemptId].finishedAt.None? && attempts[attemptId].examId in exams
    ensures var a := attempts[attemptId];
      var next := attempts[attemptId := a.(scorePercent := score, passed := passed, finishedAt := Some(now))];
      var courseId := exams[a.examId].courseId;
      && CertificatesBacked(if passed then CertificateOnPass(certs, studentId, courseId, attemptId, score, now, newId) else certs, next, exams)
      && UnfinishedNotPassed(next)
  {
    var a := attempts[attemptId];
    var next := attempts[attemptId := a.(scorePercent := score, passed := passed, finishedAt := Some(now))];
    var courseId := exams[a.examId].courseId;
    forall key | key in certs
      ensures Backs(next, exams, key, certs[key].attemptId)
    {
      assert certs[key].attemptId != attemptId;
    }
  }
}

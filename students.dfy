/** StudentsService: admin creation of a student, and the student's dashboards
    (course list with aggregated progress and exam flag, exam list, certificate
    statuses, one certificate by course). */
module Students {
  import opened Common
  import opened Store
  import opened Text
  import opened LessonProgress
  import opened Exams

  // ------------------------------------------------------------------ e-mail

  /** `(email || '').trim().toLowerCase()`; a missing e-mail is the empty string. */
  function NormalizeEmail(email: string): (r: string)
    ensures forall i :: 0 <= i < |r| ==> !IsUpper(r[i])
    ensures r == [] || (!IsSpace(r[0]) && !IsSpace(r[|r| - 1]))
    ensures exists k :: LoweredAround(email, r, k)
  {
    NormalizedShape(email);
    ToLower(Trim(email))
  }

  /** The three facts about the lower-cased trim, gathered for `NormalizeEmail`. */
  lemma NormalizedShape(email: string)
    ensures var r := ToLower(Trim(email));
      && (forall i :: 0 <= i < |r| ==> !IsUpper(r[i]))
      && (r == [] || (!IsSpace(r[0]) && !IsSpace(r[|r| - 1])))
      && exists k :: LoweredAround(email, r, k)
  {
    LowerOfTrimmed(Trim(email));
    LowerOfTrimAround(email);
  }

  /** r is the lower-cased infix of s at index k, with only whitespace around it. */
  predicate LoweredAround(s: string, r: string, k: int) {
    && 0 <= k && k + |r| <= |s|
    && AllSpace(s[..k]) && AllSpace(s[k + |r|..])
    && forall i :: 0 <= i < |r| ==> r[i] == Lower(s[k + i])
  }

  /** Lower-casing the trim lower-cases the infix that trimming keeps. */
  lemma LowerOfTrimAround(email: string)
    ensures exists k :: LoweredAround(email, ToLower(Trim(email)), k)
  {
    var lead, trail := TrimSplit(email);
    LoweredBetweenSpaces(lead, Trim(email), trail);
  }

  /** Between whitespace, a lower-cased middle is lowered around its index. */
  lemma LoweredBetweenSpaces(lead: string, t: string, trail: string)
    requires AllSpace(lead) && AllSpace(trail)
    ensures LoweredAround(lead + t + trail, ToLower(t), |lead|)
  {
    var s, k, r := lead + t + trail, |lead|, ToLower(t);
    assert s[..k] == lead && s[k + |r|..] == trail;
    forall i | 0 <= i < |r| ensures r[i] == Lower(s[k + i]) {
      assert s[k + i] == t[i];
    }
  }

  /** Lower-casing a trimmed string leaves it trimmed and without upper case. */
  lemma LowerOfTrimmed(t: string)
    requires t == [] || (!IsSpace(t[0]) && !IsSpace(t[|t| - 1]))
    ensures var r := ToLower(t);
      && (forall i :: 0 <= i < |r| ==> !IsUpper(r[i]))
      && (r == [] || (!IsSpace(r[0]) && !IsSpace(r[|r| - 1])))
  {
    if t != [] {
      LowerKeepsSpace(t[0]);
      LowerKeepsSpace(t[|t| - 1]);
    }
  }

  /** Normalising a normalised e-mail changes nothing. */
  lemma NormalizeEmailIdempotent(email: string)
    ensures NormalizeEmail(NormalizeEmail(email)) == NormalizeEmail(email)
  {
    NormalizedIsFixed(NormalizeEmail(email));
  }

  /** A trimmed string without upper-case letters is already normalised. */
  lemma NormalizedIsFixed(r: string)
    requires forall i :: 0 <= i < |r| ==> !IsUpper(r[i])
    requires r == [] || (!IsSpace(r[0]) && !IsSpace(r[|r| - 1]))
    ensures NormalizeEmail(r) == r
  {
    TrimOfTrimmed(r);
    LowerOfLowered(r);
  }

  /** Lower-casing a string without upper-case letters changes nothing. */
  lemma LowerOfLowered(r: string)
    requires forall i :: 0 <= i < |r| ==> !IsUpper(r[i])
    ensures ToLower(r) == r
  {
  }

  // ------------------------------------------------------------------ admin create

  /** CreateStudentDto; an absent `companyId` or `courseId` is the empty string. */
  datatype NewStudent = NewStudent(fullName: string, email: string, companyId: Id, courseId: Id)

  const DEFAULT_COMPANY_NAME: string := "Sem empresa"

  /** The temporary password a created student must change (stored hashed). */
  const TEMP_PASSWORD: string := "123456"

  predicate EmailTaken(students: map<Id, Student>, email: string) {
    exists id :: id in students && students[id].email == email
  }

  /** The unique constraint on `Student.email`. */
  predicate EmailsUnique(students: map<Id, Student>) {
    forall a, b :: a in students && b in students && students[a].email == students[b].email ==> a == b
  }

  /** Inserting a row whose e-mail is not taken keeps e-mails unique. */
  lemma AddKeepsEmailsUnique(students: map<Id, Student>, id: Id, row: Student)
    requires EmailsUnique(students) && id !in students && !EmailTaken(students, row.email)
    ensures EmailsUnique(students[id := row])
  {
  }

  predicate HasCompanyNamed(companies: map<Id, string>, name: string) {
    exists id :: id in companies && companies[id] == name
  }

  /** ensureCompanyId: the given company, or the company named "Sem empresa",
      created with id `newCompanyId` when there is none. */
  method EnsureCompanyId(db: Db, companyId: Id, newCompanyId: Id) returns (id: Id)
    requires newCompanyId !in db.companies
    modifies db`companies
    ensures companyId != "" ==> id == companyId && db.companies == old(db.companies)
    ensures companyId == "" && HasCompanyNamed(old(db.companies), DEFAULT_COMPANY_NAME) ==>
      id in db.companies && db.companies[id] == DEFAULT_COMPANY_NAME && db.companies == old(db.companies)
    ensures companyId == "" && !HasCompanyNamed(old(db.companies), DEFAULT_COMPANY_NAME) ==>
      id == newCompanyId && db.companies == old(db.companies)[newCompanyId := DEFAULT_COMPANY_NAME]
  {
    if companyId != "" {
      return companyId;
    }
    if HasCompanyNamed(db.companies, DEFAULT_COMPANY_NAME) {
      id :| id in db.companies && db.companies[id] == DEFAULT_COMPANY_NAME;
    } else {
      id := newCompanyId;
      db.companies := db.companies[newCompanyId := DEFAULT_COMPANY_NAME];
    }
  }

  /** The row create writes: trimmed name, normalised e-mail, no CPF, the temporary
      password, active, and a forced password change. */
  function CreatedStudent(dto: NewStudent, companyId: Id): (s: Student)
    ensures s.email == NormalizeEmail(dto.email) && s.fullName == Trim(dto.fullName)
    ensures s.cpf.None? && s.password == TEMP_PASSWORD && s.mustChangePassword && s.isActive
    ensures s.companyId == companyId
  {
    Student(Trim(dto.fullName), NormalizeEmail(dto.email), None, TEMP_PASSWORD, true, true, companyId)
  }

  /** create: a normalised e-mail that already exists is refused before anything is
      written; otherwise the student row is inserted and, when a course was given,
      the student-course link is upserted. */
  method CreateStudent(db: Db, dto: NewStudent, studentId: Id, newCompanyId: Id) returns (r: Result<Student, Exception>)
    requires studentId !in db.students && newCompanyId !in db.companies
    modifies db`students, db`companies, db`studentCourses
    ensures r.Err? <==> EmailTaken(old(db.students), NormalizeEmail(dto.email))
    ensures r.Err? ==>
      && r.error == BadRequest
      && db.students == old(db.students) && db.companies == old(db.companies)
      && db.studentCourses == old(db.studentCourses)
    ensures r.Ok? ==>
      && r.value == CreatedStudent(dto, r.value.companyId)
      && db.students == old(db.students)[studentId := r.value]
      && db.studentCourses == old(db.studentCourses) + (if dto.courseId != "" then {(studentId, dto.courseId)} else {})
    ensures r.Ok? && dto.companyId != "" ==> r.value.companyId == dto.companyId
    ensures r.Ok? && dto.companyId == "" ==>
      r.value.companyId in db.companies && db.companies[r.value.companyId] == DEFAULT_COMPANY_NAME
    ensures db.companies == old(db.companies) || db.companies == old(db.companies)[newCompanyId := DEFAULT_COMPANY_NAME]
  {
    if EmailTaken(db.students, NormalizeEmail(dto.email)) {
      return Err(BadRequest);
    }
    var row := InsertStudent(db, dto, studentId, newCompanyId);
    return Ok(row);
  }

  /** The writes of create once the e-mail is known to be free. */
  method InsertStudent(db: Db, dto: NewStudent, studentId: Id, newCompanyId: Id) returns (row: Student)
    requires newCompanyId !in db.companies
    modifies db`students, db`companies, db`studentCourses
    ensures row == CreatedStudent(dto, row.companyId)
    ensures db.students == old(db.students)[studentId := row]
    ensures db.studentCourses == old(db.studentCourses) + (if dto.courseId != "" then {(studentId, dto.courseId)} else {})
    ensures dto.companyId != "" ==> row.companyId == dto.companyId
    ensures dto.companyId == "" ==> row.companyId in db.companies && db.companies[row.companyId] == DEFAULT_COMPANY_NAME
    ensures db.companies == old(db.companies) || db.companies == old(db.companies)[newCompanyId := DEFAULT_COMPANY_NAME]
  {
    var companyId := EnsureCompanyId(db, dto.companyId, newCompanyId);
    row := CreatedStudent(dto, companyId);
    db.students := db.students[studentId := row];
    if dto.courseId != "" {
      db.studentCourses := db.studentCourses + {(studentId, dto.courseId)};
    }
  }

  // ------------------------------------------------------------------ course list

  /** One entry of getStudentCourses. */
  datatype CourseEntry = CourseEntry(
    id: Id,
    title: string,
    totalLessons: nat,
    completedLessons: nat,
    progressPercent: nat,
    hasExam: bool,
    examId: Option<Id>,
    examTitle: Option<string>,
    examUnlocked: bool)

  /** `s || null`: the empty string is falsy. */
  function NonEmpty(s: string): (r: Option<string>)
    ensures r.None? <==> s == ""
    ensures r.Some? ==> r.value == s
  {
    if s == "" then None else Some(s)
  }

  /** The entry built from the course, its exam row if any, and the two counts. */
  function EntryOf(courseId: Id, course: Course, exam: Option<(Id, Exam)>, total: nat, completed: nat): (e: CourseEntry)
    ensures e.id == courseId && e.title == course.title
    ensures e.totalLessons == total && e.completedLessons == completed
    ensures completed <= total ==> e.progressPercent <= 100
    ensures total > 0 && completed == total ==> e.progressPercent == 100
    ensures completed == 0 ==> e.progressPercent == 0
    ensures e.hasExam <==> exam.Some? && exam.value.1.isActive
    ensures e.examUnlocked ==> e.hasExam && total > 0
  {
    var percent := if total > 0 then RoundPercent(completed, total) else 0;
    var hasExam := exam.Some? && exam.value.1.isActive;
    CourseEntry(
      courseId, course.title, total, completed, percent, hasExam,
      if exam.Some? then NonEmpty(exam.value.0) else None,
      if exam.Some? then NonEmpty(exam.value.1.title) else None,
      hasExam && total > 0 && completed >= total)
  }

  /** The exam row of a course, if it has one. */
  ghost function CourseExam(exams: map<Id, Exam>, courseId: Id): (r: Option<(Id, Exam)>)
    ensures r.None? <==> !HasExamFor(exams, courseId)
    ensures r.Some? ==> r.value.0 in exams && exams[r.value.0] == r.value.1 && r.value.1.courseId == courseId
  {
    if HasExamFor(exams, courseId) then
      var id := ExamOf(exams, courseId);
      Some((id, exams[id]))
    else None
  }

  /** The entry of one enrolled course: every lesson of the course counts toward the
      total, and exactly its completed lessons toward the completed count. */
  ghost function CourseEntryFor(
    courses: map<Id, Course>, lessonCourse: map<Id, Id>, progress: map<(Id, Id), Progress>,
    exams: map<Id, Exam>, studentId: Id, courseId: Id): CourseEntry
    requires courseId in courses
  {
    EntryOf(courseId, courses[courseId], CourseExam(exams, courseId),
      |CourseLessons(lessonCourse, courseId)|, |CompletedLessons(progress, lessonCourse, studentId, courseId)|)
  }

  /** What an entry's fields mean: the completed count never exceeds the total, so
      the percentage is at most 100, and the exam is unlocked exactly when the course
      has an active exam and every one of its (at least one) lessons is completed. */
  lemma CourseEntryMeaning(
    courses: map<Id, Course>, lessonCourse: map<Id, Id>, progress: map<(Id, Id), Progress>,
    exams: map<Id, Exam>, studentId: Id, courseId: Id)
    requires courseId in courses
    ensures var e := CourseEntryFor(courses, lessonCourse, progress, exams, studentId, courseId);
      && e.completedLessons <= e.totalLessons
      && e.progressPercent <= 100
      && (e.totalLessons == 0 ==> e.progressPercent == 0)
      && (e.hasExam <==> HasExamFor(exams, courseId) && exams[ExamOf(exams, courseId)].isActive)
      && (e.examUnlocked <==>
           && e.hasExam
           && CourseLessons(lessonCourse, courseId) != {}
           && forall l :: l in CourseLessons(lessonCourse, courseId) ==> IsDone(progress, studentId, l))
  {
    var all := CourseLessons(lessonCourse, courseId);
    var done := CompletedLessons(progress, lessonCourse, studentId, courseId);
    assert done <= all;
    SubsetSize(done, all);
    FinishedIffAllDone(progress, lessonCourse, studentId, courseId);
  }

  /** An unlocked exam in the course list also passes the exam's own course-complete
      gate, for a course that has modules. */
  lemma UnlockedExamPassesGate(
    courses: map<Id, Course>, enrollments: map<(Id, Id), Enrollment>, lessonCourse: map<Id, Id>,
    progress: map<(Id, Id), Progress>, exams: map<Id, Exam>, studentId: Id, courseId: Id)
    requires courseId in courses && |courses[courseId].modules| > 0
    requires CourseEntryFor(courses, lessonCourse, progress, exams, studentId, courseId).examUnlocked
    ensures CourseCompleted(courses, enrollments, lessonCourse, progress, studentId, courseId)
  {
    CourseEntryMeaning(courses, lessonCourse, progress, exams, studentId, courseId);
    CourseCompletedMeaning(courses, enrollments, lessonCourse, progress, studentId, courseId);
  }

  /** The course ids of the student's student-course rows, in row order
      (`findMany({ where: { studentId } })`). */
  function LinkedCourses(links: seq<(Id, Id)>, studentId: Id): (ids: seq<Id>)
    ensures |ids| <= |links|
    ensures forall c :: c in ids <==> (studentId, c) in links
    ensures |links| == 1 ==> ids == (if links[0].0 == studentId then [links[0].1] else [])
    ensures Distinct(links) ==> Distinct(ids)
  {
    if links == [] then []
    else
      (if links[0].0 == studentId then [links[0].1] else []) + LinkedCourses(links[1..], studentId)
  }

  /** The query keeps the order of the rows: it distributes over concatenation. */
  lemma {:induction false} LinkedCoursesAppend(a: seq<(Id, Id)>, b: seq<(Id, Id)>, studentId: Id)
    ensures LinkedCourses(a + b, studentId) == LinkedCourses(a, studentId) + LinkedCourses(b, studentId)
    decreases |a|
  {
    if a == [] {
      assert a + b == b;
    } else {
      assert (a + b)[1..] == a[1..] + b;
      LinkedCoursesAppend(a[1..], b, studentId);
    }
  }

  /** The course list: one entry per student-course row of the student, in row order. */
  ghost function StudentCourseEntries(
    courses: map<Id, Course>, lessonCourse: map<Id, Id>, progress: map<(Id, Id), Progress>,
    exams: map<Id, Exam>, links: seq<(Id, Id)>, studentId: Id): (r: seq<CourseEntry>)
    requires forall c :: (studentId, c) in links ==> c in courses
  {
    var ids := LinkedCourses(links, studentId);
    assert forall k :: 0 <= k < |ids| ==> ids[k] in courses;
    seq(|ids|, k requires 0 <= k < |ids| => CourseEntryFor(courses, lessonCourse, progress, exams, studentId, ids[k]))
  }

  /** `m.get(k) || 0`. */
  function Count0(m: map<Id, nat>, k: Id): nat {
    if k in m then m[k] else 0
  }

  /** The lessons among ls that belong to course c. */
  ghost function LessonsIn(lessonCourse: map<Id, Id>, ls: set<Id>, c: Id): set<Id> {
    set l | l in ls && l in lessonCourse && lessonCourse[l] == c
  }

  /** counts holds, for every enrolled course, how many lessons of `seen` it has. */
  ghost predicate CountsOf(counts: map<Id, nat>, lessonCourse: map<Id, Id>, seen: set<Id>, enrolled: set<Id>) {
    && (forall c :: c in counts ==> c in enrolled)
    && (forall c :: c in enrolled ==> Count0(counts, c) == |LessonsIn(lessonCourse, seen, c)|)
  }

  /** One step of the loop: add one to the lesson's course when it is enrolled. */
  function Tally(counts: map<Id, nat>, lessonCourse: map<Id, Id>, enrolled: set<Id>, l: Id): map<Id, nat> {
    if l in lessonCourse && lessonCourse[l] in enrolled then counts[lessonCourse[l] := Count0(counts, lessonCourse[l]) + 1]
    else counts
  }

  lemma TallyStep(counts: map<Id, nat>, lessonCourse: map<Id, Id>, seen: set<Id>, enrolled: set<Id>, l: Id)
    requires CountsOf(counts, lessonCourse, seen, enrolled) && l !in seen
    ensures CountsOf(Tally(counts, lessonCourse, enrolled, l), lessonCourse, seen + {l}, enrolled)
  {
    forall c | c in enrolled
      ensures Count0(Tally(counts, lessonCourse, enrolled, l), c) == |LessonsIn(lessonCourse, seen + {l}, c)|
    {
      if l in lessonCourse && lessonCourse[l] == c {
        assert LessonsIn(lessonCourse, seen + {l}, c) == LessonsIn(lessonCourse, seen, c) + {l};
      } else {
        assert LessonsIn(lessonCourse, seen + {l}, c) == LessonsIn(lessonCourse, seen, c);
      }
    }
  }

  /** The per-course counting loop shared by `totalLessonsByCourse` and
      `completedLessonsByCourse`: each lesson of ls whose course is enrolled adds one
      to that course's count; other lessons are skipped. */
  method CountByCourse(ls: set<Id>, lessonCourse: map<Id, Id>, enrolled: set<Id>) returns (counts: map<Id, nat>)
    ensures forall c :: c in counts ==> c in enrolled
    ensures forall c :: c in enrolled ==> Count0(counts, c) == |LessonsIn(lessonCourse, ls, c)|
  {
    counts := map[];
    var rest := ls;
    while rest != {}
      invariant rest <= ls
      invariant CountsOf(counts, lessonCourse, ls - rest, enrolled)
      decreases |rest|
    {
      var l :| l in rest;
      TallyStep(counts, lessonCourse, ls - rest, enrolled, l);
      assert ls - (rest - {l}) == (ls - rest) + {l};
      counts := Tally(counts, lessonCourse, enrolled, l);
      rest := rest - {l};
    }
  }

  /** Counting all lessons gives the course's lessons; counting the done lessons
      gives its completed lessons. */
  lemma LessonsInMeaning(progress: map<(Id, Id), Progress>, lessonCourse: map<Id, Id>, studentId: Id, c: Id)
    ensures LessonsIn(lessonCourse, lessonCourse.Keys, c) == CourseLessons(lessonCourse, c)
    ensures LessonsIn(lessonCourse, DoneLessons(progress, studentId), c) == CompletedLessons(progress, lessonCourse, studentId, c)
  {
  }

  /** `examByCourse`: for every enrolled course with an exam, one of its exams. */
  method ExamsByCourse(exams: map<Id, Exam>, enrolled: set<Id>) returns (byCourse: map<Id, Id>)
    ensures forall c :: c in byCourse <==> c in enrolled && HasExamFor(exams, c)
    ensures forall c :: c in byCourse ==> byCourse[c] in exams && exams[byCourse[c]].courseId == c
  {
    byCourse := map[];
    var rest := exams.Keys;
    while rest != {}
      invariant rest <= exams.Keys
      invariant forall c :: c in byCourse ==> byCourse[c] in exams && exams[byCourse[c]].courseId == c
      invariant forall c :: c in byCourse <==>
        c in enrolled && exists e :: e in exams.Keys - rest && exams[e].courseId == c
      decreases |rest|
    {
      var e :| e in rest;
      if exams[e].courseId in enrolled {
        byCourse := byCourse[exams[e].courseId := e];
      }
      rest := rest - {e};
    }
  }

  /** The lessons the student has a completed progress row for. */
  function DoneLessons(progress: map<(Id, Id), Progress>, studentId: Id): (ls: set<Id>)
    ensures forall l :: l in ls <==> IsDone(progress, studentId, l)
  {
    set k | k in progress && k.0 == studentId && progress[k].completed :: k.1
  }

  /** One entry per course the student is linked to in the table, none twice. */
  ghost predicate EntriesOfLinks(r: seq<CourseEntry>, table: set<(Id, Id)>, studentId: Id) {
    && (forall k :: 0 <= k < |r| ==> (studentId, r[k].id) in table)
    && (forall c :: (studentId, c) in table ==> exists k :: 0 <= k < |r| && r[k].id == c)
    && (forall j, k :: 0 <= j < k < |r| ==> r[j].id != r[k].id)
  }

  /** Over the whole student-course table, the course list has one entry per link
      of the student. */
  lemma EntriesOfTable(
    courses: map<Id, Course>, lessonCourse: map<Id, Id>, progress: map<(Id, Id), Progress>,
    exams: map<Id, Exam>, links: seq<(Id, Id)>, table: set<(Id, Id)>, studentId: Id)
    requires Enumerates(links, table)
    requires forall c :: (studentId, c) in links ==> c in courses
    ensures EntriesOfLinks(StudentCourseEntries(courses, lessonCourse, progress, exams, links, studentId), table, studentId)
  {
    var ids := LinkedCourses(links, studentId);
    var r := StudentCourseEntries(courses, lessonCourse, progress, exams, links, studentId);
    assert forall k :: 0 <= k < |r| ==> r[k].id == ids[k];
    forall c | (studentId, c) in table
      ensures exists k :: 0 <= k < |r| && r[k].id == c
    {
      var k :| 0 <= k < |ids| && ids[k] == c;
      assert r[k].id == c;
    }
  }

  /** getStudentCourses. `links` lists the student-course table once, in the query's
      `createdAt` descending order. */
  method GetStudentCourses(db: Db, links: seq<(Id, Id)>, studentId: Id) returns (r: seq<CourseEntry>)
    requires Enumerates(links, db.studentCourses)
    requires forall c :: (studentId, c) in links ==> c in db.courses
    requires OneExamPerCourse(db.exams)
    ensures r == StudentCourseEntries(db.courses, db.lessonCourse, db.progress, db.exams, links, studentId)
    ensures EntriesOfLinks(r, db.studentCourses, studentId)
  {
    EntriesOfTable(db.courses, db.lessonCourse, db.progress, db.exams, links, db.studentCourses, studentId);
    var ids := LinkedCourses(links, studentId);
    if |ids| == 0 {
      return [];
    }
    var enrolled := set c | c in ids;
    assert forall k :: 0 <= k < |ids| ==> ids[k] in db.courses;
    var courses, exams, lessonCourse := db.courses, db.exams, db.lessonCourse;
    var examByCourse := ExamsByCourse(exams, enrolled);
    var totals := CountByCourse(lessonCourse.Keys, lessonCourse, enrolled);
    var completed := CountByCourse(DoneLessons(db.progress, studentId), lessonCourse, enrolled);
    r := seq(|ids|, k requires 0 <= k < |ids| =>
      var c := ids[k];
      EntryOf(c, courses[c],
        if c in examByCourse then Some((examByCourse[c], exams[examByCourse[c]])) else None,
        Count0(totals, c), Count0(completed, c)));
    forall k | 0 <= k < |ids|
      ensures r[k] == CourseEntryFor(db.courses, db.lessonCourse, db.progress, db.exams, studentId, ids[k])
    {
      var c := ids[k];
      LessonsInMeaning(db.progress, lessonCourse, studentId, c);
      if c in examByCourse {
        ExamOfUnique(exams, c, examByCourse[c]);
      }
    }
  }

  // ------------------------------------------------------------------ exam list

  /** One entry of getStudentExams. */
  datatype ExamEntry = ExamEntry(
    courseId: Id, courseTitle: string, examId: Option<Id>, examTitle: Option<string>,
    unlocked: bool, progressPercent: nat)

  function ExamEntryOf(c: CourseEntry): (x: ExamEntry)
    ensures x.courseId == c.id && x.unlocked == c.examUnlocked && x.progressPercent == c.progressPercent
  {
    ExamEntry(c.id, c.title, c.examId, c.examTitle, c.examUnlocked, c.progressPercent)
  }

  /** getStudentExams: the course entries with an exam, projected, in the same order. */
  function StudentExams(courses: seq<CourseEntry>): (r: seq<ExamEntry>)
    ensures |r| <= |courses|
    ensures forall x :: x in r <==> exists c :: c in courses && c.hasExam && x == ExamEntryOf(c)
  {
    if courses == [] then []
    else
      var last := courses[|courses| - 1];
      StudentExams(courses[..|courses| - 1]) + (if last.hasExam then [ExamEntryOf(last)] else [])
  }

  /** The exam list keeps the course list's order: it distributes over concatenation. */
  lemma {:induction false} StudentExamsAppend(a: seq<CourseEntry>, b: seq<CourseEntry>)
    ensures StudentExams(a + b) == StudentExams(a) + StudentExams(b)
    decreases |b|
  {
    if b != [] {
      var init := b[..|b| - 1];
      assert (a + b)[..|a + b| - 1] == a + init;
      assert (a + b)[|a + b| - 1] == b[|b| - 1];
      StudentExamsAppend(a, init);
    } else {
      assert a + b == a;
    }
  }

  // ------------------------------------------------------------------ certificates

  datatype CertificateStatus = LOCKED | UNLOCKED

  const NO_EXAM_REASON: string := "Este curso não possui prova cadastrada."
  const NOT_PASSED_REASON: string := "Termine a prova e seja aprovado para liberar o certificado."

  /** One entry of getStudentCertificates. */
  datatype CertificateEntry = CertificateEntry(
    courseId: Id,
    courseTitle: string,
    status: CertificateStatus,
    reason: Option<string>,
    progressPercent: nat,
    certificateId: Option<Id>,
    scorePercent: Option<int>,
    issuedAt: Option<Time>)

  /** A course's certificate status: LOCKED without an exam (whatever the certificate
      table holds), UNLOCKED with the certificate's fields when the student has one,
      otherwise LOCKED with empty fields. */
  function CertificateEntryOf(c: CourseEntry, certs: map<(Id, Id), Certificate>, studentId: Id): (e: CertificateEntry)
    ensures e.courseId == c.id && e.courseTitle == c.title && e.progressPercent == c.progressPercent
    ensures e.status == UNLOCKED <==> c.hasExam && (studentId, c.id) in certs
    ensures e.status == UNLOCKED ==>
      var cert := certs[(studentId, c.id)];
      && e.reason.None?
      && e.certificateId == Some(cert.id) && e.scorePercent == Some(cert.scorePercent) && e.issuedAt == Some(cert.issuedAt)
    ensures e.status == LOCKED ==>
      && e.certificateId.None? && e.scorePercent.None? && e.issuedAt.None?
      && e.reason == Some(if c.hasExam then NOT_PASSED_REASON else NO_EXAM_REASON)
  {
    var key := (studentId, c.id);
    if !c.hasExam then
      CertificateEntry(c.id, c.title, LOCKED, Some(NO_EXAM_REASON), c.progressPercent, None, None, None)
    else if key in certs then
      var cert := certs[key];
      CertificateEntry(c.id, c.title, UNLOCKED, None, c.progressPercent, Some(cert.id), Some(cert.scorePercent), Some(cert.issuedAt))
    else
      CertificateEntry(c.id, c.title, LOCKED, Some(NOT_PASSED_REASON), c.progressPercent, None, None, None)
  }

  /** getStudentCertificates: one status per course entry, in order. */
  function StudentCertificates(courses: seq<CourseEntry>, certs: map<(Id, Id), Certificate>, studentId: Id)
    : (r: seq<CertificateEntry>)
    ensures |r| == |courses|
    ensures forall k :: 0 <= k < |r| ==> r[k].courseId == courses[k].id
    ensures forall k :: 0 <= k < |r| ==> r[k] == CertificateEntryOf(courses[k], certs, studentId)
  {
    if courses == [] then []
    else seq(|courses|, k requires 0 <= k < |courses| => CertificateEntryOf(courses[k], certs, studentId))
  }

  /** A passing submit unlocks the certificate of a course with an active exam, with
      the submitted score. */
  lemma PassUnlocksCertificate(
    c: CourseEntry, certs: map<(Id, Id), Certificate>, studentId: Id,
    attemptId: Id, score: int, now: Time, newId: Id)
    requires c.hasExam
    ensures var e := CertificateEntryOf(c, CertificateOnPass(certs, studentId, c.id, attemptId, score, now, newId), studentId);
      e.status == UNLOCKED && e.scorePercent == Some(score) && e.issuedAt == Some(now)
  {
  }

  /** getMyCertificateByCourse's result. */
  datatype MyCertificate = MyCertificate(certificateId: Id, courseId: Id, courseTitle: string, scorePercent: int, issuedAt: Time)

  /** getMyCertificateByCourse: null without a certificate; otherwise its fields and
      the course title ("" when the course is gone). */
  function MyCertificateByCourse(certs: map<(Id, Id), Certificate>, courses: map<Id, Course>, studentId: Id, courseId: Id)
    : (r: Option<MyCertificate>)
    ensures r.None? <==> (studentId, courseId) !in certs
    ensures r.Some? ==>
      var cert := certs[(studentId, courseId)];
      && r.value.certificateId == cert.id && r.value.courseId == courseId
      && r.value.scorePercent == cert.scorePercent && r.value.issuedAt == cert.issuedAt
      && r.value.courseTitle == (if courseId in courses then courses[courseId].title else "")
  {
    var key := (studentId, courseId);
    if key !in certs then None
    else
      var cert := certs[key];
      Some(MyCertificate(cert.id, courseId, if courseId in courses then courses[courseId].title else "", cert.scorePercent, cert.issuedAt))
  }

  /** The detail view and the status list agree: an UNLOCKED status has a detail with
      the same certificate id, score and date. */
  lemma DetailAgreesWithStatus(
    c: CourseEntry, certs: map<(Id, Id), Certificate>, courses: map<Id, Course>, studentId: Id)
    requires CertificateEntryOf(c, certs, studentId).status == UNLOCKED
    ensures var d := MyCertificateByCourse(certs, courses, studentId, c.id);
      var e := CertificateEntryOf(c, certs, studentId);
      && d.Some?
      && e.certificateId == Some(d.value.certificateId)
      && e.scorePercent == Some(d.value.scorePercent)
      && e.issuedAt == Some(d.value.issuedAt)
  {
  }
}

/** Certificates: the list of issued certificates, and the certificate document
    with its strict eligibility checks, best-attempt choice, upsert and the data
    the document shows. */
module Certificates {
  import opened Common
  import opened Store
  import opened Text
  import opened Calendar
  import opened Exams

  // ------------------------------------------------------------ listByStudent

  /** A certificate row with its key columns. */
  datatype CertificateRow = CertificateRow(studentId: Id, courseId: Id, certificate: Certificate)

  /** One entry of the list; `courseTitle` is `None` when the course row is absent. */
  datatype IssuedCertificate = IssuedCertificate(
    id: Id, courseId: Id, courseTitle: Option<string>, scorePercent: int, issuedAt: Time)

  function IssuedOf(row: CertificateRow, courses: map<Id, Course>): IssuedCertificate {
    IssuedCertificate(
      row.certificate.id, row.courseId,
      if row.courseId in courses then Some(courses[row.courseId].title) else None,
      row.certificate.scorePercent, row.certificate.issuedAt)
  }

  /** listByStudent over the certificate rows as the query returns them: the
      student's rows, one entry each, in the order of `rows`. */
  function ListByStudent(rows: seq<CertificateRow>, courses: map<Id, Course>, studentId: Id): (items: seq<IssuedCertificate>)
    ensures |items| <= |rows|
    ensures forall k :: 0 <= k < |items| ==>
      exists j :: 0 <= j < |rows| && rows[j].studentId == studentId && items[k] == IssuedOf(rows[j], courses)
    ensures forall j :: 0 <= j < |rows| && rows[j].studentId == studentId ==> IssuedOf(rows[j], courses) in items
    ensures |rows| == 1 ==> items == (if rows[0].studentId == studentId then [IssuedOf(rows[0], courses)] else [])
  {
    if rows == [] then []
    else
      var init := rows[..|rows| - 1];
      var last := rows[|rows| - 1];
      var front := ListByStudent(init, courses, studentId);
      assert forall j :: 0 <= j < |init| ==> init[j] == rows[j];
      if last.studentId == studentId then front + [IssuedOf(last, courses)] else front
  }

  /** The list keeps the order of the rows: it distributes over concatenation. */
  lemma {:induction false} ListByStudentAppend(a: seq<CertificateRow>, b: seq<CertificateRow>, courses: map<Id, Course>, studentId: Id)
    ensures ListByStudent(a + b, courses, studentId) == ListByStudent(a, courses, studentId) + ListByStudent(b, courses, studentId)
    decreases |b|
  {
    if b == [] {
      assert a + b == a;
    } else {
      var init, last := b[..|b| - 1], b[|b| - 1];
      assert a + b == (a + init) + [last] && b == init + [last];
      ListByStudentAppend(a, init, courses, studentId);
      ListByStudentSnoc(a + init, last, courses, studentId);
      ListByStudentSnoc(init, last, courses, studentId);
      SuffixChain(if last.studentId == studentId then [IssuedOf(last, courses)] else [],
        ListByStudent(a + b, courses, studentId), ListByStudent(b, courses, studentId),
        ListByStudent(a + init, courses, studentId), ListByStudent(a, courses, studentId),
        ListByStudent(init, courses, studentId));
    }
  }

  /** One more row adds its entry at the end when it is the student's. */
  lemma ListByStudentSnoc(rows: seq<CertificateRow>, last: CertificateRow, courses: map<Id, Course>, studentId: Id)
    ensures ListByStudent(rows + [last], courses, studentId)
         == ListByStudent(rows, courses, studentId) + (if last.studentId == studentId then [IssuedOf(last, courses)] else [])
  {
    assert (rows + [last])[..|rows|] == rows;
  }

  /** The key of a certificate row: there is one certificate per student and course. */
  function KeyOf(row: CertificateRow): (Id, Id) {
    (row.studentId, row.courseId)
  }

  /** No key occurs on two rows. */
  predicate DistinctKeys(rows: seq<CertificateRow>) {
    forall j, k :: 0 <= j < k < |rows| ==> KeyOf(rows[j]) != KeyOf(rows[k])
  }

  /** `rows` lists the certificate table once: each row carries its key's certificate
      and every key has a row. */
  ghost predicate ListsTable(rows: seq<CertificateRow>, table: map<(Id, Id), Certificate>) {
    && DistinctKeys(rows)
    && (forall j :: 0 <= j < |rows| ==> KeyOf(rows[j]) in table && table[KeyOf(rows[j])] == rows[j].certificate)
    && (forall key :: key in table ==> exists j :: 0 <= j < |rows| && KeyOf(rows[j]) == key)
  }

  /** No course is listed twice. */
  predicate DistinctCourses(items: seq<IssuedCertificate>) {
    forall j, k :: 0 <= j < k < |items| ==> items[j].courseId != items[k].courseId
  }

  /** With distinct keys no course is listed twice. */
  lemma {:induction false} ListCoursesDistinct(rows: seq<CertificateRow>, courses: map<Id, Course>, studentId: Id)
    requires DistinctKeys(rows)
    ensures DistinctCourses(ListByStudent(rows, courses, studentId))
  {
    if rows != [] {
      var init, last := rows[..|rows| - 1], rows[|rows| - 1];
      assert forall j :: 0 <= j < |init| ==> init[j] == rows[j];
      ListCoursesDistinct(init, courses, studentId);
      var front := ListByStudent(init, courses, studentId);
      if last.studentId == studentId {
        forall k | 0 <= k < |front|
          ensures front[k].courseId != last.courseId
        {
          var j := ListItemRow(init, courses, studentId, k);
          assert KeyOf(rows[j]) != KeyOf(rows[|rows| - 1]);
        }
        AppendNewCourse(front, IssuedOf(last, courses));
      }
    }
  }

  /** Each entry of the list comes from a row of the student. */
  lemma ListItemRow(rows: seq<CertificateRow>, courses: map<Id, Course>, studentId: Id, k: int) returns (j: int)
    requires 0 <= k < |ListByStudent(rows, courses, studentId)|
    ensures 0 <= j < |rows| && rows[j].studentId == studentId
    ensures ListByStudent(rows, courses, studentId)[k] == IssuedOf(rows[j], courses)
  {
    var items := ListByStudent(rows, courses, studentId);
    assert 0 <= k < |items|;
    var x := items[k];
    assert exists i :: 0 <= i < |rows| && rows[i].studentId == studentId && x == IssuedOf(rows[i], courses);
    j :| 0 <= j < |rows| && rows[j].studentId == studentId && items[k] == IssuedOf(rows[j], courses);
  }

  /** A new course at the end keeps the courses distinct. */
  lemma AppendNewCourse(front: seq<IssuedCertificate>, x: IssuedCertificate)
    requires DistinctCourses(front)
    requires forall k :: 0 <= k < |front| ==> front[k].courseId != x.courseId
    ensures DistinctCourses(front + [x])
  {
    var items := front + [x];
    forall j, k | 0 <= j < k < |items|
      ensures items[j].courseId != items[k].courseId
    {
      assert items[j] == front[j];
    }
  }

  /** Over the whole certificate table, the list holds one entry per certificate of
      the student, each showing that certificate. */
  lemma ListOfTable(rows: seq<CertificateRow>, table: map<(Id, Id), Certificate>, courses: map<Id, Course>, studentId: Id)
    requires ListsTable(rows, table)
    ensures var items := ListByStudent(rows, courses, studentId);
      && (forall k :: 0 <= k < |items| ==>
            var key := (studentId, items[k].courseId);
            key in table && items[k] == IssuedOf(CertificateRow(studentId, items[k].courseId, table[key]), courses))
      && (forall c :: (studentId, c) in table ==> exists k :: 0 <= k < |items| && items[k].courseId == c)
      && DistinctCourses(items)
  {
    var items := ListByStudent(rows, courses, studentId);
    ListCoursesDistinct(rows, courses, studentId);
    forall k | 0 <= k < |items|
      ensures var key := (studentId, items[k].courseId);
        key in table && items[k] == IssuedOf(CertificateRow(studentId, items[k].courseId, table[key]), courses)
    {
      var j :| 0 <= j < |rows| && rows[j].studentId == studentId && items[k] == IssuedOf(rows[j], courses);
      assert rows[j] == CertificateRow(studentId, items[k].courseId, table[KeyOf(rows[j])]);
    }
    forall c | (studentId, c) in table
      ensures exists k :: 0 <= k < |items| && items[k].courseId == c
    {
      var j :| 0 <= j < |rows| && KeyOf(rows[j]) == (studentId, c);
      assert IssuedOf(rows[j], courses) in items;
    }
  }

  /** Another student's rows never reach the list. */
  lemma {:induction false} ListOnlyOwnRows(rows: seq<CertificateRow>, courses: map<Id, Course>, studentId: Id)
    requires forall j :: 0 <= j < |rows| ==> rows[j].studentId != studentId
    ensures ListByStudent(rows, courses, studentId) == []
  {
    if rows != [] {
      ListOnlyOwnRows(rows[..|rows| - 1], courses, studentId);
    }
  }

  // ------------------------------------------------------------ NR number

  /** `\d+` at position j: the longest run of digits starting there. */
  function DigitRun(s: string, j: nat): (r: string)
    requires j <= |s|
    ensures AllDigits(r) && j + |r| <= |s| && s[j..j + |r|] == r
    ensures j + |r| == |s| || !IsDigit(s[j + |r|])
    decreases |s| - j
  {
    if j < |s| && IsDigit(s[j]) then [s[j]] + DigitRun(s, j + 1) else []
  }

  /** The capture of `/NR\s?(\d+)/i` for a match starting at i, if one starts there:
      "NR" in either case, then one whitespace character when digits follow it,
      otherwise the digits right after "NR". */
  function NrAt(s: string, i: nat): (r: Option<string>)
    requires i <= |s|
    ensures r.Some? ==> r.value != [] && AllDigits(r.value)
  {
    if i + 2 < |s| && Lower(s[i]) == 'n' && Lower(s[i + 1]) == 'r' then
      if i + 3 < |s| && IsSpace(s[i + 2]) && IsDigit(s[i + 3]) then Some(DigitRun(s, i + 3))
      else if IsDigit(s[i + 2]) then Some(DigitRun(s, i + 2))
      else None
    else None
  }

  /** Where the leftmost match at or after position i starts, if anywhere. */
  function FirstNrAt(s: string, i: nat): (r: Option<nat>)
    requires i <= |s|
    ensures r.None? ==> forall k :: i <= k <= |s| ==> NrAt(s, k).None?
    ensures r.Some? ==> i <= r.value <= |s| && NrAt(s, r.value).Some?
    ensures r.Some? ==> forall j :: i <= j < r.value ==> NrAt(s, j).None?
    decreases |s| - i
  {
    if NrAt(s, i).Some? then Some(i)
    else if i == |s| then None
    else FirstNrAt(s, i + 1)
  }

  /** The NR number shown on the certificate: the digits of the leftmost match in the
      course title, "35" when there is none. */
  function NrNumber(title: string): (nr: string)
    ensures nr != [] && AllDigits(nr)
    ensures FirstNrAt(title, 0).Some? ==> nr == NrAt(title, FirstNrAt(title, 0).value).value
    ensures FirstNrAt(title, 0).None? ==> nr == "35"
  {
    match FirstNrAt(title, 0)
    case Some(k) => NrAt(title, k).value
    case None => "35"
  }

  /** The digits are kept as written (a leading zero stays); a hyphen between "NR"
      and the number defeats the pattern, which then falls back to 35. */
  lemma NrNumberExamples()
    ensures NrNumber("NR 10") == "10"
    ensures NrNumber("nr06") == "06"
    ensures NrNumber("NR-12") == "35"
  {
    var a := "NR 10";
    assert DigitRun(a, 5) == [] && DigitRun(a, 4) == "0" && DigitRun(a, 3) == "10";
    assert NrAt(a, 0) == Some("10");
    var b := "nr06";
    assert DigitRun(b, 4) == [] && DigitRun(b, 3) == "6" && DigitRun(b, 2) == "06";
    assert NrAt(b, 0) == Some("06");
    var c := "NR-12";
    assert NrAt(c, 0).None? && NrAt(c, 1).None? && NrAt(c, 2).None?;
    assert FirstNrAt(c, 3).None?;
  }

  // ------------------------------------------------------------ the document

  datatype CertificateError = EnrollmentNotFound | NotConcluded | NoExam | NotApproved
  {
    function Kind(): Exception {
      if this == EnrollmentNotFound then NotFound else BadRequest
    }
  }

  predicate PassedBy(attempts: map<Id, Attempt>, studentId: Id, examId: Id, id: Id) {
    id in attempts && attempts[id].studentId == studentId && attempts[id].examId == examId && attempts[id].passed
  }

  /** id is a passed attempt of the student at the exam with the highest score
      among them (`findFirst` ordered by `scorePercent` descending). */
  predicate IsBestPassed(attempts: map<Id, Attempt>, studentId: Id, examId: Id, id: Id) {
    && PassedBy(attempts, studentId, examId, id)
    && forall other :: other in attempts && PassedBy(attempts, studentId, examId, other) ==>
         attempts[other].scorePercent <= attempts[id].scorePercent
  }

  /** The best-attempt query: a passed attempt with the top score, or none when the
      student never passed the exam. */
  method BestPassedAttempt(attempts: map<Id, Attempt>, studentId: Id, examId: Id) returns (best: Option<Id>)
    ensures best.None? <==> !HasPassed(attempts, studentId, examId)
    ensures best.Some? ==> IsBestPassed(attempts, studentId, examId, best.value)
  {
    best := None;
    var rest := attempts.Keys;
    while rest != {}
      invariant rest <= attempts.Keys
      invariant best.None? ==>
        forall id :: id in attempts.Keys - rest ==> !PassedBy(attempts, studentId, examId, id)
      invariant best.Some? ==>
        && best.value in attempts.Keys - rest
        && PassedBy(attempts, studentId, examId, best.value)
        && forall id :: id in attempts.Keys - rest && PassedBy(attempts, studentId, examId, id) ==>
             attempts[id].scorePercent <= attempts[best.value].scorePercent
      decreases |rest|
    {
      var id :| id in rest;
      if PassedBy(attempts, studentId, examId, id)
        && (best.None? || attempts[id].scorePercent > attempts[best.value].scorePercent)
      {
        best := Some(id);
      }
      rest := rest - {id};
    }
    if best.None? {
      assert forall id :: id in attempts ==> !PassedBy(attempts, studentId, examId, id);
    }
  }

  /** The document's certificate upsert, keyed by (student, course): it points at the
      attempt and carries its score; `issuedAt` is set only when the row is created. */
  function CertificateOnGenerate(
    certs: map<(Id, Id), Certificate>, studentId: Id, courseId: Id, attemptId: Id, score: int, now: Time, newId: Id)
    : (r: map<(Id, Id), Certificate>)
    ensures r.Keys == certs.Keys + {(studentId, courseId)}
    ensures forall k :: k in certs && k != (studentId, courseId) ==> r[k] == certs[k]
    ensures r[(studentId, courseId)].attemptId == attemptId
    ensures r[(studentId, courseId)].scorePercent == score
    ensures (studentId, courseId) in certs ==>
      r[(studentId, courseId)].issuedAt == certs[(studentId, courseId)].issuedAt
      && r[(studentId, courseId)].id == certs[(studentId, courseId)].id
    ensures (studentId, courseId) !in certs ==> r[(studentId, courseId)] == Certificate(newId, attemptId, score, now)
  {
    var key := (studentId, courseId);
    if key in certs then certs[key := certs[key].(scorePercent := score, attemptId := attemptId)]
    else certs[key := Certificate(newId, attemptId, score, now)]
  }

  /** The two certificate upserts disagree on an existing row: the document keeps its
      `issuedAt`, a passing exam submit moves it to `now`. */
  lemma UpsertsDisagreeOnIssuedAt(
    certs: map<(Id, Id), Certificate>, studentId: Id, courseId: Id, attemptId: Id, score: int, now: Time, newId: Id)
    requires (studentId, courseId) in certs && certs[(studentId, courseId)].issuedAt != now
    ensures CertificateOnGenerate(certs, studentId, courseId, attemptId, score, now, newId)[(studentId, courseId)].issuedAt
      != CertificateOnPass(certs, studentId, courseId, attemptId, score, now, newId)[(studentId, courseId)].issuedAt
  {
  }

  /** Pointing the certificate at the best passed attempt keeps every certificate
      backed by a passed attempt. */
  lemma GenerateKeepsCertificatesBacked(
    certs: map<(Id, Id), Certificate>, attempts: map<Id, Attempt>, exams: map<Id, Exam>,
    studentId: Id, courseId: Id, examId: Id, best: Id, now: Time, newId: Id)
    requires CertificatesBacked(certs, attempts, exams)
    requires examId in exams && exams[examId].courseId == courseId
    requires IsBestPassed(attempts, studentId, examId, best)
    ensures CertificatesBacked(
      CertificateOnGenerate(certs, studentId, courseId, best, attempts[best].scorePercent, now, newId), attempts, exams)
  {
  }

  /** The data the certificate document is rendered from. */
  datatype CertificateData = CertificateData(
    studentName: string,
    studentCpf: string,
    courseTitle: string,
    nrNumber: string,
    workloadHours: int,
    verificationCode: Id,
    startDate: string,
    endDate: string,
    expirationDate: string)

  /** The course started five days before the conclusion date. */
  function StartDate(conclusion: Date): (d: Date)
    requires Valid(conclusion)
    ensures Valid(d) && PlusDays(d, 5) == conclusion
  {
    PlusMinus(conclusion, 5);
    MinusDays(conclusion, 5)
  }

  /** The certificate expires two years after the conclusion date. */
  function ExpirationDate(conclusion: Date): (d: Date)
    requires Valid(conclusion)
    ensures Valid(d) && d.year == conclusion.year + 2
    ensures !(conclusion.month == 2 && conclusion.day == 29) ==> d.month == conclusion.month && d.day == conclusion.day
  {
    AddYears(conclusion, 2)
  }

  /** The template data: the student's name and CPF (placeholders when absent), the
      course title, its NR number, its workload (0 when unset), the certificate id as
      verification code and the three dates. */
  function CertificateDataOf(student: Option<Student>, course: Course, conclusion: Date, certificateId: Id): (d: CertificateData)
    requires Valid(conclusion)
    ensures d.studentName == (if student.Some? then student.value.fullName else "Aluno")
    ensures d.studentCpf == (if student.Some? && student.value.cpf.Some? then student.value.cpf.value else "000.000.000-00")
    ensures d.courseTitle == course.title && d.nrNumber == NrNumber(course.title)
    ensures d.workloadHours == (if course.workloadHours.Some? then course.workloadHours.value else 0)
    ensures d.verificationCode == certificateId
    ensures d.endDate == FormatDate(conclusion)
    ensures d.startDate == FormatDate(StartDate(conclusion))
    ensures d.expirationDate == FormatDate(ExpirationDate(conclusion))
  {
    CertificateData(
      if student.Some? then student.value.fullName else "Aluno",
      if student.Some? && student.value.cpf.Some? then student.value.cpf.value else "000.000.000-00",
      course.title,
      NrNumber(course.title),
      if course.workloadHours.Some? then course.workloadHours.value else 0,
      certificateId,
      FormatDate(StartDate(conclusion)),
      FormatDate(conclusion),
      FormatDate(ExpirationDate(conclusion)))
  }

  /** The refusals of generateCertificateWithPuppeteer, in the source's order. */
  ghost function GenerateCheck(db: Db, studentId: Id, courseId: Id): (e: Option<CertificateError>)
    reads db
  {
    var key := (studentId, courseId);
    if key !in db.enrollments then Some(EnrollmentNotFound)
    else if db.enrollments[key].completedAt.None? then Some(NotConcluded)
    else if !HasExamFor(db.exams, courseId) then Some(NoExam)
    else if !HasPassed(db.attempts, studentId, ExamOf(db.exams, courseId)) then Some(NotApproved)
    else None
  }

  /** Generation is admitted exactly when the enrollment is concluded and the student
      holds a passed attempt at an exam of the course. */
  lemma GenerateAdmittedIff(db: Db, studentId: Id, courseId: Id)
    requires OneExamPerCourse(db.exams)
    ensures GenerateCheck(db, studentId, courseId).None? <==>
      && (studentId, courseId) in db.enrollments
      && db.enrollments[(studentId, courseId)].completedAt.Some?
      && exists e, a :: e in db.exams && db.exams[e].courseId == courseId && PassedBy(db.attempts, studentId, e, a)
  {
    var key := (studentId, courseId);
    if key in db.enrollments && db.enrollments[key].completedAt.Some? {
      if exists e, a :: e in db.exams && db.exams[e].courseId == courseId && PassedBy(db.attempts, studentId, e, a) {
        var e, a :| e in db.exams && db.exams[e].courseId == courseId && PassedBy(db.attempts, studentId, e, a);
        ExamOfUnique(db.exams, courseId, e);
      } else if HasExamFor(db.exams, courseId) {
        var e := ExamOf(db.exams, courseId);
        if HasPassed(db.attempts, studentId, e) {
          var a :| a in db.attempts && db.attempts[a].studentId == studentId && db.attempts[a].examId == e && db.attempts[a].passed;
          assert PassedBy(db.attempts, studentId, e, a);
          assert false;
        }
      }
    }
  }

  /** The checks of generateCertificateWithPuppeteer, in order; when all pass, the
      course's exam. */
  method CheckGenerate(db: Db, studentId: Id, courseId: Id) returns (refusal: Option<CertificateError>, examId: Id)
    requires OneExamPerCourse(db.exams)
    ensures refusal == GenerateCheck(db, studentId, courseId)
    ensures refusal.None? ==> examId == ExamOf(db.exams, courseId) && HasPassed(db.attempts, studentId, examId)
  {
    var key := (studentId, courseId);
    examId := "";
    if key !in db.enrollments {
      return Some(EnrollmentNotFound), examId;
    }
    if db.enrollments[key].completedAt.None? {
      return Some(NotConcluded), examId;
    }
    if !HasExamFor(db.exams, courseId) {
      return Some(NoExam), examId;
    }
    examId :| examId in db.exams && db.exams[examId].courseId == courseId;
    ExamOfUnique(db.exams, courseId, examId);
    if !HasPassed(db.attempts, studentId, examId) {
      return Some(NotApproved), examId;
    }
    refusal := None;
  }

  /** The state after an issue: the certificate row was upserted from `before` with the
      best passed attempt at the exam, and `data` is the template data of that row,
      concluded on the calendar day of the enrollment's `completedAt`. */
  ghost predicate Issued(
    db: Db, before: map<(Id, Id), Certificate>, studentId: Id, courseId: Id, examId: Id,
    now: Time, newCertificateId: Id, data: CertificateData)
    reads db
  {
    && courseId in db.courses
    && (studentId, courseId) in db.enrollments && db.enrollments[(studentId, courseId)].completedAt.Some?
    && (exists best ::
         && IsBestPassed(db.attempts, studentId, examId, best)
         && db.certificates == CertificateOnGenerate(before, studentId, courseId, best,
              db.attempts[best].scorePercent, now, newCertificateId))
    && (studentId, courseId) in db.certificates
    && data == CertificateDataOf(
         if studentId in db.students then Some(db.students[studentId]) else None,
         db.courses[courseId], DateOf(db.enrollments[(studentId, courseId)].completedAt.value),
         db.certificates[(studentId, courseId)].id)
  }

  /** The certificate upsert with the best passed attempt at the exam, and the template
      data for the upserted certificate. */
  method IssueCertificate(db: Db, studentId: Id, courseId: Id, examId: Id, now: Time, newCertificateId: Id)
    returns (data: CertificateData)
    requires HasPassed(db.attempts, studentId, examId)
    requires courseId in db.courses
    requires (studentId, courseId) in db.enrollments && db.enrollments[(studentId, courseId)].completedAt.Some?
    modifies db`certificates
    ensures Issued(db, old(db.certificates), studentId, courseId, examId, now, newCertificateId, data)
  {
    var best := BestPassedAttempt(db.attempts, studentId, examId);
    var id := best.value;
    db.certificates := CertificateOnGenerate(db.certificates, studentId, courseId, id, db.attempts[id].scorePercent, now, newCertificateId);
    assert IsBestPassed(db.attempts, studentId, examId, id);
    var student := if studentId in db.students then Some(db.students[studentId]) else None;
    var conclusion := DateOf(db.enrollments[(studentId, courseId)].completedAt.value);
    data := CertificateDataOf(student, db.courses[courseId], conclusion, db.certificates[(studentId, courseId)].id);
  }

  /** generateCertificateWithPuppeteer up to the template data: the enrollment must
      exist and be concluded, the course must have an exam, and the student must have
      passed it; then the certificate is upserted with the best passed attempt and the
      data concluded on the day of `completedAt`. `newCertificateId` is the id a
      created row would get. */
  method GenerateCertificate(db: Db, studentId: Id, courseId: Id, now: Time, newCertificateId: Id)
    returns (r: Result<CertificateData, CertificateError>)
    requires OneExamPerCourse(db.exams)
    requires (studentId, courseId) in db.enrollments ==> courseId in db.courses
    modifies db`certificates
    ensures old(GenerateCheck(db, studentId, courseId)).Some? ==>
      r == Err(old(GenerateCheck(db, studentId, courseId)).value) && db.certificates == old(db.certificates)
    ensures old(GenerateCheck(db, studentId, courseId)).None? ==>
      r.Ok? && Issued(db, old(db.certificates), studentId, courseId, ExamOf(db.exams, courseId), now, newCertificateId, r.value)
  {
    var refusal, examId := CheckGenerate(db, studentId, courseId);
    if refusal.Some? {
      return Err(refusal.value);
    }
    var data := IssueCertificate(db, studentId, courseId, examId, now, newCertificateId);
    return Ok(data);
  }
}

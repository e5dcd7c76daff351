/** The persistent store the services read and write: one map (or set) per table,
    keyed the way the schema's unique constraints key the rows. */
module Store {
  import opened Common

  // ---------------------------------------------------------------- curriculum

  datatype Lesson = Lesson(id: Id, title: string, order: int)

  /** A course module with its lessons, as the ordered include
      `modules: { orderBy: order, include: { lessons: { orderBy: order } } }` returns it. */
  datatype CourseModule = CourseModule(id: Id, order: int, lessons: seq<Lesson>)

  datatype Course = Course(
    title: string,
    isActive: bool,
    isPaid: bool,
    priceCents: Option<int>,
    workloadHours: Option<int>,
    modules: seq<CourseModule>)

  // ---------------------------------------------------------------- progress

  /** StudentLessonProgress, unique per (student, lesson). */
  datatype Progress = Progress(completed: bool, completedAt: Option<Time>, watchedSeconds: int, lastPosition: int)

  datatype EnrollmentStatus = ACTIVE | COMPLETED

  /** StudentCourseEnrollment, unique per (student, course). */
  datatype Enrollment = Enrollment(status: EnrollmentStatus, enrolledAt: Time, completedAt: Option<Time>)

  // ---------------------------------------------------------------- exams

  /** An answer option; `text` is the option's label. */
  datatype ExamOption = ExamOption(id: Id, text: string, isCorrect: bool)

  /** An exam question with its options; an exam's questions are kept in `order`. */
  datatype Question = Question(id: Id, title: string, order: int, options: seq<ExamOption>)

  /** Exam, at most one per course (unique courseId). */
  datatype Exam = Exam(courseId: Id, title: string, passScore: int, isActive: bool, questions: seq<Question>)

  /** StudentExamAttempt; `finishedAt == None` means the attempt is in progress. */
  datatype Attempt = Attempt(
    studentId: Id,
    examId: Id,
    attemptNumber: int,
    scorePercent: int,
    passed: bool,
    startedAt: Time,
    finishedAt: Option<Time>)

  /** StudentExamAnswer: the option chosen for one question of an attempt. */
  datatype Answer = Answer(questionId: Id, optionId: Id)

  /** Certificate, unique per (student, course). */
  datatype Certificate = Certificate(id: Id, attemptId: Id, scorePercent: int, issuedAt: Time)

  // ---------------------------------------------------------------- accounts

  /** Student; `password` stands for the stored bcrypt hash of that password. */
  datatype Student = Student(
    fullName: string,
    email: string,
    cpf: Option<string>,
    password: string,
    isActive: bool,
    mustChangePassword: bool,
    companyId: Id)

  // ---------------------------------------------------------------- checkout

  /** `SchemaDefault` is the status the schema gives an order created without one. */
  datatype OrderStatus = SchemaDefault | PENDING_PAYMENT | PAID

  datatype OrderItem = OrderItem(courseId: Id, unitPriceCents: int)

  datatype Order = Order(studentId: Id, totalCents: int, status: OrderStatus, items: seq<OrderItem>)

  datatype BillingType = PIX | BOLETO | CREDIT_CARD

  datatype PaymentStatus = PENDING | PAID

  /** Payment, one per order (keyed by orderId). */
  datatype Payment = Payment(billingType: BillingType, status: PaymentStatus, provider: Option<string>)

  // ---------------------------------------------------------------- library

  datatype LibraryItem = LibraryItem(
    courseId: Id,
    title: string,
    description: Option<string>,
    fileUrl: string,
    fileKey: string,
    originalName: string,
    mimeType: string,
    sizeBytes: int,
    isActive: bool)

  /** The tables. */
  class Db {
    var courses: map<Id, Course>
    /** Lesson -> Module -> Course foreign-key path (`lesson.module.courseId`). */
    var lessonCourse: map<Id, Id>
    /** Keyed by (studentId, lessonId). */
    var progress: map<(Id, Id), Progress>
    /** Keyed by (studentId, courseId). */
    var enrollments: map<(Id, Id), Enrollment>
    /** StudentCourse links (studentId, courseId). */
    var studentCourses: set<(Id, Id)>
    var exams: map<Id, Exam>
    var attempts: map<Id, Attempt>
    /** Answer rows, grouped by attemptId. */
    var answers: map<Id, seq<Answer>>
    /** Keyed by (studentId, courseId). */
    var certificates: map<(Id, Id), Certificate>
    var students: map<Id, Student>
    /** Company names by id. */
    var companies: map<Id, string>
    var orders: map<Id, Order>
    /** Keyed by orderId. */
    var payments: map<Id, Payment>
    var libraryItems: map<Id, LibraryItem>

    constructor ()
      ensures courses == map[] && lessonCourse == map[] && progress == map[]
      ensures enrollments == map[] && studentCourses == {}
      ensures exams == map[] && attempts == map[] && answers == map[] && certificates == map[]
      ensures students == map[] && companies == map[]
      ensures orders == map[] && payments == map[] && libraryItems == map[]
    {
      courses, lessonCourse, progress := map[], map[], map[];
      enrollments, studentCourses := map[], {};
      exams, attempts, answers, certificates := map[], map[], map[], map[];
      students, companies := map[], map[];
      orders, payments, libraryItems := map[], map[], map[];
    }
  }
}

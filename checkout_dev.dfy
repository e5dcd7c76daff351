/** The development checkout: buying the course of one NR standard for a fixed
    price, and paying an order, which enrolls the student. */
module CheckoutDev {
  import opened Common
  import opened Store
  import opened Text
  import opened LessonProgress
  import opened Exams

  /** The refusals of the two endpoints; `StoreError` is the store's own failure when
      the order has no payment row. */
  datatype DevError = NotStudent | InvalidNr | CourseNotFound | OrderNotFound | NoItems | StoreError
  {
    function Kind(): Exception {
      if this == StoreError then Internal else BadRequest
    }
  }

  const DEV_PRICE_CENTS: int := 4990

  /** `req.user?.role === 'STUDENT'`; `None` is a request without a user or role. */
  predicate IsStudent(role: Option<string>) {
    role == Some("STUDENT")
  }

  /** `!(!nr || nr < 1 || nr > 38)`, for an integer NR. */
  predicate NrValid(nr: int) {
    !(nr == 0 || nr < 1 || nr > 38)
  }

  /** The title fragment searched for: "NR " and the number padded to two digits. */
  function NrPattern(nr: int): (p: string)
    requires NrValid(nr)
    ensures |p| == 5 && p[..3] == "NR "
    ensures AllDigits(p[3..]) && DigitsValue(p[3..]) == nr
  {
    assert Pow10(2) == 100;
    var nn := ZeroPadded(nr, 2);
    var p := "NR " + nn;
    assert p[3..] == nn;
    p
  }

  /** NR 1 is searched as "NR 01" ... */
  lemma NrPatternPadded()
    ensures NrPattern(1) == "NR 01"
  {
    assert DecimalString(1) == ['1'];
    assert seq(1, _ => '0') == ['0'];
    assert PadStart(['1'], 2, '0') == ['0', '1'];
    assert ZeroPadded(1, 2) == ['0', '1'];
  }

  /** ... and NR 35 as "NR 35". */
  lemma NrPatternTwoDigits()
    ensures NrPattern(35) == "NR 35"
  {
    assert DecimalString(3) == ['3'];
    assert DecimalString(35) == ['3', '5'];
    assert PadStart(['3', '5'], 2, '0') == ['3', '5'];
    assert ZeroPadded(35, 2) == ['3', '5'];
  }

  predicate HasCourseTitled(courses: map<Id, Course>, pattern: string) {
    exists id :: id in courses && Contains(courses[id].title, pattern)
  }

  /** The payment method of a dev order: credit card when asked for, otherwise PIX. */
  function DevBilling(requested: BillingType): (b: BillingType)
    ensures b != BOLETO
    ensures b == CREDIT_CARD <==> requested == CREDIT_CARD
  {
    if requested == CREDIT_CARD then CREDIT_CARD else PIX
  }

  datatype DevOrder = DevOrder(orderId: Id, status: OrderStatus, totalCents: int, courseId: Id)

  /** create: only a student; a valid NR; a course whose title contains the NR
      pattern; then an order of 4990 cents with that one course, awaiting payment. */
  method CreateDevOrder(db: Db, role: Option<string>, sub: Id, nr: int, billing: BillingType, orderId: Id)
    returns (r: Result<DevOrder, DevError>)
    requires orderId !in db.orders && orderId !in db.payments
    modifies db`orders, db`payments
    ensures !IsStudent(role) ==> r == Err(NotStudent)
    ensures IsStudent(role) && !NrValid(nr) ==> r == Err(InvalidNr)
    ensures IsStudent(role) && NrValid(nr) && !HasCourseTitled(db.courses, NrPattern(nr)) ==> r == Err(DevError.CourseNotFound)
    ensures r.Err? ==> db.orders == old(db.orders) && db.payments == old(db.payments)
    ensures IsStudent(role) && NrValid(nr) && HasCourseTitled(db.courses, NrPattern(nr)) ==>
      && r.Ok?
      && r.value.courseId in db.courses && Contains(db.courses[r.value.courseId].title, NrPattern(nr))
      && r.value == DevOrder(orderId, PENDING_PAYMENT, DEV_PRICE_CENTS, r.value.courseId)
      && db.orders == old(db.orders)[orderId := Order(sub, DEV_PRICE_CENTS, PENDING_PAYMENT, [OrderItem(r.value.courseId, DEV_PRICE_CENTS)])]
      && db.payments == old(db.payments)[orderId := Payment(DevBilling(billing), PENDING, Some("DEV"))]
  {
    if !IsStudent(role) {
      return Err(NotStudent);
    }
    if nr == 0 || nr < 1 || nr > 38 {
      return Err(InvalidNr);
    }
    var pattern := NrPattern(nr);
    if !HasCourseTitled(db.courses, pattern) {
      return Err(DevError.CourseNotFound);
    }
    var courseId :| courseId in db.courses && Contains(db.courses[courseId].title, pattern);
    db.orders := db.orders[orderId := Order(sub, DEV_PRICE_CENTS, PENDING_PAYMENT, [OrderItem(courseId, DEV_PRICE_CENTS)])];
    db.payments := db.payments[orderId := Payment(DevBilling(billing), PENDING, Some("DEV"))];
    return Ok(DevOrder(orderId, PENDING_PAYMENT, DEV_PRICE_CENTS, courseId));
  }

  /** The enrollment upsert of pay: created ACTIVE (enrolled now), or set back to
      ACTIVE with its dates kept. */
  function Activate(enrollments: map<(Id, Id), Enrollment>, studentId: Id, courseId: Id, now: Time)
    : (r: map<(Id, Id), Enrollment>)
    ensures r.Keys == enrollments.Keys + {(studentId, courseId)}
    ensures forall k :: k in enrollments && k != (studentId, courseId) ==> r[k] == enrollments[k]
    ensures r[(studentId, courseId)].status == ACTIVE
    ensures (studentId, courseId) in enrollments ==>
      && r[(studentId, courseId)].completedAt == enrollments[(studentId, courseId)].completedAt
      && r[(studentId, courseId)].enrolledAt == enrollments[(studentId, courseId)].enrolledAt
    ensures (studentId, courseId) !in enrollments ==> r[(studentId, courseId)] == Enrollment(ACTIVE, now, None)
  {
    var key := (studentId, courseId);
    if key in enrollments then enrollments[key := enrollments[key].(status := ACTIVE)]
    else enrollments[key := Enrollment(ACTIVE, now, None)]
  }

  /** Paying again for a finished course reopens its enrollment as ACTIVE, yet the
      kept `completedAt` still opens the exam's course-complete gate. */
  lemma ActivateKeepsGate(
    courses: map<Id, Course>, enrollments: map<(Id, Id), Enrollment>, lessonCourse: map<Id, Id>,
    progress: map<(Id, Id), Progress>, studentId: Id, courseId: Id, now: Time)
    ensures CourseCompleted(courses, Activate(enrollments, studentId, courseId, now), lessonCourse, progress, studentId, courseId)
        == CourseCompleted(courses, enrollments, lessonCourse, progress, studentId, courseId)
  {
  }

  /** pay, up to the reply: only a student; only the caller's own order; the order,
      then its payment, are marked PAID; then the first item's course is linked:
      the enrollment upserted ACTIVE and the student-course row upserted. Each step
      is its own write, so a later refusal leaves the earlier writes in place. */
  method PayDevOrder(db: Db, role: Option<string>, sub: Id, orderId: Id, now: Time) returns (r: Result<bool, DevError>)
    modifies db`orders, db`payments, db`enrollments, db`studentCourses
    ensures !IsStudent(role) ==> r == Err(NotStudent)
    ensures IsStudent(role) && (orderId !in old(db.orders) || old(db.orders)[orderId].studentId != sub) ==>
      r == Err(OrderNotFound)
    ensures r == Err(NotStudent) || r == Err(OrderNotFound) ==>
      db.orders == old(db.orders) && db.payments == old(db.payments)
    ensures r != Err(NotStudent) && r != Err(OrderNotFound) ==>
      && IsStudent(role) && orderId in old(db.orders) && old(db.orders)[orderId].studentId == sub
      && db.orders == old(db.orders)[orderId := old(db.orders)[orderId].(status := OrderStatus.PAID)]
    ensures r == Err(StoreError) <==>
      IsStudent(role) && orderId in old(db.orders) && old(db.orders)[orderId].studentId == sub && orderId !in old(db.payments)
    ensures r == Err(StoreError) ==> db.payments == old(db.payments)
    ensures r == Err(NoItems) || r.Ok? ==>
      orderId in old(db.payments) && db.payments == old(db.payments)[orderId := old(db.payments)[orderId].(status := PaymentStatus.PAID)]
    ensures r == Err(NoItems) <==>
      && IsStudent(role) && orderId in old(db.orders) && old(db.orders)[orderId].studentId == sub && orderId in old(db.payments)
      && (old(db.orders)[orderId].items == [] || old(db.orders)[orderId].items[0].courseId == "")
    ensures r.Err? ==> db.enrollments == old(db.enrollments) && db.studentCourses == old(db.studentCourses)
    ensures r.Ok? ==>
      var courseId := old(db.orders)[orderId].items[0].courseId;
      && r.value
      && db.enrollments == Activate(old(db.enrollments), sub, courseId, now)
      && db.studentCourses == old(db.studentCourses) + {(sub, courseId)}
  {
    if !IsStudent(role) {
      return Err(NotStudent);
    }
    if orderId !in db.orders || db.orders[orderId].studentId != sub {
      return Err(OrderNotFound);
    }
    var order := db.orders[orderId];
    db.orders := db.orders[orderId := order.(status := OrderStatus.PAID)];
    if orderId !in db.payments {
      return Err(StoreError);
    }
    db.payments := db.payments[orderId := db.payments[orderId].(status := PaymentStatus.PAID)];
    if order.items == [] || order.items[0].courseId == "" {
      return Err(NoItems);
    }
    var courseId := order.items[0].courseId;
    db.enrollments := Activate(db.enrollments, sub, courseId, now);
    db.studentCourses := db.studentCourses + {(sub, courseId)};
    return Ok(true);
  }
}

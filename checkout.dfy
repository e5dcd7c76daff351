/** CheckoutService.createOrder up to the payment provider: course selection,
    price check, total, and the local order, items and payment rows. */
module Checkout {
  import opened Common
  import opened Store

  /** The refusals of createOrder, in order; all are answered as BadRequest. */
  datatype OrderError = NoCourseSelected | InvalidCourses | AlreadyEnrolled | MissingPrice
  {
    function Kind(): Exception { BadRequest }
  }

  /** The rows of `course.findMany({ where: { id: { in: courseIds }, isActive: true,
      isPaid: true } })`, with `rows` the course table in the order the query returns it. */
  function Offered(courses: map<Id, Course>, rows: seq<Id>, courseIds: seq<Id>): (r: seq<Id>)
    requires forall id :: id in rows ==> id in courses
    ensures |r| <= |rows|
    ensures forall id :: id in r <==> id in rows && id in courseIds && courses[id].isActive && courses[id].isPaid
    ensures Distinct(rows) ==> Distinct(r)
  {
    if rows == [] then []
    else
      var id := rows[0];
      (if id in courseIds && courses[id].isActive && courses[id].isPaid then [id] else [])
        + Offered(courses, rows[1..], courseIds)
  }

  /** The query keeps the order of the rows: it distributes over concatenation. */
  lemma {:induction false} OfferedAppend(courses: map<Id, Course>, a: seq<Id>, b: seq<Id>, courseIds: seq<Id>)
    requires forall id :: id in a + b ==> id in courses
    ensures Offered(courses, a + b, courseIds) == Offered(courses, a, courseIds) + Offered(courses, b, courseIds)
    decreases |a|
  {
    if a == [] {
      assert a + b == b;
    } else {
      assert (a + b)[1..] == a[1..] + b;
      OfferedAppend(courses, a[1..], b, courseIds);
    }
  }

  /** `courses.filter(c => !enrolledIds.has(c.id))`, order kept. */
  function NotEnrolled(enrollments: map<(Id, Id), Enrollment>, studentId: Id, ids: seq<Id>): (r: seq<Id>)
    ensures |r| <= |ids|
    ensures forall id :: id in r <==> id in ids && (studentId, id) !in enrollments
    ensures Distinct(ids) ==> Distinct(r)
  {
    if ids == [] then []
    else
      (if (studentId, ids[0]) !in enrollments then [ids[0]] else []) + NotEnrolled(enrollments, studentId, ids[1..])
  }

  /** `!(!c.priceCents || c.priceCents <= 0)`: a set, positive price. */
  predicate HasPrice(c: Course) {
    c.priceCents.Some? && c.priceCents.value > 0
  }

  /** `finalCourses.map(course => ({ courseId, unitPriceCents: course.priceCents! }))`. */
  function ItemsOf(courses: map<Id, Course>, ids: seq<Id>): (items: seq<OrderItem>)
    requires forall id :: id in ids ==> id in courses && HasPrice(courses[id])
    ensures |items| == |ids|
    ensures forall k :: 0 <= k < |ids| ==> items[k].courseId == ids[k]
    ensures forall k :: 0 <= k < |ids| ==> HasPrice(courses[ids[k]]) && items[k].unitPriceCents == courses[ids[k]].priceCents.value
  {
    if ids == [] then []
    else
      assert ids[0] in ids && HasPrice(courses[ids[0]]);
      [OrderItem(ids[0], courses[ids[0]].priceCents.value)] + ItemsOf(courses, ids[1..])
  }

  /** `reduce((sum, c) => sum + c.priceCents, 0)` over the items. */
  function TotalCents(items: seq<OrderItem>): int {
    if items == [] then 0 else items[0].unitPriceCents + TotalCents(items[1..])
  }

  /** With positive prices the total is positive and at least every single price. */
  lemma {:induction false} TotalBounds(items: seq<OrderItem>)
    requires items != []
    requires forall k :: 0 <= k < |items| ==> items[k].unitPriceCents > 0
    ensures TotalCents(items) > 0
    ensures forall k :: 0 <= k < |items| ==> items[k].unitPriceCents <= TotalCents(items)
  {
    if |items| > 1 {
      TotalBounds(items[1..]);
      assert forall k :: 1 <= k < |items| ==> items[k] == items[1..][k - 1];
    }
  }

  /** The courses that end up in the order. */
  function FinalCourses(
    courses: map<Id, Course>, enrollments: map<(Id, Id), Enrollment>, rows: seq<Id>, studentId: Id, courseIds: seq<Id>)
    : (r: seq<Id>)
    requires forall id :: id in rows ==> id in courses
    ensures forall id :: id in r ==> id in courses
  {
    NotEnrolled(enrollments, studentId, Offered(courses, rows, courseIds))
  }

  /** Over the whole course table, each requested active paid course is found once:
      the order is refused as invalid exactly when none exists, and the final
      courses are the requested active paid courses the student is not enrolled in,
      none twice. */
  lemma OrderFromTable(
    courses: map<Id, Course>, enrollments: map<(Id, Id), Enrollment>, rows: seq<Id>, studentId: Id, courseIds: seq<Id>)
    requires Enumerates(rows, courses.Keys)
    ensures Offered(courses, rows, courseIds) == [] <==>
      !exists id :: id in courses && id in courseIds && courses[id].isActive && courses[id].isPaid
    ensures var final := FinalCourses(courses, enrollments, rows, studentId, courseIds);
      && Distinct(final)
      && forall id :: id in final <==>
           id in courses && id in courseIds && courses[id].isActive && courses[id].isPaid && (studentId, id) !in enrollments
  {
    var found := Offered(courses, rows, courseIds);
    if found == [] {
      forall id | id in courses && id in courseIds
        ensures !(courses[id].isActive && courses[id].isPaid)
      {
        assert id in rows;
      }
    } else {
      assert found[0] in found;
    }
  }

  /** createOrder's refusals, in order. */
  function OrderCheck(
    courses: map<Id, Course>, enrollments: map<(Id, Id), Enrollment>, rows: seq<Id>, studentId: Id, courseIds: seq<Id>)
    : (e: Option<OrderError>)
    requires forall id :: id in rows ==> id in courses
  {
    if courseIds == [] then Some(NoCourseSelected)
    else if Offered(courses, rows, courseIds) == [] then Some(InvalidCourses)
    else
      var final := FinalCourses(courses, enrollments, rows, studentId, courseIds);
      if final == [] then Some(AlreadyEnrolled)
      else if exists id :: id in final && !HasPrice(courses[id]) then Some(MissingPrice)
      else None
  }

  /** What an accepted order holds: at least one item; each item is a requested,
      active, paid course the student is not enrolled in, at its positive price; and
      the total is the positive sum of the item prices. */
  lemma AcceptedOrder(
    courses: map<Id, Course>, enrollments: map<(Id, Id), Enrollment>, rows: seq<Id>, studentId: Id, courseIds: seq<Id>)
    requires forall id :: id in rows ==> id in courses
    requires OrderCheck(courses, enrollments, rows, studentId, courseIds).None?
    ensures var items := ItemsOf(courses, FinalCourses(courses, enrollments, rows, studentId, courseIds));
      && items != []
      && TotalCents(items) > 0
      && forall k :: 0 <= k < |items| ==>
           var c := items[k].courseId;
           && c in courseIds && c in courses && courses[c].isActive && courses[c].isPaid
           && (studentId, c) !in enrollments
           && items[k].unitPriceCents == courses[c].priceCents.value > 0
  {
    var final := FinalCourses(courses, enrollments, rows, studentId, courseIds);
    var items := ItemsOf(courses, final);
    TotalBounds(items);
    forall k | 0 <= k < |items|
      ensures items[k].courseId in courseIds && (studentId, items[k].courseId) !in enrollments
    {
      assert final[k] in final;
    }
  }

  /** The refusals of createOrder, step by step; on acceptance `final` holds the
      courses that go into the order. */
  method CheckOrder(
    courses: map<Id, Course>, enrollments: map<(Id, Id), Enrollment>, rows: seq<Id>, studentId: Id, courseIds: seq<Id>)
    returns (refusal: Option<OrderError>, final: seq<Id>)
    requires forall id :: id in rows ==> id in courses
    ensures refusal == OrderCheck(courses, enrollments, rows, studentId, courseIds)
    ensures refusal.None? ==> final == FinalCourses(courses, enrollments, rows, studentId, courseIds)
  {
    final := [];
    if |courseIds| == 0 {
      return Some(NoCourseSelected), final;
    }
    var found := Offered(courses, rows, courseIds);
    if |found| == 0 {
      return Some(InvalidCourses), final;
    }
    final := NotEnrolled(enrollments, studentId, found);
    if |final| == 0 {
      return Some(AlreadyEnrolled), final;
    }
    if exists id :: id in final && !HasPrice(courses[id]) {
      return Some(MissingPrice), final;
    }
    return None, final;
  }

  /** createOrder until the provider call: the refusals, then the order with its
      items and a PENDING payment of the requested billing type. `rows` lists the course
      table once, in query order, and `orderId` the id the store assigns. */
  method CreateOrder(db: Db, rows: seq<Id>, studentId: Id, courseIds: seq<Id>, billingType: BillingType, orderId: Id)
    returns (r: Result<Order, OrderError>)
    requires Enumerates(rows, db.courses.Keys)
    requires orderId !in db.orders && orderId !in db.payments
    modifies db`orders, db`payments
    ensures r.Err? <==> OrderCheck(db.courses, db.enrollments, rows, studentId, courseIds).Some?
    ensures r.Err? ==>
      && r.error == OrderCheck(db.courses, db.enrollments, rows, studentId, courseIds).value
      && db.orders == old(db.orders) && db.payments == old(db.payments)
    ensures r.Ok? ==>
      var items := ItemsOf(db.courses, FinalCourses(db.courses, db.enrollments, rows, studentId, courseIds));
      && r.value == Order(studentId, TotalCents(items), SchemaDefault, items)
      && db.orders == old(db.orders)[orderId := r.value]
      && db.payments == old(db.payments)[orderId := Payment(billingType, PENDING, None)]
  {
    var refusal, final := CheckOrder(db.courses, db.enrollments, rows, studentId, courseIds);
    if refusal.Some? {
      return Err(refusal.value);
    }
    var items := ItemsOf(db.courses, final);
    var order := Order(studentId, TotalCents(items), SchemaDefault, items);
    db.orders := db.orders[orderId := order];
    db.payments := db.payments[orderId := Payment(billingType, PENDING, None)];
    return Ok(order);
  }
}

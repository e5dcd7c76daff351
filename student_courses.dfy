/** The student's view of a course: every lesson COMPLETED, UNLOCKED or BLOCKED, the
    lesson and completion counters and the rounded progress percentage. */
module StudentCourses {
  import opened Common
  import opened Store
  import opened Curriculum
  import opened LessonProgress

  datatype LessonStatus = COMPLETED | UNLOCKED | BLOCKED

  datatype StatusView = StatusView(id: Id, title: string, order: int, status: LessonStatus)

  datatype ModuleStatus = ModuleStatus(id: Id, order: int, lessons: seq<StatusView>)

  datatype CourseOverview = CourseOverview(
    courseId: Id,
    title: string,
    progressPercent: nat,
    modules: seq<ModuleStatus>)

  /** Every one of the first n lessons of ls is completed. */
  predicate PrefixDone(progress: map<(Id, Id), Progress>, studentId: Id, ls: seq<Lesson>, n: nat)
    requires n <= |ls|
  {
    forall j :: 0 <= j < n ==> IsDone(progress, studentId, ls[j].id)
  }

  /** How many of the first n lessons of ls are completed. */
  function CountDone(progress: map<(Id, Id), Progress>, studentId: Id, ls: seq<Lesson>, n: nat): (c: nat)
    requires n <= |ls|
    ensures c <= n
  {
    if n == 0 then 0
    else CountDone(progress, studentId, ls, n - 1) + (if IsDone(progress, studentId, ls[n - 1].id) then 1 else 0)
  }

  /** The status of position k: COMPLETED when done; otherwise UNLOCKED when every
      lesson before it is completed, BLOCKED when one is not. */
  function StatusAt(progress: map<(Id, Id), Progress>, studentId: Id, ls: seq<Lesson>, k: nat): LessonStatus
    requires k < |ls|
  {
    if IsDone(progress, studentId, ls[k].id) then LessonStatus.COMPLETED
    else if PrefixDone(progress, studentId, ls, k) then UNLOCKED
    else BLOCKED
  }

  function StatusViewAt(progress: map<(Id, Id), Progress>, studentId: Id, ls: seq<Lesson>, k: nat): StatusView
    requires k < |ls|
  {
    StatusView(ls[k].id, ls[k].title, ls[k].order, StatusAt(progress, studentId, ls, k))
  }

  /** The status views of every position of ls. */
  function StatusViewsOf(progress: map<(Id, Id), Progress>, studentId: Id, ls: seq<Lesson>): (vs: seq<StatusView>)
    ensures |vs| == |ls|
    ensures forall k :: 0 <= k < |ls| ==> vs[k] == StatusViewAt(progress, studentId, ls, k)
  {
    seq(|ls|, k requires 0 <= k < |ls| => StatusViewAt(progress, studentId, ls, k))
  }

  function FlatStatuses(mss: seq<ModuleStatus>): seq<StatusView> {
    if mss == [] then [] else FlatStatuses(mss[..|mss| - 1]) + mss[|mss| - 1].lessons
  }

  /** Module status x carries module x's id and order and one view per lesson. */
  predicate StatusShaped(mss: seq<ModuleStatus>, modules: seq<CourseModule>) {
    |mss| == |modules|
    && forall x :: 0 <= x < |mss| ==>
      mss[x].id == modules[x].id && mss[x].order == modules[x].order
      && |mss[x].lessons| == |modules[x].lessons|
  }

  /** Counting the completed lessons among the first n positions does not look past them. */
  lemma {:induction false} CountDonePrefix(
    progress: map<(Id, Id), Progress>, studentId: Id, pre: seq<Lesson>, lessons: seq<Lesson>, n: nat)
    requires n <= |pre|
    ensures CountDone(progress, studentId, pre + lessons, n) == CountDone(progress, studentId, pre, n)
  {
    if n > 0 {
      CountDonePrefix(progress, studentId, pre, lessons, n - 1);
      assert (pre + lessons)[n - 1] == pre[n - 1];
    }
  }

  /** The state `unlocked`, `totalLessons` and `completedCount` hold after walking ls. */
  predicate WalkCounters(
    progress: map<(Id, Id), Progress>, studentId: Id, ls: seq<Lesson>,
    unlocked: bool, total: nat, completed: nat)
  {
    && unlocked == PrefixDone(progress, studentId, ls, |ls|)
    && total == |ls|
    && completed == CountDone(progress, studentId, ls, |ls|)
  }

  /** The inner walk of getCourse over one module's lessons, which follow the lessons
      `pre` of the modules before it. */
  method ModuleStatuses(
    progress: map<(Id, Id), Progress>, studentId: Id, ghost pre: seq<Lesson>, lessons: seq<Lesson>,
    unlocked0: bool, total0: nat, completed0: nat)
    returns (lvs: seq<StatusView>, unlocked: bool, totalLessons: nat, completedCount: nat)
    requires WalkCounters(progress, studentId, pre, unlocked0, total0, completed0)
    ensures |lvs| == |lessons|
    ensures forall k {:trigger lvs[k]} :: 0 <= k < |lessons| ==>
      lvs[k] == StatusViewAt(progress, studentId, pre + lessons, |pre| + k)
    ensures WalkCounters(progress, studentId, pre + lessons, unlocked, totalLessons, completedCount)
  {
    ghost var ls := pre + lessons;
    unlocked, totalLessons, completedCount := unlocked0, total0, completed0;
    CountDonePrefix(progress, studentId, pre, lessons, |pre|);
    assert forall j :: 0 <= j < |pre| ==> ls[j] == pre[j];
    lvs := [];
    var j := 0;
    while j < |lessons|
      invariant 0 <= j <= |lessons|
      invariant |lvs| == j
      invariant forall k {:trigger lvs[k]} :: 0 <= k < j ==> lvs[k] == StatusViewAt(progress, studentId, ls, |pre| + k)
      invariant unlocked == PrefixDone(progress, studentId, ls, |pre| + j)
      invariant totalLessons == |pre| + j
      invariant completedCount == CountDone(progress, studentId, ls, |pre| + j)
    {
      var lesson := lessons[j];
      assert ls[|pre| + j] == lesson;
      totalLessons := totalLessons + 1;
      var isCompleted := IsDone(progress, studentId, lesson.id);
      if isCompleted {
        completedCount := completedCount + 1;
      }
      var lessonUnlocked := unlocked;
      if !isCompleted {
        unlocked := false;
      }
      var status := if isCompleted then LessonStatus.COMPLETED else if lessonUnlocked then UNLOCKED else BLOCKED;
      lvs := lvs + [StatusView(lesson.id, lesson.title, lesson.order, status)];
      j := j + 1;
    }
    assert ls[..|ls|] == ls;
  }

  /** A position's status depends only on the lessons up to it. */
  lemma StatusAtPrefix(progress: map<(Id, Id), Progress>, studentId: Id, pre: seq<Lesson>, lessons: seq<Lesson>, k: nat)
    requires k < |pre|
    ensures StatusViewAt(progress, studentId, pre + lessons, k) == StatusViewAt(progress, studentId, pre, k)
  {
    assert forall j :: 0 <= j <= k ==> (pre + lessons)[j] == pre[j];
  }

  /** One step of the module walk keeps its invariant. */
  lemma StatusWalkStep(
    progress: map<(Id, Id), Progress>, studentId: Id, modules: seq<CourseModule>, i: nat,
    mss: seq<ModuleStatus>, pre: seq<Lesson>, ms: ModuleStatus)
    requires i < |modules|
    requires StatusShaped(mss, modules[..i])
    requires pre == FlatLessons(modules[..i])
    requires FlatStatuses(mss) == StatusViewsOf(progress, studentId, pre)
    requires ms.id == modules[i].id && ms.order == modules[i].order
    requires |ms.lessons| == |modules[i].lessons|
    requires forall k {:trigger ms.lessons[k]} :: 0 <= k < |modules[i].lessons| ==>
      ms.lessons[k] == StatusViewAt(progress, studentId, pre + modules[i].lessons, |pre| + k)
    ensures StatusShaped(mss + [ms], modules[..i + 1])
    ensures pre + modules[i].lessons == FlatLessons(modules[..i + 1])
    ensures FlatStatuses(mss + [ms]) == StatusViewsOf(progress, studentId, pre + modules[i].lessons)
  {
    var lessons := modules[i].lessons;
    assert (mss + [ms])[..|mss|] == mss;
    FlatPrefix(modules, i);
    assert modules[..i + 1] == modules[..i] + [modules[i]];
    var a := StatusViewsOf(progress, studentId, pre) + ms.lessons;
    var b := StatusViewsOf(progress, studentId, pre + lessons);
    forall k | 0 <= k < |b|
      ensures a[k] == b[k]
    {
      if k < |pre| {
        StatusAtPrefix(progress, studentId, pre, lessons, k);
      } else {
        assert a[k] == ms.lessons[k - |pre|];
      }
    }
  }

  /** The walk of getCourse over the course's modules. */
  method CourseStatuses(progress: map<(Id, Id), Progress>, studentId: Id, modules: seq<CourseModule>)
    returns (mss: seq<ModuleStatus>, totalLessons: nat, completedCount: nat)
    ensures StatusShaped(mss, modules)
    ensures FlatStatuses(mss) == StatusViewsOf(progress, studentId, FlatLessons(modules))
    ensures totalLessons == |FlatLessons(modules)|
    ensures completedCount == CountDone(progress, studentId, FlatLessons(modules), totalLessons)
  {
    var unlocked := true;
    totalLessons, completedCount := 0, 0;
    mss := [];
    ghost var pre: seq<Lesson> := [];
    var i := 0;
    while i < |modules|
      invariant 0 <= i <= |modules|
      invariant StatusShaped(mss, modules[..i])
      invariant pre == FlatLessons(modules[..i])
      invariant FlatStatuses(mss) == StatusViewsOf(progress, studentId, pre)
      invariant WalkCounters(progress, studentId, pre, unlocked, totalLessons, completedCount)
    {
      var lessons := modules[i].lessons;
      var lvs;
      lvs, unlocked, totalLessons, completedCount :=
        ModuleStatuses(progress, studentId, pre, lessons, unlocked, totalLessons, completedCount);
      var ms := ModuleStatus(modules[i].id, modules[i].order, lvs);
      StatusWalkStep(progress, studentId, modules, i, mss, pre, ms);
      mss := mss + [ms];
      pre := pre + lessons;
      i := i + 1;
    }
    assert modules[..i] == modules;
  }

  /** `totalLessons === 0 ? 0 : Math.round(completedCount / totalLessons * 100)`. */
  function ProgressPercent(completedCount: nat, totalLessons: nat): (p: nat)
    requires completedCount <= totalLessons
    ensures totalLessons == 0 ==> p == 0
    ensures totalLessons > 0 ==> p == RoundPercent(completedCount, totalLessons)
    ensures p <= 100
  {
    if totalLessons == 0 then 0 else RoundPercent(completedCount, totalLessons)
  }

  /** getCourse. Without an enrollment the student is refused (Forbidden); an enrolled
      student whose course row is gone makes the service dereference a missing course,
      an unhandled error (Internal). */
  method GetCourse(db: Db, studentId: Id, courseId: Id) returns (r: Result<CourseOverview, Exception>)
    ensures (studentId, courseId) !in db.enrollments ==> r == Err(Forbidden)
    ensures (studentId, courseId) in db.enrollments && courseId !in db.courses ==> r == Err(Internal)
    ensures (studentId, courseId) in db.enrollments && courseId in db.courses ==>
      var course := db.courses[courseId];
      var ls := FlatLessons(course.modules);
      && r.Ok?
      && r.value.courseId == courseId && r.value.title == course.title
      && StatusShaped(r.value.modules, course.modules)
      && FlatStatuses(r.value.modules) == StatusViewsOf(db.progress, studentId, ls)
      && r.value.progressPercent == ProgressPercent(CountDone(db.progress, studentId, ls, |ls|), |ls|)
  {
    if (studentId, courseId) !in db.enrollments {
      return Err(Forbidden);
    }
    if courseId !in db.courses {
      return Err(Internal);
    }
    var course := db.courses[courseId];
    var modules, totalLessons, completedCount := CourseStatuses(db.progress, studentId, course.modules);
    var percent := ProgressPercent(completedCount, totalLessons);
    return Ok(CourseOverview(courseId, course.title, percent, modules));
  }

  // ------------------------------------------------------------------ properties

  /** The completion counter reaches the lesson counter exactly when every lesson is
      completed. */
  lemma {:induction false} CountFullIffAllDone(progress: map<(Id, Id), Progress>, studentId: Id, ls: seq<Lesson>, n: nat)
    requires n <= |ls|
    ensures CountDone(progress, studentId, ls, n) == n <==> PrefixDone(progress, studentId, ls, n)
  {
    if n > 0 {
      CountFullIffAllDone(progress, studentId, ls, n - 1);
    }
  }

  /** At most one lesson is UNLOCKED: every lesson before an UNLOCKED one is COMPLETED,
      so a second UNLOCKED lesson would need the first to be completed. */
  lemma AtMostOneUnlocked(progress: map<(Id, Id), Progress>, studentId: Id, ls: seq<Lesson>, j: nat, k: nat)
    requires j < k < |ls|
    requires StatusAt(progress, studentId, ls, k) == UNLOCKED
    ensures StatusAt(progress, studentId, ls, j) == LessonStatus.COMPLETED
  {
    assert IsDone(progress, studentId, ls[j].id);
  }

  /** When some lesson is not completed, the first such lesson is the UNLOCKED one. */
  lemma FirstIncompleteIsUnlocked(progress: map<(Id, Id), Progress>, studentId: Id, ls: seq<Lesson>, k: nat)
    requires k < |ls| && !IsDone(progress, studentId, ls[k].id)
    requires forall j :: 0 <= j < k ==> IsDone(progress, studentId, ls[j].id)
    ensures StatusAt(progress, studentId, ls, k) == UNLOCKED
  {
  }

  /** On a course whose completed lessons form a prefix of the sequence, the progress
      view's `locked` flag and this view's BLOCKED status agree at every position. */
  lemma LockRulesAgree(progress: map<(Id, Id), Progress>, studentId: Id, ls: seq<Lesson>, k: nat)
    requires DonePrefix(progress, studentId, LessonIds(ls))
    requires k < |ls|
    ensures LessonViewAt(progress, studentId, ls, k).locked <==> StatusAt(progress, studentId, ls, k) == BLOCKED
  {
    var ids := LessonIds(ls);
    if k > 0 && !IsDone(progress, studentId, ls[k - 1].id) {
      assert ids[k - 1] == ls[k - 1].id && ids[k] == ls[k].id;
      assert !IsDone(progress, studentId, ls[k].id);
      assert !PrefixDone(progress, studentId, ls, k);
    }
    if StatusAt(progress, studentId, ls, k) == BLOCKED {
      var j :| 0 <= j < k && !IsDone(progress, studentId, ls[j].id);
      assert ids[j] == ls[j].id && ids[k - 1] == ls[k - 1].id;
    }
  }

  /** Off a prefix the two rules part: with only the middle of three lessons completed,
      the third is unlocked in the progress view but BLOCKED here. */
  lemma LockRulesDifferOffPrefix(a: Lesson, b: Lesson, c: Lesson, studentId: Id, p: Progress)
    requires a.id != b.id && b.id != c.id && a.id != c.id
    requires p.completed
    ensures var progress := map[(studentId, b.id) := p];
      && !LessonViewAt(progress, studentId, [a, b, c], 2).locked
      && StatusAt(progress, studentId, [a, b, c], 2) == BLOCKED
  {
    var progress := map[(studentId, b.id) := p];
    assert !IsDone(progress, studentId, [a, b, c][0].id);
  }

  /** The rounded percentage reads 100 before the last lesson is done once a course has
      200 lessons or more: 199 of 200 is 99.5, which rounds up. */
  lemma RoundedFullBeforeDone()
    ensures ProgressPercent(199, 200) == 100
  {
  }
}

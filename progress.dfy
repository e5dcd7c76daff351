/** Lesson progress: the video heartbeat, the per-course progress view with its
    "previous lesson" lock, sequential lesson completion and the detector that marks
    an enrollment COMPLETED once every lesson of the course is done. */
module LessonProgress {
  import opened Common
  import opened Store
  import opened Curriculum

  /** The service's failures; each one is thrown as a BadRequest. */
  datatype ProgressError = LessonNotFound | CourseNotFound | LessonNotInCourse | PreviousLessonsIncomplete

  /** The student's progress row for a lesson, if there is one. */
  function Row(progress: map<(Id, Id), Progress>, studentId: Id, lessonId: Id): Option<Progress> {
    if (studentId, lessonId) in progress then Some(progress[(studentId, lessonId)]) else None
  }

  /** `!!p?.completed`: the student has a progress row for the lesson and it is completed. */
  predicate IsDone(progress: map<(Id, Id), Progress>, studentId: Id, lessonId: Id) {
    (studentId, lessonId) in progress && progress[(studentId, lessonId)].completed
  }

  // ------------------------------------------------------------------ heartbeat

  /** `Math.max(0, Math.floor(currentTime || 0))`; `None` stands for a missing or
      NaN time, which `|| 0` replaces by 0. */
  function WatchedPosition(currentTime: Option<real>): (t: nat)
    ensures currentTime.None? ==> t == 0
    ensures currentTime.Some? && currentTime.value >= 0.0 ==>
      t as real <= currentTime.value < t as real + 1.0
    ensures currentTime.Some? && currentTime.value < 1.0 ==> t == 0
  {
    match currentTime
    case None => 0
    case Some(x) => if x.Floor < 0 then 0 else x.Floor
  }

  /** The row the heartbeat's upsert leaves: watched time and position set to t, the
      completion flag and date kept from an existing row, not completed on a new one. */
  function Watched(row: Option<Progress>, t: nat): (p: Progress)
    ensures p.watchedSeconds == t && p.lastPosition == t
    ensures row.Some? ==> p.completed == row.value.completed && p.completedAt == row.value.completedAt
    ensures row.None? ==> !p.completed && p.completedAt == None
  {
    match row
    case Some(old_) => old_.(watchedSeconds := t, lastPosition := t)
    case None => Progress(false, None, t, t)
  }

  /** watchMyLesson: records the position reached and returns it as `allowedTime`.
      A heartbeat never completes a lesson, nor takes a completion back. */
  method WatchMyLesson(db: Db, studentId: Id, lessonId: Id, currentTime: Option<real>)
    returns (r: Result<nat, ProgressError>)
    modifies db`progress
    ensures lessonId !in db.lessonCourse ==> r == Err(LessonNotFound) && db.progress == old(db.progress)
    ensures lessonId in db.lessonCourse ==>
      && r == Ok(WatchedPosition(currentTime))
      && db.progress == old(db.progress)[(studentId, lessonId) :=
           Watched(Row(old(db.progress), studentId, lessonId), WatchedPosition(currentTime))]
    ensures forall s, l :: IsDone(db.progress, s, l) == IsDone(old(db.progress), s, l)
  {
    if lessonId !in db.lessonCourse {
      return Err(LessonNotFound);
    }
    var t := WatchedPosition(currentTime);
    db.progress := db.progress[(studentId, lessonId) := Watched(Row(db.progress, studentId, lessonId), t)];
    return Ok(t);
  }

  // ------------------------------------------------------------------ progress view

  datatype LessonView = LessonView(
    id: Id,
    title: string,
    order: int,
    completed: bool,
    locked: bool,
    watchedSeconds: int,
    lastPosition: int)

  datatype ModuleView = ModuleView(id: Id, order: int, lessons: seq<LessonView>)

  /** The view of the k-th lesson of the course's sequence, stated position by position:
      locked exactly when some lesson precedes it and the one right before it is not
      completed; watched time and position are the stored ones, or 0. */
  function LessonViewAt(progress: map<(Id, Id), Progress>, studentId: Id, ls: seq<Lesson>, k: nat): LessonView
    requires k < |ls|
  {
    var l := ls[k];
    var row := Row(progress, studentId, l.id);
    LessonView(
      l.id, l.title, l.order,
      IsDone(progress, studentId, l.id),
      k > 0 && !IsDone(progress, studentId, ls[k - 1].id),
      if row.Some? then row.value.watchedSeconds else 0,
      if row.Some? then row.value.lastPosition else 0)
  }

  /** The lesson views of a module view sequence, flattened in order. */
  function FlatViews(mvs: seq<ModuleView>): seq<LessonView> {
    if mvs == [] then [] else FlatViews(mvs[..|mvs| - 1]) + mvs[|mvs| - 1].lessons
  }

  /** `previousLessonDone` after walking ls: the last lesson of ls is completed, or
      there is none. */
  predicate LastDone(progress: map<(Id, Id), Progress>, studentId: Id, ls: seq<Lesson>) {
    ls == [] || IsDone(progress, studentId, ls[|ls| - 1].id)
  }

  /** The inner walk of getCourseProgress over one module's lessons, which follow the
      lessons `pre` of the modules before it; `previousDone` arrives as the completion
      of the last lesson of `pre` (true when there is none) and leaves as the
      completion of the module's last lesson. */
  method ModuleLessonViews(
    progress: map<(Id, Id), Progress>, studentId: Id, ghost pre: seq<Lesson>,
    lessons: seq<Lesson>, previousDone: bool)
    returns (lvs: seq<LessonView>, previousLessonDone: bool)
    requires previousDone == LastDone(progress, studentId, pre)
    ensures |lvs| == |lessons|
    ensures forall k {:trigger lvs[k]} :: 0 <= k < |lessons| ==>
      lvs[k] == LessonViewAt(progress, studentId, pre + lessons, |pre| + k)
    ensures previousLessonDone == LastDone(progress, studentId, pre + lessons)
  {
    ghost var ls := pre + lessons;
    previousLessonDone := previousDone;
    lvs := [];
    var j := 0;
    while j < |lessons|
      invariant 0 <= j <= |lessons|
      invariant |lvs| == j
      invariant forall k {:trigger lvs[k]} :: 0 <= k < j ==> lvs[k] == LessonViewAt(progress, studentId, ls, |pre| + k)
      invariant previousLessonDone == (|pre| + j == 0 || IsDone(progress, studentId, ls[|pre| + j - 1].id))
    {
      var l := lessons[j];
      assert ls[|pre| + j] == l;
      var p := Row(progress, studentId, l.id);
      var completed := IsDone(progress, studentId, l.id);
      var locked := !previousLessonDone;
      previousLessonDone := completed;
      lvs := lvs + [LessonView(
        l.id, l.title, l.order, completed, locked,
        if p.Some? then p.value.watchedSeconds else 0,
        if p.Some? then p.value.lastPosition else 0)];
      j := j + 1;
    }
  }

  /** The views of every position of a lesson sequence. */
  function ViewsOf(progress: map<(Id, Id), Progress>, studentId: Id, ls: seq<Lesson>): (vs: seq<LessonView>)
    ensures |vs| == |ls|
    ensures forall k :: 0 <= k < |ls| ==> vs[k] == LessonViewAt(progress, studentId, ls, k)
  {
    seq(|ls|, k requires 0 <= k < |ls| => LessonViewAt(progress, studentId, ls, k))
  }

  /** A module's lesson views, computed as the positions following `pre`, extend the
      views of `pre` to the views of the longer sequence. */
  lemma ViewsExtend(
    progress: map<(Id, Id), Progress>, studentId: Id, pre: seq<Lesson>, lessons: seq<Lesson>,
    lvs: seq<LessonView>)
    requires |lvs| == |lessons|
    requires forall k {:trigger lvs[k]} :: 0 <= k < |lessons| ==>
      lvs[k] == LessonViewAt(progress, studentId, pre + lessons, |pre| + k)
    ensures ViewsOf(progress, studentId, pre) + lvs == ViewsOf(progress, studentId, pre + lessons)
  {
    var a := ViewsOf(progress, studentId, pre) + lvs;
    var b := ViewsOf(progress, studentId, pre + lessons);
    forall k | 0 <= k < |b|
      ensures a[k] == b[k]
    {
      if k < |pre| {
        assert (pre + lessons)[k] == pre[k];
        assert k > 0 ==> (pre + lessons)[k - 1] == pre[k - 1];
      } else {
        assert a[k] == lvs[k - |pre|];
      }
    }
  }

  lemma FlatViewsAppend(views: seq<ModuleView>, mv: ModuleView)
    ensures FlatViews(views + [mv]) == FlatViews(views) + mv.lessons
  {
    assert (views + [mv])[..|views|] == views;
  }

  /** Module view x carries module x's id and order and one view per lesson. */
  predicate Shaped(views: seq<ModuleView>, modules: seq<CourseModule>) {
    |views| == |modules|
    && forall x :: 0 <= x < |views| ==>
      views[x].id == modules[x].id && views[x].order == modules[x].order
      && |views[x].lessons| == |modules[x].lessons|
  }

  lemma ShapedAppend(views: seq<ModuleView>, modules: seq<CourseModule>, mv: ModuleView, m: CourseModule)
    requires Shaped(views, modules)
    requires mv.id == m.id && mv.order == m.order && |mv.lessons| == |m.lessons|
    ensures Shaped(views + [mv], modules + [m])
  {
  }

  /** One step of the module walk keeps its invariant. */
  lemma WalkStep(
    progress: map<(Id, Id), Progress>, studentId: Id, modules: seq<CourseModule>, i: nat,
    views: seq<ModuleView>, pre: seq<Lesson>, mv: ModuleView)
    requires i < |modules|
    requires Shaped(views, modules[..i])
    requires pre == FlatLessons(modules[..i])
    requires FlatViews(views) == ViewsOf(progress, studentId, pre)
    requires mv.id == modules[i].id && mv.order == modules[i].order
    requires |mv.lessons| == |modules[i].lessons|
    requires forall k {:trigger mv.lessons[k]} :: 0 <= k < |modules[i].lessons| ==>
      mv.lessons[k] == LessonViewAt(progress, studentId, pre + modules[i].lessons, |pre| + k)
    ensures Shaped(views + [mv], modules[..i + 1])
    ensures pre + modules[i].lessons == FlatLessons(modules[..i + 1])
    ensures FlatViews(views + [mv]) == ViewsOf(progress, studentId, pre + modules[i].lessons)
  {
    ViewsExtend(progress, studentId, pre, modules[i].lessons, mv.lessons);
    FlatViewsAppend(views, mv);
    FlatPrefix(modules, i);
    ShapedAppend(views, modules[..i], mv, modules[i]);
    assert modules[..i + 1] == modules[..i] + [modules[i]];
  }

  /** The walk of getCourseProgress over a course's modules, in order, carrying
      `previousLessonDone` across module boundaries. */
  method CourseViews(progress: map<(Id, Id), Progress>, studentId: Id, modules: seq<CourseModule>)
    returns (views: seq<ModuleView>)
    ensures Shaped(views, modules)
    ensures FlatViews(views) == ViewsOf(progress, studentId, FlatLessons(modules))
  {
    var previousLessonDone := true;
    views := [];
    ghost var pre: seq<Lesson> := [];
    var i := 0;
    while i < |modules|
      invariant 0 <= i <= |modules|
      invariant Shaped(views, modules[..i])
      invariant pre == FlatLessons(modules[..i])
      invariant FlatViews(views) == ViewsOf(progress, studentId, pre)
      invariant previousLessonDone == LastDone(progress, studentId, pre)
    {
      var lessons := modules[i].lessons;
      var lvs;
      lvs, previousLessonDone := ModuleLessonViews(progress, studentId, pre, lessons, previousLessonDone);
      var mv := ModuleView(modules[i].id, modules[i].order, lvs);
      WalkStep(progress, studentId, modules, i, views, pre, mv);
      views := views + [mv];
      pre := pre + lessons;
      i := i + 1;
    }
    assert modules[..i] == modules;
  }

  /** getCourseProgress: the course's module views, or CourseNotFound. Position k of
      the flattened views is `LessonViewAt` position k of the course's sequence. */
  method GetCourseProgress(db: Db, studentId: Id, courseId: Id) returns (r: Result<seq<ModuleView>, ProgressError>)
    ensures courseId !in db.courses <==> r == Err(CourseNotFound)
    ensures courseId in db.courses ==> r.Ok?
    ensures r.Ok? ==>
      && Shaped(r.value, db.courses[courseId].modules)
      && FlatViews(r.value) == ViewsOf(db.progress, studentId, FlatLessons(db.courses[courseId].modules))
  {
    if courseId !in db.courses {
      return Err(CourseNotFound);
    }
    var views := CourseViews(db.progress, studentId, db.courses[courseId].modules);
    return Ok(views);
  }

  // ------------------------------------------------------------------ completion

  /** The ids of a course's lesson sequence. */
  function SequenceIds(course: Course): seq<Id> {
    LessonIds(FlatLessons(course.modules))
  }

  /** `prevIds.filter(id => !doneSet.has(id))`. */
  function Missing(progress: map<(Id, Id), Progress>, studentId: Id, prevIds: seq<Id>): (m: seq<Id>)
    ensures forall id :: id in m <==> id in prevIds && !IsDone(progress, studentId, id)
  {
    if prevIds == [] then []
    else
      (if IsDone(progress, studentId, prevIds[0]) then [] else [prevIds[0]])
      + Missing(progress, studentId, prevIds[1..])
  }

  /** completeLesson's checks, in the order it makes them. It passes exactly when the
      lesson belongs to a course, that course exists, the lesson occurs in the course's
      sequence and every lesson before its first occurrence is completed. */
  function CompletionCheck(
    courses: map<Id, Course>, lessonCourse: map<Id, Id>,
    progress: map<(Id, Id), Progress>, studentId: Id, lessonId: Id): (e: Option<ProgressError>)
    ensures e == Some(LessonNotFound) <==> lessonId !in lessonCourse
    ensures e == Some(CourseNotFound) <==> lessonId in lessonCourse && lessonCourse[lessonId] !in courses
    ensures e == Some(LessonNotInCourse) <==>
      lessonId in lessonCourse && lessonCourse[lessonId] in courses
      && lessonId !in SequenceIds(courses[lessonCourse[lessonId]])
    ensures e.None? <==>
      && lessonId in lessonCourse && lessonCourse[lessonId] in courses
      && var ids := SequenceIds(courses[lessonCourse[lessonId]]);
      && lessonId in ids
      && forall j :: 0 <= j < IndexOf(ids, lessonId).value ==> IsDone(progress, studentId, ids[j])
  {
    if lessonId !in lessonCourse then Some(LessonNotFound)
    else if lessonCourse[lessonId] !in courses then Some(CourseNotFound)
    else
      var ids := SequenceIds(courses[lessonCourse[lessonId]]);
      match IndexOf(ids, lessonId)
      case None => Some(LessonNotInCourse)
      case Some(idx) =>
        var missing := Missing(progress, studentId, ids[..idx]);
        assert forall j :: 0 <= j < idx ==> ids[j] in ids[..idx];
        if |missing| > 0 then
          assert missing[0] in ids[..idx];
          assert exists j :: 0 <= j < idx && ids[j] == missing[0];
          Some(PreviousLessonsIncomplete)
        else None
  }

  /** The row completion's upsert leaves: completed at `now`, watched time and position
      kept from an existing row, 0 on a new one. */
  function Completed(row: Option<Progress>, now: Time): (p: Progress)
    ensures p.completed && p.completedAt == Some(now)
    ensures row.Some? ==> p.watchedSeconds == row.value.watchedSeconds && p.lastPosition == row.value.lastPosition
    ensures row.None? ==> p.watchedSeconds == 0 && p.lastPosition == 0
  {
    match row
    case Some(old_) => old_.(completed := true, completedAt := Some(now))
    case None => Progress(true, Some(now), 0, 0)
  }

  /** The lessons of a course (`lesson.count({ where: { module: { courseId } } })`). */
  function CourseLessons(lessonCourse: map<Id, Id>, courseId: Id): set<Id> {
    set l | l in lessonCourse && lessonCourse[l] == courseId
  }

  /** The course's lessons the student has completed (the completed-progress count). */
  function CompletedLessons(progress: map<(Id, Id), Progress>, lessonCourse: map<Id, Id>, studentId: Id, courseId: Id): set<Id> {
    set l | l in lessonCourse && lessonCourse[l] == courseId && IsDone(progress, studentId, l)
  }

  /** tryFinishCourse's test: a non-zero lesson count that the completed count reaches. */
  predicate CourseFinished(progress: map<(Id, Id), Progress>, lessonCourse: map<Id, Id>, studentId: Id, courseId: Id) {
    var total := |CourseLessons(lessonCourse, courseId)|;
    total != 0 && |CompletedLessons(progress, lessonCourse, studentId, courseId)| >= total
  }

  /** The count test means: the course has a lesson and every one of its lessons is completed. */
  lemma FinishedIffAllDone(progress: map<(Id, Id), Progress>, lessonCourse: map<Id, Id>, studentId: Id, courseId: Id)
    ensures CourseFinished(progress, lessonCourse, studentId, courseId) <==>
      CourseLessons(lessonCourse, courseId) != {}
      && forall l :: l in CourseLessons(lessonCourse, courseId) ==> IsDone(progress, studentId, l)
  {
    var all := CourseLessons(lessonCourse, courseId);
    var done := CompletedLessons(progress, lessonCourse, studentId, courseId);
    assert done <= all;
    if |done| >= |all| {
      SubsetOfFullSize(done, all);
    }
    if forall l :: l in all ==> IsDone(progress, studentId, l) {
      assert done == all;
    }
  }

  /** `updateMany` on the student's enrollment in the course: status COMPLETED and
      completedAt refreshed to `now` when the row exists, nothing otherwise. */
  function MarkFinished(enrollments: map<(Id, Id), Enrollment>, studentId: Id, courseId: Id, now: Time): (r: map<(Id, Id), Enrollment>)
    ensures r.Keys == enrollments.Keys
    ensures forall k :: k in r && k != (studentId, courseId) ==> r[k] == enrollments[k]
    ensures (studentId, courseId) in r ==>
      && r[(studentId, courseId)].status == COMPLETED
      && r[(studentId, courseId)].completedAt == Some(now)
      && r[(studentId, courseId)].enrolledAt == enrollments[(studentId, courseId)].enrolledAt
  {
    var key := (studentId, courseId);
    if key in enrollments then enrollments[key := enrollments[key].(status := COMPLETED, completedAt := Some(now))]
    else enrollments
  }

  /** tryFinishCourse. */
  method TryFinishCourse(db: Db, studentId: Id, courseId: Id, now: Time)
    modifies db`enrollments
    ensures CourseFinished(db.progress, db.lessonCourse, studentId, courseId) ==>
      db.enrollments == MarkFinished(old(db.enrollments), studentId, courseId, now)
    ensures !CourseFinished(db.progress, db.lessonCourse, studentId, courseId) ==>
      db.enrollments == old(db.enrollments)
  {
    var totalLessons := |CourseLessons(db.lessonCourse, courseId)|;
    if totalLessons == 0 {
      return;
    }
    var completedLessons := |CompletedLessons(db.progress, db.lessonCourse, studentId, courseId)|;
    if completedLessons < totalLessons {
      return;
    }
    db.enrollments := MarkFinished(db.enrollments, studentId, courseId, now);
  }

  /** completeLesson: the checks of `CompletionCheck`, then the upsert, then the
      completion detector on the updated progress. */
  method CompleteLesson(db: Db, studentId: Id, lessonId: Id, now: Time) returns (r: Result<Progress, ProgressError>)
    modifies db`progress, db`enrollments
    ensures var e := CompletionCheck(db.courses, db.lessonCourse, old(db.progress), studentId, lessonId);
      e.Some? ==> r == Err(e.value) && db.progress == old(db.progress) && db.enrollments == old(db.enrollments)
    ensures CompletionCheck(db.courses, db.lessonCourse, old(db.progress), studentId, lessonId).None? ==>
      var row := Completed(Row(old(db.progress), studentId, lessonId), now);
      var courseId := db.lessonCourse[lessonId];
      && r == Ok(row)
      && db.progress == old(db.progress)[(studentId, lessonId) := row]
      && (CourseFinished(db.progress, db.lessonCourse, studentId, courseId) ==>
            db.enrollments == MarkFinished(old(db.enrollments), studentId, courseId, now))
      && (!CourseFinished(db.progress, db.lessonCourse, studentId, courseId) ==>
            db.enrollments == old(db.enrollments))
  {
    if lessonId !in db.lessonCourse {
      return Err(LessonNotFound);
    }
    var courseId := db.lessonCourse[lessonId];
    if courseId !in db.courses {
      return Err(CourseNotFound);
    }
    var allLessons := SequenceIds(db.courses[courseId]);
    var idx := IndexOf(allLessons, lessonId);
    if idx.None? {
      return Err(LessonNotInCourse);
    }
    var missing := Missing(db.progress, studentId, allLessons[..idx.value]);
    if |missing| > 0 {
      return Err(PreviousLessonsIncomplete);
    }
    var row := Completed(Row(db.progress, studentId, lessonId), now);
    db.progress := db.progress[(studentId, lessonId) := row];
    TryFinishCourse(db, studentId, courseId, now);
    return Ok(row);
  }

  // ------------------------------------------------------------------ properties

  /** The completed lessons form a prefix of the sequence: a completed lesson has only
      completed lessons before it. */
  predicate DonePrefix(progress: map<(Id, Id), Progress>, studentId: Id, ids: seq<Id>) {
    forall j, k :: 0 <= j < k < |ids| && IsDone(progress, studentId, ids[k]) ==> IsDone(progress, studentId, ids[j])
  }

  /** Completion only ever adds the completed lesson: every lesson completed before
      still is, and the only newly completed lesson is the one requested. */
  lemma CompletionOnlyAdds(progress: map<(Id, Id), Progress>, studentId: Id, lessonId: Id, now: Time)
    ensures var after := progress[(studentId, lessonId) := Completed(Row(progress, studentId, lessonId), now)];
      forall s, l :: IsDone(after, s, l) <==> IsDone(progress, s, l) || (s, l) == (studentId, lessonId)
  {
  }

  /** On a course whose lesson ids are distinct, a successful completion keeps the
      completed lessons a prefix of the sequence: lessons can only be completed in order. */
  lemma CompletionKeepsDonePrefix(
    courses: map<Id, Course>, lessonCourse: map<Id, Id>,
    progress: map<(Id, Id), Progress>, studentId: Id, lessonId: Id, now: Time)
    requires CompletionCheck(courses, lessonCourse, progress, studentId, lessonId).None?
    requires Distinct(SequenceIds(courses[lessonCourse[lessonId]]))
    requires DonePrefix(progress, studentId, SequenceIds(courses[lessonCourse[lessonId]]))
    ensures DonePrefix(progress[(studentId, lessonId) := Completed(Row(progress, studentId, lessonId), now)],
                       studentId, SequenceIds(courses[lessonCourse[lessonId]]))
  {
    var ids := SequenceIds(courses[lessonCourse[lessonId]]);
    var idx := IndexOf(ids, lessonId).value;
    var after := progress[(studentId, lessonId) := Completed(Row(progress, studentId, lessonId), now)];
    CompletionOnlyAdds(progress, studentId, lessonId, now);
    forall j, k | 0 <= j < k < |ids| && IsDone(after, studentId, ids[k])
      ensures IsDone(after, studentId, ids[j])
    {
      if ids[k] == lessonId {
        assert k == idx;
        assert IsDone(progress, studentId, ids[j]);
      } else {
        assert IsDone(progress, studentId, ids[k]);
      }
    }
  }

  /** Completing a lesson again is allowed, and only moves its completedAt. */
  lemma CompletionRepeatable(
    courses: map<Id, Course>, lessonCourse: map<Id, Id>,
    progress: map<(Id, Id), Progress>, studentId: Id, lessonId: Id, now: Time, later: Time)
    requires CompletionCheck(courses, lessonCourse, progress, studentId, lessonId).None?
    ensures var after := progress[(studentId, lessonId) := Completed(Row(progress, studentId, lessonId), now)];
      && CompletionCheck(courses, lessonCourse, after, studentId, lessonId).None?
      && Completed(Row(after, studentId, lessonId), later)
         == Completed(Row(progress, studentId, lessonId), now).(completedAt := Some(later))
  {
    var after := progress[(studentId, lessonId) := Completed(Row(progress, studentId, lessonId), now)];
    CompletionOnlyAdds(progress, studentId, lessonId, now);
    var ids := SequenceIds(courses[lessonCourse[lessonId]]);
    assert forall j :: 0 <= j < IndexOf(ids, lessonId).value ==> IsDone(after, studentId, ids[j]);
  }

  /** A finished course stays finished: a later successful completion never makes
      the detector's test fail. */
  lemma FinishedStaysFinished(
    progress: map<(Id, Id), Progress>, lessonCourse: map<Id, Id>,
    studentId: Id, courseId: Id, lessonId: Id, now: Time)
    requires CourseFinished(progress, lessonCourse, studentId, courseId)
    ensures CourseFinished(progress[(studentId, lessonId) := Completed(Row(progress, studentId, lessonId), now)],
                           lessonCourse, studentId, courseId)
  {
    var after := progress[(studentId, lessonId) := Completed(Row(progress, studentId, lessonId), now)];
    FinishedIffAllDone(progress, lessonCourse, studentId, courseId);
    CompletionOnlyAdds(progress, studentId, lessonId, now);
    FinishedIffAllDone(after, lessonCourse, studentId, courseId);
  }
}

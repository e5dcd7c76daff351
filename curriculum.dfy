/** The one lesson sequence of a course: its modules in order, then each module's
    lessons in order, flattened (`course.modules.flatMap(m => m.lessons)`). */
module Curriculum {
  import opened Common
  import opened Store

  /** The flattened lesson sequence. */
  function FlatLessons(modules: seq<CourseModule>): seq<Lesson> {
    if modules == [] then [] else FlatLessons(modules[..|modules| - 1]) + modules[|modules| - 1].lessons
  }

  /** The flattened sequence holds exactly the lessons of the modules. */
  lemma {:induction false} FlatLessonsMembers(modules: seq<CourseModule>)
    ensures forall l :: l in FlatLessons(modules) <==> exists m :: m in modules && l in m.lessons
  {
    if modules != [] {
      var init := modules[..|modules| - 1];
      FlatLessonsMembers(init);
      assert forall m :: m in modules <==> m in init || m == modules[|modules| - 1];
    }
  }

  /** The ids of a lesson sequence, position by position. */
  function LessonIds(ls: seq<Lesson>): (ids: seq<Id>)
    ensures |ids| == |ls|
    ensures forall k :: 0 <= k < |ls| ==> ids[k] == ls[k].id
  {
    seq(|ls|, k requires 0 <= k < |ls| => ls[k].id)
  }

  /** `findIndex`: the first position holding x, if any. */
  function IndexOf(ids: seq<Id>, x: Id): (r: Option<nat>)
    ensures r.None? <==> x !in ids
    ensures r.Some? ==> r.value < |ids| && ids[r.value] == x
    ensures r.Some? ==> forall j :: 0 <= j < r.value ==> ids[j] != x
  {
    if ids == [] then None
    else if ids[0] == x then Some(0)
    else match IndexOf(ids[1..], x)
      case None => None
      case Some(k) => Some(k + 1)
  }

  /** Flattening the first i + 1 modules appends module i's lessons to the
      flattening of the first i. */
  lemma FlatPrefix(modules: seq<CourseModule>, i: nat)
    requires i < |modules|
    ensures FlatLessons(modules[..i + 1]) == FlatLessons(modules[..i]) + modules[i].lessons
  {
    assert modules[..i + 1][..i] == modules[..i];
  }
}

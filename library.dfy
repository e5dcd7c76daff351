/** LibraryService: the PDF materials of each course; the admin creates and
    soft-removes items, and a student reads the active items of the courses
    they are actively enrolled in. */
module Library {
  import opened Common
  import opened Store
  import opened Text

  /** The refusals of the library endpoints. */
  datatype LibraryError = CourseIdMissing | FileMissing | UnknownCourse | IdMissing | UnknownItem | StudentMissing | NoAccess
  {
    function Kind(): Exception {
      match this
      case UnknownCourse => NotFound
      case UnknownItem => NotFound
      case NoAccess => Forbidden
      case _ => BadRequest
    }
  }

  /** The upload as the framework hands it over; `filename` is the stored name. */
  datatype UploadedFile = UploadedFile(filename: string, originalName: string, mimeType: string, size: int)

  /** The admin's form; an empty string is an absent (falsy) field. */
  datatype LibraryDto = LibraryDto(courseId: Id, title: string, description: string)

  /** One course with its materials, as the list endpoints answer. */
  datatype CourseLibrary = CourseLibrary(courseId: Id, courseTitle: string, items: seq<Id>)

  const DEFAULT_TITLE: string := "Material PDF"
  const DEFAULT_MIME: string := "application/pdf"

  // ---------------------------------------------------------------- listing

  /** The ids of the active courses, in the order of `rows` (newest first). */
  function CoursesMin(courses: map<Id, Course>, rows: seq<Id>): (r: seq<Id>)
    requires forall id :: id in rows ==> id in courses
    ensures |r| <= |rows|
    ensures forall id :: id in r <==> id in rows && courses[id].isActive
    ensures Distinct(rows) ==> Distinct(r)
  {
    if rows == [] then []
    else (if courses[rows[0]].isActive then [rows[0]] else []) + CoursesMin(courses, rows[1..])
  }

  /** The active items of one course, in the order of `rows` (the item table,
      newest first). */
  function ActiveItemsOf(items: map<Id, LibraryItem>, rows: seq<Id>, courseId: Id): (r: seq<Id>)
    ensures |r| <= |rows|
    ensures forall id :: id in r <==> id in rows && id in items && items[id].isActive && items[id].courseId == courseId
    ensures Distinct(rows) ==> Distinct(r)
  {
    if rows == [] then []
    else
      var last := rows[|rows| - 1];
      assert forall id :: id in rows <==> id in rows[..|rows| - 1] || id == last;
      ActiveItemsOf(items, rows[..|rows| - 1], courseId)
        + (if last in items && items[last].isActive && items[last].courseId == courseId then [last] else [])
  }

  /** Over the whole item table, a course's list holds each of its active items once. */
  lemma ActiveItemsOfTable(items: map<Id, LibraryItem>, rows: seq<Id>, courseId: Id)
    requires Enumerates(rows, items.Keys)
    ensures var r := ActiveItemsOf(items, rows, courseId);
      && Distinct(r)
      && forall id :: id in r <==> id in items && items[id].isActive && items[id].courseId == courseId
  {
  }

  /** listByCourse: a course id is required and must name a course. */
  function ListByCourse(courses: map<Id, Course>, items: map<Id, LibraryItem>, rows: seq<Id>, courseId: Id)
    : (r: Result<CourseLibrary, LibraryError>)
    ensures courseId == "" <==> r == Err(CourseIdMissing)
    ensures r == Err(UnknownCourse) <==> courseId != "" && courseId !in courses
    ensures r.Ok? ==> courseId in courses && r.value.courseId == courseId && r.value.courseTitle == courses[courseId].title
    ensures r.Ok? ==> forall id :: id in r.value.items <==> id in rows && id in items && items[id].isActive && items[id].courseId == courseId
    ensures r.Ok? && Enumerates(rows, items.Keys) ==>
      && Distinct(r.value.items)
      && forall id :: id in r.value.items <==> id in items && items[id].isActive && items[id].courseId == courseId
  {
    if courseId == "" then Err(CourseIdMissing)
    else if courseId !in courses then Err(UnknownCourse)
    else Ok(CourseLibrary(courseId, courses[courseId].title, ActiveItemsOf(items, rows, courseId)))
  }

  predicate ActiveEnrollment(enrollments: map<(Id, Id), Enrollment>, studentId: Id, courseId: Id) {
    (studentId, courseId) in enrollments && enrollments[(studentId, courseId)].status == ACTIVE
  }

  /** What listMyLibrary answers: one group per course of `enrolled`, in that order,
      each holding exactly the active items of its course. */
  function MyLibrary(courses: map<Id, Course>, items: map<Id, LibraryItem>, rows: seq<Id>, enrolled: seq<Id>)
    : (r: seq<CourseLibrary>)
    requires forall c :: c in enrolled ==> c in courses
    ensures |r| == |enrolled|
    ensures forall k :: 0 <= k < |r| ==>
      && r[k].courseId == enrolled[k] && r[k].courseTitle == courses[enrolled[k]].title
      && forall id :: id in r[k].items <==> id in rows && id in items && items[id].isActive && items[id].courseId == enrolled[k]
    ensures Enumerates(rows, items.Keys) ==> forall k :: 0 <= k < |r| ==>
      && Distinct(r[k].items)
      && forall id :: id in r[k].items <==> id in items && items[id].isActive && items[id].courseId == enrolled[k]
  {
    seq(|enrolled|, k requires 0 <= k < |enrolled| =>
      CourseLibrary(enrolled[k], courses[enrolled[k]].title, ActiveItemsOf(items, rows, enrolled[k])))
  }

  /** The rows of `libraryItem.findMany({ where: { isActive: true, courseId: { in: courseIds } } })`. */
  function Found(items: map<Id, LibraryItem>, rows: seq<Id>, courseIds: seq<Id>): (r: seq<Id>)
    ensures forall id :: id in r ==> id in items
  {
    if rows == [] then []
    else
      var last := rows[|rows| - 1];
      Found(items, rows[..|rows| - 1], courseIds)
        + (if last in items && items[last].isActive && items[last].courseId in courseIds then [last] else [])
  }

  /** The entries of `list` whose course is `courseId`, order kept: what the
      grouping loop collects for that course. */
  function WithCourse(items: map<Id, LibraryItem>, list: seq<Id>, courseId: Id): seq<Id>
  {
    if list == [] then []
    else
      var last := list[|list| - 1];
      WithCourse(items, list[..|list| - 1], courseId) + (if last in items && items[last].courseId == courseId then [last] else [])
  }

  /** Grouping the query's rows gives, for a requested course, exactly its active
      items in table order. */
  lemma {:induction false} FoundGroupsAreActiveItems(items: map<Id, LibraryItem>, rows: seq<Id>, courseIds: seq<Id>, courseId: Id)
    requires courseId in courseIds
    ensures WithCourse(items, Found(items, rows, courseIds), courseId) == ActiveItemsOf(items, rows, courseId)
  {
    if rows != [] {
      var init, last := rows[..|rows| - 1], rows[|rows| - 1];
      FoundGroupsAreActiveItems(items, init, courseIds, courseId);
      var f := Found(items, init, courseIds);
      if last in items && items[last].isActive && items[last].courseId in courseIds {
        assert (f + [last])[..|f + [last]| - 1] == f;
      } else {
        assert f + [] == f;
      }
    }
  }

  /** The `byCourse` map after the first entries of the query's rows: each key
      holds its entries so far, and a course without entries has no key. */
  ghost predicate GroupedSoFar(items: map<Id, LibraryItem>, byCourse: map<Id, seq<Id>>, prefix: seq<Id>)
  {
    && (forall c :: c in byCourse ==> byCourse[c] == WithCourse(items, prefix, c))
    && (forall c :: c !in byCourse ==> WithCourse(items, prefix, c) == [])
  }

  lemma GroupStep(items: map<Id, LibraryItem>, byCourse: map<Id, seq<Id>>, found: seq<Id>, i: nat)
    requires i < |found| && found[i] in items
    requires GroupedSoFar(items, byCourse, found[..i])
    ensures var c := items[found[i]].courseId;
      var arr := if c in byCourse then byCourse[c] else [];
      GroupedSoFar(items, byCourse[c := arr + [found[i]]], found[..i + 1])
  {
    var next := found[..i + 1];
    assert next[..|next| - 1] == found[..i];
    assert next[|next| - 1] == found[i];
  }

  /** The `byCourse` loop of listMyLibrary. */
  method GroupByCourse(items: map<Id, LibraryItem>, found: seq<Id>) returns (byCourse: map<Id, seq<Id>>)
    requires forall id :: id in found ==> id in items
    ensures GroupedSoFar(items, byCourse, found)
  {
    byCourse := map[];
    var i := 0;
    while i < |found|
      invariant 0 <= i <= |found|
      invariant GroupedSoFar(items, byCourse, found[..i])
    {
      var it := found[i];
      var c := items[it].courseId;
      var arr := if c in byCourse then byCourse[c] else [];
      GroupStep(items, byCourse, found, i);
      byCourse := byCourse[c := arr + [it]];
      i := i + 1;
    }
    assert found[..i] == found;
  }

  /** listMyLibrary. `enrolled` lists the course ids of the student's ACTIVE
      enrollments once each, newest first, and `rows` lists the item table once,
      newest first. */
  method ListMyLibrary(db: Db, studentId: Id, enrolled: seq<Id>, rows: seq<Id>) returns (r: Result<seq<CourseLibrary>, LibraryError>)
    requires forall c :: c in enrolled <==> ActiveEnrollment(db.enrollments, studentId, c)
    requires Distinct(enrolled)
    requires forall c :: c in enrolled ==> c in db.courses
    requires Enumerates(rows, db.libraryItems.Keys)
    ensures studentId == "" <==> r == Err(StudentMissing)
    ensures studentId != "" ==> r == Ok(MyLibrary(db.courses, db.libraryItems, rows, enrolled))
    ensures r.Ok? ==> |r.value| == |enrolled| && forall k :: 0 <= k < |r.value| ==>
      && Distinct(r.value[k].items)
      && forall id :: id in r.value[k].items <==>
           id in db.libraryItems && db.libraryItems[id].isActive && db.libraryItems[id].courseId == enrolled[k]
    ensures r.Ok? ==> forall j, k :: 0 <= j < k < |r.value| ==> r.value[j].courseId != r.value[k].courseId
    ensures r.Ok? ==> forall c :: ActiveEnrollment(db.enrollments, studentId, c) <==>
      exists k :: 0 <= k < |r.value| && r.value[k].courseId == c
  {
    if studentId == "" {
      return Err(StudentMissing);
    }
    if |enrolled| == 0 {
      return Ok([]);
    }
    var found := Found(db.libraryItems, rows, enrolled);
    var byCourse := GroupByCourse(db.libraryItems, found);
    var courses := db.courses;
    var groups := seq(|enrolled|, k requires 0 <= k < |enrolled| =>
      CourseLibrary(enrolled[k], courses[enrolled[k]].title, if enrolled[k] in byCourse then byCourse[enrolled[k]] else []));
    forall k | 0 <= k < |enrolled|
      ensures groups[k] == MyLibrary(db.courses, db.libraryItems, rows, enrolled)[k]
    {
      FoundGroupsAreActiveItems(db.libraryItems, rows, enrolled, enrolled[k]);
    }
    assert groups == MyLibrary(db.courses, db.libraryItems, rows, enrolled);
    forall k | 0 <= k < |enrolled|
      ensures Distinct(groups[k].items)
    {
      ActiveItemsOfTable(db.libraryItems, rows, enrolled[k]);
    }
    return Ok(groups);
  }

  /** listMyLibraryByCourse: a course is readable only through an ACTIVE enrollment. */
  function MyLibraryByCourse(
    courses: map<Id, Course>, enrollments: map<(Id, Id), Enrollment>, items: map<Id, LibraryItem>, rows: seq<Id>,
    studentId: Id, courseId: Id)
    : (r: Result<CourseLibrary, LibraryError>)
    ensures studentId == "" <==> r == Err(StudentMissing)
    ensures r == Err(CourseIdMissing) <==> studentId != "" && courseId == ""
    ensures r == Err(NoAccess) <==> studentId != "" && courseId != "" && !ActiveEnrollment(enrollments, studentId, courseId)
    ensures r.Ok? ==> ActiveEnrollment(enrollments, studentId, courseId) && courseId in courses
  {
    if studentId == "" then Err(StudentMissing)
    else if courseId == "" then Err(CourseIdMissing)
    else if !ActiveEnrollment(enrollments, studentId, courseId) then Err(NoAccess)
    else ListByCourse(courses, items, rows, courseId)
  }

  /** A student's view of one course is the admin's view of it, and the group the
      full listing shows for that course. */
  lemma ByCourseAgreesWithListings(
    courses: map<Id, Course>, enrollments: map<(Id, Id), Enrollment>, items: map<Id, LibraryItem>, rows: seq<Id>,
    studentId: Id, enrolled: seq<Id>, k: int)
    requires forall c :: c in enrolled <==> ActiveEnrollment(enrollments, studentId, c)
    requires forall c :: c in enrolled ==> c in courses
    requires studentId != "" && 0 <= k < |enrolled| && enrolled[k] != ""
    ensures MyLibraryByCourse(courses, enrollments, items, rows, studentId, enrolled[k]) == ListByCourse(courses, items, rows, enrolled[k])
    ensures MyLibraryByCourse(courses, enrollments, items, rows, studentId, enrolled[k]) == Ok(MyLibrary(courses, items, rows, enrolled)[k])
  {
    assert enrolled[k] in enrolled;
  }

  // ---------------------------------------------------------------- create and remove

  /** `(dto.title || file.originalname || 'Material PDF').trim()`. */
  function ItemTitle(title: string, originalName: string): (r: string)
    ensures r == [] || (!IsSpace(r[0]) && !IsSpace(r[|r| - 1]))
    ensures title != "" ==> r == Trim(title)
    ensures title == "" && originalName != "" ==> r == Trim(originalName)
    ensures title == "" && originalName == "" ==> r == DEFAULT_TITLE
  {
    var chosen := if title != "" then title else if originalName != "" then originalName else DEFAULT_TITLE;
    DefaultTitleTrimmed();
    Trim(chosen)
  }

  lemma DefaultTitleTrimmed()
    ensures Trim(DEFAULT_TITLE) == DEFAULT_TITLE
  {
    assert DEFAULT_TITLE[0] == 'M' && DEFAULT_TITLE[|DEFAULT_TITLE| - 1] == 'F';
    TrimOfTrimmed(DEFAULT_TITLE);
  }

  predicate Blank(s: string) {
    forall i :: 0 <= i < |s| ==> IsSpace(s[i])
  }

  /** The stored title is empty exactly when the first non-empty candidate is all
      blanks: a title of spaces is not replaced by the file name. */
  lemma EmptyTitleIffBlankChoice(title: string, originalName: string)
    ensures ItemTitle(title, originalName) == [] <==>
      (title != "" && Blank(title)) || (title == "" && originalName != "" && Blank(originalName))
  {
  }

  /** `dto.description ? String(dto.description).trim() : null`. */
  function Description(d: string): (r: Option<string>)
    ensures r.None? <==> d == ""
    ensures r.Some? ==> r.value == Trim(d)
  {
    if d == "" then None else Some(Trim(d))
  }

  /** `library/<stored name>`. */
  function FileKey(filename: string): (key: string)
    ensures |key| == 8 + |filename| && key[..8] == "library/" && key[8..] == filename
  {
    "library/" + filename
  }

  /** `/uploads/<key>`. */
  function FileUrl(key: string): (url: string)
    ensures |url| == 9 + |key| && url[..9] == "/uploads/" && url[9..] == key
  {
    "/uploads/" + key
  }

  /** The stored name is recovered from the public URL, and the URL is the upload
      directory's path of the stored file. */
  lemma FileUrlRoundTrip(filename: string)
    ensures FileUrl(FileKey(filename)) == "/uploads/library/" + filename
    ensures FileUrl(FileKey(filename))[17..] == filename
  {
    var url := FileUrl(FileKey(filename));
    assert url == "/uploads/" + ("library/" + filename);
  }

  /** The row create writes. */
  function NewItem(dto: LibraryDto, file: UploadedFile): (item: LibraryItem)
    ensures item.isActive && item.courseId == dto.courseId
    ensures item.fileKey == FileKey(file.filename) && item.fileUrl == FileUrl(item.fileKey)
    ensures item.title == ItemTitle(dto.title, file.originalName)
    ensures item.description == Description(dto.description)
    ensures item.originalName == file.originalName && item.sizeBytes == file.size
    ensures item.mimeType == (if file.mimeType == "" then DEFAULT_MIME else file.mimeType)
  {
    var key := FileKey(file.filename);
    LibraryItem(
      dto.courseId, ItemTitle(dto.title, file.originalName), Description(dto.description),
      FileUrl(key), key, file.originalName,
      if file.mimeType == "" then DEFAULT_MIME else file.mimeType, file.size, true)
  }

  /** create: a course id, then a file, then an existing course are required. */
  method CreateItem(db: Db, dto: LibraryDto, file: Option<UploadedFile>, itemId: Id) returns (r: Result<LibraryItem, LibraryError>)
    requires itemId !in db.libraryItems
    modifies db`libraryItems
    ensures dto.courseId == "" <==> r == Err(CourseIdMissing)
    ensures r == Err(FileMissing) <==> dto.courseId != "" && file.None?
    ensures r == Err(UnknownCourse) <==> dto.courseId != "" && file.Some? && dto.courseId !in db.courses
    ensures r.Err? ==> db.libraryItems == old(db.libraryItems)
    ensures r.Ok? ==>
      && file.Some? && dto.courseId in db.courses
      && r.value == NewItem(dto, file.value)
      && db.libraryItems == old(db.libraryItems)[itemId := r.value]
  {
    if dto.courseId == "" {
      return Err(CourseIdMissing);
    }
    if file.None? {
      return Err(FileMissing);
    }
    if dto.courseId !in db.courses {
      return Err(UnknownCourse);
    }
    var item := NewItem(dto, file.value);
    db.libraryItems := db.libraryItems[itemId := item];
    return Ok(item);
  }

  /** Listing a row put in front: that row, when it qualifies, then the rest. */
  lemma {:induction false} ActiveItemsCons(items: map<Id, LibraryItem>, x: Id, rows: seq<Id>, courseId: Id)
    ensures ActiveItemsOf(items, [x] + rows, courseId)
         == (if x in items && items[x].isActive && items[x].courseId == courseId then [x] else []) + ActiveItemsOf(items, rows, courseId)
  {
    var xs := [x] + rows;
    if rows != [] {
      var init := rows[..|rows| - 1];
      assert xs[..|xs| - 1] == [x] + init;
      ActiveItemsCons(items, x, init, courseId);
    } else {
      assert xs[..|xs| - 1] == [];
    }
  }

  /** A new item of a course is listed for it, first when `rows` is newest first. */
  lemma CreatedItemListedFirst(items: map<Id, LibraryItem>, rows: seq<Id>, itemId: Id, item: LibraryItem)
    requires forall id :: id in rows ==> id in items
    requires itemId !in items && item.isActive
    ensures ActiveItemsOf(items[itemId := item], [itemId] + rows, item.courseId)
         == [itemId] + ActiveItemsOf(items, rows, item.courseId)
  {
    var items' := items[itemId := item];
    ActiveItemsCons(items', itemId, rows, item.courseId);
    ActiveItemsIgnoreOthers(items, items', rows, item.courseId);
  }

  /** A listing only looks at the rows it is given. */
  lemma {:induction false} ActiveItemsIgnoreOthers(items: map<Id, LibraryItem>, items': map<Id, LibraryItem>, rows: seq<Id>, courseId: Id)
    requires forall id :: id in rows ==> id in items && id in items' && items'[id] == items[id]
    ensures ActiveItemsOf(items', rows, courseId) == ActiveItemsOf(items, rows, courseId)
  {
    if rows != [] {
      ActiveItemsIgnoreOthers(items, items', rows[..|rows| - 1], courseId);
    }
  }

  /** `s` without the occurrences of `x`, order kept. */
  function Without(s: seq<Id>, x: Id): (r: seq<Id>)
    ensures forall id :: id in r <==> id in s && id != x
  {
    if s == [] then []
    else
      assert forall id :: id in s <==> id in s[..|s| - 1] || id == s[|s| - 1];
      Without(s[..|s| - 1], x) + (if s[|s| - 1] == x then [] else [s[|s| - 1]])
  }

  /** remove: an id is required and must name an item, which is then only
      deactivated. */
  method RemoveItem(db: Db, id: Id) returns (r: Result<LibraryItem, LibraryError>)
    modifies db`libraryItems
    ensures id == "" <==> r == Err(IdMissing)
    ensures r == Err(UnknownItem) <==> id != "" && id !in old(db.libraryItems)
    ensures r.Err? ==> db.libraryItems == old(db.libraryItems)
    ensures r.Ok? ==>
      && id in old(db.libraryItems)
      && r.value == old(db.libraryItems)[id].(isActive := false)
      && db.libraryItems == old(db.libraryItems)[id := r.value]
  {
    if id == "" {
      return Err(IdMissing);
    }
    if id !in db.libraryItems {
      return Err(UnknownItem);
    }
    var item := db.libraryItems[id].(isActive := false);
    db.libraryItems := db.libraryItems[id := item];
    return Ok(item);
  }

  /** After a removal every listing is the old one without the removed item. */
  lemma {:induction false} RemovedItemLeavesListings(items: map<Id, LibraryItem>, rows: seq<Id>, id: Id, courseId: Id)
    requires id in items
    ensures ActiveItemsOf(items[id := items[id].(isActive := false)], rows, courseId)
         == Without(ActiveItemsOf(items, rows, courseId), id)
  {
    if rows != [] {
      var init, last := rows[..|rows| - 1], rows[|rows| - 1];
      RemovedItemLeavesListings(items, init, id, courseId);
      var items' := items[id := items[id].(isActive := false)];
      var old' := ActiveItemsOf(items, init, courseId);
      var new' := ActiveItemsOf(items', init, courseId);
      assert new' == Without(old', id);
      var keptBefore := last in items && items[last].isActive && items[last].courseId == courseId;
      var keptAfter := last in items' && items'[last].isActive && items'[last].courseId == courseId;
      assert keptAfter <==> keptBefore && last != id;
      assert ActiveItemsOf(items', rows, courseId) == new' + (if keptAfter then [last] else []);
      assert ActiveItemsOf(items, rows, courseId) == old' + (if keptBefore then [last] else []);
      if keptBefore {
        WithoutSnoc(old', last, id);
      } else {
        assert old' + [] == old';
      }
    }
  }

  lemma WithoutSnoc(s: seq<Id>, last: Id, x: Id)
    ensures Without(s + [last], x) == Without(s, x) + (if last == x then [] else [last])
  {
    var t := s + [last];
    assert t[..|t| - 1] == s;
  }
}

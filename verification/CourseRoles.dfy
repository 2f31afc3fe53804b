/** Migration 0079: titling the teachers of every course. */
module CourseRoles {
  import opened Prelude

  datatype Title = CourseInstructor | TeacherAssistant

  /** A UUID; only its order matters. */
  type Id = nat

  /** A row of user_role_assignments, keyed by its id. */
  datatype Assignment = Assignment(
    userId: Id,
    roleId: Id,
    courseScope: bool,          // scope_kind = 'course'
    orgId: Option<Id>,
    orgUnitId: Option<Id>,
    courseId: Option<Id>,
    activeFrom: int,
    activeUntil: Option<int>,
    deleted: bool,
    title: Option<Title>)       // course_role

  type Table = map<Id, Assignment>

  /** The table's unique key, among live rows: NULL columns never collide, so for a course-scoped row
      it says nothing unless the row also names an organizational unit. */
  ghost predicate UniqueKey(t: Table) {
    forall a, b :: a in t && b in t && a != b && !t[a].deleted && !t[b].deleted && SameKey(t[a], t[b]) ==>
      t[a].orgId.None? || t[a].orgUnitId.None? || t[a].courseId.None?
  }

  predicate SameKey(a: Assignment, b: Assignment) {
    a.userId == b.userId && a.roleId == b.roleId && a.courseScope == b.courseScope
    && a.orgId == b.orgId && a.orgUnitId == b.orgUnitId && a.courseId == b.courseId
  }

  /** What the statements read besides the table: the live 'teacher' role, if there is one, and
      the owner of each course. */
  datatype Context = Context(teacher: Option<Id>, owner: map<Id, Id>)

  /** The condition all three UPDATEs share, title apart. */
  predicate ActiveTeacher(ctx: Context, a: Assignment) {
    a.courseScope && a.courseId.Some? && ctx.teacher == Some(a.roleId) && !a.deleted && a.activeUntil.None?
  }

  predicate TeachesIn(ctx: Context, t: Table, id: Id, course: Id) {
    id in t && ActiveTeacher(ctx, t[id]) && t[id].courseId.value == course
  }

  predicate OwnsCourse(ctx: Context, a: Assignment) {
    a.courseId.Some? && a.courseId.value in ctx.owner && ctx.owner[a.courseId.value] == a.userId
  }

  /** A row the partial unique index covers. */
  predicate Indexed(a: Assignment) {
    a.courseScope && a.title == Some(CourseInstructor) && !a.deleted && a.activeUntil.None?
  }

  predicate InstructorOf(t: Table, id: Id, course: Id) {
    id in t && Indexed(t[id]) && t[id].courseId == Some(course)
  }

  /** The index can be created: no course has two covered rows.  NULL course ids never collide. */
  predicate OneInstructorEach(t: Table) {
    forall a, b :: a in t && b in t && Indexed(t[a]) && Indexed(t[b]) && t[a].courseId.Some? ==>
      t[a].courseId != t[b].courseId || a == b
  }

  /** The sub-select of the second UPDATE: an untitled active teacher of a course without an
      active instructor row. */
  predicate Eligible(ctx: Context, t: Table, id: Id) {
    id in t && ActiveTeacher(ctx, t[id]) && t[id].title.None?
    && forall other :: other in t ==> !HoldsCourse(t[other], t[id].courseId)
  }

  predicate HoldsCourse(a: Assignment, course: Option<Id>) {
    a.courseId == course && a.title == Some(CourseInstructor) && !a.deleted && a.activeUntil.None?
  }

  /** ORDER BY active_from, id. */
  predicate Earlier(t: Table, a: Id, b: Id)
    requires a in t && b in t
  {
    t[a].activeFrom < t[b].activeFrom || (t[a].activeFrom == t[b].activeFrom && a < b)
  }

  /** DISTINCT ON (course_id): first of its course in that order. */
  predicate FirstEligible(ctx: Context, t: Table, id: Id) {
    Eligible(ctx, t, id)
    && forall other :: other in t && Eligible(ctx, t, other) && t[other].courseId == t[id].courseId && other != id ==>
         Earlier(t, id, other)
  }

  /** ADD COLUMN course_role. */
  function WithTitleColumn(t: Table): Table {
    map id | id in t :: t[id].(title := None)
  }

  function Retitle(t: Table, ids: set<Id>, title: Title): Table {
    map id | id in t :: if id in ids then t[id].(title := Some(title)) else t[id]
  }

  class AssignmentTable {
    var rows: Table

    /** UPDATE ... SET course_role = title, over the rows its WHERE clause selected. */
    method SetTitle(ids: set<Id>, title: Title)
      requires ids <= rows.Keys
      modifies this
      ensures rows == Retitle(old(rows), ids, title)
    {
      var rest := ids;
      while rest != {}
        invariant rest <= ids
        invariant rows == Retitle(old(rows), ids - rest, title)
        decreases rest
      {
        var id :| id in rest;
        rows := rows[id := rows[id].(title := Some(title))];
        rest := rest - {id};
      }
      assert ids - rest == ids;
    }

    /** `upgrade`, in one transaction: the column, the three UPDATEs in order, and the unique index.
        The index can be created, and the migration committed, exactly when no course owner holds
        two active teacher rows on the course. */
    method Upgrade(ctx: Context) returns (ok: bool)
      modifies this
      ensures ok <==> SingleOwnerRows(ctx, old(rows))
      ensures !ok ==> rows == old(rows)
      ensures ok ==> rows.Keys == old(rows).Keys
      ensures ok ==> forall id :: id in rows ==> rows[id].(title := None) == old(rows)[id].(title := None)
      ensures ok ==> forall id :: id in rows && !ActiveTeacher(ctx, rows[id]) ==> rows[id].title == None
      ensures ok ==> forall course: Id :: Titled(ctx, rows, course)
      ensures ok ==> forall id :: id in rows ==> TitledByRule(ctx, old(rows), id, rows[id].title)
      ensures ok ==> OneInstructorEach(rows)
    {
      var before := rows;
      rows := WithTitleColumn(rows);
      SetTitle(OwnerRows(ctx, rows), CourseInstructor);
      SetTitle(EarliestRows(ctx, rows), CourseInstructor);
      SetTitle(UntitledRows(ctx, rows), TeacherAssistant);
      UpgradeFacts(ctx, before);
      forall id | id in before ensures TitledByRule(ctx, before, id, rows[id].title) {
        RuleFollowed(ctx, before, rows, id);
      }
      ok := OneInstructorEach(rows);
      if !ok {
        rows := before;
      }
    }
  }

  function OwnerRows(ctx: Context, t: Table): set<Id> {
    set id | id in t && ActiveTeacher(ctx, t[id]) && t[id].title.None? && OwnsCourse(ctx, t[id])
  }

  function EarliestRows(ctx: Context, t: Table): set<Id> {
    set id | id in t && FirstEligible(ctx, t, id)
  }

  function UntitledRows(ctx: Context, t: Table): set<Id> {
    set id | id in t && ActiveTeacher(ctx, t[id]) && t[id].title.None?
  }

  /** The three UPDATEs, each reading what the one before it wrote. */
  function Migrated(ctx: Context, t0: Table): Table {
    var t1 := Retitle(t0, OwnerRows(ctx, t0), CourseInstructor);
    var t2 := Retitle(t1, EarliestRows(ctx, t1), CourseInstructor);
    Retitle(t2, UntitledRows(ctx, t2), TeacherAssistant)
  }

  ghost predicate Untitled(t: Table) {
    forall id :: id in t ==> t[id].title == None
  }

  // ---------------------------------------------------------------------------
  // Who ends up as what, said directly
  // ---------------------------------------------------------------------------

  ghost predicate OwnerTeaches(ctx: Context, t: Table, course: Id) {
    exists id: Id :: OwnRow(ctx, t, id, course)
  }

  /** The earliest active teacher row of a course. */
  ghost predicate EarliestIn(ctx: Context, t: Table, id: Id, course: Id) {
    TeachesIn(ctx, t, id, course)
    && forall other :: TeachesIn(ctx, t, other, course) && other != id ==> Earlier(t, id, other)
  }

  /** The owner's rows are instructors if the owner teaches; otherwise exactly the earliest teacher
      is; every other active teacher is an assistant; and there is at least one instructor if
      there is any teacher at all. */
  ghost predicate Titled(ctx: Context, t: Table, course: Id) {
    && (forall id :: TeachesIn(ctx, t, id, course) ==>
          var instructs := if OwnerTeaches(ctx, t, course) then OwnsCourse(ctx, t[id]) else EarliestIn(ctx, t, id, course);
          t[id].title == Some(if instructs then CourseInstructor else TeacherAssistant))
    && ((exists id :: TeachesIn(ctx, t, id, course)) ==> exists id :: InstructorOf(t, id, course))
  }

  ghost predicate OwnRow(ctx: Context, t: Table, id: Id, course: Id) {
    TeachesIn(ctx, t, id, course) && OwnsCourse(ctx, t[id])
  }

  /** No course owner has two active teacher rows on the course. */
  ghost predicate SingleOwnerRows(ctx: Context, t: Table) {
    forall course: Id, a, b :: OwnRow(ctx, t, a, course) && OwnRow(ctx, t, b, course) ==> a == b
  }

  /** Among finitely many rows there is an earliest. */
  lemma {:induction false} EarliestExists(t: Table, ids: set<Id>, any: Id) returns (first: Id)
    requires any in ids && ids <= t.Keys
    ensures first in ids && forall other :: other in ids && other != first ==> Earlier(t, first, other)
    decreases ids
  {
    var sooner := set id | id in ids && Earlier(t, id, any);
    if next :| next in sooner {
      assert any !in sooner;
      first := EarliestExists(t, sooner, next);
      assert first in sooner;
    } else {
      first := any;
    }
    forall other | other in ids && other != first ensures Earlier(t, first, other) {
      assert other in sooner || other == any || Earlier(t, any, other);
    }
  }

  /** After the first two UPDATEs, the title of an active teacher row. */
  lemma InstructorsChosen(ctx: Context, t0: Table, id: Id, course: Id)
    requires Untitled(t0) && TeachesIn(ctx, t0, id, course)
    ensures var t1 := Retitle(t0, OwnerRows(ctx, t0), CourseInstructor);
      var t2 := Retitle(t1, EarliestRows(ctx, t1), CourseInstructor);
      t2[id].title == Some(CourseInstructor) <==>
        if OwnerTeaches(ctx, t0, course) then OwnsCourse(ctx, t0[id]) else EarliestIn(ctx, t0, id, course)
  {
    var t1 := Retitle(t0, OwnerRows(ctx, t0), CourseInstructor);
    if OwnerTeaches(ctx, t0, course) {
      var owner: Id :| OwnRow(ctx, t0, owner, course);
      assert HoldsCourse(t1[owner], t1[id].courseId);
    } else {
      forall other | other in t1 ensures !HoldsCourse(t1[other], Some(course)) {
        assert !OwnRow(ctx, t0, other, course);
      }
      assert forall other :: other in t1 && t1[other].courseId == Some(course) ==>
          (Eligible(ctx, t1, other) <==> TeachesIn(ctx, t0, other, course));
    }
  }

  lemma CourseIsTitled(ctx: Context, t0: Table, course: Id)
    requires Untitled(t0)
    ensures Titled(ctx, Migrated(ctx, t0), course)
  {
    var t := Migrated(ctx, t0);
    assert forall id :: TeachesIn(ctx, t, id, course) <==> TeachesIn(ctx, t0, id, course);
    assert OwnerTeaches(ctx, t, course) <==> OwnerTeaches(ctx, t0, course) by {
      assert forall id :: OwnRow(ctx, t, id, course) <==> OwnRow(ctx, t0, id, course);
    }
    forall id | TeachesIn(ctx, t, id, course)
      ensures t[id].title == Some(if (if OwnerTeaches(ctx, t, course) then OwnsCourse(ctx, t[id]) else EarliestIn(ctx, t, id, course)) then CourseInstructor else TeacherAssistant)
    {
      InstructorsChosen(ctx, t0, id, course);
      assert EarliestIn(ctx, t, id, course) <==> EarliestIn(ctx, t0, id, course);
    }
    if any :| TeachesIn(ctx, t, any, course) {
      if OwnerTeaches(ctx, t, course) {
        var owner: Id :| OwnRow(ctx, t, owner, course);
        assert InstructorOf(t, owner, course);
      } else {
        var ids := set id | id in t && TeachesIn(ctx, t, id, course);
        assert any in ids;
        var first := EarliestExists(t, ids, any);
        assert EarliestIn(ctx, t, first, course);
        assert InstructorOf(t, first, course);
      }
    }
  }

  /** The same rule column by column: which title the row ends up with, read off the table before.
      Titles go to the course-scoped rows of the teacher role that name a course and are neither
      deleted nor ended; of these, the owner's are instructors, and where the owner has none, the
      first by (active_from, id) is; the others are assistants. */
  ghost predicate TitledByRule(ctx: Context, t: Table, id: Id, title: Option<Title>)
    requires id in t
  {
    if !(t[id].courseScope && t[id].courseId.Some? && Some(t[id].roleId) == ctx.teacher && !t[id].deleted && t[id].activeUntil == None)
    then title == None
    else if exists other: Id :: OwnersTeacherRow(ctx, t, other, t[id].courseId.value)
    then title == Some(if OwnersTeacherRow(ctx, t, id, t[id].courseId.value) then CourseInstructor else TeacherAssistant)
    else
      title == Some(if exists other: Id :: SoonerTeacherRow(ctx, t, other, id) then TeacherAssistant else CourseInstructor)
  }

  ghost predicate OwnersTeacherRow(ctx: Context, t: Table, id: Id, course: Id) {
    && id in t && t[id].courseScope && t[id].courseId == Some(course)
    && Some(t[id].roleId) == ctx.teacher && !t[id].deleted && t[id].activeUntil == None
    && course in ctx.owner && t[id].userId == ctx.owner[course]
  }

  ghost predicate SoonerTeacherRow(ctx: Context, t: Table, other: Id, id: Id)
    requires id in t
  {
    && other in t && t[other].courseScope && t[other].courseId == t[id].courseId
    && Some(t[other].roleId) == ctx.teacher && !t[other].deleted && t[other].activeUntil == None
    && (t[other].activeFrom < t[id].activeFrom || (t[other].activeFrom == t[id].activeFrom && other < id))
  }

  /** The predicates of the statements, read column by column. */
  lemma RuleByPredicates(ctx: Context, before: Table, t: Table, id: Id)
    requires t.Keys == before.Keys && forall other :: other in t ==> t[other].(title := None) == before[other].(title := None)
    requires id in t && ActiveTeacher(ctx, t[id])
    ensures var course := t[id].courseId.value;
      && (OwnsCourse(ctx, t[id]) <==> OwnersTeacherRow(ctx, before, id, course))
      && (OwnerTeaches(ctx, t, course) <==> exists other: Id :: OwnersTeacherRow(ctx, before, other, course))
      && (EarliestIn(ctx, t, id, course) <==> !exists other: Id :: SoonerTeacherRow(ctx, before, other, id))
  {
    var course := t[id].courseId.value;
    forall other: Id
      ensures OwnRow(ctx, t, other, course) <==> OwnersTeacherRow(ctx, before, other, course)
      ensures TeachesIn(ctx, t, other, course) && other != id && !Earlier(t, id, other) <==> SoonerTeacherRow(ctx, before, other, id)
    {
      if other in t {
        assert t[other].(title := None) == before[other].(title := None);
      }
    }
  }

  lemma RuleFollowed(ctx: Context, before: Table, t: Table, id: Id)
    requires t.Keys == before.Keys && forall other :: other in t ==> t[other].(title := None) == before[other].(title := None)
    requires forall other :: other in t && !ActiveTeacher(ctx, t[other]) ==> t[other].title == None
    requires forall course: Id :: Titled(ctx, t, course)
    requires id in t
    ensures TitledByRule(ctx, before, id, t[id].title)
  {
    assert t[id].(title := None) == before[id].(title := None);
    if ActiveTeacher(ctx, t[id]) {
      var course := t[id].courseId.value;
      assert Titled(ctx, t, course) && TeachesIn(ctx, t, id, course);
      RuleByPredicates(ctx, before, t, id);
    }
  }

  lemma EarliestUnique(ctx: Context, t: Table, a: Id, b: Id, course: Id)
    requires EarliestIn(ctx, t, a, course) && EarliestIn(ctx, t, b, course)
    ensures a == b
  {
  }

  lemma IndexIff(ctx: Context, t: Table)
    requires forall course: Id :: Titled(ctx, t, course)
    requires forall id :: id in t && Indexed(t[id]) ==> ActiveTeacher(ctx, t[id])
    ensures OneInstructorEach(t) <==> SingleOwnerRows(ctx, t)
  {
    if SingleOwnerRows(ctx, t) {
      forall a, b | a in t && b in t && Indexed(t[a]) && Indexed(t[b]) && t[a].courseId.Some? && t[a].courseId == t[b].courseId
        ensures a == b
      {
        var course := t[a].courseId.value;
        assert Titled(ctx, t, course) && TeachesIn(ctx, t, a, course) && TeachesIn(ctx, t, b, course);
        if !OwnerTeaches(ctx, t, course) {
          EarliestUnique(ctx, t, a, b, course);
        } else {
          assert OwnRow(ctx, t, a, course) && OwnRow(ctx, t, b, course);
        }
      }
    } else {
      var course: Id, a, b :| OwnRow(ctx, t, a, course) && OwnRow(ctx, t, b, course) && a != b;
      assert Titled(ctx, t, course) && OwnerTeaches(ctx, t, course);
      assert Indexed(t[a]) && Indexed(t[b]);
    }
  }

  /** Only titles change, and only those of active teachers. */
  lemma OnlyTeachersRetitled(ctx: Context, t0: Table, id: Id)
    requires Untitled(t0) && id in t0
    ensures var t := Migrated(ctx, t0);
      && id in t && t[id].(title := None) == t0[id]
      && (!ActiveTeacher(ctx, t0[id]) ==> t[id] == t0[id])
  {
  }

  /** Everything the migration promises, of any table whose title column was just added. */
  lemma MigratedFacts(ctx: Context, t0: Table)
    requires Untitled(t0)
    ensures var t := Migrated(ctx, t0);
      && t.Keys == t0.Keys
      && (forall id :: id in t ==> t[id].(title := None) == t0[id])
      && (forall id :: id in t && !ActiveTeacher(ctx, t[id]) ==> t[id].title == None)
      && (forall course: Id :: Titled(ctx, t, course))
      && (OneInstructorEach(t) <==> SingleOwnerRows(ctx, t))
  {
    var t := Migrated(ctx, t0);
    assert t.Keys == t0.Keys;
    forall id | id in t
      ensures t[id].(title := None) == t0[id] && (!ActiveTeacher(ctx, t[id]) ==> t[id].title == None)
    {
      OnlyTeachersRetitled(ctx, t0, id);
    }
    forall course: Id ensures Titled(ctx, t, course) {
      CourseIsTitled(ctx, t0, course);
    }
    IndexIff(ctx, t);
  }

  /** The same said of the table before the title column was added. */
  lemma UpgradeFacts(ctx: Context, before: Table)
    ensures var t := Migrated(ctx, WithTitleColumn(before));
      && t.Keys == before.Keys
      && (forall id :: id in t ==> t[id].(title := None) == before[id].(title := None))
      && (forall id :: id in t && !ActiveTeacher(ctx, t[id]) ==> t[id].title == None)
      && (forall course: Id :: Titled(ctx, t, course))
      && (OneInstructorEach(t) <==> SingleOwnerRows(ctx, before))
  {
    var t := Migrated(ctx, WithTitleColumn(before));
    MigratedFacts(ctx, WithTitleColumn(before));
    forall id: Id, course: Id ensures OwnRow(ctx, t, id, course) <==> OwnRow(ctx, before, id, course) {
      if id in before {
        assert t[id].(title := None) == before[id].(title := None);
      }
    }
  }

  /** Two active rows of the owner that differ only in their id: the unique key admits them, because
      they name no organizational unit, and the migration fails. */
  lemma OwnerTwiceBlocks() returns (ctx: Context, t0: Table)
    ensures UniqueKey(t0) && Untitled(t0) && t0.Keys == {1, 2} && t0[1] == t0[2]
    ensures !SingleOwnerRows(ctx, t0)
    ensures !OneInstructorEach(Migrated(ctx, t0))
  {
    var row := Assignment(7, 3, true, Some(4), None, Some(5), 0, None, false, None);
    ctx, t0 := Context(Some(3), map[5 := 7]), map[1 := row, 2 := row];
    assert OwnRow(ctx, t0, 1, 5) && OwnRow(ctx, t0, 2, 5);
    var t := Migrated(ctx, t0);
    MigratedFacts(ctx, t0);
    assert OwnRow(ctx, t, 1, 5) && OwnRow(ctx, t, 2, 5);
  }
}

/** Migrations 0070 (stages) and 0074 (versions) on the career-path tables. */
module CareerPaths {
  import opened Prelude

  /** A UUID. */
  type Id = int

  datatype Path = Path(id: Id, published: bool)

  datatype Version = Version(id: Id, pathId: Id, no: int, published: bool)

  /** Columns that a migration adds or drops are None while absent or NULL. */
  datatype Stage = Stage(id: Id, pathId: Option<Id>, versionId: Option<Id>, position: int, deleted: bool)

  datatype Item = Item(
    pathId: Option<Id>, stageId: Option<Id>, versionId: Option<Id>,
    courseId: Id, position: int, required: bool)

  /** A student_career_enrollments or career_readiness_snapshots row. */
  datatype Pin = Pin(id: Id, pathId: Id, versionId: Option<Id>)

  /** Tables as row lists; a migration rewrites row i in place.  `pinsNotNull` says that version_id
      of enrolments and of snapshots has been made NOT NULL. */
  datatype Db = Db(
    paths: seq<Path>, stages: seq<Stage>, items: seq<Item>, versions: seq<Version>,
    enrollments: seq<Pin>, snapshots: seq<Pin>, pinsNotNull: bool)

  ghost predicate IsPath(db: Db, id: Option<Id>) {
    exists i :: 0 <= i < |db.paths| && Some(db.paths[i].id) == id
  }

  // ---------------------------------------------------------------------------
  // Constraints
  // ---------------------------------------------------------------------------

  ghost predicate DistinctPaths(paths: seq<Path>) {
    forall i, j :: 0 <= i < j < |paths| ==> paths[i].id != paths[j].id
  }

  /** The primary key of career_course_items before 0074. */
  ghost predicate UniquePathCourse(items: seq<Item>) {
    forall i, j :: 0 <= i < j < |items| && items[i].pathId == items[j].pathId ==> items[i].courseId != items[j].courseId
  }

  ghost predicate UniquePathPosition(items: seq<Item>) {
    forall i, j :: 0 <= i < j < |items| && items[i].pathId == items[j].pathId ==> items[i].position != items[j].position
  }

  ghost predicate UniqueStagePosition(items: seq<Item>) {
    forall i, j :: 0 <= i < j < |items| && items[i].stageId == items[j].stageId ==> items[i].position != items[j].position
  }

  ghost predicate UniqueVersionCourse(items: seq<Item>) {
    forall i, j :: 0 <= i < j < |items| && items[i].versionId == items[j].versionId ==> items[i].courseId != items[j].courseId
  }

  /** One live stage per position of a path: the partial unique index of 0070. */
  ghost predicate UniquePathStage(stages: seq<Stage>) {
    forall i, j :: 0 <= i < j < |stages| && !stages[i].deleted && !stages[j].deleted && stages[i].pathId == stages[j].pathId ==>
      stages[i].position != stages[j].position
  }

  /** The schema before 0070. */
  ghost predicate FlatSchema(db: Db) {
    && DistinctPaths(db.paths) && db.stages == [] && db.versions == []
    && (forall i :: 0 <= i < |db.items| ==> IsPath(db, db.items[i].pathId) && db.items[i].stageId == db.items[i].versionId == None)
    && UniquePathCourse(db.items) && UniquePathPosition(db.items)
    && Unpinned(db)
  }

  /** The schema between 0070 and 0074; later edits may have added stages of any position. */
  ghost predicate StagedSchema(db: Db) {
    && DistinctPaths(db.paths) && db.versions == []
    && (forall i :: 0 <= i < |db.stages| ==> IsPath(db, db.stages[i].pathId) && db.stages[i].versionId == None)
    && (forall i :: 0 <= i < |db.items| ==>
          IsPath(db, db.items[i].pathId) && db.items[i].stageId.Some? && db.items[i].versionId == None)
    && UniquePathCourse(db.items) && UniqueStagePosition(db.items) && UniquePathStage(db.stages)
    && Unpinned(db)
  }

  ghost predicate Unpinned(db: Db) {
    && !db.pinsNotNull
    && (forall i :: 0 <= i < |db.enrollments| ==>
          IsPath(db, Some(db.enrollments[i].pathId)) && db.enrollments[i].versionId == None)
    && (forall i :: 0 <= i < |db.snapshots| ==>
          IsPath(db, Some(db.snapshots[i].pathId)) && db.snapshots[i].versionId == None)
  }

  /** The schema after 0074: version ids and (path, number) unique, every reference resolved. */
  ghost predicate VersionedSchema(db: Db) {
    && VersionsKeyed(db.versions) && RoutesResolved(db) && PinsResolved(db)
    && UniqueVersionCourse(db.items) && UniqueStagePosition(db.items)
  }

  ghost predicate VersionsKeyed(versions: seq<Version>) {
    forall i, j :: 0 <= i < j < |versions| ==>
      versions[i].id != versions[j].id
      && !(versions[i].pathId == versions[j].pathId && versions[i].no == versions[j].no)
  }

  ghost predicate RoutesResolved(db: Db) {
    && (forall i :: 0 <= i < |db.stages| ==> IsVersion(db, db.stages[i].versionId) && db.stages[i].pathId == None)
    && (forall i :: 0 <= i < |db.items| ==>
          IsVersion(db, db.items[i].versionId) && db.items[i].pathId == None && db.items[i].stageId.Some?)
  }

  ghost predicate PinsResolved(db: Db) {
    && db.pinsNotNull
    && (forall i :: 0 <= i < |db.enrollments| ==> IsVersion(db, db.enrollments[i].versionId))
    && (forall i :: 0 <= i < |db.snapshots| ==> IsVersion(db, db.snapshots[i].versionId))
  }

  ghost predicate IsVersion(db: Db, id: Option<Id>) {
    exists k :: 0 <= k < |db.versions| && Some(db.versions[k].id) == id
  }

  // ---------------------------------------------------------------------------
  // 0070
  // ---------------------------------------------------------------------------

  /** INSERT INTO career_path_stages ... SELECT id, 1, ... FROM career_paths, with new ids. */
  function SyntheticStages(paths: seq<Path>, ids: seq<Id>): seq<Stage>
    requires |ids| == |paths|
  {
    seq(|paths|, i requires 0 <= i < |paths| => Stage(ids[i], Some(paths[i].id), None, 1, false))
  }

  /** The stage an UPDATE ... FROM career_path_stages WHERE position = 1 joins a path to. */
  function FirstStage(stages: seq<Stage>, path: Option<Id>): Option<Id> {
    if stages == [] then None
    else if stages[0].pathId.Some? && stages[0].pathId == path && stages[0].position == 1 then Some(stages[0].id)
    else FirstStage(stages[1..], path)
  }

  function Staged(db: Db, ids: seq<Id>): Db
    requires |ids| == |db.paths|
  {
    var stages := db.stages + SyntheticStages(db.paths, ids);
    db.(stages := stages,
        items := seq(|db.items|, i requires 0 <= i < |db.items| => db.items[i].(stageId := FirstStage(stages, db.items[i].pathId))))
  }

  lemma {:induction false} FirstStageFinds(paths: seq<Path>, ids: seq<Id>, k: nat)
    requires |ids| == |paths| && DistinctPaths(paths) && k < |paths|
    ensures FirstStage(SyntheticStages(paths, ids), Some(paths[k].id)) == Some(ids[k])
  {
    assert SyntheticStages(paths, ids)[1..] == SyntheticStages(paths[1..], ids[1..]);
    if k > 0 {
      FirstStageFinds(paths[1..], ids[1..], k - 1);
    }
  }

  // ---------------------------------------------------------------------------
  // 0074
  // ---------------------------------------------------------------------------

  function FirstVersions(paths: seq<Path>, ids: seq<Id>): seq<Version>
    requires |ids| == |paths|
  {
    seq(|paths|, i requires 0 <= i < |paths| => Version(ids[i], paths[i].id, 1, paths[i].published))
  }

  /** FROM career_path_versions v WHERE v.career_path_id = path AND v.version_no = 1. */
  function VersionOne(versions: seq<Version>, path: Option<Id>): Option<Id> {
    if versions == [] then None
    else if Some(versions[0].pathId) == path && versions[0].no == 1 then Some(versions[0].id)
    else VersionOne(versions[1..], path)
  }

  /** FROM career_path_versions v WHERE v.id = version AND v.version_no = 1. */
  function PathOfVersionOne(versions: seq<Version>, version: Option<Id>): Option<Id> {
    if versions == [] then None
    else if Some(versions[0].id) == version && versions[0].no == 1 then Some(versions[0].pathId)
    else PathOfVersionOne(versions[1..], version)
  }

  function PinStages(stages: seq<Stage>, versions: seq<Version>): seq<Stage> {
    seq(|stages|, i requires 0 <= i < |stages| =>
      stages[i].(versionId := VersionOne(versions, stages[i].pathId), pathId := None))
  }

  function PinItems(items: seq<Item>, versions: seq<Version>): seq<Item> {
    seq(|items|, i requires 0 <= i < |items| =>
      items[i].(versionId := VersionOne(versions, items[i].pathId), pathId := None))
  }

  function PinRows(rows: seq<Pin>, versions: seq<Version>): seq<Pin> {
    seq(|rows|, i requires 0 <= i < |rows| => rows[i].(versionId := VersionOne(versions, Some(rows[i].pathId))))
  }

  function Versioned(db: Db, ids: seq<Id>): Db
    requires |ids| == |db.paths|
  {
    var versions := db.versions + FirstVersions(db.paths, ids);
    Db(db.paths, PinStages(db.stages, versions), PinItems(db.items, versions), versions,
       PinRows(db.enrollments, versions), PinRows(db.snapshots, versions), true)
  }

  function UnpinStages(stages: seq<Stage>, versions: seq<Version>): seq<Stage> {
    seq(|stages|, i requires 0 <= i < |stages| =>
      stages[i].(pathId := PathOfVersionOne(versions, stages[i].versionId), versionId := None))
  }

  function UnpinItems(items: seq<Item>, versions: seq<Version>): seq<Item> {
    seq(|items|, i requires 0 <= i < |items| =>
      items[i].(pathId := PathOfVersionOne(versions, items[i].versionId), versionId := None))
  }

  function UnpinRows(rows: seq<Pin>): seq<Pin> {
    seq(|rows|, i requires 0 <= i < |rows| => rows[i].(versionId := None))
  }

  function Unversioned(db: Db): Db {
    Db(db.paths, UnpinStages(db.stages, db.versions), UnpinItems(db.items, db.versions), [],
       UnpinRows(db.enrollments), UnpinRows(db.snapshots), false)
  }

  lemma {:induction false} VersionOneFinds(paths: seq<Path>, ids: seq<Id>, k: nat)
    requires |ids| == |paths| && DistinctPaths(paths) && NoDuplicates(ids) && k < |paths|
    ensures VersionOne(FirstVersions(paths, ids), Some(paths[k].id)) == Some(ids[k])
    ensures PathOfVersionOne(FirstVersions(paths, ids), Some(ids[k])) == Some(paths[k].id)
  {
    assert FirstVersions(paths, ids)[1..] == FirstVersions(paths[1..], ids[1..]);
    if k > 0 {
      VersionOneFinds(paths[1..], ids[1..], k - 1);
    }
  }

  lemma {:induction false} PathOfVersion(versions: seq<Version>, k: nat)
    requires k < |versions| && VersionsKeyed(versions)
    ensures PathOfVersionOne(versions, Some(versions[k].id)) == if versions[k].no == 1 then Some(versions[k].pathId) else None
  {
    if k > 0 {
      PathOfVersion(versions[1..], k - 1);
    } else {
      NoSuchVersion(versions[1..], versions[0].id);
    }
  }

  lemma {:induction false} NoSuchVersion(versions: seq<Version>, id: Id)
    requires forall i :: 0 <= i < |versions| ==> versions[i].id != id
    ensures PathOfVersionOne(versions, Some(id)) == None
  {
    if versions != [] {
      NoSuchVersion(versions[1..], id);
    }
  }

  // ---------------------------------------------------------------------------
  // Reading a path's courses
  // ---------------------------------------------------------------------------

  /** One course of a path: which stage, where in it, which course. */
  datatype Entry = Entry(stagePosition: int, position: int, courseId: Id, required: bool)

  /** Before 0070 a path is one flat list. */
  ghost function FlatRoute(db: Db, path: Id): set<Entry> {
    set i | 0 <= i < |db.items| && db.items[i].pathId == Some(path) ::
      Entry(1, db.items[i].position, db.items[i].courseId, db.items[i].required)
  }

  /** After 0070: the items of the path's live stages. */
  ghost function StagedRoute(db: Db, path: Id): set<Entry> {
    set i, k | 0 <= i < |db.items| && 0 <= k < |db.stages| && InStage(db.items[i], db.stages[k])
               && db.stages[k].pathId == Some(path) ::
      Entry(db.stages[k].position, db.items[i].position, db.items[i].courseId, db.items[i].required)
  }

  /** After 0074: the items of the live stages of the path's version 1. */
  ghost function VersionedRoute(db: Db, path: Id): set<Entry> {
    set i, k | 0 <= i < |db.items| && 0 <= k < |db.stages| && InStage(db.items[i], db.stages[k])
               && InVersionOne(db, db.stages[k], path) ::
      Entry(db.stages[k].position, db.items[i].position, db.items[i].courseId, db.items[i].required)
  }

  ghost predicate InStage(item: Item, stage: Stage) {
    item.stageId == Some(stage.id) && !stage.deleted
  }

  ghost predicate InVersionOne(db: Db, stage: Stage, path: Id) {
    exists v :: 0 <= v < |db.versions| && VersionHolds(db.versions[v], stage, path)
  }

  ghost predicate VersionHolds(v: Version, stage: Stage, path: Id) {
    v.pathId == path && v.no == 1 && stage.versionId == Some(v.id)
  }

  ghost predicate Precedes(a: Entry, b: Entry) {
    a.stagePosition < b.stagePosition || (a.stagePosition == b.stagePosition && a.position < b.position)
  }

  /** `list` is the route in reading order. */
  ghost predicate Lists(list: seq<Entry>, route: set<Entry>) {
    Elements(list) == route && forall i, j :: 0 <= i < j < |list| ==> Precedes(list[i], list[j])
  }

  lemma DistinctCountOf(list: seq<Entry>)
    requires forall i, j :: 0 <= i < j < |list| ==> Precedes(list[i], list[j])
    ensures |Elements(list)| == |list|
  {
    DistinctCount(list);
  }

  /** Equal routes read as equal lists: the order is in the entries. */
  lemma {:induction false} ReadingOrderUnique(a: seq<Entry>, b: seq<Entry>, route: set<Entry>)
    requires Lists(a, route) && Lists(b, route)
    ensures a == b
    decreases |a|
  {
    if a == [] {
      assert |Elements(a)| == 0;
      assert b == [] by {
        DistinctCountOf(b);
      }
    } else {
      assert a[0] in Elements(b) && (b == [] || b[0] in Elements(a));
      var i :| 0 <= i < |b| && b[i] == a[0];
      var j :| 0 <= j < |a| && a[j] == b[0];
      assert a[0] == b[0];
      var rest := route - {a[0]};
      assert Elements(a[1..]) == rest by {
        assert a == [a[0]] + a[1..] && a[0] !in a[1..];
      }
      assert Elements(b[1..]) == rest by {
        assert b == [b[0]] + b[1..] && b[0] !in b[1..];
      }
      ReadingOrderUnique(a[1..], b[1..], rest);
    }
  }

  // ---------------------------------------------------------------------------
  // 0070 keeps every path's list and establishes its constraints
  // ---------------------------------------------------------------------------

  lemma StagedItem(db: Db, ids: seq<Id>, i: nat) returns (k: nat)
    requires FlatSchema(db) && |ids| == |db.paths| && i < |db.items|
    ensures k < |db.paths| && db.items[i].pathId == Some(db.paths[k].id)
    ensures Staged(db, ids).items[i] == db.items[i].(stageId := Some(ids[k]))
  {
    assert IsPath(db, db.items[i].pathId);
    k :| 0 <= k < |db.paths| && Some(db.paths[k].id) == db.items[i].pathId;
    assert db.stages + SyntheticStages(db.paths, ids) == SyntheticStages(db.paths, ids);
    FirstStageFinds(db.paths, ids, k);
  }

  lemma StagingEstablishesSchema(db: Db, ids: seq<Id>)
    requires FlatSchema(db) && |ids| == |db.paths| && NoDuplicates(ids)
    ensures StagedSchema(Staged(db, ids))
  {
    var staged := Staged(db, ids);
    forall i | 0 <= i < |staged.items|
      ensures IsPath(staged, staged.items[i].pathId) && staged.items[i].stageId.Some? && staged.items[i].versionId == None
    {
      var k := StagedItem(db, ids, i);
      assert Some(staged.paths[k].id) == staged.items[i].pathId;
    }
    forall i | 0 <= i < |staged.stages| ensures IsPath(staged, staged.stages[i].pathId) {
      assert Some(staged.paths[i].id) == staged.stages[i].pathId;
    }
    forall i, j | 0 <= i < j < |staged.items| && staged.items[i].stageId == staged.items[j].stageId
      ensures staged.items[i].position != staged.items[j].position
    {
      var k := StagedItem(db, ids, i);
      var l := StagedItem(db, ids, j);
      assert k == l;
    }
    KeepsUnpinned(db, staged);
  }

  lemma KeepsUnpinned(db: Db, after: Db)
    requires Unpinned(db) && after == db.(stages := after.stages, items := after.items)
    ensures Unpinned(after)
  {
    assert forall id :: IsPath(db, id) ==> IsPath(after, id);
  }

  /** What 0070 does, row by row: one first stage per path, and every item in the stage of its own
      path; nothing else changes. */
  ghost predicate StagedFrom(db: Db, after: Db) {
    && after == db.(stages := after.stages, items := after.items)
    && |after.stages| == |db.paths| && |after.items| == |db.items|
    && (forall k :: 0 <= k < |db.paths| ==>
          after.stages[k] == Stage(after.stages[k].id, Some(db.paths[k].id), None, 1, false))
    && (forall i :: 0 <= i < |db.items| ==>
          && after.items[i] == db.items[i].(stageId := after.items[i].stageId)
          && StageOfPath(after, db.items[i].pathId, after.items[i].stageId))
  }

  ghost predicate StageOfPath(db: Db, path: Option<Id>, stage: Option<Id>) {
    exists k :: 0 <= k < |db.stages| && db.stages[k].pathId == path && stage == Some(db.stages[k].id)
  }

  lemma ItemsStagedInOwnPath(db: Db, ids: seq<Id>)
    requires FlatSchema(db) && |ids| == |db.paths| && NoDuplicates(ids)
    ensures StagedFrom(db, Staged(db, ids))
  {
    var after := Staged(db, ids);
    assert after.stages == SyntheticStages(db.paths, ids);
    forall i | 0 <= i < |db.items|
      ensures after.items[i] == db.items[i].(stageId := after.items[i].stageId)
      ensures StageOfPath(after, db.items[i].pathId, after.items[i].stageId)
    {
      var k := StagedItem(db, ids, i);
      assert after.stages[k].pathId == db.items[i].pathId;
    }
  }

  lemma StagedEntry(db: Db, ids: seq<Id>, i: nat, k: nat)
    requires FlatSchema(db) && |ids| == |db.paths| && NoDuplicates(ids) && i < |db.items| && k < |db.paths|
    ensures var staged := Staged(db, ids);
      InStage(staged.items[i], staged.stages[k]) <==> db.items[i].pathId == staged.stages[k].pathId
    ensures Staged(db, ids).stages[k] == Stage(ids[k], Some(db.paths[k].id), None, 1, false)
  {
    var l := StagedItem(db, ids, i);
    assert k == l || db.paths[k].id != db.paths[l].id;
  }

  lemma StagingKeepsRoutes(db: Db, ids: seq<Id>, path: Id)
    requires FlatSchema(db) && |ids| == |db.paths| && NoDuplicates(ids)
    ensures StagedRoute(Staged(db, ids), path) == FlatRoute(db, path)
  {
    var staged := Staged(db, ids);
    forall e | e in FlatRoute(db, path) ensures e in StagedRoute(staged, path) {
      var i :| 0 <= i < |db.items| && db.items[i].pathId == Some(path)
        && e == Entry(1, db.items[i].position, db.items[i].courseId, db.items[i].required);
      var k := StagedItem(db, ids, i);
      StagedEntry(db, ids, i, k);
    }
    forall e | e in StagedRoute(staged, path) ensures e in FlatRoute(db, path) {
      var i, k :| 0 <= i < |staged.items| && 0 <= k < |staged.stages| && InStage(staged.items[i], staged.stages[k])
        && staged.stages[k].pathId == Some(path)
        && e == Entry(staged.stages[k].position, staged.items[i].position, staged.items[i].courseId, staged.items[i].required);
      StagedEntry(db, ids, i, k);
      assert db.items[i].pathId == Some(path);
    }
  }

  // ---------------------------------------------------------------------------
  // 0074 keeps every path's list and establishes its constraints
  // ---------------------------------------------------------------------------

  /** Version 1 of the path behind a reference. */
  lemma PinOf(db: Db, ids: seq<Id>, path: Option<Id>) returns (k: nat)
    requires DistinctPaths(db.paths) && db.versions == [] && |ids| == |db.paths| && NoDuplicates(ids) && IsPath(db, path)
    ensures k < |db.paths| && path == Some(db.paths[k].id)
    ensures VersionOne(Versioned(db, ids).versions, path) == Some(ids[k])
    ensures PathOfVersionOne(Versioned(db, ids).versions, Some(ids[k])) == path
    ensures Versioned(db, ids).versions[k] == Version(ids[k], db.paths[k].id, 1, db.paths[k].published)
  {
    k :| 0 <= k < |db.paths| && Some(db.paths[k].id) == path;
    assert Versioned(db, ids).versions == FirstVersions(db.paths, ids);
    VersionOneFinds(db.paths, ids, k);
  }

  lemma VersioningEstablishesSchema(db: Db, ids: seq<Id>)
    requires StagedSchema(db) && |ids| == |db.paths| && NoDuplicates(ids)
    ensures VersionedSchema(Versioned(db, ids))
  {
    FirstVersionsKeyed(db.paths, ids);
    assert Versioned(db, ids).versions == FirstVersions(db.paths, ids);
    RoutesResolve(db, ids);
    PinsResolve(db, ids);
    RekeyedItemsUnique(db, ids);
    KeepsStagePositions(db, ids);
  }

  lemma FirstVersionsKeyed(paths: seq<Path>, ids: seq<Id>)
    requires |ids| == |paths| && DistinctPaths(paths) && NoDuplicates(ids)
    ensures VersionsKeyed(FirstVersions(paths, ids))
  {
  }

  lemma KeepsStagePositions(db: Db, ids: seq<Id>)
    requires |ids| == |db.paths| && UniqueStagePosition(db.items)
    ensures UniqueStagePosition(Versioned(db, ids).items)
  {
  }

  lemma RoutesResolve(db: Db, ids: seq<Id>)
    requires StagedSchema(db) && |ids| == |db.paths| && NoDuplicates(ids)
    ensures RoutesResolved(Versioned(db, ids))
  {
    var after := Versioned(db, ids);
    forall i | 0 <= i < |db.stages| ensures IsVersion(after, after.stages[i].versionId) {
      PinResolves(db, ids, db.stages[i].pathId);
    }
    forall i | 0 <= i < |db.items| ensures IsVersion(after, after.items[i].versionId) {
      PinResolves(db, ids, db.items[i].pathId);
    }
  }

  lemma PinsResolve(db: Db, ids: seq<Id>)
    requires StagedSchema(db) && |ids| == |db.paths| && NoDuplicates(ids)
    ensures PinsResolved(Versioned(db, ids))
  {
    var after := Versioned(db, ids);
    forall i | 0 <= i < |db.enrollments| ensures IsVersion(after, after.enrollments[i].versionId) {
      PinResolves(db, ids, Some(db.enrollments[i].pathId));
    }
    forall i | 0 <= i < |db.snapshots| ensures IsVersion(after, after.snapshots[i].versionId) {
      PinResolves(db, ids, Some(db.snapshots[i].pathId));
    }
  }

  lemma PinResolves(db: Db, ids: seq<Id>, path: Option<Id>)
    requires DistinctPaths(db.paths) && db.versions == [] && |ids| == |db.paths| && NoDuplicates(ids) && IsPath(db, path)
    ensures IsVersion(Versioned(db, ids), VersionOne(Versioned(db, ids).versions, path))
  {
    var k := PinOf(db, ids, path);
    assert Some(Versioned(db, ids).versions[k].id) == VersionOne(Versioned(db, ids).versions, path);
  }

  /** The new primary key (version_id, course_id). */
  lemma RekeyedItemsUnique(db: Db, ids: seq<Id>)
    requires StagedSchema(db) && |ids| == |db.paths| && NoDuplicates(ids)
    ensures UniqueVersionCourse(Versioned(db, ids).items)
  {
    var after := Versioned(db, ids);
    forall i, j | 0 <= i < j < |db.items| && after.items[i].versionId == after.items[j].versionId
      ensures after.items[i].courseId != after.items[j].courseId
    {
      var k := PinOf(db, ids, db.items[i].pathId);
      var l := PinOf(db, ids, db.items[j].pathId);
      assert k == l;
    }
  }

  /** Every enrolment is pinned to version 1 of its own path. */
  lemma EnrollmentsPinnedToOwnPath(db: Db, ids: seq<Id>, i: nat)
    requires StagedSchema(db) && |ids| == |db.paths| && NoDuplicates(ids) && i < |db.enrollments|
    ensures var after := Versioned(db, ids);
      exists k :: 0 <= k < |after.versions| && after.versions[k].no == 1
        && after.versions[k].pathId == db.enrollments[i].pathId
        && after.enrollments[i] == db.enrollments[i].(versionId := Some(after.versions[k].id))
  {
    var k := PinOf(db, ids, Some(db.enrollments[i].pathId));
    assert Versioned(db, ids).versions[k].no == 1;
  }

  /** `version` is the version 1 of `path`. */
  ghost predicate FirstVersionOf(db: Db, path: Option<Id>, version: Option<Id>) {
    exists k :: 0 <= k < |db.versions| && db.versions[k].no == 1
      && Some(db.versions[k].pathId) == path && version == Some(db.versions[k].id)
  }

  /** What 0074 does, row by row: one version per path, published if the path is; and every stage,
      item, enrolment and snapshot pinned to the version of its own path, otherwise unchanged. */
  ghost predicate PinnedFrom(db: Db, after: Db) {
    && after.paths == db.paths && |after.versions| == |db.paths|
    && (forall k :: 0 <= k < |db.paths| ==>
          after.versions[k] == Version(after.versions[k].id, db.paths[k].id, 1, db.paths[k].published))
    && |after.stages| == |db.stages| && |after.items| == |db.items|
    && (forall i :: 0 <= i < |db.stages| ==>
          && after.stages[i] == db.stages[i].(pathId := None, versionId := after.stages[i].versionId)
          && FirstVersionOf(after, db.stages[i].pathId, after.stages[i].versionId))
    && (forall i :: 0 <= i < |db.items| ==>
          && after.items[i] == db.items[i].(pathId := None, versionId := after.items[i].versionId)
          && FirstVersionOf(after, db.items[i].pathId, after.items[i].versionId))
    && RowsPinned(after, db.enrollments, after.enrollments)
    && RowsPinned(after, db.snapshots, after.snapshots)
  }

  ghost predicate RowsPinned(after: Db, rows: seq<Pin>, pinned: seq<Pin>) {
    && |pinned| == |rows|
    && (forall i :: 0 <= i < |rows| ==>
          && pinned[i] == rows[i].(versionId := pinned[i].versionId)
          && FirstVersionOf(after, Some(rows[i].pathId), pinned[i].versionId))
  }

  lemma PinnedToFirst(db: Db, ids: seq<Id>, path: Option<Id>)
    requires DistinctPaths(db.paths) && db.versions == [] && |ids| == |db.paths| && NoDuplicates(ids) && IsPath(db, path)
    ensures FirstVersionOf(Versioned(db, ids), path, VersionOne(Versioned(db, ids).versions, path))
  {
    var k := PinOf(db, ids, path);
    assert Versioned(db, ids).versions[k].no == 1;
  }

  lemma RowsPinnedToOwnPath(db: Db, ids: seq<Id>, rows: seq<Pin>)
    requires StagedSchema(db) && |ids| == |db.paths| && NoDuplicates(ids)
    requires forall i :: 0 <= i < |rows| ==> IsPath(db, Some(rows[i].pathId))
    ensures RowsPinned(Versioned(db, ids), rows, PinRows(rows, Versioned(db, ids).versions))
  {
    forall i | 0 <= i < |rows|
      ensures FirstVersionOf(Versioned(db, ids), Some(rows[i].pathId), VersionOne(Versioned(db, ids).versions, Some(rows[i].pathId)))
    {
      PinnedToFirst(db, ids, Some(rows[i].pathId));
    }
  }

  lemma EverythingPinnedToOwnPath(db: Db, ids: seq<Id>)
    requires StagedSchema(db) && |ids| == |db.paths| && NoDuplicates(ids)
    ensures PinnedFrom(db, Versioned(db, ids))
  {
    var after := Versioned(db, ids);
    assert after.versions == FirstVersions(db.paths, ids);
    forall i | 0 <= i < |db.stages| ensures FirstVersionOf(after, db.stages[i].pathId, after.stages[i].versionId) {
      PinnedToFirst(db, ids, db.stages[i].pathId);
    }
    forall i | 0 <= i < |db.items| ensures FirstVersionOf(after, db.items[i].pathId, after.items[i].versionId) {
      PinnedToFirst(db, ids, db.items[i].pathId);
    }
    RowsPinnedToOwnPath(db, ids, db.enrollments);
    RowsPinnedToOwnPath(db, ids, db.snapshots);
  }

  lemma StageStaysInPath(db: Db, ids: seq<Id>, path: Id, k: nat)
    requires StagedSchema(db) && |ids| == |db.paths| && NoDuplicates(ids) && k < |db.stages|
    ensures InVersionOne(Versioned(db, ids), Versioned(db, ids).stages[k], path) <==> db.stages[k].pathId == Some(path)
  {
    var after := Versioned(db, ids);
    var p := PinOf(db, ids, db.stages[k].pathId);
    if db.stages[k].pathId == Some(path) {
      assert VersionHolds(after.versions[p], after.stages[k], path);
    }
    if v :| 0 <= v < |after.versions| && VersionHolds(after.versions[v], after.stages[k], path) {
      assert after.versions == FirstVersions(db.paths, ids);
      assert ids[v] == ids[p];
    }
  }

  lemma VersioningKeepsRoutes(db: Db, ids: seq<Id>, path: Id)
    requires StagedSchema(db) && |ids| == |db.paths| && NoDuplicates(ids)
    ensures VersionedRoute(Versioned(db, ids), path) == StagedRoute(db, path)
  {
    var after := Versioned(db, ids);
    forall e | e in StagedRoute(db, path) ensures e in VersionedRoute(after, path) {
      var i, k :| 0 <= i < |db.items| && 0 <= k < |db.stages| && InStage(db.items[i], db.stages[k])
        && db.stages[k].pathId == Some(path)
        && e == Entry(db.stages[k].position, db.items[i].position, db.items[i].courseId, db.items[i].required);
      StageStaysInPath(db, ids, path, k);
      assert InStage(after.items[i], after.stages[k]);
    }
    forall e | e in VersionedRoute(after, path) ensures e in StagedRoute(db, path) {
      var i, k :| 0 <= i < |after.items| && 0 <= k < |after.stages| && InStage(after.items[i], after.stages[k])
        && InVersionOne(after, after.stages[k], path)
        && e == Entry(after.stages[k].position, after.items[i].position, after.items[i].courseId, after.items[i].required);
      StageStaysInPath(db, ids, path, k);
      assert InStage(db.items[i], db.stages[k]);
    }
  }

  /** Entries that differ come one before the other. */
  ghost predicate Ordered(route: set<Entry>) {
    forall a, b :: a in route && b in route && a != b ==> Precedes(a, b) || Precedes(b, a)
  }

  lemma {:induction false} FirstEntry(route: set<Entry>, any: Entry) returns (first: Entry)
    requires any in route && Ordered(route)
    ensures first in route && forall e :: e in route && e != first ==> Precedes(first, e)
    decreases route
  {
    var sooner := set e | e in route && Precedes(e, any);
    if next :| next in sooner {
      assert any !in sooner;
      first := FirstEntry(sooner, next);
    } else {
      first := any;
    }
    forall e | e in route && e != first ensures Precedes(first, e) {
      assert e in sooner || e == any || Precedes(any, e);
    }
  }

  lemma {:induction false} OrderedRouteHasList(route: set<Entry>) returns (list: seq<Entry>)
    requires Ordered(route)
    ensures Lists(list, route)
    decreases route
  {
    if any :| any in route {
      var first := FirstEntry(route, any);
      var rest := OrderedRouteHasList(route - {first});
      list := [first] + rest;
      assert forall i :: 0 <= i < |rest| ==> rest[i] in Elements(rest);
      assert Elements(list) == {first} + Elements(rest);
    } else {
      list := [];
    }
  }

  lemma FlatRouteOrdered(db: Db, path: Id)
    requires FlatSchema(db)
    ensures Ordered(FlatRoute(db, path))
  {
    forall a, b | a in FlatRoute(db, path) && b in FlatRoute(db, path) && a != b
      ensures Precedes(a, b) || Precedes(b, a)
    {
      var i :| 0 <= i < |db.items| && db.items[i].pathId == Some(path)
        && a == Entry(1, db.items[i].position, db.items[i].courseId, db.items[i].required);
      var j :| 0 <= j < |db.items| && db.items[j].pathId == Some(path)
        && b == Entry(1, db.items[j].position, db.items[j].courseId, db.items[j].required);
      assert i < j || j < i;
    }
  }

  /** From the flat table to versions: every path has one reading list, and it stays the same. */
  lemma CourseListsPreserved(db: Db, stageIds: seq<Id>, versionIds: seq<Id>, path: Id) returns (list: seq<Entry>)
    requires FlatSchema(db) && |stageIds| == |versionIds| == |db.paths| && NoDuplicates(stageIds) && NoDuplicates(versionIds)
    ensures forall other :: Lists(other, FlatRoute(db, path)) <==> other == list
    ensures forall other :: Lists(other, VersionedRoute(Versioned(Staged(db, stageIds), versionIds), path)) <==> other == list
  {
    var route := FlatRoute(db, path);
    FlatRouteOrdered(db, path);
    list := OrderedRouteHasList(route);
    forall other | Lists(other, route) ensures other == list {
      ReadingOrderUnique(other, list, route);
    }
    StagingEstablishesSchema(db, stageIds);
    StagingKeepsRoutes(db, stageIds, path);
    VersioningKeepsRoutes(Staged(db, stageIds), versionIds, path);
  }

  // ---------------------------------------------------------------------------
  // Downgrading 0074
  // ---------------------------------------------------------------------------

  /** Each statement of the downgrade goes through: the two that write NULL into version_id while
      it is NOT NULL, and the NOT NULL and primary-key steps on the restored path ids. */
  predicate CanUnversion(db: Db) {
    && CanClearPins(db.snapshots, db.pinsNotNull) && CanClearPins(db.enrollments, db.pinsNotNull)
    && CanRekeyItems(db.items, db.versions)
    && CanReturnStages(db.stages, db.versions)
  }

  predicate CanClearPins(rows: seq<Pin>, notNull: bool) {
    notNull ==> rows == []
  }

  predicate CanRekeyItems(items: seq<Item>, versions: seq<Version>) {
    && (forall i :: 0 <= i < |items| ==> PathOfVersionOne(versions, items[i].versionId).Some?)
    && (forall i, j :: 0 <= i < j < |items| ==>
          !(PathOfVersionOne(versions, items[i].versionId) == PathOfVersionOne(versions, items[j].versionId)
            && items[i].courseId == items[j].courseId))
  }

  predicate CanReturnStages(stages: seq<Stage>, versions: seq<Version>) {
    forall i :: 0 <= i < |stages| ==> PathOfVersionOne(versions, stages[i].versionId).Some?
  }

  ghost predicate OnVersionOne(db: Db, version: Option<Id>) {
    forall k :: 0 <= k < |db.versions| && Some(db.versions[k].id) == version ==> db.versions[k].no == 1
  }

  /** What has to be so before a downgrade: nobody enrolled and no snapshot taken, and every stage
      and item on a version 1. */
  ghost predicate Downgradable(db: Db) {
    && db.enrollments == [] && db.snapshots == []
    && (forall i :: 0 <= i < |db.items| ==> OnVersionOne(db, db.items[i].versionId))
    && (forall i :: 0 <= i < |db.stages| ==> OnVersionOne(db, db.stages[i].versionId))
  }

  /** The downgrade goes through exactly then.  Rows of later versions are not flattened, they make
      it fail, and so does any enrolment or snapshot: their version_id cannot be set to NULL. */
  lemma DowngradeIff(db: Db)
    requires VersionedSchema(db)
    ensures CanUnversion(db) <==> Downgradable(db)
  {
    forall i | 0 <= i < |db.items|
      ensures PathOfVersionOne(db.versions, db.items[i].versionId).Some? <==> OnVersionOne(db, db.items[i].versionId)
    {
      var k := VersionRow(db, db.items[i].versionId);
    }
    forall i | 0 <= i < |db.stages|
      ensures PathOfVersionOne(db.versions, db.stages[i].versionId).Some? <==> OnVersionOne(db, db.stages[i].versionId)
    {
      var k := VersionRow(db, db.stages[i].versionId);
    }
    forall i, j | 0 <= i < j < |db.items| && PathOfVersionOne(db.versions, db.items[i].versionId).Some?
        && PathOfVersionOne(db.versions, db.items[i].versionId) == PathOfVersionOne(db.versions, db.items[j].versionId)
      ensures db.items[i].courseId != db.items[j].courseId
    {
      var k := VersionRow(db, db.items[i].versionId);
      var l := VersionRow(db, db.items[j].versionId);
      assert k == l;
    }
  }

  lemma VersionRow(db: Db, version: Option<Id>) returns (k: nat)
    requires VersionedSchema(db) && IsVersion(db, version)
    ensures k < |db.versions| && Some(db.versions[k].id) == version
    ensures PathOfVersionOne(db.versions, version) == if db.versions[k].no == 1 then Some(db.versions[k].pathId) else None
    ensures OnVersionOne(db, version) <==> db.versions[k].no == 1
  {
    k :| 0 <= k < |db.versions| && Some(db.versions[k].id) == version;
    PathOfVersion(db.versions, k);
    assert forall j :: 0 <= j < |db.versions| && Some(db.versions[j].id) == version ==> j == k;
  }

  /** Right after the upgrade the downgrade goes through exactly when there is no enrolment and no
      snapshot, and then gives back every table as it was. */
  lemma UpgradeThenDowngrade(db: Db, ids: seq<Id>)
    requires StagedSchema(db) && |ids| == |db.paths| && NoDuplicates(ids)
    ensures CanUnversion(Versioned(db, ids)) <==> db.enrollments == [] && db.snapshots == []
    ensures CanUnversion(Versioned(db, ids)) ==> Unversioned(Versioned(db, ids)) == db
  {
    var up := Versioned(db, ids);
    var down := Unversioned(up);
    forall i | 0 <= i < |db.stages| ensures down.stages[i] == db.stages[i] {
      var k := PinOf(db, ids, db.stages[i].pathId);
    }
    forall i | 0 <= i < |db.items| ensures down.items[i] == db.items[i] {
      var k := PinOf(db, ids, db.items[i].pathId);
    }
    assert forall i :: 0 <= i < |db.items| ==> PathOfVersionOne(up.versions, up.items[i].versionId) == db.items[i].pathId by {
      assert forall i :: 0 <= i < |db.items| ==> down.items[i].pathId == db.items[i].pathId;
    }
    assert forall i :: 0 <= i < |db.stages| ==> PathOfVersionOne(up.versions, up.stages[i].versionId) == db.stages[i].pathId by {
      assert forall i :: 0 <= i < |db.stages| ==> down.stages[i].pathId == db.stages[i].pathId;
    }
    assert down.stages == db.stages && down.items == db.items;
    assert down.enrollments == db.enrollments && down.snapshots == db.snapshots;
  }

  /** What the downgrade leaves, row by row: stages and items on the path of the version they were
      on, no versions, and no pins. */
  ghost predicate ReturnedFrom(db: Db, after: Db) {
    && after == Db(db.paths, after.stages, after.items, [], [], [], false)
    && |after.stages| == |db.stages| && |after.items| == |db.items|
    && (forall i :: 0 <= i < |db.stages| ==>
          && after.stages[i] == db.stages[i].(versionId := None, pathId := after.stages[i].pathId)
          && FirstVersionOf(db, after.stages[i].pathId, db.stages[i].versionId))
    && (forall i :: 0 <= i < |db.items| ==>
          && after.items[i] == db.items[i].(versionId := None, pathId := after.items[i].pathId)
          && FirstVersionOf(db, after.items[i].pathId, db.items[i].versionId))
  }

  lemma RowsReturnToTheirPaths(db: Db)
    requires VersionedSchema(db) && Downgradable(db)
    ensures ReturnedFrom(db, Unversioned(db))
  {
    var after := Unversioned(db);
    forall i | 0 <= i < |db.stages| ensures FirstVersionOf(db, after.stages[i].pathId, db.stages[i].versionId) {
      var k := VersionRow(db, db.stages[i].versionId);
      assert db.versions[k].no == 1;
    }
    forall i | 0 <= i < |db.items| ensures FirstVersionOf(db, after.items[i].pathId, db.items[i].versionId) {
      var k := VersionRow(db, db.items[i].versionId);
      assert db.versions[k].no == 1;
    }
  }

  /** Concretely: one path and one student enrolled on it. */
  lemma EnrollmentBlocksDowngrade() returns (db: Db)
    ensures StagedSchema(db) && |db.paths| == |db.enrollments| == 1
    ensures !CanUnversion(Versioned(db, [9]))
  {
    db := Db([Path(1, true)], [], [], [], [Pin(5, 1, None)], [], false);
    assert Some(db.paths[0].id) == Some(1);
    UpgradeThenDowngrade(db, [9]);
  }

  // ---------------------------------------------------------------------------
  // The migrations, statement by statement
  // ---------------------------------------------------------------------------

  class CareerTables {
    var paths: seq<Path>
    var stages: seq<Stage>
    var items: seq<Item>
    var versions: seq<Version>
    var enrollments: seq<Pin>
    var snapshots: seq<Pin>
    var pinsNotNull: bool

    function View(): Db
      reads this
    {
      Db(paths, stages, items, versions, enrollments, snapshots, pinsNotNull)
    }

    /** 0070 upgrade: the INSERT, the UPDATE, then NOT NULL and the two new unique indexes, all of
        which hold. */
    method AddStages(ids: seq<Id>)
      requires FlatSchema(View()) && |ids| == |paths| && NoDuplicates(ids)
      modifies this
      ensures View() == Staged(old(View()), ids)
      ensures StagedSchema(View()) && StagedFrom(old(View()), View())
    {
      StagingEstablishesSchema(View(), ids);
      ItemsStagedInOwnPath(View(), ids);
      stages := stages + SyntheticStages(paths, ids);
      for i := 0 to |items|
        invariant |items| == |old(items)|
        invariant paths == old(paths) && versions == old(versions)
        invariant stages == old(stages) + SyntheticStages(paths, ids)
        invariant enrollments == old(enrollments) && snapshots == old(snapshots) && pinsNotNull == old(pinsNotNull)
        invariant forall k :: 0 <= k < i ==> items[k] == old(items)[k].(stageId := FirstStage(stages, old(items)[k].pathId))
        invariant forall k :: i <= k < |items| ==> items[k] == old(items)[k]
      {
        items := items[i := items[i].(stageId := FirstStage(stages, items[i].pathId))];
      }
      assert items == Staged(old(View()), ids).items;
    }

    /** 0074 upgrade. */
    method AddVersions(ids: seq<Id>)
      requires StagedSchema(View()) && |ids| == |paths| && NoDuplicates(ids)
      modifies this
      ensures View() == Versioned(old(View()), ids)
      ensures VersionedSchema(View()) && PinnedFrom(old(View()), View())
    {
      VersioningEstablishesSchema(View(), ids);
      EverythingPinnedToOwnPath(View(), ids);
      versions := versions + FirstVersions(paths, ids);
      stages := PinStages(stages, versions);
      items := PinItems(items, versions);
      enrollments := PinRows(enrollments, versions);
      snapshots := PinRows(snapshots, versions);
      pinsNotNull := true;
    }

    /** UPDATE ... SET version_id = NULL over one of the pinned tables: the first row written raises
        while the column is NOT NULL. */
    static method ClearPins(rows: seq<Pin>, notNull: bool) returns (ok: bool, cleared: seq<Pin>)
      ensures ok <==> CanClearPins(rows, notNull)
      ensures ok ==> cleared == UnpinRows(rows)
    {
      cleared := rows;
      for i := 0 to |rows|
        invariant |cleared| == |rows| && (i > 0 ==> !notNull)
        invariant forall k :: 0 <= k < i ==> cleared[k] == rows[k].(versionId := None)
        invariant forall k :: i <= k < |rows| ==> cleared[k] == rows[k]
      {
        if notNull {
          return false, rows;
        }
        cleared := cleared[i := cleared[i].(versionId := None)];
      }
      ok := true;
    }

    /** career_course_items: the path ids come back, must all be there and make a key with the
        course again; then version_id goes. */
    method ReturnItems() returns (ok: bool)
      modifies this`items
      ensures ok <==> CanRekeyItems(old(items), versions)
      ensures ok ==> items == UnpinItems(old(items), versions)
    {
      for i := 0 to |items|
        invariant |items| == |old(items)|
        invariant forall k :: 0 <= k < i ==>
          items[k] == old(items)[k].(pathId := PathOfVersionOne(versions, old(items)[k].versionId))
        invariant forall k :: i <= k < |items| ==> items[k] == old(items)[k]
      {
        items := items[i := items[i].(pathId := PathOfVersionOne(versions, items[i].versionId))];
      }
      if exists i :: 0 <= i < |items| && items[i].pathId.None? {
        return false;
      }
      if exists i, j :: 0 <= i < j < |items| && items[i].pathId == items[j].pathId && items[i].courseId == items[j].courseId {
        return false;
      }
      items := seq(|items|, i requires 0 <= i < |items| reads this => items[i].(versionId := None));
      ok := true;
    }

    /** career_path_stages: likewise, without a key. */
    method ReturnStages() returns (ok: bool)
      modifies this`stages
      ensures ok <==> CanReturnStages(old(stages), versions)
      ensures ok ==> stages == UnpinStages(old(stages), versions)
    {
      for i := 0 to |stages|
        invariant |stages| == |old(stages)|
        invariant forall k :: 0 <= k < i ==>
          stages[k] == old(stages)[k].(pathId := PathOfVersionOne(versions, old(stages)[k].versionId))
        invariant forall k :: i <= k < |stages| ==> stages[k] == old(stages)[k]
      {
        stages := stages[i := stages[i].(pathId := PathOfVersionOne(versions, stages[i].versionId))];
      }
      if exists i :: 0 <= i < |stages| && stages[i].pathId.None? {
        return false;
      }
      stages := seq(|stages|, i requires 0 <= i < |stages| reads this => stages[i].(versionId := None));
      ok := true;
    }

    method Rollback(db: Db)
      modifies this
      ensures View() == db
    {
      paths, stages, items, versions := db.paths, db.stages, db.items, db.versions;
      enrollments, snapshots, pinsNotNull := db.enrollments, db.snapshots, db.pinsNotNull;
    }

    /** 0074 downgrade, statement by statement in one transaction: whichever raises undoes all. */
    method DropVersions() returns (ok: bool)
      modifies this
      ensures ok <==> CanUnversion(old(View()))
      ensures VersionedSchema(old(View())) ==> (ok <==> Downgradable(old(View())))
      ensures VersionedSchema(old(View())) && ok ==> ReturnedFrom(old(View()), View())
      ensures View() == if ok then Unversioned(old(View())) else old(View())
    {
      var before := View();
      if VersionedSchema(before) {
        DowngradeIff(before);
        if Downgradable(before) {
          RowsReturnToTheirPaths(before);
        }
      }
      ok, snapshots := ClearPins(snapshots, pinsNotNull);
      if ok {
        ok, enrollments := ClearPins(enrollments, pinsNotNull);
        pinsNotNull := false;
      }
      if ok {
        ok := ReturnItems();
      }
      if ok {
        ok := ReturnStages();
      }
      if ok {
        versions := [];
      } else {
        Rollback(before);
      }
    }
  }
}

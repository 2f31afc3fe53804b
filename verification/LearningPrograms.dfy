/** Migration 0083: legacy faculties, and one program per career path. */
module LearningPrograms {
  import opened Prelude

  /** A UUID. */
  datatype Id = Id(n: nat)

  datatype Unit = Unit(
    orgId: Id, parent: Option<Id>, isFaculty: bool, deleted: bool, createdAt: int, code: Option<string>)

  type Units = map<Id, Unit>

  datatype Path = Path(orgId: Id, unit: Option<Id>, slug: string, deleted: bool)

  datatype Program = Program(orgId: Id, facultyId: Id, slug: string)

  /** organizations (with their deleted mark), org_units and career_paths. */
  datatype Source = Source(orgDeleted: map<Id, bool>, units: Units, paths: map<Id, Path>)

  predicate Live(units: Units, u: Id) {
    u in units && !units[u].deleted
  }

  predicate LiveFaculty(units: Units, u: Id) {
    Live(units, u) && units[u].isFaculty
  }

  predicate FacultyOf(units: Units, u: Id, org: Id) {
    LiveFaculty(units, u) && units[u].orgId == org
  }

  // ---------------------------------------------------------------------------
  // Ancestors
  // ---------------------------------------------------------------------------

  /** The d-th ancestor of a unit through live units; the unit itself at d = 0.  This is the
      reference the recursive query is measured against. */
  function Ancestor(units: Units, u: Option<Id>, d: nat): Option<Id>
    decreases d
  {
    if u.None? || !Live(units, u.value) then None
    else if d == 0 then u
    else Ancestor(units, units[u.value].parent, d - 1)
  }

  /** Parent links lead strictly downwards in `rank`: they have no cycle. */
  ghost predicate Acyclic(units: Units, rank: map<Id, nat>) {
    forall u :: u in units ==> u in rank && (units[u].parent.Some? ==> RankOf(rank, units[u].parent) <= rank[u])
  }

  /** A measure for the walk: above the rank of the unit it stands at. */
  ghost function RankOf(rank: map<Id, nat>, u: Option<Id>): nat {
    if u.Some? && u.value in rank then rank[u.value] + 1 else 0
  }

  /** The rows the recursive query produces for one path, by depth. */
  ghost function UnitAncestors(units: Units, rank: map<Id, nat>, u: Option<Id>): seq<Id>
    requires Acyclic(units, rank)
    decreases RankOf(rank, u)
  {
    if u.None? || !Live(units, u.value) then []
    else [u.value] + UnitAncestors(units, rank, units[u.value].parent)
  }

  /** The query's rows are exactly the ancestors, in order, and it stops. */
  lemma {:induction false} AncestorRows(units: Units, rank: map<Id, nat>, u: Option<Id>, d: nat)
    requires Acyclic(units, rank)
    ensures Ancestor(units, u, d) ==
              var rows := UnitAncestors(units, rank, u);
              if d < |rows| then Some(rows[d]) else None
    decreases d
  {
    if u.Some? && Live(units, u.value) && d > 0 {
      AncestorRows(units, rank, units[u.value].parent, d - 1);
    }
  }

  /** `f` is the faculty closest to `u`: some live ancestor-or-self, no nearer one being a faculty. */
  ghost predicate Nearest(units: Units, u: Option<Id>, f: Id) {
    exists d :: NearestAt(units, u, f, d)
  }

  ghost predicate NearestAt(units: Units, u: Option<Id>, f: Id, d: nat) {
    Ancestor(units, u, d) == Some(f) && LiveFaculty(units, f)
    && forall e: nat :: e < d ==> !FacultyAt(units, u, e)
  }

  ghost predicate FacultyAt(units: Units, u: Option<Id>, d: nat) {
    Ancestor(units, u, d).Some? && LiveFaculty(units, Ancestor(units, u, d).value)
  }

  /** `chain` climbs from `u` along parent links to the faculty `f`, through units that are not
      deleted and, before `f`, no faculties. */
  ghost predicate Climbs(units: Units, u: Option<Id>, chain: seq<Id>, f: Id) {
    && chain != [] && u == Some(chain[0]) && chain[|chain| - 1] == f
    && (forall i :: 0 <= i < |chain| ==> chain[i] in units && !units[chain[i]].deleted)
    && (forall i :: 0 <= i < |chain| - 1 ==> !units[chain[i]].isFaculty && units[chain[i]].parent == Some(chain[i + 1]))
    && units[f].isFaculty
  }

  lemma {:induction false} AncestorStep(units: Units, u: Option<Id>, d: nat)
    ensures Ancestor(units, u, d).Some? ==> Live(units, Ancestor(units, u, d).value)
    ensures Ancestor(units, u, d + 1) ==
              if Ancestor(units, u, d).None? then None
              else
                var parent := units[Ancestor(units, u, d).value].parent;
                if parent.Some? && Live(units, parent.value) then parent else None
    decreases d
  {
    if u.Some? && Live(units, u.value) && d > 0 {
      AncestorStep(units, units[u.value].parent, d - 1);
    }
  }

  lemma {:induction false} AncestorsBelow(units: Units, u: Option<Id>, e: nat, d: nat)
    requires e <= d && Ancestor(units, u, d).Some?
    ensures Ancestor(units, u, e).Some?
    decreases d
  {
    if e < d {
      AncestorStep(units, u, d - 1);
      AncestorsBelow(units, u, e, d - 1);
    }
  }

  lemma {:induction false} ChainIsAncestors(units: Units, u: Option<Id>, chain: seq<Id>, f: Id, i: nat)
    requires Climbs(units, u, chain, f) && i < |chain|
    ensures Ancestor(units, u, i) == Some(chain[i])
    decreases i
  {
    if i > 0 {
      ChainIsAncestors(units, u, chain, f, i - 1);
      AncestorStep(units, u, i - 1);
    }
  }

  /** The nearest faculty is the one a climb ends at. */
  lemma NearestIffClimbed(units: Units, u: Option<Id>, f: Id)
    ensures Nearest(units, u, f) <==> exists chain :: Climbs(units, u, chain, f)
  {
    if d: nat :| NearestAt(units, u, f, d) {
      forall e: nat | e <= d ensures Ancestor(units, u, e).Some? && Live(units, Ancestor(units, u, e).value) {
        AncestorsBelow(units, u, e, d);
        AncestorStep(units, u, e);
      }
      var chain := seq(d + 1, e requires 0 <= e <= d => Ancestor(units, u, e).value);
      forall i: nat | i < d ensures !units[chain[i]].isFaculty && units[chain[i]].parent == Some(chain[i + 1]) {
        assert !FacultyAt(units, u, i);
        AncestorStep(units, u, i);
      }
      assert Climbs(units, u, chain, f);
    }
    if chain :| Climbs(units, u, chain, f) {
      var d: nat := |chain| - 1;
      ChainIsAncestors(units, u, chain, f, d);
      forall e: nat | e < d ensures !FacultyAt(units, u, e) {
        ChainIsAncestors(units, u, chain, f, e);
      }
      assert NearestAt(units, u, f, d);
    }
  }

  /** SELECT DISTINCT ON (path_id) ... WHERE unit_type = 'faculty' ORDER BY path_id, depth. */
  function LeastDeepFaculty(units: Units, rows: seq<Id>): Option<Id> {
    if rows == [] then None
    else if LiveFaculty(units, rows[0]) then Some(rows[0])
    else LeastDeepFaculty(units, rows[1..])
  }

  lemma {:induction false} LeastDeepFacultyAt(units: Units, rows: seq<Id>) returns (d: nat)
    ensures match LeastDeepFaculty(units, rows)
            case None => forall e :: 0 <= e < |rows| ==> !LiveFaculty(units, rows[e])
            case Some(f) => d < |rows| && rows[d] == f && LiveFaculty(units, f)
                            && forall e :: 0 <= e < d ==> !LiveFaculty(units, rows[e])
  {
    d := 0;
    if rows != [] && !LiveFaculty(units, rows[0]) {
      var e := LeastDeepFacultyAt(units, rows[1..]);
      d := e + 1;
      assert forall i :: 1 <= i < |rows| ==> rows[i] == rows[1..][i - 1];
    }
  }

  /** The recursive query finds the nearest faculty, or there is none. */
  lemma QueryFindsNearest(units: Units, rank: map<Id, nat>, u: Option<Id>)
    requires Acyclic(units, rank)
    ensures match LeastDeepFaculty(units, UnitAncestors(units, rank, u))
            case Some(f) => Nearest(units, u, f)
            case None => forall d: nat :: !FacultyAt(units, u, d)
  {
    var rows := UnitAncestors(units, rank, u);
    var depth := LeastDeepFacultyAt(units, rows);
    forall d: nat ensures FacultyAt(units, u, d) <==> d < |rows| && LiveFaculty(units, rows[d]) {
      AncestorRows(units, rank, u, d);
    }
    if LeastDeepFaculty(units, rows).Some? {
      AncestorRows(units, rank, u, depth);
      assert NearestAt(units, u, rows[depth], depth);
    }
  }

  /** The recursive walk for one path, iterated upwards through live parents. */
  method WalkToFaculty(units: Units, ghost rank: map<Id, nat>, start: Option<Id>) returns (faculty: Option<Id>)
    requires Acyclic(units, rank)
    ensures faculty == LeastDeepFaculty(units, UnitAncestors(units, rank, start))
  {
    var u := start;
    while u.Some? && Live(units, u.value) && !units[u.value].isFaculty
      invariant LeastDeepFaculty(units, UnitAncestors(units, rank, start)) == LeastDeepFaculty(units, UnitAncestors(units, rank, u))
      decreases RankOf(rank, u)
    {
      assert UnitAncestors(units, rank, u)[1..] == UnitAncestors(units, rank, units[u.value].parent);
      u := units[u.value].parent;
    }
    if u.Some? && Live(units, u.value) {
      return u;
    }
    return None;
  }

  // ---------------------------------------------------------------------------
  // The legacy faculty
  // ---------------------------------------------------------------------------

  predicate HasLivePath(s: Source, org: Id) {
    exists p :: p in s.paths && !s.paths[p].deleted && s.paths[p].orgId == org
  }

  predicate HasFaculty(units: Units, org: Id) {
    exists u :: u in units && FacultyOf(units, u, org)
  }

  predicate NeedsLegacyFaculty(s: Source, org: Id) {
    org in s.orgDeleted && !s.orgDeleted[org] && HasLivePath(s, org) && !HasFaculty(s.units, org)
  }

  const LEGACY_CODE := "legacy-learning-programs"

  /** A live unit of the organization already has the code: unit codes are unique among live units
      of an organization. */
  predicate LegacyCodeTaken(units: Units, org: Id) {
    exists u :: u in units && Live(units, u) && units[u].orgId == org && units[u].code == Some(LEGACY_CODE)
  }

  /** The first INSERT violates no unique index. */
  predicate LegacyCodesFree(s: Source) {
    forall org :: org in s.orgDeleted && NeedsLegacyFaculty(s, org) ==> !LegacyCodeTaken(s.units, org)
  }

  /** `newIds` assigns each organization the generated id of its legacy faculty. */
  ghost predicate FreshIds(s: Source, newIds: map<Id, Id>) {
    && newIds.Keys == s.orgDeleted.Keys
    && (forall org :: org in newIds ==> newIds[org] !in s.units)
    && (forall a, b :: a in newIds && b in newIds && newIds[a] == newIds[b] ==> a == b)
  }

  /** No unit's parent link points at an id that is only about to be generated. */
  ghost predicate ParentsExist(units: Units) {
    forall u :: u in units && units[u].parent.Some? ==> units[u].parent.value in units
  }

  function LegacyFaculty(org: Id, now: int): Unit {
    Unit(org, None, true, false, now, Some(LEGACY_CODE))
  }

  function LegacyUnits(s: Source, newIds: map<Id, Id>, now: int): Units
    requires FreshIds(s, newIds)
  {
    map org | org in newIds && NeedsLegacyFaculty(s, org) :: newIds[org] := LegacyFaculty(org, now)
  }

  /** The first INSERT. */
  function WithLegacy(s: Source, newIds: map<Id, Id>, now: int): Units
    requires FreshIds(s, newIds)
  {
    s.units + LegacyUnits(s, newIds, now)
  }

  // ---------------------------------------------------------------------------
  // Which faculty a program gets
  // ---------------------------------------------------------------------------

  /** The fallback: a live faculty of the organization, none of them older. */
  ghost predicate EarliestFaculty(units: Units, f: Id, org: Id) {
    FacultyOf(units, f, org)
    && forall other :: FacultyOf(units, other, org) ==> units[f].createdAt <= units[other].createdAt
  }

  /** What the COALESCE may yield for a path: the nearest faculty, else an earliest one, else NULL.
      Ties in created_at leave the choice to the database. */
  ghost predicate Chosen(units: Units, path: Path, f: Option<Id>) {
    if exists d: nat :: FacultyAt(units, path.unit, d) then f.Some? && Nearest(units, path.unit, f.value)
    else if HasFaculty(units, path.orgId) then f.Some? && EarliestFaculty(units, f.value, path.orgId)
    else f.None?
  }

  /** Said of the units themselves: the faculty a climb from the path's unit ends at; if there is no
      climb, a live faculty of the path's organization with none created earlier. */
  lemma ChosenMeans(units: Units, path: Path, f: Id)
    requires Chosen(units, path, Some(f))
    ensures (exists chain :: Climbs(units, path.unit, chain, f))
            || ((forall chain, other :: !Climbs(units, path.unit, chain, other))
                && f in units && units[f].isFaculty && !units[f].deleted && units[f].orgId == path.orgId
                && forall other ::
                     other in units && units[other].isFaculty && !units[other].deleted && units[other].orgId == path.orgId ==>
                       units[f].createdAt <= units[other].createdAt)
  {
    if exists d: nat :: FacultyAt(units, path.unit, d) {
      NearestIffClimbed(units, path.unit, f);
    } else {
      forall chain, other ensures !Climbs(units, path.unit, chain, other) {
        if Climbs(units, path.unit, chain, other) {
          NearestIffClimbed(units, path.unit, other);
          NearestIsThere(units, path.unit, other);
        }
      }
      forall other | other in units && units[other].isFaculty && !units[other].deleted && units[other].orgId == path.orgId
        ensures units[f].createdAt <= units[other].createdAt
      {
        assert FacultyOf(units, other, path.orgId);
      }
    }
  }

  /** And the COALESCE is NULL only where neither exists. */
  lemma HomelessMeans(units: Units, path: Path)
    ensures Homeless(units, path) <==>
              (forall chain, f :: !Climbs(units, path.unit, chain, f))
              && !exists u :: u in units && units[u].isFaculty && !units[u].deleted && units[u].orgId == path.orgId
  {
    if u :| u in units && units[u].isFaculty && !units[u].deleted && units[u].orgId == path.orgId {
      assert FacultyOf(units, u, path.orgId);
    }
    if d: nat :| FacultyAt(units, path.unit, d) {
      var f := FirstFaculty(units, path.unit, d);
      NearestIffClimbed(units, path.unit, f);
    }
    if chain, f :| Climbs(units, path.unit, chain, f) {
      NearestIffClimbed(units, path.unit, f);
      NearestIsThere(units, path.unit, f);
    }
  }

  lemma {:induction false} FirstFaculty(units: Units, u: Option<Id>, d: nat) returns (f: Id)
    requires FacultyAt(units, u, d)
    ensures Nearest(units, u, f)
    decreases d
  {
    if e: nat :| e < d && FacultyAt(units, u, e) {
      f := FirstFaculty(units, u, e);
    } else {
      f := Ancestor(units, u, d).value;
      assert NearestAt(units, u, f, d);
    }
  }

  /** The sub-select ORDER BY created_at LIMIT 1. */
  method PickEarliest(units: Units, org: Id) returns (faculty: Option<Id>)
    ensures faculty.Some? <==> HasFaculty(units, org)
    ensures faculty.Some? ==> EarliestFaculty(units, faculty.value, org)
  {
    faculty := None;
    var rest := units.Keys;
    while rest != {}
      invariant rest <= units.Keys
      invariant faculty.None? ==> forall u :: u in units && u !in rest ==> !FacultyOf(units, u, org)
      invariant faculty.Some? ==> FacultyOf(units, faculty.value, org)
      invariant faculty.Some? ==>
        forall u :: u in units && u !in rest && FacultyOf(units, u, org) ==> units[faculty.value].createdAt <= units[u].createdAt
      decreases rest
    {
      var u :| u in rest;
      rest := rest - {u};
      if FacultyOf(units, u, org) && (faculty.None? || units[u].createdAt < units[faculty.value].createdAt) {
        faculty := Some(u);
      }
    }
  }

  /** A path finds no faculty at all. */
  ghost predicate Homeless(units: Units, path: Path) {
    (forall d: nat :: !FacultyAt(units, path.unit, d)) && !HasFaculty(units, path.orgId)
  }

  const PROGRAM_SLUG_PREFIX := "legacy-"
  const SLUG_WIDTH := 100

  /** PostgreSQL's assignment to VARCHAR(width): a longer text raises, unless only spaces are cut. */
  function AsVarchar(text: string, width: nat): Option<string> {
    if |text| <= width then Some(text)
    else if forall i :: width <= i < |text| ==> text[i] == ' ' then Some(text[..width])
    else None
  }

  function ProgramSlug(path: Path): Option<string> {
    AsVarchar(PROGRAM_SLUG_PREFIX + path.slug, SLUG_WIDTH)
  }

  predicate SameProgramSlug(a: Path, b: Path) {
    a.orgId == b.orgId && ProgramSlug(a) == ProgramSlug(b)
  }

  predicate LivePath(paths: map<Id, Path>, p: Id) {
    p in paths && !paths[p].deleted
  }

  /** Every live path's program slug can be stored, and none twice in one organization. */
  ghost predicate SlugsInsertable(paths: map<Id, Path>) {
    && (forall p :: LivePath(paths, p) ==> ProgramSlug(paths[p]).Some?)
    && (forall p, q :: LivePath(paths, p) && LivePath(paths, q) && p != q ==> !SameProgramSlug(paths[p], paths[q]))
  }

  /** The unique index on career_paths: live slugs differ within an organization. */
  ghost predicate UniquePathSlugs(paths: map<Id, Path>) {
    forall p, q :: LivePath(paths, p) && LivePath(paths, q) && p != q && paths[p].orgId == paths[q].orgId ==>
      paths[p].slug != paths[q].slug
  }

  /** For slugs that do not end in a space this is a matter of length: seven characters of the
      hundred go to the prefix. */
  lemma SlugsInsertableIff(paths: map<Id, Path>)
    requires UniquePathSlugs(paths)
    requires forall p :: LivePath(paths, p) && paths[p].slug != "" ==> paths[p].slug[|paths[p].slug| - 1] != ' '
    ensures SlugsInsertable(paths) <==> forall p :: LivePath(paths, p) ==> |paths[p].slug| <= 93
    ensures forall p :: LivePath(paths, p) && |paths[p].slug| <= 93 ==> ProgramSlug(paths[p]) == Some("legacy-" + paths[p].slug)
  {
    forall p | LivePath(paths, p)
      ensures ProgramSlug(paths[p]) == if |paths[p].slug| <= 93 then Some(PROGRAM_SLUG_PREFIX + paths[p].slug) else None
    {
      var text := PROGRAM_SLUG_PREFIX + paths[p].slug;
      assert |text| == 7 + |paths[p].slug|;
      if |text| > SLUG_WIDTH {
        assert text[|text| - 1] == paths[p].slug[|paths[p].slug| - 1];
      }
    }
    forall p, q | LivePath(paths, p) && LivePath(paths, q) && p != q && |paths[p].slug| <= 93 && |paths[q].slug| <= 93
      ensures !SameProgramSlug(paths[p], paths[q])
    {
      assert (PROGRAM_SLUG_PREFIX + paths[p].slug)[7..] == paths[p].slug;
      assert (PROGRAM_SLUG_PREFIX + paths[q].slug)[7..] == paths[q].slug;
    }
  }

  /** What the INSERT stores for one path. */
  ghost predicate ProgramFor(units: Units, path: Path, program: Program) {
    program.orgId == path.orgId && Chosen(units, path, Some(program.facultyId)) && ProgramSlug(path) == Some(program.slug)
  }

  /** The COALESCE for one path: NULL only if there is no faculty at all. */
  method ChooseFaculty(units: Units, ghost rank: map<Id, nat>, path: Path) returns (faculty: Option<Id>)
    requires Acyclic(units, rank)
    ensures Chosen(units, path, faculty)
    ensures faculty.None? <==> Homeless(units, path)
  {
    faculty := WalkToFaculty(units, rank, path.unit);
    QueryFindsNearest(units, rank, path.unit);
    if faculty.Some? {
      NearestIsThere(units, path.unit, faculty.value);
    } else {
      faculty := PickEarliest(units, path.orgId);
    }
  }

  /** Programs inserted so far, for the live paths outside `rest`. */
  ghost predicate InsertedSoFar(units: Units, paths: map<Id, Path>, rest: set<Id>, programs: map<Id, Program>) {
    && (forall p :: p in programs <==> LivePath(paths, p) && p !in rest)
    && (forall p :: p in programs ==> !Homeless(units, paths[p]) && ProgramFor(units, paths[p], programs[p]))
    && (forall p, q :: p in programs && q in programs && p != q ==> !SameProgramSlug(paths[p], paths[q]))
  }

  /** One row: it must have a faculty, a slug that fits, and that slug must be free. */
  method InsertProgram(units: Units, ghost rank: map<Id, nat>, paths: map<Id, Path>, ghost rest: set<Id>, p: Id, programs: map<Id, Program>)
      returns (ok: bool, more: map<Id, Program>)
    requires Acyclic(units, rank) && InsertedSoFar(units, paths, rest, programs) && LivePath(paths, p) && p in rest
    ensures ok ==> InsertedSoFar(units, paths, rest - {p}, more)
    ensures !ok ==> Homeless(units, paths[p]) || !SlugsInsertable(paths)
  {
    var path := paths[p];
    var faculty := ChooseFaculty(units, rank, path);
    var slug := ProgramSlug(path);
    if faculty.None? || slug.None? {
      return false, programs;
    }
    if q :| q in programs && programs[q].orgId == path.orgId && programs[q].slug == slug.value {
      assert LivePath(paths, q) && q != p && SameProgramSlug(path, paths[q]);
      return false, programs;
    }
    return true, programs[p := Program(path.orgId, faculty.value, slug.value)];
  }

  /** The INSERT into learning_programs, row by row.  It goes through exactly when no live path is
      without any faculty and every program slug fits its column and its index. */
  method InsertPrograms(paths: map<Id, Path>, units: Units, ghost rank: map<Id, nat>)
      returns (ok: bool, programs: map<Id, Program>)
    requires Acyclic(units, rank)
    ensures ok <==> SlugsInsertable(paths) && forall p :: LivePath(paths, p) ==> !Homeless(units, paths[p])
    ensures ok ==> forall p :: p in programs <==> LivePath(paths, p)
    ensures ok ==> forall p :: p in programs ==> ProgramFor(units, paths[p], programs[p])
    ensures ok ==> forall p, q :: p in programs && q in programs && p != q ==>
                     programs[p].orgId != programs[q].orgId || programs[p].slug != programs[q].slug
  {
    ok, programs := true, map[];
    var rest := set p | p in paths && LivePath(paths, p);
    while rest != {}
      invariant forall p :: p in rest ==> LivePath(paths, p)
      invariant ok && InsertedSoFar(units, paths, rest, programs)
      decreases rest
    {
      var p :| p in rest;
      ok, programs := InsertProgram(units, rank, paths, rest, p, programs);
      if !ok {
        return;
      }
      rest := rest - {p};
    }
    assert forall p :: LivePath(paths, p) ==> p in programs;
  }

  lemma NearestIsThere(units: Units, u: Option<Id>, f: Id)
    requires Nearest(units, u, f)
    ensures exists d: nat :: FacultyAt(units, u, d)
  {
    var d :| NearestAt(units, u, f, d);
    assert FacultyAt(units, u, d);
  }

  // ---------------------------------------------------------------------------
  // The backfill is total
  // ---------------------------------------------------------------------------

  /** Every live organization with a live path has a faculty once the legacy ones are in. */
  lemma {:induction false} LegacyFacultyCovers(s: Source, newIds: map<Id, Id>, now: int, org: Id)
    requires FreshIds(s, newIds) && org in s.orgDeleted && !s.orgDeleted[org] && HasLivePath(s, org)
    ensures HasFaculty(WithLegacy(s, newIds, now), org)
  {
    var units := WithLegacy(s, newIds, now);
    if NeedsLegacyFaculty(s, org) {
      LegacyUnit(s, newIds, now, org);
      assert FacultyOf(units, newIds[org], org);
    } else {
      var u :| u in s.units && FacultyOf(s.units, u, org);
      LegacyIsNew(s, newIds, now, u);
      assert FacultyOf(units, u, org);
    }
  }

  lemma LegacyUnit(s: Source, newIds: map<Id, Id>, now: int, org: Id)
    requires FreshIds(s, newIds) && NeedsLegacyFaculty(s, org)
    ensures newIds[org] in WithLegacy(s, newIds, now)
    ensures WithLegacy(s, newIds, now)[newIds[org]] == LegacyFaculty(org, now)
  {
    assert newIds[org] in LegacyUnits(s, newIds, now);
  }

  /** The INSERT leaves every existing unit alone. */
  lemma LegacyIsNew(s: Source, newIds: map<Id, Id>, now: int, u: Id)
    requires FreshIds(s, newIds) && u in s.units
    ensures u in WithLegacy(s, newIds, now) && WithLegacy(s, newIds, now)[u] == s.units[u]
  {
    assert u !in LegacyUnits(s, newIds, now);
  }

  /** The first INSERT, row by row: one new unit for each live organization that has a live path and
      no live faculty, and it is a live faculty without a parent. */
  lemma LegacyRows(s: Source, newIds: map<Id, Id>, now: int, org: Id)
    requires FreshIds(s, newIds) && org in s.orgDeleted
    ensures newIds[org] in WithLegacy(s, newIds, now) <==>
              && !s.orgDeleted[org]
              && (exists p :: p in s.paths && !s.paths[p].deleted && s.paths[p].orgId == org)
              && !exists u :: u in s.units && s.units[u].isFaculty && !s.units[u].deleted && s.units[u].orgId == org
    ensures newIds[org] in WithLegacy(s, newIds, now) ==>
              WithLegacy(s, newIds, now)[newIds[org]] == Unit(org, None, true, false, now, Some("legacy-learning-programs"))
    ensures forall u :: u in WithLegacy(s, newIds, now) && u !in s.units ==> u in newIds.Values
  {
    assert (exists u :: u in s.units && FacultyOf(s.units, u, org)) <==>
           (exists u :: u in s.units && s.units[u].isFaculty && !s.units[u].deleted && s.units[u].orgId == org) by {
      assert forall u :: u in s.units ==>
          (FacultyOf(s.units, u, org) <==> s.units[u].isFaculty && !s.units[u].deleted && s.units[u].orgId == org);
    }
    if NeedsLegacyFaculty(s, org) {
      LegacyUnit(s, newIds, now, org);
    } else {
      assert newIds[org] !in LegacyUnits(s, newIds, now);
    }
  }

  /** Ancestors are what they were before the INSERT: new faculties have no descendants. */
  lemma {:induction false} AncestorsUnchanged(s: Source, newIds: map<Id, Id>, now: int, u: Option<Id>, d: nat)
    requires FreshIds(s, newIds) && ParentsExist(s.units) && (u.Some? ==> u.value in s.units)
    ensures Ancestor(WithLegacy(s, newIds, now), u, d) == Ancestor(s.units, u, d)
    ensures Ancestor(s.units, u, d).Some? ==> Ancestor(s.units, u, d).value in s.units
    decreases d
  {
    if u.Some? {
      LegacyIsNew(s, newIds, now, u.value);
      if d > 0 && Live(s.units, u.value) {
        AncestorsUnchanged(s, newIds, now, s.units[u.value].parent, d - 1);
      }
    }
  }

  lemma LegacyKeepsAcyclic(s: Source, newIds: map<Id, Id>, now: int, rank: map<Id, nat>) returns (wider: map<Id, nat>)
    requires FreshIds(s, newIds) && ParentsExist(s.units) && Acyclic(s.units, rank)
    ensures Acyclic(WithLegacy(s, newIds, now), wider)
  {
    var units := WithLegacy(s, newIds, now);
    wider := map u | u in units :: if u in s.units then rank[u] else 0;
    forall u | u in units && units[u].parent.Some? ensures RankOf(wider, units[u].parent) <= wider[u] {
      if u in s.units {
        LegacyIsNew(s, newIds, now, u);
        LegacyIsNew(s, newIds, now, s.units[u].parent.value);
      }
    }
  }

  ghost predicate WellFormedSource(s: Source) {
    && ParentsExist(s.units)
    && (forall p :: p in s.paths ==> s.paths[p].orgId in s.orgDeleted)
    && (forall p :: p in s.paths && s.paths[p].unit.Some? ==> s.paths[p].unit.value in s.units)
    && (forall p :: p in s.paths ==> |s.paths[p].slug| <= SLUG_WIDTH)
    && UniquePathSlugs(s.paths)
  }

  /** A path that still finds no faculty: its organization is deleted, has none, and no ancestor
      unit is one. */
  ghost predicate Stranded(s: Source, path: Path) {
    path.orgId in s.orgDeleted && s.orgDeleted[path.orgId] && Homeless(s.units, path)
  }

  lemma HomelessIff(s: Source, newIds: map<Id, Id>, now: int, p: Id)
    requires WellFormedSource(s) && FreshIds(s, newIds) && p in s.paths && !s.paths[p].deleted
    ensures Homeless(WithLegacy(s, newIds, now), s.paths[p]) <==> Stranded(s, s.paths[p])
    ensures forall d: nat :: FacultyAt(WithLegacy(s, newIds, now), s.paths[p].unit, d) <==> FacultyAt(s.units, s.paths[p].unit, d)
  {
    var units, path := WithLegacy(s, newIds, now), s.paths[p];
    forall d: nat ensures FacultyAt(units, path.unit, d) <==> FacultyAt(s.units, path.unit, d) {
      AncestorsUnchanged(s, newIds, now, path.unit, d);
      if Ancestor(s.units, path.unit, d).Some? {
        LegacyIsNew(s, newIds, now, Ancestor(s.units, path.unit, d).value);
      }
    }
    if !s.orgDeleted[path.orgId] {
      LegacyFacultyCovers(s, newIds, now, path.orgId);
    } else {
      DeletedOrgGetsNone(s, newIds, now, path.orgId);
    }
  }

  lemma DeletedOrgGetsNone(s: Source, newIds: map<Id, Id>, now: int, org: Id)
    requires FreshIds(s, newIds) && org in s.orgDeleted && s.orgDeleted[org]
    ensures HasFaculty(WithLegacy(s, newIds, now), org) <==> HasFaculty(s.units, org)
  {
    var units := WithLegacy(s, newIds, now);
    if u :| u in units && FacultyOf(units, u, org) {
      assert u !in LegacyUnits(s, newIds, now);
      assert FacultyOf(s.units, u, org);
    }
    if u :| u in s.units && FacultyOf(s.units, u, org) {
      LegacyIsNew(s, newIds, now, u);
      assert FacultyOf(units, u, org);
    }
  }

  /** The first two INSERTs.  They go through exactly when the legacy code is free where a legacy
      faculty is made, no live path is stranded in a deleted organization, and every program slug
      fits; then every live path has a program with the faculty it should have. */
  method BackfillPrograms(s: Source, newIds: map<Id, Id>, now: int, ghost rank: map<Id, nat>)
      returns (ok: bool, units: Units, programs: map<Id, Program>)
    requires WellFormedSource(s) && FreshIds(s, newIds) && Acyclic(s.units, rank)
    ensures ok <==> LegacyCodesFree(s) && SlugsInsertable(s.paths)
                    && forall p :: LivePath(s.paths, p) ==> !Stranded(s, s.paths[p])
    ensures units == if ok then WithLegacy(s, newIds, now) else s.units
    ensures ok ==> forall p :: p in programs <==> LivePath(s.paths, p)
    ensures ok ==> forall p :: p in programs ==> ProgramFor(units, s.paths[p], programs[p])
    ensures ok ==> forall p :: p in programs && (exists d: nat :: FacultyAt(s.units, s.paths[p].unit, d)) ==>
                     Nearest(s.units, s.paths[p].unit, programs[p].facultyId)
  {
    if !LegacyCodesFree(s) {
      return false, s.units, map[];
    }
    units := WithLegacy(s, newIds, now);
    ghost var wider := LegacyKeepsAcyclic(s, newIds, now, rank);
    ok, programs := InsertPrograms(s.paths, units, wider);
    forall p | LivePath(s.paths, p)
      ensures Homeless(units, s.paths[p]) <==> Stranded(s, s.paths[p])
    {
      HomelessIff(s, newIds, now, p);
    }
    if !ok {
      return false, s.units, map[];
    }
    forall p | p in programs && exists d: nat :: FacultyAt(s.units, s.paths[p].unit, d)
      ensures Nearest(s.units, s.paths[p].unit, programs[p].facultyId)
    {
      HomelessIff(s, newIds, now, p);
      var d: nat :| FacultyAt(s.units, s.paths[p].unit, d);
      assert FacultyAt(units, s.paths[p].unit, d);
      NearestBefore(s, newIds, now, s.paths[p].unit, programs[p].facultyId);
    }
  }

  /** Nearest with the legacy faculties present is nearest without them. */
  lemma NearestBefore(s: Source, newIds: map<Id, Id>, now: int, u: Option<Id>, f: Id)
    requires FreshIds(s, newIds) && ParentsExist(s.units) && (u.Some? ==> u.value in s.units)
    requires Nearest(WithLegacy(s, newIds, now), u, f)
    ensures Nearest(s.units, u, f)
  {
    var units := WithLegacy(s, newIds, now);
    var d :| NearestAt(units, u, f, d);
    AncestorsUnchanged(s, newIds, now, u, d);
    LegacyIsNew(s, newIds, now, f);
    forall e: nat | e < d ensures !FacultyAt(s.units, u, e) {
      assert !FacultyAt(units, u, e);
      AncestorsUnchanged(s, newIds, now, u, e);
      if Ancestor(s.units, u, e).Some? {
        LegacyIsNew(s, newIds, now, Ancestor(s.units, u, e).value);
      }
    }
    assert NearestAt(s.units, u, f, d);
  }

  /** A deleted organization with a live path and no faculty stops the migration: the legacy
      faculty is only made for live organizations, and faculty_id is NOT NULL. */
  lemma DeletedOrganizationCanBlock() returns (s: Source)
    ensures WellFormedSource(s) && LegacyCodesFree(s) && SlugsInsertable(s.paths)
    ensures exists p :: LivePath(s.paths, p) && Stranded(s, s.paths[p])
  {
    s := Source(map[Id(1) := true], map[], map[Id(7) := Path(Id(1), None, "data", false)]);
    assert LivePath(s.paths, Id(7)) && Homeless(s.units, s.paths[Id(7)]);
    SlugsInsertableIff(s.paths);
  }

  /** A slug of 94 characters, which career_paths stores, stops the migration: with its prefix it no
      longer fits.  The organization is live and has a faculty. */
  lemma LongSlugCanBlock() returns (s: Source)
    ensures WellFormedSource(s) && LegacyCodesFree(s) && !SlugsInsertable(s.paths)
    ensures forall p :: LivePath(s.paths, p) ==> |s.paths[p].slug| == 94 && !Stranded(s, s.paths[p])
  {
    var slug := seq(94, _ => 'a');
    s := Source(map[Id(1) := false], map[Id(2) := Unit(Id(1), None, true, false, 0, None)],
                map[Id(7) := Path(Id(1), None, slug, false)]);
    assert FacultyOf(s.units, Id(2), Id(1)) && LivePath(s.paths, Id(7));
    SlugsInsertableIff(s.paths);
  }

  /** A department that already carries the legacy code, in an organization without a faculty; were
      it deleted, it would not block. */
  lemma TakenCodeCanBlock() returns (s: Source)
    ensures WellFormedSource(s) && SlugsInsertable(s.paths) && !LegacyCodesFree(s)
    ensures s.units.Keys == {Id(2)} && LegacyCodesFree(s.(units := map[Id(2) := s.units[Id(2)].(deleted := true)]))
    ensures forall p :: LivePath(s.paths, p) ==> !Stranded(s, s.paths[p])
  {
    s := Source(map[Id(1) := false], map[Id(2) := Unit(Id(1), None, false, false, 0, Some(LEGACY_CODE))],
                map[Id(7) := Path(Id(1), None, "data", false)]);
    assert LivePath(s.paths, Id(7)) && Live(s.units, Id(2));
    assert !HasFaculty(s.units, Id(1));
    assert NeedsLegacyFaculty(s, Id(1)) && LegacyCodeTaken(s.units, Id(1));
    SlugsInsertableIff(s.paths);
  }

  // ---------------------------------------------------------------------------
  // Versions, enrolments, attempts
  // ---------------------------------------------------------------------------

  datatype PathVersion = PathVersion(pathId: Id, deleted: bool)

  datatype Status = Active | Completed | Dropped

  datatype CareerEnrollment = CareerEnrollment(id: Id, pathId: Id, versionId: Id, student: Id, status: Status, deleted: bool)

  datatype ProgramStatus = ProgramActive | ProgramCompleted | ProgramWithdrawn

  datatype ProgramEnrollment = ProgramEnrollment(id: Id, programId: Id, versionId: Id, student: Id, status: ProgramStatus)

  datatype AttemptStatus = AttemptActive | AttemptCompleted | AttemptCancelled

  datatype Attempt = Attempt(id: Id, enrollmentId: Id, pathId: Id, versionId: Id, status: AttemptStatus)

  /** learning_program_versions: the live versions of the paths that became programs. */
  function ProgramVersions(versions: map<Id, PathVersion>, programs: set<Id>): set<Id> {
    set v | v in versions && !versions[v].deleted && versions[v].pathId in programs
  }

  function Enrolled(e: CareerEnrollment): ProgramEnrollment {
    ProgramEnrollment(e.id, e.pathId, e.versionId, e.student,
      match e.status case Active => ProgramActive case Completed => ProgramCompleted case Dropped => ProgramWithdrawn)
  }

  predicate Migrates(e: CareerEnrollment, programVersions: set<Id>) {
    !e.deleted && e.versionId in programVersions
  }

  function Enrollments(rows: seq<CareerEnrollment>, programVersions: set<Id>): seq<ProgramEnrollment> {
    if rows == [] then []
    else
      (if Migrates(rows[0], programVersions) then [Enrolled(rows[0])] else [])
      + Enrollments(rows[1..], programVersions)
  }

  function AttemptOf(e: ProgramEnrollment): Attempt {
    Attempt(e.id, e.id, e.programId, e.versionId,
      match e.status case ProgramActive => AttemptActive case ProgramCompleted => AttemptCompleted case ProgramWithdrawn => AttemptCancelled)
  }

  function Attempts(enrollments: seq<ProgramEnrollment>): seq<Attempt> {
    seq(|enrollments|, i requires 0 <= i < |enrollments| => AttemptOf(enrollments[i]))
  }

  /** The source's own constraints: ids are keys, live rows are unique per (path, student), and both
      references resolve.  Nothing there makes a row's version one of its path. */
  ghost predicate ValidEnrollments(s: Source, versions: map<Id, PathVersion>, rows: seq<CareerEnrollment>) {
    && (forall i, j :: 0 <= i < j < |rows| ==> rows[i].id != rows[j].id)
    && (forall i, j :: 0 <= i < j < |rows| && !rows[i].deleted && !rows[j].deleted && rows[i].pathId == rows[j].pathId ==>
          rows[i].student != rows[j].student)
    && (forall i :: 0 <= i < |rows| ==> rows[i].versionId in versions && rows[i].pathId in s.paths)
  }

  /** What enrolling is meant to keep, though the schema does not say it. */
  ghost predicate VersionsAgree(versions: map<Id, PathVersion>, rows: seq<CareerEnrollment>) {
    forall i :: 0 <= i < |rows| ==> rows[i].versionId in versions && versions[rows[i].versionId].pathId == rows[i].pathId
  }

  /** Row by row: who is migrated, and as what. */
  lemma {:induction false} EnrollmentsExactly(rows: seq<CareerEnrollment>, programVersions: set<Id>, pe: ProgramEnrollment)
    ensures pe in Enrollments(rows, programVersions) <==>
              exists i :: 0 <= i < |rows| && Migrates(rows[i], programVersions) && pe == Enrolled(rows[i])
  {
    if rows != [] {
      EnrollmentsExactly(rows[1..], programVersions, pe);
      if i :| 0 <= i < |rows| && Migrates(rows[i], programVersions) && pe == Enrolled(rows[i]) {
        assert i > 0 ==> rows[1..][i - 1] == rows[i];
      }
      if i :| 0 <= i < |rows[1..]| && Migrates(rows[1..][i], programVersions) && pe == Enrolled(rows[1..][i]) {
        assert rows[1..][i] == rows[i + 1];
      }
    }
  }

  ghost predicate OnePerProgramStudent(pes: seq<ProgramEnrollment>) {
    forall i, j :: 0 <= i < j < |pes| ==>
      pes[i].id != pes[j].id && !(pes[i].programId == pes[j].programId && pes[i].student == pes[j].student)
  }

  lemma {:induction false} EnrollmentsUnique(
      s: Source, versions: map<Id, PathVersion>, rows: seq<CareerEnrollment>, programVersions: set<Id>)
    requires ValidEnrollments(s, versions, rows)
    ensures OnePerProgramStudent(Enrollments(rows, programVersions))
  {
    if rows != [] {
      var rest := Enrollments(rows[1..], programVersions);
      assert forall i :: 0 <= i < |rows| - 1 ==> rows[1..][i] == rows[i + 1];
      EnrollmentsUnique(s, versions, rows[1..], programVersions);
      if Migrates(rows[0], programVersions) {
        forall j | 0 <= j < |rest|
          ensures rest[j].id != rows[0].id && !(rest[j].programId == rows[0].pathId && rest[j].student == rows[0].student)
        {
          EnrollmentsExactly(rows[1..], programVersions, rest[j]);
          assert rest[j] in rest;
        }
      }
    }
  }

  ghost predicate OneActivePerEnrollment(attempts: seq<Attempt>) {
    forall i, j :: 0 <= i < j < |attempts| && attempts[i].status == AttemptActive == attempts[j].status ==>
      attempts[i].enrollmentId != attempts[j].enrollmentId
  }

  function Programs(s: Source): set<Id> {
    set p | p in s.paths && LivePath(s.paths, p)
  }

  function MigratedEnrollments(s: Source, versions: map<Id, PathVersion>, rows: seq<CareerEnrollment>): seq<ProgramEnrollment> {
    Enrollments(rows, ProgramVersions(versions, Programs(s)))
  }

  /** A live enrolment that is carried over, by the live version of a live path, but itself names a
      deleted path. */
  predicate NamesDeletedPath(s: Source, versions: map<Id, PathVersion>, e: CareerEnrollment) {
    Migrates(e, ProgramVersions(versions, Programs(s))) && !LivePath(s.paths, e.pathId)
  }

  /** The keys of the new tables hold of the migrated rows; an enrolment is migrated exactly when it
      and its version and that version's path are live; and the INSERT, whose program reference must
      resolve, goes through exactly when no such enrolment names a deleted path. */
  lemma {:induction false} MigratedEnrollmentsValid(s: Source, versions: map<Id, PathVersion>, rows: seq<CareerEnrollment>)
    requires ValidEnrollments(s, versions, rows)
    ensures var enrollments := MigratedEnrollments(s, versions, rows);
      && OnePerProgramStudent(enrollments)
      && OneActivePerEnrollment(Attempts(enrollments))
      && (forall pe :: pe in enrollments ==> pe.versionId in ProgramVersions(versions, Programs(s)))
      && (forall i :: 0 <= i < |rows| ==>
            var v := versions[rows[i].versionId];
            (Enrolled(rows[i]) in enrollments <==> !rows[i].deleted && !v.deleted && LivePath(s.paths, v.pathId)))
      && ((forall pe :: pe in enrollments ==> pe.programId in Programs(s)) <==>
            forall i :: 0 <= i < |rows| ==> !NamesDeletedPath(s, versions, rows[i]))
  {
    var programVersions := ProgramVersions(versions, Programs(s));
    var enrollments := Enrollments(rows, programVersions);
    EnrollmentsUnique(s, versions, rows, programVersions);
    forall pe ensures pe in enrollments <==> exists i :: 0 <= i < |rows| && Migrates(rows[i], programVersions) && pe == Enrolled(rows[i]) {
      EnrollmentsExactly(rows, programVersions, pe);
    }
    forall i | 0 <= i < |rows|
      ensures Enrolled(rows[i]) in enrollments <==> Migrates(rows[i], programVersions)
    {
      if Enrolled(rows[i]) in enrollments {
        var j :| 0 <= j < |rows| && Migrates(rows[j], programVersions) && Enrolled(rows[i]) == Enrolled(rows[j]);
        assert rows[i].id == rows[j].id;
      }
    }
  }

  /** Where every enrolment's version is one of its path, the migration goes through, every migrated
      enrolment is on a version of its own program, and all live enrolments on live versions of live
      paths are migrated. */
  lemma AgreeingEnrollmentsMigrate(s: Source, versions: map<Id, PathVersion>, rows: seq<CareerEnrollment>)
    requires ValidEnrollments(s, versions, rows) && VersionsAgree(versions, rows)
    ensures var enrollments := MigratedEnrollments(s, versions, rows);
      && (forall pe :: pe in enrollments ==>
            pe.programId in Programs(s) && pe.versionId in versions && versions[pe.versionId].pathId == pe.programId)
      && (forall i :: 0 <= i < |rows| ==>
            (Enrolled(rows[i]) in enrollments <==>
              !rows[i].deleted && !versions[rows[i].versionId].deleted && LivePath(s.paths, rows[i].pathId)))
  {
    MigratedEnrollmentsValid(s, versions, rows);
    forall pe | pe in MigratedEnrollments(s, versions, rows)
      ensures pe.versionId in versions && versions[pe.versionId].pathId == pe.programId
    {
      EnrollmentsExactly(rows, ProgramVersions(versions, Programs(s)), pe);
    }
  }

  /** The program enrolment of a row: its key columns, and a status for each status. */
  ghost predicate CarriedOver(e: CareerEnrollment, pe: ProgramEnrollment) {
    && pe.id == e.id && pe.programId == e.pathId && pe.versionId == e.versionId && pe.student == e.student
    && (pe.status == ProgramActive <==> e.status == Active)
    && (pe.status == ProgramCompleted <==> e.status == Completed)
    && (pe.status == ProgramWithdrawn <==> e.status == Dropped)
  }

  /** Its one attempt. */
  ghost predicate AttemptOfRow(e: CareerEnrollment, a: Attempt) {
    && a.enrollmentId == e.id && a.pathId == e.pathId && a.versionId == e.versionId
    && (a.status == AttemptActive <==> e.status == Active)
    && (a.status == AttemptCompleted <==> e.status == Completed)
    && (a.status == AttemptCancelled <==> e.status == Dropped)
  }

  /** Every migrated row has exactly one program enrolment and exactly one attempt, with its columns
      and its status. */
  lemma CarriedOverOnce(s: Source, versions: map<Id, PathVersion>, rows: seq<CareerEnrollment>, i: nat) returns (k: nat)
    requires ValidEnrollments(s, versions, rows) && i < |rows|
    requires var v := versions[rows[i].versionId]; !rows[i].deleted && !v.deleted && LivePath(s.paths, v.pathId)
    ensures var enrollments := MigratedEnrollments(s, versions, rows);
      var attempts := Attempts(enrollments);
      && k < |enrollments| == |attempts|
      && CarriedOver(rows[i], enrollments[k]) && AttemptOfRow(rows[i], attempts[k])
      && (forall l :: 0 <= l < |enrollments| && enrollments[l].id == rows[i].id ==> l == k)
      && (forall l :: 0 <= l < |attempts| && attempts[l].enrollmentId == rows[i].id ==> l == k)
  {
    var programVersions := ProgramVersions(versions, Programs(s));
    var enrollments := Enrollments(rows, programVersions);
    EnrollmentsExactly(rows, programVersions, Enrolled(rows[i]));
    EnrollmentsUnique(s, versions, rows, programVersions);
    k :| 0 <= k < |enrollments| && enrollments[k] == Enrolled(rows[i]);
  }

  /** And nobody else has one. */
  lemma NobodyElseCarriedOver(s: Source, versions: map<Id, PathVersion>, rows: seq<CareerEnrollment>, k: nat) returns (i: nat)
    requires ValidEnrollments(s, versions, rows) && k < |MigratedEnrollments(s, versions, rows)|
    ensures i < |rows| && CarriedOver(rows[i], MigratedEnrollments(s, versions, rows)[k])
    ensures var v := versions[rows[i].versionId]; !rows[i].deleted && !v.deleted && LivePath(s.paths, v.pathId)
  {
    var programVersions := ProgramVersions(versions, Programs(s));
    EnrollmentsExactly(rows, programVersions, Enrollments(rows, programVersions)[k]);
    i :| 0 <= i < |rows| && Migrates(rows[i], programVersions) && Enrollments(rows, programVersions)[k] == Enrolled(rows[i]);
  }

  /** An active student on a deleted version of a live path is not carried over. */
  lemma DeletedVersionNotCarriedOver() returns (s: Source, versions: map<Id, PathVersion>, rows: seq<CareerEnrollment>)
    ensures WellFormedSource(s) && ValidEnrollments(s, versions, rows) && VersionsAgree(versions, rows)
    ensures |rows| == 1 && !rows[0].deleted && rows[0].status == Active && LivePath(s.paths, rows[0].pathId)
    ensures MigratedEnrollments(s, versions, rows) == []
  {
    s := Source(map[Id(1) := false], map[], map[Id(7) := Path(Id(1), None, "data", false)]);
    versions := map[Id(8) := PathVersion(Id(7), true)];
    rows := [CareerEnrollment(Id(5), Id(7), Id(8), Id(9), Active, false)];
    assert !Migrates(rows[0], ProgramVersions(versions, Programs(s)));
    assert rows[1..] == [];
  }

  /** An enrolment that names a deleted path but pins a live path's version stops the migration. */
  lemma DisagreeingEnrollmentCanBlock() returns (s: Source, versions: map<Id, PathVersion>, rows: seq<CareerEnrollment>)
    ensures WellFormedSource(s) && ValidEnrollments(s, versions, rows)
    ensures exists pe :: pe in MigratedEnrollments(s, versions, rows) && pe.programId !in Programs(s)
  {
    s := Source(map[Id(1) := false], map[],
                map[Id(6) := Path(Id(1), None, "old", true), Id(7) := Path(Id(1), None, "data", false)]);
    versions := map[Id(8) := PathVersion(Id(7), false)];
    rows := [CareerEnrollment(Id(5), Id(6), Id(8), Id(9), Active, false)];
    assert LivePath(s.paths, Id(7)) && !LivePath(s.paths, Id(6));
    assert Id(8) in ProgramVersions(versions, Programs(s));
    EnrollmentsExactly(rows, ProgramVersions(versions, Programs(s)), Enrolled(rows[0]));
  }
}

/** Migration 0087: every live lesson is re-slugged from its title. */
module LessonSlugs {
  import opened Prelude
  import opened Slug
  import opened SlugNumbering

  datatype Lesson = Lesson(id: string, moduleId: nat, title: string, slug: string)

  /** The slug a title asks for. */
  function Base(fold: char -> string, title: string): string {
    if Slugify(fold, title) == "" then "lesson" else Slugify(fold, title)
  }

  /** The slugs already given out in a module. */
  function TakenIn(lessons: seq<Lesson>, slugs: seq<string>, m: nat): set<string>
    requires |lessons| == |slugs|
  {
    set i | 0 <= i < |lessons| && lessons[i].moduleId == m :: slugs[i]
  }

  function NewSlugs(fold: char -> string, lessons: seq<Lesson>): (slugs: seq<string>)
    ensures |slugs| == |lessons|
  {
    if lessons == [] then []
    else
      var n := |lessons| - 1;
      var before := NewSlugs(fold, lessons[..n]);
      before + [UniqueSlug(Base(fold, lessons[n].title), TakenIn(lessons[..n], before, lessons[n].moduleId))]
  }

  lemma NewSlugsSnoc(fold: char -> string, lessons: seq<Lesson>, i: nat)
    requires i < |lessons|
    ensures var before := NewSlugs(fold, lessons[..i]);
      NewSlugs(fold, lessons[..i + 1]) ==
        before + [UniqueSlug(Base(fold, lessons[i].title), TakenIn(lessons[..i], before, lessons[i].moduleId))]
  {
    assert lessons[..i + 1][..i] == lessons[..i];
  }

  // ---------------------------------------------------------------------------
  // What the batch computes
  // ---------------------------------------------------------------------------

  /** No two lessons of a module get the same slug. */
  ghost predicate DistinctPerModule(lessons: seq<Lesson>, slugs: seq<string>)
    requires |lessons| == |slugs|
  {
    forall i, j :: 0 <= i < j < |lessons| && lessons[i].moduleId == lessons[j].moduleId ==> slugs[i] != slugs[j]
  }

  lemma {:induction false} BatchDistinct(fold: char -> string, lessons: seq<Lesson>)
    ensures DistinctPerModule(lessons, NewSlugs(fold, lessons))
  {
    if lessons != [] {
      var n := |lessons| - 1;
      var before := NewSlugs(fold, lessons[..n]);
      BatchDistinct(fold, lessons[..n]);
      UniqueSlugIsFree(Base(fold, lessons[n].title), TakenIn(lessons[..n], before, lessons[n].moduleId));
      forall i | 0 <= i < n && lessons[i].moduleId == lessons[n].moduleId
        ensures before[i] in TakenIn(lessons[..n], before, lessons[n].moduleId)
      {
        assert lessons[..n][i] == lessons[i];
      }
    }
  }

  lemma NewSlugsInit(fold: char -> string, lessons: seq<Lesson>)
    requires lessons != []
    ensures NewSlugs(fold, lessons)[..|lessons| - 1] == NewSlugs(fold, lessons[..|lessons| - 1])
  {
  }

  lemma {:induction false} NewSlugsPrefix(fold: char -> string, lessons: seq<Lesson>, i: nat)
    requires i <= |lessons|
    ensures NewSlugs(fold, lessons[..i]) == NewSlugs(fold, lessons)[..i]
  {
    if i < |lessons| {
      var n := |lessons| - 1;
      NewSlugsPrefix(fold, lessons[..n], i);
      NewSlugsInit(fold, lessons);
      assert lessons[..n][..i] == lessons[..i];
      assert NewSlugs(fold, lessons)[..n][..i] == NewSlugs(fold, lessons)[..i];
    } else {
      assert lessons[..i] == lessons;
    }
  }

  /** The slugs of the earlier lessons of lesson i's module. */
  function TakenBefore(lessons: seq<Lesson>, slugs: seq<string>, i: nat): set<string>
    requires i < |lessons| == |slugs|
  {
    set j | 0 <= j < i && lessons[j].moduleId == lessons[i].moduleId :: slugs[j]
  }

  lemma TakenAgree(lessons: seq<Lesson>, slugs: seq<string>, i: nat)
    requires i < |lessons| == |slugs|
    ensures TakenIn(lessons[..i], slugs[..i], lessons[i].moduleId) == TakenBefore(lessons, slugs, i)
  {
    assert forall j :: 0 <= j < i ==> lessons[..i][j] == lessons[j] && slugs[..i][j] == slugs[j];
  }

  lemma SlugGivenTaken(fold: char -> string, lessons: seq<Lesson>, i: nat)
    requires i < |lessons|
    ensures var slugs := NewSlugs(fold, lessons);
      slugs[i] == UniqueSlug(Base(fold, lessons[i].title), TakenBefore(lessons, slugs, i))
  {
    NewSlugsPrefix(fold, lessons, i);
    NewSlugsPrefix(fold, lessons, i + 1);
    NewSlugsSnoc(fold, lessons, i);
    TakenAgree(lessons, NewSlugs(fold, lessons), i);
    LastOf(NewSlugs(fold, lessons)[..i], UniqueSlug(Base(fold, lessons[i].title), TakenBefore(lessons, NewSlugs(fold, lessons), i)),
           NewSlugs(fold, lessons), i);
  }

  lemma LastOf(before: seq<string>, slug: string, slugs: seq<string>, i: nat)
    requires |before| == i < |slugs| && slugs[..i + 1] == before + [slug]
    ensures slugs[i] == slug
  {
    assert slugs[..i + 1][i] == slug;
  }

  /** Lesson by lesson: its slugified title, or "lesson" where that is empty, if no earlier lesson of
      its module has it, else the title with the least number from 1 that none of them has. */
  lemma SlugOfLesson(fold: char -> string, lessons: seq<Lesson>, i: nat)
    requires i < |lessons|
    ensures var slugs := NewSlugs(fold, lessons);
      var base := if Slugify(fold, lessons[i].title) == "" then "lesson" else Slugify(fold, lessons[i].title);
      LeastFreeForm(base, TakenBefore(lessons, slugs, i), slugs[i])
  {
    SlugGivenTaken(fold, lessons, i);
    UniqueSlugIsLeast(Base(fold, lessons[i].title), TakenBefore(lessons, NewSlugs(fold, lessons), i));
  }

  function BasesIn(fold: char -> string, lessons: seq<Lesson>, m: nat): seq<string> {
    if lessons == [] then []
    else
      var n := |lessons| - 1;
      BasesIn(fold, lessons[..n], m) + if lessons[n].moduleId == m then [Base(fold, lessons[n].title)] else []
  }

  function SlugsIn(lessons: seq<Lesson>, slugs: seq<string>, m: nat): seq<string>
    requires |lessons| == |slugs|
  {
    if lessons == [] then []
    else
      var n := |lessons| - 1;
      SlugsIn(lessons[..n], slugs[..n], m) + if lessons[n].moduleId == m then [slugs[n]] else []
  }

  lemma {:induction false} SlugsInElements(lessons: seq<Lesson>, slugs: seq<string>, m: nat)
    requires |lessons| == |slugs|
    ensures Elements(SlugsIn(lessons, slugs, m)) == TakenIn(lessons, slugs, m)
  {
    if lessons != [] {
      var n := |lessons| - 1;
      SlugsInElements(lessons[..n], slugs[..n], m);
      var taken, before := TakenIn(lessons, slugs, m), TakenIn(lessons[..n], slugs[..n], m);
      forall s | s in before ensures s in taken {
        var i :| 0 <= i < n && lessons[..n][i].moduleId == m && slugs[..n][i] == s;
        assert lessons[i].moduleId == m && slugs[i] == s;
      }
      forall s | s in taken ensures s in before || (lessons[n].moduleId == m && s == slugs[n]) {
        var i :| 0 <= i < |lessons| && lessons[i].moduleId == m && slugs[i] == s;
        assert i < n ==> lessons[..n][i].moduleId == m && slugs[..n][i] == s;
      }
    }
  }

  /** Seen from one module, the batch is the sequential rule applied to that module's titles: the
      modules do not influence each other. */
  lemma {:induction false} ModulesAreIndependent(fold: char -> string, lessons: seq<Lesson>, m: nat)
    ensures SlugsIn(lessons, NewSlugs(fold, lessons), m) == Sequential(BasesIn(fold, lessons, m))
  {
    if lessons != [] {
      var n := |lessons| - 1;
      ModulesAreIndependent(fold, lessons[..n], m);
      LastSlugOfModule(fold, lessons, m);
      var titles := BasesIn(fold, lessons[..n], m);
      SequentialSnoc(titles, Base(fold, lessons[n].title));
      assert lessons[n].moduleId != m ==> BasesIn(fold, lessons, m) == titles;
    }
  }

  lemma LastSlugOfModule(fold: char -> string, lessons: seq<Lesson>, m: nat)
    requires lessons != []
    ensures var n := |lessons| - 1;
      var given := SlugsIn(lessons[..n], NewSlugs(fold, lessons[..n]), m);
      SlugsIn(lessons, NewSlugs(fold, lessons), m) ==
        if lessons[n].moduleId == m then given + [UniqueSlug(Base(fold, lessons[n].title), Elements(given))] else given
  {
    var n := |lessons| - 1;
    var before := NewSlugs(fold, lessons[..n]);
    SlugsInElements(lessons[..n], before, m);
    assert NewSlugs(fold, lessons)[..n] == before;
  }

  // ---------------------------------------------------------------------------
  // Writing the slugs back
  // ---------------------------------------------------------------------------

  function Placeholder(id: string): string { "___reslug_" + id }

  /** Parking: deleted rows leave the slug space. */
  function Parked(deleted: seq<Lesson>): seq<Lesson> {
    seq(|deleted|, i requires 0 <= i < |deleted| => deleted[i].(slug := Placeholder(deleted[i].id)))
  }

  function Reslugged(live: seq<Lesson>, slugs: seq<string>, upTo: nat): seq<Lesson>
    requires upTo <= |live| == |slugs|
  {
    seq(|live|, i requires 0 <= i < |live| => if i < upTo then live[i].(slug := slugs[i]) else live[i])
  }

  /** The full unique constraint on (module_id, slug), over live and deleted rows alike. */
  ghost predicate UniqueModuleSlug(rows: seq<Lesson>) {
    forall i, j :: 0 <= i < j < |rows| && rows[i].moduleId == rows[j].moduleId ==> rows[i].slug != rows[j].slug
  }

  /** The constraint as the database checks it when row i is given a new slug. */
  predicate Collides(rows: seq<Lesson>, i: nat, slug: string)
    requires i < |rows|
  {
    exists k :: 0 <= k < |rows| && k != i && rows[k].moduleId == rows[i].moduleId && rows[k].slug == slug
  }

  /** No lesson is to get the slug that a later lesson of its module still carries. */
  predicate NoStaleHolder(live: seq<Lesson>, slugs: seq<string>)
    requires |live| == |slugs|
  {
    forall i, j :: 0 <= i < j < |live| && live[i].moduleId == live[j].moduleId ==> slugs[i] != live[j].slug
  }

  /** lessons.slug is a VARCHAR of that width; a suffix can take a slug beyond it. */
  predicate AllFit(slugs: seq<string>) {
    forall i :: 0 <= i < |slugs| ==> |slugs[i]| <= MAX_SLUG_LEN
  }

  predicate SlugAlphabet(s: string) {
    forall i :: 0 <= i < |s| ==> IsSlugChar(s[i]) || s[i] == '-'
  }

  lemma {:induction false} NewSlugsAlphabet(fold: char -> string, lessons: seq<Lesson>)
    ensures forall i :: 0 <= i < |lessons| ==> SlugAlphabet(NewSlugs(fold, lessons)[i]) && NewSlugs(fold, lessons)[i] != ""
  {
    if lessons != [] {
      var n := |lessons| - 1;
      NewSlugsAlphabet(fold, lessons[..n]);
      SlugifyShape(fold, lessons[n].title);
      var base := Base(fold, lessons[n].title);
      var taken := TakenIn(lessons[..n], NewSlugs(fold, lessons[..n]), lessons[n].moduleId);
      assert SlugAlphabet(base) && base != "";
      if base in taken {
        DecimalReadsBack(FirstFree(base, taken, 1));
      }
    }
  }

  lemma PlaceholderIsNoSlug(slug: string, id: string)
    requires SlugAlphabet(slug)
    ensures slug != Placeholder(id)
  {
    assert Placeholder(id)[0] == '_';
  }

  /** `taken_by_module.setdefault(m, set())`, as a reader sees it. */
  function TakenOf(takenByModule: map<nat, set<string>>, m: nat): set<string> {
    if m in takenByModule then takenByModule[m] else {}
  }

  /** `taken_by_module` holds, per module, exactly the slugs given out in it. */
  ghost predicate TableExact(takenByModule: map<nat, set<string>>, lessons: seq<Lesson>, slugs: seq<string>)
    requires |lessons| == |slugs|
  {
    forall m: nat :: TakenOf(takenByModule, m) == TakenIn(lessons, slugs, m)
  }

  class LessonTable {
    /** Live rows in the order (module_id, created_at, id) of the migration's query. */
    var live: seq<Lesson>
    var deleted: seq<Lesson>

    /** The loop over the live rows: one set of taken slugs per module. */
    method Assign(fold: char -> string) returns (slugs: seq<string>)
      ensures slugs == NewSlugs(fold, live)
    {
      var takenByModule: map<nat, set<string>> := map[];
      slugs := [];
      for i := 0 to |live|
        invariant slugs == NewSlugs(fold, live[..i])
        invariant TableExact(takenByModule, live[..i], slugs)
      {
        var lesson := live[i];
        var taken := TakenOf(takenByModule, lesson.moduleId);
        var slug := FindUniqueSlug(Base(fold, lesson.title), taken);
        TableGrows(takenByModule, live, slugs, i, slug);
        NewSlugsSnoc(fold, live, i);
        takenByModule := takenByModule[lesson.moduleId := taken + {slug}];
        slugs := slugs + [slug];
      }
      assert live[..|live|] == live;
    }

    /** One UPDATE per live row, each checked against the column's width and the constraint as it
        stands. */
    method WriteBack(slugs: seq<string>, parked: seq<Lesson>) returns (ok: bool, updated: seq<Lesson>)
      requires |slugs| == |live| && DistinctPerModule(live, slugs)
      requires forall i :: 0 <= i < |slugs| ==> SlugAlphabet(slugs[i])
      requires forall k :: 0 <= k < |parked| ==> parked[k].slug == Placeholder(parked[k].id)
      ensures ok <==> NoStaleHolder(live, slugs) && AllFit(slugs)
      ensures ok ==> updated == Reslugged(live, slugs, |live|)
    {
      updated := live;
      for i := 0 to |live|
        invariant updated == Reslugged(live, slugs, i) && AllFit(slugs[..i])
        invariant forall a, b :: 0 <= a < i && a < b < |live| && live[a].moduleId == live[b].moduleId ==> slugs[a] != live[b].slug
      {
        CollisionIsStale(live, parked, slugs, i);
        if |slugs[i]| > MAX_SLUG_LEN || Collides(updated + parked, i, slugs[i]) {
          return false, updated;
        }
        updated := updated[i := updated[i].(slug := slugs[i])];
      }
      ok := true;
    }

    /** `upgrade`, one transaction.  It succeeds exactly when no lesson is to get the slug that a
        lesson of the same module later in the order still carries, and no suffix makes a slug too
        long; then every live lesson has its new slug, every deleted one a placeholder, and the
        constraint holds.  Otherwise an UPDATE raises and everything is rolled back. */
    method Upgrade(fold: char -> string) returns (ok: bool)
      requires forall i, j :: 0 <= i < j < |deleted| ==> deleted[i].id != deleted[j].id
      modifies this
      ensures var slugs := NewSlugs(fold, old(live));
        ok <==> NoStaleHolder(old(live), slugs) && AllFit(slugs)
      ensures ok ==> live == Reslugged(old(live), NewSlugs(fold, old(live)), |old(live)|)
      ensures ok ==> deleted == Parked(old(deleted))
      ensures ok ==> |live| == |old(live)| && |deleted| == |old(deleted)|
      ensures ok ==> forall i :: 0 <= i < |live| ==> live[i] == old(live)[i].(slug := NewSlugs(fold, old(live))[i])
      ensures ok ==> forall i :: 0 <= i < |deleted| ==>
                       deleted[i] == old(deleted)[i].(slug := "___reslug_" + old(deleted)[i].id)
      ensures ok ==> UniqueModuleSlug(live + deleted)
      ensures !ok ==> live == old(live) && deleted == old(deleted)
    {
      var slugs := Assign(fold);
      BatchDistinct(fold, live);
      NewSlugsAlphabet(fold, live);
      FinalRowsUnique(live, deleted, slugs);
      var parked := Parked(deleted);
      var updated;
      ok, updated := WriteBack(slugs, parked);
      if ok {
        live, deleted := updated, parked;
      }
    }
  }

  lemma TakenGrows(lessons: seq<Lesson>, slugs: seq<string>, i: nat, slug: string, m: nat)
    requires i < |lessons| && |slugs| == i
    ensures TakenIn(lessons[..i + 1], slugs + [slug], m) ==
              TakenIn(lessons[..i], slugs, m) + if lessons[i].moduleId == m then {slug} else {}
  {
    SlugsInElements(lessons[..i + 1], slugs + [slug], m);
    SlugsInElements(lessons[..i], slugs, m);
    assert lessons[..i + 1][..i] == lessons[..i] && (slugs + [slug])[..i] == slugs;
  }

  lemma TableGrows(takenByModule: map<nat, set<string>>, lessons: seq<Lesson>, slugs: seq<string>, i: nat, slug: string)
    requires i < |lessons| && |slugs| == i && TableExact(takenByModule, lessons[..i], slugs)
    ensures var m := lessons[i].moduleId;
      TableExact(takenByModule[m := TakenOf(takenByModule, m) + {slug}], lessons[..i + 1], slugs + [slug])
  {
    var grown := takenByModule[lessons[i].moduleId := TakenOf(takenByModule, lessons[i].moduleId) + {slug}];
    forall m: nat ensures TakenOf(grown, m) == TakenIn(lessons[..i + 1], slugs + [slug], m) {
      TakenGrows(lessons, slugs, i, slug, m);
      assert TakenOf(takenByModule, m) == TakenIn(lessons[..i], slugs, m);
    }
  }

  /** Row i can only collide with a row of its module that has not been updated yet. */
  lemma CollisionIsStale(live: seq<Lesson>, parked: seq<Lesson>, slugs: seq<string>, i: nat)
    requires i < |live| == |slugs| && DistinctPerModule(live, slugs)
    requires SlugAlphabet(slugs[i])
    requires forall k :: 0 <= k < |parked| ==> parked[k].slug == Placeholder(parked[k].id)
    ensures Collides(Reslugged(live, slugs, i) + parked, i, slugs[i]) <==>
              exists j :: i < j < |live| && live[j].moduleId == live[i].moduleId && live[j].slug == slugs[i]
  {
    var updated := Reslugged(live, slugs, i);
    var rows := updated + parked;
    if k :| 0 <= k < |rows| && k != i && rows[k].moduleId == rows[i].moduleId && rows[k].slug == slugs[i] {
      if k >= |live| {
        PlaceholderIsNoSlug(slugs[i], parked[k - |live|].id);
      }
    }
    if j :| i < j < |live| && live[j].moduleId == live[i].moduleId && live[j].slug == slugs[i] {
      assert rows[j] == live[j];
    }
  }

  lemma FinalRowsUnique(live: seq<Lesson>, deleted: seq<Lesson>, slugs: seq<string>)
    requires |live| == |slugs| && DistinctPerModule(live, slugs)
    requires forall i :: 0 <= i < |slugs| ==> SlugAlphabet(slugs[i])
    requires forall i, j :: 0 <= i < j < |deleted| ==> deleted[i].id != deleted[j].id
    ensures UniqueModuleSlug(Reslugged(live, slugs, |live|) + Parked(deleted))
  {
    var rows := Reslugged(live, slugs, |live|) + Parked(deleted);
    forall i, j | 0 <= i < j < |rows| && rows[i].moduleId == rows[j].moduleId ensures rows[i].slug != rows[j].slug {
      if i < |live| <= j {
        PlaceholderIsNoSlug(slugs[i], deleted[j - |live|].id);
      } else if |live| <= i {
        var p, q := deleted[i - |live|].id, deleted[j - |live|].id;
        assert Placeholder(p)[10..] == p && Placeholder(q)[10..] == q;
      }
    }
  }

  /** Concretely: the first lesson was renamed to what the second one is still called in its URL. */
  lemma RenamedLessonBlocksUpgrade(fold: char -> string) returns (live: seq<Lesson>)
    requires KeepsSlugChars(fold)
    ensures UniqueModuleSlug(live) && !NoStaleHolder(live, NewSlugs(fold, live))
  {
    live := [Lesson("1", 0, "b", "a"), Lesson("2", 0, "c", "b")];
    assert WellFormedSlug("b");
    SlugifyWellFormed(fold, "b");
    assert live[..1] == [live[0]] && live[..1][..0] == [];
    assert NewSlugs(fold, live[..1]) == ["b"];
    assert NewSlugs(fold, live)[0] == "b" == live[1].slug;
  }

  /** Concretely: two lessons of one module with the same title of 100 letters; the second one's slug
      has 102 characters. */
  lemma LongTitlesBlockUpgrade(fold: char -> string) returns (live: seq<Lesson>)
    requires KeepsSlugChars(fold)
    ensures UniqueModuleSlug(live) && |live| == 2 && live[0].title == live[1].title && |live[0].title| == 100
    ensures NoStaleHolder(live, NewSlugs(fold, live)) && !AllFit(NewSlugs(fold, live))
  {
    var title := seq(100, _ => 'a');
    live := [Lesson("1", 0, title, "x"), Lesson("2", 0, title, "y")];
    assert WellFormedSlug(title);
    SlugifyWellFormed(fold, title);
    assert live[..1] == [live[0]] && live[..1][..0] == [];
    assert NewSlugs(fold, live[..1]) == [title];
    assert TakenIn(live[..1], [title], 0) == {title};
    var slug := NewSlugs(fold, live)[1];
    assert slug == Suffixed(title, FirstFree(title, {title}, 1));
    assert |slug| > 100 && slug[0] == 'a';
    assert NewSlugs(fold, live)[0] == title;
  }
}

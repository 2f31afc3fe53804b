# Verified models of the backend's self-contained cores

This Dafny project models the parts of the backend whose correctness does not depend on code
elsewhere, and proves what they promise over every run, every history of calls and every table.
`dafny verify dfyconfig.toml` checks all of it.

| files | what they model |
|---|---|
| `RebuildPool`, `RebuildInvariant`, `RebuildTheorems`, `RebuildScript` | the budget-guarded concurrent rebuild of the knowledge graph: a step per await, an invariant of every step, theorems over every schedule, and the driver on mutable objects |
| `TtlCacheSpec`, `TtlCacheTheorems`, `TtlCache` | the bounded LRU cache with expiry: the operations on ordered slot lists, theorems over every history, and the class |
| `SettingsStore`, `SettingsCache`, `SettingsRegistry`, `SettingsResolver` | runtime settings: merged rows, the cache under every interleaving of suspended loads, writes and invalidations, validation, and the layered resolver |
| `Slug`, `SlugNumbering`, `LessonSlugs` | `slugify` and `unique_slug`, the numbering rules of migrations 0086 and 0087, and the re-slug of the lesson table |
| `CareerPaths` | migrations 0070 and 0074: stages, versions, and the way back |
| `CourseRoles` | migration 0079: course instructors and assistants |
| `LearningPrograms` | migration 0083: nearest faculty, programs, enrolments, attempts |
| `CostBackfill`, `LatexEscape`, `EmbeddingBackfill` | the cost backfill, the LaTeX escaper, the embedding backfill loop |
| `Prelude` | Option, Result, lists without duplicates |

## Where the code and its own description part

- Budget guard: `--budget-usd` accepts a negative amount. If then every rebuild fails, the total 0
  is over budget and the exit code is not 2, because only a success is followed by a budget check.
  The flag is raised exactly when something was processed and the total is over budget
  (`FlagExact`); it is simply "total over budget", whatever the schedule, exactly for budgets of
  zero or more (`FlagTellsTotalIff`).
- Settings cache: `invalidate_settings_cache` is said to make an edit visible on the next resolve.
  A load already answered from the old table and still to resume stores the old rows afterwards.
  `InvalidationHoldsIff` says exactly when the promise is kept.
- Settings staleness: the 30 s bound counts from the clock reading of the call. At the instant of
  return it holds for calls that took at most 30 s and fails for every longer delay
  (`PromptLoadServesWithinTtl`, `SlowLoadServesOlder`).
- Settings precedence: a stored value that is no longer valid should fall to the next level down.
  An invalid organization row hides a valid global row instead, and in no other case do code and
  description differ (`ResolvedAgainstDocumented`, `RejectedRowCanHideGlobal`).
  Environment values are not held to the spec's bounds (`EnvironmentIsUnbounded`,
  `EnvironmentCanExceedBounds`); `ResolvedMeetsIff` says exactly when a resolved value meets its spec.
- TTL cache: threads read the clock before they take the lock, so a call can act on an older reading
  than one already served. A key can then be missing although it is unexpired at that reading and
  nothing displaced it, because an earlier lookup found it expired (`MissingMeansDisplaced`).
- Migration 0087 is described as immune to the order in which the unique constraint sees its
  updates. It writes one row at a time, and fails when a lesson is to get the slug that a lesson of
  the same module, later in the order, still carries. It also fails when a suffix takes a slug beyond
  the 100 characters of its column (`LongTitlesBlockUpgrade`); it succeeds in all other cases
  (`LessonTable.Upgrade`). Whether the constraint is full or restricted to live rows makes no
  difference to that.
- Migration 0086 can produce equal slugs (titles x, x, x-1); `NumberedDistinctIff` says exactly when.
- Migration 0074's downgrade is described as flattening later versions onto version 1. It does not:
  stages or items of a later version leave NULLs and make it fail. Before that, it sets the version
  of every enrolment and readiness snapshot to NULL while the column is still NOT NULL, so a single
  enrolment or snapshot makes it fail, even right after the upgrade (`DowngradeIff`,
  `UpgradeThenDowngrade`, `EnrollmentBlocksDowngrade`). Where it goes through, the rows are back, but
  the unique index on (path, stage position), lost with the dropped column, is not.
- Migration 0079 guarantees at most one instructor only for course owners with a single active
  teacher row. The table's unique key contains a nullable column, so it does not rule two out, and
  then the new index cannot be created (`IndexIff`, `OwnerTwiceBlocks`).
- Migration 0083 is described as migrating every path and enrolment. It stops at a live path of a
  deleted organization without a faculty (`DeletedOrganizationCanBlock`), at a path whose slug is too
  long for the prefix it gets (`LongSlugCanBlock`), and where the legacy faculty's code is already in
  use (`TakenCodeCanBlock`); `BackfillPrograms` shows these to be all the cases. Enrolments on deleted
  versions are not carried over (`DeletedVersionNotCarriedOver`), nor are versions of deleted paths,
  and an enrolment that pins a live path's version while naming a deleted path stops it
  (`DisagreeingEnrollmentCanBlock`).
- Embedding backfill: a batch size of zero ends at once and counts as success, whatever is missing.
  A negative one is accepted too and makes the query raise.

## Model

| member | source | states |
|---|---|---|
| RebuildTheorems.FlagExact | scripts/rebuild_knowledge_graph.py:476-546 | For every interleaving in which all coroutines finish, the shared flag is up if and only if a budget is set, something was processed, and the cost of all processed runs exceeds it, although each check sums a snapshot of a list others still append to. |
| RebuildTheorems.FlagExactForRealBudget | scripts/rebuild_knowledge_graph.py:484-495 | With a budget of zero or more the final flag is exactly "total over budget". |
| RebuildTheorems.FlagTellsTotalIff | scripts/rebuild_knowledge_graph.py:484-533 | For every configuration with a budget: under all schedules the final flag is "total over budget", if and only if the budget is zero or more; below that the schedule in which every rebuild fails breaks it. |
| RebuildTheorems.NegativeBudgetCanBeMissed | scripts/rebuild_knowledge_graph.py:149-154 | A concrete run with a negative budget that ends over budget with the flag down. |
| RebuildInvariant.SnapshotCoversChecked | scripts/rebuild_knowledge_graph.py:484-488 | The snapshot taken under the lock costs at least the checker's own run plus every run already checked. |
| RebuildInvariant.StepKeepsInv | scripts/rebuild_knowledge_graph.py:476-546 | Every step of any coroutine keeps the permits conserved, the lock owned by the one recorded, the lists and counters exact, and the flag justified. |
| RebuildTheorems.OvershootBounded | scripts/rebuild_knowledge_graph.py:513-546 | In every reachable state the successful runs, even with those still running added, cost at most the budget plus workers times the dearest run. |
| RebuildTheorems.ClearFlagMeansWithinBudget | scripts/rebuild_knowledge_graph.py:484-495 | In every reachable state with the flag down, the runs that completed a budget check, each once, cost at most the budget together, and every other run begun and not failed is among the at most `workers` coroutines behind a permit. |
| RebuildTheorems.NothingStartsAfterFlag | scripts/rebuild_knowledge_graph.py:511-516 | Once up, the flag stays up and no further rebuild begins, on any continuation. |
| RebuildTheorems.AtMostWorkersInside | scripts/rebuild_knowledge_graph.py:513-546 | At most `workers` coroutines are inside the semaphore at any time. |
| RebuildTheorems.FinalAccounts | scripts/rebuild_knowledge_graph.py:361-366 | At the end processed, failed and skipped add up to the candidates, the id lists have matching lengths, no candidate appears twice, and nobody was skipped without the flag. |
| RebuildTheorems.OutcomesRecorded | scripts/rebuild_knowledge_graph.py:517-545 | In every reachable state `pipeline_run_ids` is exactly the list of rebuilds that returned and `failed_ids` exactly the list of those that raised, in the order in which they did, and the counters count them. |
| RebuildTheorems.PoolTerminates | scripts/rebuild_knowledge_graph.py:625-641 | No schedule exceeds nine turns per candidate, and a state from which nobody can move has finished everyone: semaphore then lock never deadlocks. |
| RebuildScript.Pool.Resume | scripts/rebuild_knowledge_graph.py:498-546 | The in-place updates of one uninterrupted stretch of a coroutine are exactly one step of the model. |
| RebuildScript.Run | scripts/rebuild_knowledge_graph.py:576-673 | For any outcome of each candidate's rebuild and under any scheduling: exit code 2 means over budget; exit code 1 means something processed, not over budget, and the count moved by more than a twentieth; failed ids are rebuilds that raise and the total is the cost of processed ones that return; without an abort the report names exactly the raising ones, counts the returning ones and totals their cost; the cost bound holds. |
| RebuildScript.OutOfToleranceIff | scripts/rebuild_knowledge_graph.py:431-434 | The percentage test on the Concept counts says that they differ by more than a twentieth of the first, or at all if that was zero. |
| TtlCacheTheorems.LruInclusion | abridgeai/core/ttl_cache.py:55-104 | Two caches of capacities n and N fed the same calls and clock readings: the smaller's slots are in the larger with equal value and expiry, common keys are in the same order of use, at most N - n keys are extra, and every hit on the smaller is the same hit on the larger. |
| TtlCacheTheorems.CacheNeverLies | abridgeai/core/ttl_cache.py:55-71 | A hit returns the latest put of the key, made less than the lifetime ago and not invalidated since. |
| TtlCacheTheorems.MissingMeansDisplaced | abridgeai/core/ttl_cache.py:61-80 | For any clock readings, in any order: a key put and not invalidated that a lookup misses is expired at that reading, or was found expired by an earlier lookup, or at least `max_entries` distinct other keys were put or hit since it was. |
| TtlCacheTheorems.SeenExpiredMeansExpired | abridgeai/core/ttl_cache.py:62-70 | If no call read a later time than the lookup, a key an earlier lookup found expired is expired for it too, so an unexpired key is missing only by displacement. |
| TtlCacheTheorems.SeenExpiredMeansMissing | abridgeai/core/ttl_cache.py:66-70 | A key a lookup found expired is missing until it is put again, whatever later calls read. |
| TtlCacheTheorems.RunBounded | abridgeai/core/ttl_cache.py:75-80 | After any history keys are distinct and the size is within the bound. |
| TtlCache.TTLCache.Get | abridgeai/core/ttl_cache.py:55-71 | `get` answers and leaves the store as the model says: miss, lazy drop of an expired entry, or hit with promotion. |
| TtlCache.TTLCache.Put | abridgeai/core/ttl_cache.py:73-80 | `put` stores at the recent end and its loop leaves the most recent entries within the bound. |
| TtlCache.TTLCache.Invalidate | abridgeai/core/ttl_cache.py:82-85 | Exactly the entry of the key goes. |
| TtlCache.TTLCache.InvalidateWhere | abridgeai/core/ttl_cache.py:87-99 | Exactly the entries whose key satisfies the predicate go, the rest keep their order, and the count returned is how many went. |
| TtlCache.TTLCache.Clear | abridgeai/core/ttl_cache.py:101-104 | Nothing is left. |
| SettingsStore.MergeRows | abridgeai/core/runtime_settings.py:107-116 | The row loop computes the merged dictionary of the organization's and the global rows. |
| SettingsStore.OrgRowShadowsGlobal | abridgeai/core/runtime_settings.py:99-116 | A key's merged value is the organization's last row for it, else the last global row, and nobody else's. |
| SettingsCache.StalenessBounded | abridgeai/core/runtime_settings.py:100-119 | Over every interleaving of suspended loads, writes, failures and invalidations, rows served to a call that read the clock at now were table content at some moment no earlier than now - 30 s, and no earlier than now when the call queried the table itself. |
| SettingsCache.CacheKeysAgree | abridgeai/core/runtime_settings.py:46-63 | The two cache dictionaries always have the same keys. |
| SettingsCache.PromptLoadServesWithinTtl | abridgeai/core/runtime_settings.py:103-119 | For a call that took at most 30 s the bound also holds at the instant of return. |
| SettingsCache.SlowLoadServesOlder | abridgeai/core/runtime_settings.py:103-119 | For every delay over 30 s there is a run whose returned rows are older than that at the instant of return. |
| SettingsCache.InvalidationHoldsIff | abridgeai/core/runtime_settings.py:60-63 | After an invalidation no later hit is served rows from before it, if and only if no load answered from a since-changed table, begun less than 30 s ago, is still to resume. |
| SettingsRegistry.AcceptedExactlyWhenAcceptable | abridgeai/core/settings_registry.py:725-751 | A value is accepted exactly when it is of the spec's kind, whole where required and within bounds; the result meets the spec and is the same boolean or number. |
| SettingsRegistry.RejectionReason | abridgeai/core/settings_registry.py:732-750 | Which of the error messages a rejected value gets: unknown key, not a boolean, not a number, not whole, below, above. |
| SettingsRegistry.AcceptedValuesAreFixed | abridgeai/core/settings_registry.py:725-751 | Validating an accepted value again returns it unchanged. |
| SettingsResolver.ResolvedAgainstDocumented | abridgeai/core/runtime_settings.py:138-163 | The resolver agrees with the documented four levels except exactly when a rejected organization row hides an acceptable global one; then it returns the environment value or default. |
| SettingsResolver.ResolvedIsTypedOrFallback | abridgeai/core/runtime_settings.py:149-163 | Every resolved value has its spec's type, and is within bounds or comes from environment or default. |
| SettingsResolver.ResolvedFromVariable | abridgeai/core/runtime_settings.py:66-97 | Where no stored value decides: the four spellings of true and of false, in any case and with any white space around them, serve that boolean, other text the default; a number setting serves what Python reads in the bare text, and the default where it reads none or the text is blank. |
| SettingsResolver.TextHasCore | abridgeai/core/runtime_settings.py:77-80 | Every text is white space around a bare core, so the lemma above covers every value a variable can have. |
| SettingsResolver.ResolvedWithoutVariable | abridgeai/core/runtime_settings.py:74-76 | Without a variable, or with it unset, the default is served. |
| SettingsResolver.ResolvedFromStoredValue | abridgeai/core/runtime_settings.py:149-152 | An accepted stored value is served as validation returns it. |
| SettingsResolver.RejectedRowCanHideGlobal | abridgeai/core/runtime_settings.py:149-157 | Concretely: with 10 stored globally and 400 for an organization, bounds 1 to 365, the default is served instead of 10. |
| SettingsResolver.ResolvedMeetsIff | abridgeai/core/runtime_settings.py:149-163 | A resolved value meets its spec if and only if the visible stored value is accepted or the fallback meets it; given a default in order, if and only if no out-of-bounds environment number is reached. |
| SettingsResolver.EnvironmentIsUnbounded | abridgeai/core/runtime_settings.py:66-97 | Without an accepted stored value, an integer in the environment is served as it is, and meets the spec only if it happens to be within bounds. |
| SettingsResolver.EnvironmentCanExceedBounds | abridgeai/core/runtime_settings.py:66-97 | Concretely: bounds 1 to 365, the variable set to 400, an empty table. |
| SettingsResolver.ResolveSettings | abridgeai/core/runtime_settings.py:122-163 | The loop returns a value for exactly the registered keys, each the layered lookup over the rows loaded, or over none when loading failed. |
| SettingsResolver.ResolveServed | abridgeai/core/runtime_settings.py:100-163 | Over every interleaving of loads, writes and invalidations, a map resolved from served rows is the layered lookup over one table, as it stood at some moment no earlier than 30 s before the call read the clock. |
| SettingsResolver.RuntimeSettings.TryCache | abridgeai/core/runtime_settings.py:102-105 | The cached rows are returned exactly while they are fresh. |
| SettingsResolver.RuntimeSettings.StoreRows | abridgeai/core/runtime_settings.py:107-119 | The rows are merged and stored under the clock reading taken before the query. |
| SettingsResolver.RuntimeSettings.Invalidate | abridgeai/core/runtime_settings.py:60-63 | Both dictionaries are emptied. |
| Slug.FindUniqueSlug | abridgeai/core/slug.py:31-45 | The search returns a free slug: the base itself if free ("item" for an empty one), else the least free suffix, found with n at most the number of taken slugs. |
| Slug.TakenFormsAreMany | abridgeai/core/slug.py:42-44 | Pigeonhole: if the candidate and its first n - 1 suffixed forms are taken, at least n slugs are. |
| Slug.SuffixedInjective | abridgeai/core/slug.py:43-45 | A suffixed slug determines its base and its number. |
| Slug.SlugifyShape | abridgeai/core/slug.py:18-28 | Slugs use a-z, 0-9 and single hyphens, do not begin with a hyphen, and have at most 100 characters. |
| Slug.SlugifyJoinsWords | abridgeai/core/slug.py:25-28 | The slug is the maximal runs of slug characters of the folded text, in their order, joined by single hyphens and cut at 100 characters. |
| Slug.TextHasRuns | abridgeai/core/slug.py:28 | Every text is such runs with gaps of other characters before, between and after them. |
| Slug.FoldedInPieces | abridgeai/core/slug.py:25-27 | Folding works character by character. |
| Slug.SpaceBecomesHyphen | abridgeai/core/slug.py:28 | Concretely: "a b" becomes "a-b". |
| Slug.SlugifyStabilizes | abridgeai/core/slug.py:25-28 | Slugifying twice reaches a fixpoint; once does exactly when no hyphen is left at the end, which only the cut at 100 characters can leave. |
| SlugNumbering.SequentialDistinct | migrations/versions/0087_lesson_slugs_from_title.py:69-76 | Numbering one by one never repeats a slug, for any list of bases. |
| SlugNumbering.NumberedDistinctIff | migrations/versions/0086_item_slugs.py:73-86 | Numbering by row_number repeats a slug exactly when some base equals b-k for a base b repeated more than k times. |
| SlugNumbering.RulesAgreeIff | migrations/versions/0086_item_slugs.py:73-86 | The two rules give the same slugs exactly in the same cases. |
| SlugNumbering.NumberedCanCollide | migrations/versions/0086_item_slugs.py:54-57 | Titles x, x, x-1 collide under 0086's rule and not under 0087's. |
| LessonSlugs.BatchDistinct | migrations/versions/0087_lesson_slugs_from_title.py:69-76 | No two lessons of a module get the same slug, for any lessons. |
| LessonSlugs.SlugOfLesson | migrations/versions/0087_lesson_slugs_from_title.py:69-76 | Lesson by lesson: the slugified title, or "lesson" if that is empty, where no earlier lesson of the module has it, else with the least number from 1 that none of them has. |
| LessonSlugs.ModulesAreIndependent | migrations/versions/0087_lesson_slugs_from_title.py:69-76 | Restricted to a module, the batch is the one-by-one rule on that module's titles. |
| LessonSlugs.LessonTable.Assign | migrations/versions/0087_lesson_slugs_from_title.py:69-76 | The loop over the rows with one set per module computes these slugs. |
| LessonSlugs.LessonTable.WriteBack | migrations/versions/0087_lesson_slugs_from_title.py:78-86 | The row-by-row UPDATEs go through exactly when every slug fits its column and no lesson is to get a slug a later lesson of its module still carries. |
| LessonSlugs.LessonTable.Upgrade | migrations/versions/0087_lesson_slugs_from_title.py:44-86 | On success every live lesson has its new slug, every deleted one a placeholder, and (module, slug) is unique over all rows; on failure nothing changes. |
| LessonSlugs.RenamedLessonBlocksUpgrade | migrations/versions/0087_lesson_slugs_from_title.py:78-86 | Two lessons satisfying the constraint before, for which the upgrade fails. |
| LessonSlugs.LongTitlesBlockUpgrade | migrations/versions/0001_baseline_schema.py:459 | Two lessons with one title of 100 letters, for which it fails because the second slug has 102. |
| CareerPaths.StagingEstablishesSchema | migrations/versions/0070_career_path_stages.py:157-191 | Unique (path, position) before gives unique (stage, position) after, and every item has a stage. |
| CareerPaths.ItemsStagedInOwnPath | migrations/versions/0070_career_path_stages.py:157-174 | Row by row: one stage per path at position 1, every item in the stage of its own path, nothing else changed. |
| CareerPaths.StagingKeepsRoutes | migrations/versions/0070_career_path_stages.py:157-174 | Each path reads the same courses at the same positions through its one stage. |
| CareerPaths.VersioningEstablishesSchema | migrations/versions/0074_career_path_versions.py:69-191 | Every stage, item, enrolment and snapshot gets an existing version, and (version, course) is unique. |
| CareerPaths.VersioningKeepsRoutes | migrations/versions/0074_career_path_versions.py:71-140 | Each path reads the same courses at the same stage and item positions through its version 1, for any staged tables. |
| CareerPaths.EnrollmentsPinnedToOwnPath | migrations/versions/0074_career_path_versions.py:142-152 | Every enrolment is pinned to version 1 of its own path and otherwise unchanged. |
| CareerPaths.EverythingPinnedToOwnPath | migrations/versions/0074_career_path_versions.py:71-177 | Row by row: one version 1 per path, published exactly if the path is; every stage, item, enrolment and readiness snapshot pinned to the version 1 of its own path, with its other columns unchanged. |
| CareerPaths.CourseListsPreserved | migrations/versions/0070_career_path_stages.py:34-45 | Every path has exactly one ordered course list before 0070, and after 0070 and 0074 it has exactly one and the same. |
| CareerPaths.DowngradeIff | migrations/versions/0074_career_path_versions.py:193-286 | Every statement of the downgrade goes through exactly when there is no enrolment, no snapshot, and every stage and item belongs to a version 1. |
| CareerPaths.UpgradeThenDowngrade | migrations/versions/0074_career_path_versions.py:198-286 | Right after the upgrade the downgrade goes through exactly when there is no enrolment and no snapshot, and then gives back every table. |
| CareerPaths.RowsReturnToTheirPaths | migrations/versions/0074_career_path_versions.py:224-286 | Where the downgrade goes through, for any versioned tables: every stage and item is on the path of the version it was on, otherwise unchanged, and versions and pins are gone. |
| CareerPaths.EnrollmentBlocksDowngrade | migrations/versions/0074_career_path_versions.py:213-218 | One path and one enrolment: upgrade and downgrade fail together. |
| CareerPaths.CareerTables.AddStages | migrations/versions/0070_career_path_stages.py:157-191 | The INSERT and UPDATE of 0070 in place, establishing its constraints and the row-by-row result. |
| CareerPaths.CareerTables.AddVersions | migrations/versions/0074_career_path_versions.py:69-191 | The statements of 0074 in place, establishing its constraints and the row-by-row result. |
| CareerPaths.CareerTables.DropVersions | migrations/versions/0074_career_path_versions.py:193-286 | The downgrade statement by statement, any of which may raise: it commits exactly under that condition, to the tables with path ids restored, and otherwise changes nothing. |
| CourseRoles.CourseIsTitled | migrations/versions/0079_course_teacher_role.py:43-88 | In every course the owner's active teacher rows become instructors, else exactly the earliest by active_from and id; all other active teachers become assistants; a course with teachers has an instructor. |
| CourseRoles.InstructorsChosen | migrations/versions/0079_course_teacher_role.py:43-77 | Which rows the first two UPDATEs title, said without reference to them. |
| CourseRoles.RuleFollowed | migrations/versions/0079_course_teacher_role.py:43-88 | Each row's title read off the columns of the table before: none unless it is a live, unended, course-scoped row of the teacher role; instructor if it is the owner's, or the owner has no such row and it is first by active_from and id; else assistant. |
| CourseRoles.IndexIff | migrations/versions/0079_course_teacher_role.py:102-112 | The one-instructor index can be created exactly when no course owner has two active teacher rows on the course. |
| CourseRoles.OwnerTwiceBlocks | migrations/versions/0002_partial_unique_indexes.py:58-61 | Two active rows of the owner differing only in id satisfy the table's unique key and stop the migration. |
| CourseRoles.AssignmentTable.Upgrade | migrations/versions/0079_course_teacher_role.py:91-112 | The migration commits exactly when no course owner had two active teacher rows on the course; then all of this holds of the table, which otherwise keeps every row and column; else nothing changes. |
| LearningPrograms.AncestorRows | migrations/versions/0083_learning_programs.py:431-442 | On acyclic parent links the recursive query ends with exactly the live ancestors in order of depth. |
| LearningPrograms.QueryFindsNearest | migrations/versions/0083_learning_programs.py:443-448 | The row kept by DISTINCT ON is the nearest faculty ancestor-or-self, and there is none only if no live ancestor is a faculty. |
| LearningPrograms.NearestIffClimbed | migrations/versions/0083_learning_programs.py:431-448 | A faculty is the nearest exactly if a chain of parent links ends at it, through units none of which is deleted and none before it a faculty. |
| LearningPrograms.WalkToFaculty | migrations/versions/0083_learning_programs.py:431-448 | The upward iteration finds that row and ends. |
| LearningPrograms.PickEarliest | migrations/versions/0083_learning_programs.py:454-455 | The fallback is a live faculty of the organization with none created earlier, and is NULL only if there is none. |
| LearningPrograms.ChosenMeans | migrations/versions/0083_learning_programs.py:453-455 | A program's faculty, said of the units: where a climb from the path's unit ends; if there is no climb, a live faculty of the organization with none created earlier. |
| LearningPrograms.HomelessMeans | migrations/versions/0083_learning_programs.py:453-455 | The COALESCE is NULL exactly where there is neither a climb nor a live faculty of the organization. |
| LearningPrograms.LegacyFacultyCovers | migrations/versions/0083_learning_programs.py:409-428 | After the first INSERT every live organization with a live path has a faculty. |
| LearningPrograms.LegacyRows | migrations/versions/0083_learning_programs.py:409-428 | An organization gets a legacy faculty exactly if it is live, has a live path and no live faculty; what is inserted is a live faculty without a parent, with the legacy code. |
| LearningPrograms.InsertPrograms | migrations/versions/0083_learning_programs.py:449-462 | The program INSERT goes through exactly when no live path is without any faculty and every prefixed slug fits its column and is unique in its organization; then programs are the live paths, each with its nearest or else an earliest faculty. |
| LearningPrograms.SlugsInsertableIff | migrations/versions/0083_learning_programs.py:78-104 | Given the unique index on path slugs, and slugs not ending in a space, the prefixed slugs can be inserted exactly when no live slug is longer than 93 characters. |
| LearningPrograms.BackfillPrograms | migrations/versions/0083_learning_programs.py:409-463 | Both INSERTs together go through exactly when the legacy code is free where it is needed, no live path is stranded in a deleted organization and the slugs can be inserted; the nearest faculty is the one there was before the legacy ones; on failure nothing is added. |
| LearningPrograms.DeletedOrganizationCanBlock | migrations/versions/0083_learning_programs.py:416-421 | A database on which the migration stops: a live path of a deleted organization. |
| LearningPrograms.LongSlugCanBlock | migrations/versions/0083_learning_programs.py:456 | A database on which it stops at a slug of 94 characters, though the organization is live and has a faculty. |
| LearningPrograms.TakenCodeCanBlock | migrations/versions/0083_learning_programs.py:411-415 | A database on which it stops because a department carries the legacy faculty's code. |
| LearningPrograms.MigratedEnrollmentsValid | migrations/versions/0083_learning_programs.py:464-517 | For any rows the schema admits: migrated rows satisfy one enrolment per program and student and one active attempt per enrolment; an enrolment is migrated exactly when it, its version and that version's path are live; and the program references all resolve exactly when no such enrolment names a deleted path. |
| LearningPrograms.CarriedOverOnce | migrations/versions/0083_learning_programs.py:485-517 | Every migrated row has exactly one program enrolment and exactly one attempt, with its id, path, version and student; they are active, completed, or withdrawn and cancelled exactly when the row is active, completed or dropped. |
| LearningPrograms.NobodyElseCarriedOver | migrations/versions/0083_learning_programs.py:485-500 | Every program enrolment is the one of a live row on a live version of a live path. |
| LearningPrograms.AgreeingEnrollmentsMigrate | migrations/versions/0083_learning_programs.py:485-500 | Where every enrolment's version belongs to its path, the references all resolve, each enrolment is on a version of its own program, and exactly the live enrolments on live versions of live paths are migrated. |
| LearningPrograms.DeletedVersionNotCarriedOver | migrations/versions/0083_learning_programs.py:476-500 | Concretely: an active student on a deleted version is not migrated. |
| LearningPrograms.DisagreeingEnrollmentCanBlock | migrations/versions/0083_learning_programs.py:485-500 | Concretely: an enrolment naming a deleted path stops the migration. |
| CostBackfill.PreviewIsExact | scripts/backfill_ai_call_costs.py:33-66 | However rows are grouped, the previewed total is the exact cost of the rows the UPDATE touches, and the count is their number. |
| CostBackfill.RowIsPriced | scripts/backfill_ai_call_costs.py:54-66 | Row by row: a call without a cost, with input tokens recorded, of the chosen model if any, and with a rate, gets input tokens at the input rate plus output tokens at the output rate per million, to six decimals; every other row and column stays. |
| CostBackfill.PerMillionTokens | scripts/backfill_ai_call_costs.py:57-58 | Rates are per million tokens, the input rate for input and the output rate for output. |
| CostBackfill.StoredNearExact | scripts/backfill_ai_call_costs.py:54-66 | What is stored differs from that by at most 0.0000005 USD per row. |
| CostBackfill.SecondRunUpdatesNothing | scripts/backfill_ai_call_costs.py:61-65 | A second run has no row to update, and priced rows are never rewritten. |
| CostBackfill.CallTable.Backfill | scripts/backfill_ai_call_costs.py:83-129 | The totals loop announces that total and count, lists exactly the models without a rate, and the table is backfilled unless it is a dry run. |
| LatexEscape.RoundTrip | scripts/gen_api_tables.py:66-85 | Reading the output the way LaTeX sets it, commands and control symbols spelled out, recovers every text. |
| LatexEscape.LeadingFinds | scripts/gen_api_tables.py:73-84 | No codeword begins another: the first one is recognised whatever follows. |
| LatexEscape.EscapeInjective | scripts/gen_api_tables.py:66-85 | Different texts are never escaped alike. |
| LatexEscape.SpecialsAreInsideCodewords | scripts/gen_api_tables.py:66-85 | A special character in the output lies inside the codeword of a special character of the input. |
| EmbeddingBackfill.Run | scripts/backfill_interview_question_embeddings.py:83-135 | Against a store that writes any subset of each page the loop ends; each page is the oldest missing rows up to the batch size; attempted is the rows of all pages, stored the drop in missing questions and at most attempted; and if all attempts were stored nothing is missing. |
| EmbeddingBackfill.RunForExitCode | scripts/backfill_interview_question_embeddings.py:150-178 | For any batch size, the exit code is 1 exactly when questions were missing, the size was not zero, and nothing was written. |

## Left out

- Cancellation, process interrupts and a database outage inside the budget check of the rebuild; run ids are taken as distinct, one per candidate.
- Costs of the rebuild's runs are fixed non-negative integers in one decimal unit; `Decimal` NaN and infinity are not modelled.
- The Concept counts, the Neo4j client, candidate discovery and the builder itself: they enter as parameters or as the arbitrary outcome of a rebuild.
- `asyncio` wakes semaphore and lock waiters in order; the model lets any waiter go first, which covers more schedules.
- The cache's thread lock makes each method one step; a stored None, which callers cannot tell from a miss, is not distinguished from other values.
- Clock readings, lifetimes and JSON floats are real numbers: rounding, NaN and infinity are not modelled, nor the overflow of an integer too large for a float.
- Python's `int()` and `float()` on strings are parameters, and trimming and lowering of environment values cover ASCII.
- Normalisation, removal of combining marks, folding and lowering in `slugify` are one abstract character map that keeps slug characters; 0086's own SQL transliteration is not modelled, only its numbering.
- The length limit of the slug columns in `unique_slug` and 0086: a suffix can exceed 100 characters, which the database would refuse.
- Migration 0087's parking UPDATE is taken to succeed: no live slug is a placeholder already.
- Locking and triggers of PostgreSQL; each statement reads one snapshot of its tables.
- Migration 0070's downgrade and the policy, title and timestamp columns of stages and versions.
- In migration 0083: course completion awards, permission seeds, and the downgrade.
- AgreeingEnrollmentsMigrate: assumes what the two separate foreign keys of an enrolment do not say, that its version belongs to its path; `MigratedEnrollmentsValid` does without.
- `_collect`, `_prefix_of` and the table layout of `gen_api_tables.py`: counting and string assembly.
- Numeric overflow of the cost column and the printed report of the cost backfill.
- Concurrent edits of the question bank during the embedding backfill.

/** abridgeai/core/runtime_settings.py: the cached loader and the layered resolver. */
module SettingsResolver {
  import opened Prelude
  import opened SettingsStore
  import opened SettingsRegistry
  import SettingsCache
  import opened Slug

  /** The process environment, with Python's own `int()` and `float()` on strings left abstract. */
  datatype Environment = Environment(
    vars: map<string, string>,
    parseInt: string -> Option<int>,
    parseFloat: string -> Option<real>)

  /** What `str.strip` removes, within ASCII. */
  predicate IsSpace(c: char) {
    '\t' <= c <= '\r' || 28 <= c as int <= 32
  }

  function TrimLeft(s: string): string {
    if s != [] && IsSpace(s[0]) then TrimLeft(s[1..]) else s
  }

  function TrimRight(s: string): string {
    if s != [] && IsSpace(s[|s| - 1]) then TrimRight(s[..|s| - 1]) else s
  }

  function Strip(s: string): string { TrimRight(TrimLeft(s)) }

  function Lower(s: string): string {
    seq(|s|, i requires 0 <= i < |s| => if 'A' <= s[i] <= 'Z' then s[i] - 'A' + 'a' else s[i])
  }

  /** `_env_override`: None when unset, blank or malformed. */
  function EnvOverride(env: Environment, spec: SettingSpec): Option<Setting> {
    if spec.envVar.None? || spec.envVar.value !in env.vars then None
    else
      var text := Strip(env.vars[spec.envVar.value]);
      if text == [] then None
      else
        match spec.kind
        case BoolSetting =>
          if Lower(text) in ["1", "true", "yes", "on"] then Some(BoolValue(true))
          else if Lower(text) in ["0", "false", "no", "off"] then Some(BoolValue(false))
          else None
        case IntSetting =>
          (match env.parseInt(text) case Some(i) => Some(IntValue(i)) case None => None)
        case FloatSetting =>
          (match env.parseFloat(text) case Some(r) => Some(FloatValue(r)) case None => None)
  }

  /** Levels 3 and 4: environment, then default. */
  function Fallback(env: Environment, spec: SettingSpec): Setting {
    match EnvOverride(env, spec)
    case Some(v) => v
    case None => spec.default
  }

  /** A stored value, if there is one and it still satisfies its spec. */
  function Usable(registry: Registry, key: string, stored: Option<Json>): Option<Setting> {
    match stored
    case None => None
    case Some(value) =>
      match CoerceAndValidate(registry, key, value)
      case Ok(v) => Some(v)
      case Err(_) => None
  }

  function FirstSome(levels: seq<Option<Setting>>, last: Setting): Setting {
    if levels == [] then last
    else if levels[0].Some? then levels[0].value
    else FirstSome(levels[1..], last)
  }

  /** The rows `_load_rows` hands over; None when loading raised. */
  function StoredFor(table: Option<seq<Row>>, org: Option<nat>): Dict {
    if table.Some? then Merged(table.value, org) else map[]
  }

  function OwnRow(table: Option<seq<Row>>, org: Option<nat>, key: string): Option<Json> {
    if table.None? || org.None? then None else LastValue(table.value, org, key)
  }

  function GlobalRow(table: Option<seq<Row>>, key: string): Option<Json> {
    if table.None? then None else LastValue(table.value, None, key)
  }

  /** The stored value the code looks at: the organization's if it has one, else the global one. */
  function Visible(table: Option<seq<Row>>, org: Option<nat>, key: string): Option<Json> {
    var own := OwnRow(table, org, key);
    if own.Some? then own else GlobalRow(table, key)
  }

  /** The layered lookup the code performs: the shadowing row only, then environment and default. */
  function Resolved(registry: Registry, env: Environment, table: Option<seq<Row>>, org: Option<nat>, key: string): Setting
    requires key in registry
  {
    FirstSome([Usable(registry, key, Visible(table, org, key)), EnvOverride(env, registry[key])], registry[key].default)
  }

  /** The precedence the module documents: a row that no longer satisfies its spec is discarded
      in favour of the next level down, which for an organization's row is the global row. */
  function Documented(registry: Registry, env: Environment, table: Option<seq<Row>>, org: Option<nat>, key: string): Setting
    requires key in registry
  {
    FirstSome([Usable(registry, key, OwnRow(table, org, key)),
               Usable(registry, key, GlobalRow(table, key)),
               EnvOverride(env, registry[key])],
              registry[key].default)
  }

  /** The guard of the case where code and documentation part: the organization's row is stored
      but rejected, and the global row would be accepted. */
  predicate RejectedRowHidesGlobal(registry: Registry, table: Option<seq<Row>>, org: Option<nat>, key: string) {
    && OwnRow(table, org, key).Some?
    && Usable(registry, key, OwnRow(table, org, key)).None?
    && Usable(registry, key, GlobalRow(table, key)).Some?
  }

  lemma FirstSomeUnfolds(a: Option<Setting>, b: Option<Setting>, c: Option<Setting>, last: Setting)
    ensures FirstSome([a, b], last) == if a.Some? then a.value else if b.Some? then b.value else last
    ensures FirstSome([a, b, c], last) == if a.Some? then a.value else FirstSome([b, c], last)
  {
    assert [a, b][1..] == [b] && [a, b, c][1..] == [b, c];
    assert [b][1..] == [];
    assert FirstSome([b], last) == if b.Some? then b.value else last;
    assert [b, c][1..] == [c];
  }

  /** The code agrees with its documented precedence except in that case, and there it returns the
      fallback instead of the global value. */
  lemma ResolvedAgainstDocumented(registry: Registry, env: Environment, table: Option<seq<Row>>, org: Option<nat>, key: string)
    requires key in registry
    ensures var hidden := Usable(registry, key, GlobalRow(table, key));
      if RejectedRowHidesGlobal(registry, table, org, key) then
        && Resolved(registry, env, table, org, key) == Fallback(env, registry[key])
        && Documented(registry, env, table, org, key) == hidden.value
      else
        Resolved(registry, env, table, org, key) == Documented(registry, env, table, org, key)
  {
    var own, global := OwnRow(table, org, key), GlobalRow(table, key);
    var e, d := EnvOverride(env, registry[key]), registry[key].default;
    FirstSomeUnfolds(Usable(registry, key, own), Usable(registry, key, global), e, d);
    FirstSomeUnfolds(Usable(registry, key, global), e, e, d);
    FirstSomeUnfolds(Usable(registry, key, own), e, e, d);
  }

  /** Concretely: an integer setting from 1 to 365, 10 for the deployment and 400 for one
      organization, whose users get the default instead of 10. */
  lemma RejectedRowCanHideGlobal() returns (registry: Registry, env: Environment, table: seq<Row>)
    ensures "days" in registry && registry["days"] == SettingSpec(IntSetting, IntValue(30), None, Some(1.0), Some(365.0))
    ensures table == [Row("days", JInt(10), None), Row("days", JInt(400), Some(1))]
    ensures Resolved(registry, env, Some(table), Some(1), "days") == IntValue(30)
    ensures Documented(registry, env, Some(table), Some(1), "days") == IntValue(10)
  {
    registry := map["days" := SettingSpec(IntSetting, IntValue(30), None, Some(1.0), Some(365.0))];
    env := Environment(map[], _ => None, _ => None);
    table := [Row("days", JInt(10), None), Row("days", JInt(400), Some(1))];
    assert table[..1] == [Row("days", JInt(10), None)];
    assert OwnRow(Some(table), Some(1), "days") == Some(JInt(400));
    assert GlobalRow(Some(table), "days") == Some(JInt(10));
    ResolvedAgainstDocumented(registry, env, Some(table), Some(1), "days");
  }

  /** A resolved value is a stored one that meets its spec, or the environment's, or the default. */
  lemma ResolvedIsTypedOrFallback(registry: Registry, env: Environment, table: Option<seq<Row>>, org: Option<nat>, key: string)
    requires key in registry && registry[key].default.HasType(registry[key].kind)
    ensures var v := Resolved(registry, env, table, org, key);
      && v.HasType(registry[key].kind)
      && (registry[key].Meets(v) || v == Fallback(env, registry[key]))
  {
    var stored := Visible(table, org, key);
    FirstSomeUnfolds(Usable(registry, key, stored), EnvOverride(env, registry[key]), None, registry[key].default);
    if stored.Some? {
      AcceptedExactlyWhenAcceptable(registry, key, stored.value);
    }
  }

  /** A resolved value meets its spec exactly when the visible stored value is usable or the
      fallback meets it.  With a default in order that leaves one way to fail: no usable stored
      value, and an environment number out of bounds. */
  lemma ResolvedMeetsIff(registry: Registry, env: Environment, table: Option<seq<Row>>, org: Option<nat>, key: string)
    requires key in registry
    ensures var spec, stored := registry[key], Usable(registry, key, Visible(table, org, key));
      var e := EnvOverride(env, spec);
      && (spec.Meets(Resolved(registry, env, table, org, key)) <==> stored.Some? || spec.Meets(Fallback(env, spec)))
      && (spec.Meets(spec.default) ==>
            (spec.Meets(Resolved(registry, env, table, org, key)) <==>
              stored.Some? || e.None? || e.value.BoolValue? || spec.InBounds(e.value.Number())))
  {
    var stored := Visible(table, org, key);
    FirstSomeUnfolds(Usable(registry, key, stored), EnvOverride(env, registry[key]), None, registry[key].default);
    if stored.Some? {
      AcceptedExactlyWhenAcceptable(registry, key, stored.value);
    }
  }

  /** ASCII white space, by code. */
  ghost predicate Blank(s: string) {
    forall i :: 0 <= i < |s| ==> s[i] as int in {9, 10, 11, 12, 13, 28, 29, 30, 31, 32}
  }

  /** No white space at either end. */
  ghost predicate Bare(s: string) {
    s == "" || (!Blank([s[0]]) && !Blank([s[|s| - 1]]))
  }

  lemma IsBlank(c: char)
    ensures IsSpace(c) <==> Blank([c])
  {
    assert [c][0] == c;
  }

  lemma {:induction false} TrimsLeft(left: string, rest: string)
    requires Blank(left) && (rest == "" || !Blank([rest[0]]))
    ensures TrimLeft(left + rest) == rest
  {
    if left == "" {
      assert left + rest == rest;
      if rest != "" {
        IsBlank(rest[0]);
      }
    } else {
      IsBlank(left[0]);
      assert (left + rest)[1..] == left[1..] + rest;
      TrimsLeft(left[1..], rest);
    }
  }

  lemma {:induction false} TrimsRight(core: string, right: string)
    requires Blank(right) && (core == "" || !Blank([core[|core| - 1]]))
    ensures TrimRight(core + right) == core
  {
    if right == "" {
      assert core + right == core;
      if core != "" {
        IsBlank(core[|core| - 1]);
      }
    } else {
      var n := |right| - 1;
      IsBlank(right[n]);
      assert (core + right)[..|core| + n] == core + right[..n];
      TrimsRight(core, right[..n]);
    }
  }

  lemma StripsTo(left: string, core: string, right: string)
    requires Blank(left) && Bare(core) && Blank(right)
    ensures Strip(left + core + right) == core
  {
    if core == "" {
      assert left + core + right == (left + right) + "";
      TrimsLeft(left + right, "");
    } else {
      assert left + core + right == left + (core + right);
      TrimsLeft(left, core + right);
      TrimsRight(core, right);
    }
  }

  /** Every text is white space around a bare core, so the lemmas below cover every variable. */
  lemma {:induction false} TextHasCore(text: string) returns (left: string, core: string, right: string)
    ensures text == left + core + right && Blank(left) && Bare(core) && Blank(right)
  {
    if text == "" {
      left, core, right := "", "", "";
    } else if Blank([text[0]]) {
      left, core, right := TextHasCore(text[1..]);
      left := [text[0]] + left;
      assert text == [text[0]] + text[1..];
      assert [text[0]][0] == text[0];
    } else if Blank([text[|text| - 1]]) {
      var n := |text| - 1;
      left, core, right := TextHasCore(text[..n]);
      right := right + [text[n]];
      assert text == text[..n] + [text[n]];
      assert [text[n]][0] == text[n];
    } else {
      left, core, right := "", text, "";
    }
  }

  /** `core` is `word`, whatever the case of its letters; `word` itself is in lower case. */
  ghost predicate Spells(core: string, word: string) {
    |core| == |word|
    && forall i :: 0 <= i < |word| ==>
         core[i] == word[i] || ('a' <= word[i] <= 'z' && core[i] as int == word[i] as int - 32)
  }

  ghost predicate LowerCase(word: string) {
    forall i :: 0 <= i < |word| ==> !('A' <= word[i] <= 'Z')
  }

  lemma LowerSpells(core: string, word: string)
    requires LowerCase(word)
    ensures Lower(core) == word <==> Spells(core, word)
  {
    if Lower(core) == word {
      forall i | 0 <= i < |word|
        ensures core[i] == word[i] || ('a' <= word[i] <= 'z' && core[i] as int == word[i] as int - 32)
      {
        assert Lower(core)[i] == word[i];
      }
    }
    if Spells(core, word) {
      assert forall i :: 0 <= i < |word| ==> Lower(core)[i] == word[i];
    }
  }

  ghost predicate SpellsTrue(core: string) {
    Spells(core, "1") || Spells(core, "true") || Spells(core, "yes") || Spells(core, "on")
  }

  ghost predicate SpellsFalse(core: string) {
    Spells(core, "0") || Spells(core, "false") || Spells(core, "no") || Spells(core, "off")
  }

  lemma BooleanSpellings(core: string)
    ensures Lower(core) in ["1", "true", "yes", "on"] <==> SpellsTrue(core)
    ensures Lower(core) in ["0", "false", "no", "off"] <==> SpellsFalse(core)
    ensures SpellsTrue(core) ==> !SpellsFalse(core) && core != ""
    ensures SpellsFalse(core) ==> core != ""
  {
    LowerSpells(core, "1");
    LowerSpells(core, "true");
    LowerSpells(core, "yes");
    LowerSpells(core, "on");
    LowerSpells(core, "0");
    LowerSpells(core, "false");
    LowerSpells(core, "no");
    LowerSpells(core, "off");
  }

  /** What an environment variable decides where no stored value does: the eight spellings in any
      case and with any white space around them are the two booleans, other texts of a boolean
      setting leave the default; a number is what Python reads in the bare text, and where it reads
      none, or the text is blank, the default stays. */
  lemma ResolvedFromVariable(registry: Registry, env: Environment, table: Option<seq<Row>>, org: Option<nat>, key: string,
                             left: string, core: string, right: string)
    requires key in registry && Usable(registry, key, Visible(table, org, key)).None?
    requires registry[key].envVar.Some? && registry[key].envVar.value in env.vars
    requires env.vars[registry[key].envVar.value] == left + core + right && Blank(left) && Bare(core) && Blank(right)
    ensures var spec, v := registry[key], Resolved(registry, env, table, org, key);
      match spec.kind
      case BoolSetting =>
        v == if SpellsTrue(core) then BoolValue(true) else if SpellsFalse(core) then BoolValue(false) else spec.default
      case IntSetting =>
        v == if core != "" && env.parseInt(core).Some? then IntValue(env.parseInt(core).value) else spec.default
      case FloatSetting =>
        v == if core != "" && env.parseFloat(core).Some? then FloatValue(env.parseFloat(core).value) else spec.default
  {
    StripsTo(left, core, right);
    BooleanSpellings(core);
    FirstSomeUnfolds(None, EnvOverride(env, registry[key]), None, registry[key].default);
  }

  /** Without a variable, or with the variable unset, it is the default. */
  lemma ResolvedWithoutVariable(registry: Registry, env: Environment, table: Option<seq<Row>>, org: Option<nat>, key: string)
    requires key in registry && Usable(registry, key, Visible(table, org, key)).None?
    requires registry[key].envVar.None? || registry[key].envVar.value !in env.vars
    ensures Resolved(registry, env, table, org, key) == registry[key].default
  {
    FirstSomeUnfolds(None, EnvOverride(env, registry[key]), None, registry[key].default);
  }

  /** With an accepted stored value, the environment has no say. */
  lemma ResolvedFromStoredValue(registry: Registry, env: Environment, table: Option<seq<Row>>, org: Option<nat>, key: string)
    requires key in registry && Visible(table, org, key).Some?
    requires CoerceAndValidate(registry, key, Visible(table, org, key).value).Ok?
    ensures Ok(Resolved(registry, env, table, org, key)) == CoerceAndValidate(registry, key, Visible(table, org, key).value)
  {
    FirstSomeUnfolds(Usable(registry, key, Visible(table, org, key)), None, None, registry[key].default);
  }

  /** An integer as an operator writes it. */
  function IntText(n: int): string {
    if n < 0 then "-" + Decimal(-n) else Decimal(n)
  }

  /** What is known of Python's `int()`: it reads plain decimals. */
  ghost predicate ReadsDecimals(parseInt: string -> Option<int>) {
    forall n: int :: parseInt(IntText(n)) == Some(n)
  }

  lemma IntTextIsBare(n: int)
    ensures IntText(n) != [] && Strip(IntText(n)) == IntText(n)
  {
    DecimalReadsBack(if n < 0 then -n else n);
    assert !IsSpace(IntText(n)[0]) && !IsSpace(IntText(n)[|IntText(n)| - 1]);
  }

  /** Bounds are not enforced on the environment: without a usable stored value the integer a
      variable holds is served, whatever the spec's bounds. */
  lemma EnvironmentIsUnbounded(registry: Registry, env: Environment, table: Option<seq<Row>>, org: Option<nat>, key: string, n: int)
    requires key in registry && registry[key].kind == IntSetting && ReadsDecimals(env.parseInt)
    requires registry[key].envVar.Some? && registry[key].envVar.value in env.vars && env.vars[registry[key].envVar.value] == IntText(n)
    requires Usable(registry, key, Visible(table, org, key)).None?
    ensures Resolved(registry, env, table, org, key) == IntValue(n)
    ensures registry[key].Meets(Resolved(registry, env, table, org, key)) <==> registry[key].InBounds(n as real)
  {
    IntTextIsBare(n);
    assert env.parseInt(IntText(n)) == Some(n);
    FirstSomeUnfolds(None, EnvOverride(env, registry[key]), None, registry[key].default);
  }

  /** A reader of plain decimals. */
  function ReadInt(text: string): Option<int> {
    if text != [] && text[0] == '-' then
      if AllDigits(text[1..]) then Some(-ValueOf(text[1..])) else None
    else if AllDigits(text) then Some(ValueOf(text))
    else None
  }

  predicate AllDigits(text: string) {
    text != [] && forall i :: 0 <= i < |text| ==> '0' <= text[i] <= '9'
  }

  lemma ReadIntReadsDecimals()
    ensures ReadsDecimals(ReadInt)
  {
    forall n: int ensures ReadInt(IntText(n)) == Some(n) {
      DecimalReadsBack(if n < 0 then -n else n);
      assert n < 0 ==> IntText(n)[1..] == Decimal(-n);
    }
  }

  /** Concretely: a setting from 1 to 365, an empty table, and a variable set to 400. */
  lemma EnvironmentCanExceedBounds() returns (registry: Registry, env: Environment)
    ensures "days" in registry && registry["days"] == SettingSpec(IntSetting, IntValue(30), Some("DAYS"), Some(1.0), Some(365.0))
    ensures env.vars == map["DAYS" := "400"] && ReadsDecimals(env.parseInt)
    ensures Resolved(registry, env, Some([]), None, "days") == IntValue(400)
    ensures !registry["days"].Meets(Resolved(registry, env, Some([]), None, "days"))
  {
    registry := map["days" := SettingSpec(IntSetting, IntValue(30), Some("DAYS"), Some(1.0), Some(365.0))];
    env := Environment(map["DAYS" := "400"], ReadInt, _ => None);
    ReadIntReadsDecimals();
    assert Decimal(4) == "4" && Decimal(40) == "40" && IntText(400) == "400";
    EnvironmentIsUnbounded(registry, env, Some([]), None, "days", 400);
  }

  class RuntimeSettings {
    var cache: map<Option<nat>, Dict>
    var cacheLoadedAt: map<Option<nat>, real>

    constructor ()
      ensures View() == SettingsCache.EMPTY_CACHE
    {
      cache, cacheLoadedAt := map[], map[];
    }

    function View(): SettingsCache.Cache
      reads this
    {
      SettingsCache.Cache(cache, cacheLoadedAt)
    }

    /** `invalidate_settings_cache`. */
    method Invalidate()
      modifies this
      ensures View() == SettingsCache.EMPTY_CACHE
    {
      cache := map[];
      cacheLoadedAt := map[];
    }

    /** `_load_rows` up to its await: the cached rows, or None when the table must be read. */
    method TryCache(org: Option<nat>, now: real) returns (rows: Option<Dict>)
      ensures rows == if SettingsCache.IsFresh(View(), org, now) then Some(View().rows[org]) else None
    {
      var loadedAt := if org in cacheLoadedAt then cacheLoadedAt[org] else 0.0;
      if org in cache && now - loadedAt < SettingsCache.CACHE_TTL_SECONDS {
        return Some(cache[org]);
      }
      return None;
    }

    /** `_load_rows` after its await, with the clock reading taken before it. */
    method StoreRows(org: Option<nat>, now: real, table: seq<Row>) returns (merged: Dict)
      modifies this
      ensures merged == Merged(table, org)
      ensures View() == SettingsCache.Stored(old(View()), org, now, merged)
    {
      merged := MergeRows(table, org);
      cache := cache[org := merged];
      cacheLoadedAt := cacheLoadedAt[org := now];
    }
  }

  /** The loop of `resolve_settings` over the rows it was given: a complete mapping, each key
      resolved through the layers. */
  method ResolveSettings(registry: Registry, env: Environment, ghost table: Option<seq<Row>>, ghost org: Option<nat>, stored: Dict)
      returns (resolved: map<string, Setting>)
    requires stored == StoredFor(table, org)
    ensures resolved.Keys == registry.Keys
    ensures forall key :: key in registry ==> resolved[key] == Resolved(registry, env, table, org, key)
  {
    resolved := map[];
    var remaining := registry.Keys;
    while remaining != {}
      invariant remaining <= registry.Keys
      invariant resolved.Keys == registry.Keys - remaining
      invariant forall key :: key in resolved ==> resolved[key] == Resolved(registry, env, table, org, key)
      decreases remaining
    {
      var key :| key in remaining;
      var spec := registry[key];
      var value := spec.default;
      var found := false;
      if key in stored {
        match CoerceAndValidate(registry, key, stored[key]) {
          case Ok(v) => value, found := v, true;
          case Err(_) =>
        }
      }
      if !found {
        var envValue := EnvOverride(env, spec);
        value := if envValue.Some? then envValue.value else spec.default;
      }
      ResolvedFromStored(registry, env, table, org, key);
      resolved := resolved[key := value];
      remaining := remaining - {key};
    }
  }

  /** Reading the merged dictionary amounts to the layered lookup. */
  lemma ResolvedFromStored(registry: Registry, env: Environment, table: Option<seq<Row>>, org: Option<nat>, key: string)
    requires key in registry
    ensures var stored := StoredFor(table, org);
      var usable := Usable(registry, key, if key in stored then Some(stored[key]) else None);
      Resolved(registry, env, table, org, key) == if usable.Some? then usable.value else Fallback(env, registry[key])
  {
    if table.Some? {
      OrgRowShadowsGlobal(table.value, org, key);
    }
    FirstSomeUnfolds(Usable(registry, key, Visible(table, org, key)), EnvOverride(env, registry[key]), None,
                     registry[key].default);
  }

  /** `resolved` is the layered lookup over the table as it stood after `events`, with the clock at
      `since` or later. */
  ghost predicate LayeredAt(registry: Registry, env: Environment, s0: SettingsCache.State, events: seq<SettingsCache.Event>,
                            since: real, org: Option<nat>, resolved: map<string, Setting>)
  {
    var s := SettingsCache.After(s0, events);
    && s.Some? && s.value.clock >= since
    && resolved.Keys == registry.Keys
    && forall key :: key in registry ==> resolved[key] == Resolved(registry, env, Some(s.value.table), org, key)
  }

  /** `resolve_settings` on rows that `_load_rows` served, from the cache or from the table, whatever
      loads, writes and invalidations interleaved: every value is the layered lookup over one and the
      same table, as it stood at some moment no earlier than 30 s before the call read the clock. */
  method ResolveServed(registry: Registry, env: Environment, ghost clock: real, ghost table: seq<Row>,
                       ghost events: seq<SettingsCache.Event>, ghost e: SettingsCache.Event, served: SettingsCache.Served)
      returns (resolved: map<string, Setting>)
    requires var s := SettingsCache.After(SettingsCache.Start(clock, table), events);
      s.Some? && SettingsCache.Possible(s.value, e) && SettingsCache.Serves(s.value, e) == Some(served)
    ensures exists j :: 0 <= j <= |events|
              && LayeredAt(registry, env, SettingsCache.Start(clock, table), events[..j],
                           served.now - SettingsCache.CACHE_TTL_SECONDS, served.org, resolved)
  {
    ghost var s0 := SettingsCache.Start(clock, table);
    ghost var since := served.now - SettingsCache.CACHE_TTL_SECONDS;
    SettingsCache.StalenessBounded(clock, table, events, e);
    ghost var j :| 0 <= j <= |events| && SettingsCache.IsContentAt(s0, events[..j], since, served.org, served.rows);
    ghost var content := Some(SettingsCache.After(s0, events[..j]).value.table);
    resolved := ResolveSettings(registry, env, content, served.org, served.rows);
    assert LayeredAt(registry, env, s0, events[..j], since, served.org, resolved);
  }
}

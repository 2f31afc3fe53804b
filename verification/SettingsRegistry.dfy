/** Specs and validation from abridgeai/core/settings_registry.py. */
module SettingsRegistry {
  import opened Prelude
  import opened SettingsStore

  datatype SettingType = BoolSetting | IntSetting | FloatSetting

  datatype Setting = BoolValue(b: bool) | IntValue(i: int) | FloatValue(r: real) {
    function Json(): Json {
      match this
      case BoolValue(b) => JBool(b)
      case IntValue(i) => JInt(i)
      case FloatValue(r) => JFloat(r)
    }

    predicate HasType(t: SettingType) {
      match t
      case BoolSetting => BoolValue?
      case IntSetting => IntValue?
      case FloatSetting => FloatValue?
    }

    function Number(): real
      requires !BoolValue?
    {
      if IntValue? then i as real else r
    }
  }

  datatype SettingSpec = SettingSpec(
    kind: SettingType,
    default: Setting,
    envVar: Option<string>,
    minimum: Option<real>,
    maximum: Option<real>)
  {
    predicate InBounds(x: real) {
      (minimum.Some? ==> minimum.value <= x) && (maximum.Some? ==> x <= maximum.value)
    }

    /** What a spec promises of a value: its type, and for numbers its bounds. */
    predicate Meets(v: Setting) {
      v.HasType(kind) && (!v.BoolValue? ==> InBounds(v.Number()))
    }
  }

  type Registry = map<string, SettingSpec>

  datatype ValidationError = UnknownSetting | NotBool | NotNumber | NotWhole | BelowMinimum | AboveMaximum

  /** Python's `int()` of a float: towards zero. */
  function Truncate(r: real): int {
    if r >= 0.0 then r.Floor else -(-r).Floor
  }

  function CheckBounds(spec: SettingSpec, v: Setting): Result<Setting, ValidationError>
    requires !v.BoolValue?
  {
    if spec.minimum.Some? && v.Number() < spec.minimum.value then Err(BelowMinimum)
    else if spec.maximum.Some? && v.Number() > spec.maximum.value then Err(AboveMaximum)
    else Ok(v)
  }

  function CoerceAndValidate(registry: Registry, key: string, value: Json): Result<Setting, ValidationError> {
    if key !in registry then Err(UnknownSetting)
    else
      var spec := registry[key];
      if spec.kind == BoolSetting then
        if value.JBool? then Ok(BoolValue(value.b)) else Err(NotBool)
      else if value.JBool? || value.JOther? then Err(NotNumber)
      else if spec.kind == IntSetting then
        var number := if value.JInt? then value.i else Truncate(value.r);
        if value.JFloat? && value.r != number as real then Err(NotWhole)
        else CheckBounds(spec, IntValue(number))
      else
        CheckBounds(spec, FloatValue(if value.JInt? then value.i as real else value.r))
  }

  /** The number a JSON value stands for; a JSON boolean is not a number. */
  ghost predicate Denotes(value: Json, x: real) {
    match value
    case JInt(i) => i as real == x
    case JFloat(r) => r == x
    case _ => false
  }

  ghost predicate DenotesWhole(value: Json, n: int) {
    Denotes(value, n as real)
  }

  /** What is acceptable for a spec, said without reference to how it is checked. */
  ghost predicate Acceptable(spec: SettingSpec, value: Json) {
    match spec.kind
    case BoolSetting => value.JBool?
    case IntSetting => exists n: int :: DenotesWhole(value, n) && spec.InBounds(n as real)
    case FloatSetting => exists x: real :: Denotes(value, x) && spec.InBounds(x)
  }

  lemma TruncateWhole(n: int)
    ensures Truncate(n as real) == n
  {
    if n < 0 {
      assert (-(n as real)) == (-n) as real;
    }
  }

  /** A value is accepted exactly when it is acceptable; what is returned then meets the spec and
      is the same boolean or number. */
  lemma {:induction false} AcceptedExactlyWhenAcceptable(registry: Registry, key: string, value: Json)
    ensures var result := CoerceAndValidate(registry, key, value);
      && (result.Ok? <==> key in registry && Acceptable(registry[key], value))
      && (result.Ok? ==>
            && registry[key].Meets(result.value)
            && if result.value.BoolValue? then value == JBool(result.value.b) else Denotes(value, result.value.Number()))
  {
    if key in registry && registry[key].kind == IntSetting && value.JFloat? {
      var spec := registry[key];
      if Acceptable(spec, value) {
        var n: int :| DenotesWhole(value, n) && spec.InBounds(n as real);
        TruncateWhole(n);
      }
    }
    if CoerceAndValidate(registry, key, value).Ok? {
      var v := CoerceAndValidate(registry, key, value).value;
      if !v.BoolValue? {
        assert Denotes(value, v.Number());
        if v.IntValue? {
          assert DenotesWhole(value, v.i);
        }
      }
    }
  }

  /** Which message a rejected value gets. */
  lemma RejectionReason(registry: Registry, key: string, value: Json)
    requires CoerceAndValidate(registry, key, value).Err?
    ensures var error := CoerceAndValidate(registry, key, value).error;
      if key !in registry then error == UnknownSetting
      else if registry[key].kind == BoolSetting then error == NotBool && !value.JBool?
      else if value.JBool? || value.JOther? then error == NotNumber
      else if registry[key].kind == IntSetting && value.JFloat? && value.r != value.r.Floor as real then error == NotWhole
      else
        exists x: real :: Denotes(value, x)
          && if registry[key].minimum.Some? && x < registry[key].minimum.value then error == BelowMinimum
             else error == AboveMaximum && registry[key].maximum.Some? && x > registry[key].maximum.value
  {
    if value.JInt? {
      assert Denotes(value, value.i as real);
    } else if value.JFloat? {
      assert Denotes(value, value.r);
      TruncateWhole(value.r.Floor);
    }
  }

  /** Validating an accepted value again returns it unchanged. */
  lemma AcceptedValuesAreFixed(registry: Registry, key: string, value: Json)
    requires CoerceAndValidate(registry, key, value).Ok?
    ensures var v := CoerceAndValidate(registry, key, value).value;
      CoerceAndValidate(registry, key, v.Json()) == Ok(v)
  {
    AcceptedExactlyWhenAcceptable(registry, key, value);
  }
}

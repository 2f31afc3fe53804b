/** The rows of system_settings and how one organization sees them. */
module SettingsStore {
  import opened Prelude

  /** A stored JSON value, as far as validation tells values apart. */
  datatype Json = JBool(b: bool) | JInt(i: int) | JFloat(r: real) | JOther

  /** One row; `org` is None for the deployment-wide default. */
  datatype Row = Row(key: string, value: Json, org: Option<nat>)

  type Dict = map<string, Json>

  /** The dictionary filled from the rows of one owner, later rows overwriting earlier ones. */
  function DictOf(rows: seq<Row>, owner: Option<nat>): Dict {
    if rows == [] then map[]
    else
      var last := rows[|rows| - 1];
      var before := DictOf(rows[..|rows| - 1], owner);
      if last.org == owner then before[last.key := last.value] else before
  }

  /** What `_load_rows` returns for one organization. */
  function Merged(rows: seq<Row>, org: Option<nat>): Dict {
    DictOf(rows, None) + if org.Some? then DictOf(rows, org) else map[]
  }

  /** The value the last row of this owner gives a key. */
  function LastValue(rows: seq<Row>, owner: Option<nat>, key: string): Option<Json> {
    if rows == [] then None
    else
      var last := rows[|rows| - 1];
      if last.org == owner && last.key == key then Some(last.value)
      else LastValue(rows[..|rows| - 1], owner, key)
  }

  lemma {:induction false} DictHoldsLastValue(rows: seq<Row>, owner: Option<nat>, key: string)
    ensures key in DictOf(rows, owner) <==> LastValue(rows, owner, key).Some?
    ensures key in DictOf(rows, owner) ==> DictOf(rows, owner)[key] == LastValue(rows, owner, key).value
  {
    if rows != [] {
      DictHoldsLastValue(rows[..|rows| - 1], owner, key);
    }
  }

  /** An organization's own row shadows the deployment-wide one; nobody else's row is seen. */
  lemma OrgRowShadowsGlobal(rows: seq<Row>, org: Option<nat>, key: string)
    ensures var own := if org.Some? then LastValue(rows, org, key) else None;
      var seen := if own.Some? then own else LastValue(rows, None, key);
      && (key in Merged(rows, org) <==> seen.Some?)
      && (seen.Some? ==> Merged(rows, org)[key] == seen.value)
  {
    DictHoldsLastValue(rows, None, key);
    DictHoldsLastValue(rows, org, key);
  }

  /** The row loop of `_load_rows` over the table, including its WHERE clause. */
  method MergeRows(rows: seq<Row>, org: Option<nat>) returns (merged: Dict)
    ensures merged == Merged(rows, org)
  {
    var globals: Dict := map[];
    var orgValues: Dict := map[];
    for i := 0 to |rows|
      invariant globals == DictOf(rows[..i], None)
      invariant orgValues == if org.Some? then DictOf(rows[..i], org) else map[]
    {
      assert rows[..i + 1][..i] == rows[..i];
      var row := rows[i];
      if row.org.None? {
        globals := globals[row.key := row.value];
      } else if row.org == org {
        orgValues := orgValues[row.key := row.value];
      }
    }
    assert rows[..|rows|] == rows;
    merged := globals + orgValues;
  }
}

/** Choosing the configured columns of a record and binding them to a statement, one
    statement a record (_LoadGeneric_callback in src/core/db/etl/load.c and
    DB_CDC_StageGeneric in src/core/db/etl/stage.c, which share their text). */
module EtlBinding {
  import opened Common
  import opened Strings
  import opened SqlBuilder

  /** MAX_COLUMN_NAME_LEN: labels are compared up to this length. */
  const MAX_COLUMN_NAME_LEN: nat := 256

  /** A statement and the columns bound to it, in order. */
  datatype Target = Target(sql: string, columns: seq<string>)

  ghost predicate Readable(record: seq<Field>) {
    forall i :: 0 <= i < |record| ==> NulFree(record[i].value)
  }

  function Prefix(s: string): string {
    if |s| <= MAX_COLUMN_NAME_LEN then s else s[..MAX_COLUMN_NAME_LEN]
  }

  /** strncmp over MAX_COLUMN_NAME_LEN characters. */
  predicate SameLabel(a: string, b: string) {
    Prefix(a) == Prefix(b)
  }

  // ----- what is bound -----

  /** The value bound for a field: the NULL marker if it is empty. */
  function BoundValue(value: string): string {
    if value == "" then MARKER else value
  }

  /** The value of the first field with the label, if there is one. */
  function ColumnValue(column: string, record: seq<Field>): Option<string> {
    if record == [] then None
    else if SameLabel(column, record[0].name) then Some(BoundValue(record[0].value))
    else ColumnValue(column, record[1..])
  }

  /** The values of the columns the record has; missing columns leave nothing behind. */
  function Selected(columns: seq<string>, record: seq<Field>): seq<string> {
    if columns == [] then []
    else
      match ColumnValue(columns[0], record)
      case None => Selected(columns[1..], record)
      case Some(v) => [v] + Selected(columns[1..], record)
  }

  ghost predicate HasAll(columns: seq<string>, record: seq<Field>) {
    forall i :: 0 <= i < |columns| ==> ColumnValue(columns[i], record).Some?
  }

  /** The statement run for a record, if any. */
  function Executed(target: Target, record: seq<Field>): Option<string> {
    var values := Selected(target.columns, record);
    if values == [] then None
    else
      match Format(target.sql, values)
      case Failed => None
      case Unchanged => Some(target.sql)
      case Formatted(text, _) => Some(text)
  }

  // ----- the loops -----

  lemma {:induction false} SelectedNulFree(columns: seq<string>, record: seq<Field>)
    requires Readable(record)
    ensures AllNulFree(Selected(columns, record))
  {
    if columns != [] {
      SelectedNulFree(columns[1..], record);
      ColumnNulFree(columns[0], record);
    }
  }

  lemma {:induction false} ColumnNulFree(column: string, record: seq<Field>)
    requires Readable(record)
    ensures ColumnValue(column, record).Some? ==>
              NulFree(ColumnValue(column, record).value) && ColumnValue(column, record).value != ""
  {
    if record != [] {
      ColumnNulFree(column, record[1..]);
    }
  }

  /** The inner loop: the first field with the label ends it. */
  method FindColumn(column: string, record: seq<Field>) returns (value: Option<string>)
    ensures value == ColumnValue(column, record)
  {
    var j := 0;
    assert record[0..] == record;
    while j < |record|
      invariant 0 <= j <= |record|
      invariant ColumnValue(column, record[j..]) == ColumnValue(column, record)
    {
      if SameLabel(column, record[j].name) {
        return Some(if |record[j].value| > 0 then record[j].value else MARKER);
      }
      assert record[j..][1..] == record[j + 1..];
      j := j + 1;
    }
    value := None;
  }

  /** The outer loop: values are appended as columns are found. */
  method SelectValues(columns: seq<string>, record: seq<Field>) returns (values: seq<string>)
    ensures values == Selected(columns, record)
  {
    values := [];
    var k := 0;
    assert columns[0..] == columns;
    while k < |columns|
      invariant 0 <= k <= |columns|
      invariant values + Selected(columns[k..], record) == Selected(columns, record)
    {
      assert columns[k..][1..] == columns[k + 1..];
      var value := FindColumn(columns[k], record);
      if value.Some? {
        assert values + ([value.value] + Selected(columns[k + 1..], record))
            == values + [value.value] + Selected(columns[k + 1..], record);
        values := values + [value.value];
      }
      k := k + 1;
    }
  }

  /** Loading or staging one record: at most one statement is run, and none when no column
      was found or the values are too few. */
  method ExecuteForRecord(target: Target, record: seq<Field>) returns (executed: Option<string>)
    requires NulFree(target.sql) && Readable(record)
    ensures executed == Executed(target, record)
  {
    var values := SelectValues(target.columns, record);
    if |values| > 0 {
      SelectedNulFree(target.columns, record);
      var r := DbQueryFormat(target.sql, values);
      executed := match r
        case Failed => None
        case Unchanged => Some(target.sql)
        case Formatted(text, _) => Some(text);
    } else {
      executed := None;
    }
  }

  /** One record against all targets (_CDC_LoadGeneric_callback). */
  method ExecuteForTargets(targets: seq<Target>, record: seq<Field>) returns (executed: seq<Option<string>>)
    requires Readable(record) && forall i :: 0 <= i < |targets| ==> NulFree(targets[i].sql)
    ensures |executed| == |targets|
    ensures forall i :: 0 <= i < |targets| ==> executed[i] == Executed(targets[i], record)
  {
    executed := [];
    for i := 0 to |targets|
      invariant |executed| == i
      invariant forall k :: 0 <= k < i ==> executed[k] == Executed(targets[k], record)
    {
      var e := ExecuteForRecord(targets[i], record);
      executed := executed + [e];
    }
  }

  // ----- no shifted values -----

  /** The value of each column, in order. */
  ghost function ColumnValues(columns: seq<string>, record: seq<Field>): seq<string>
    requires HasAll(columns, record)
  {
    seq(|columns|, i requires 0 <= i < |columns| => ColumnValue(columns[i], record).value)
  }

  lemma {:induction false} SelectedAll(columns: seq<string>, record: seq<Field>)
    ensures |Selected(columns, record)| <= |columns|
    ensures HasAll(columns, record) ==> Selected(columns, record) == ColumnValues(columns, record)
    ensures !HasAll(columns, record) ==> |Selected(columns, record)| < |columns|
  {
    if columns != [] {
      var rest := columns[1..];
      SelectedAll(rest, record);
      assert HasAll(columns, record) <==> ColumnValue(columns[0], record).Some? && HasAll(rest, record) by {
        assert forall i :: 0 <= i < |rest| ==> rest[i] == columns[i + 1];
        if ColumnValue(columns[0], record).Some? && HasAll(rest, record) {
          forall i | 0 <= i < |columns|
            ensures ColumnValue(columns[i], record).Some?
          {
            if i > 0 {
              assert rest[i - 1] == columns[i];
            }
          }
        }
      }
      if HasAll(columns, record) {
        assert ColumnValues(columns, record) == [ColumnValue(columns[0], record).value] + ColumnValues(rest, record);
      }
    }
  }

  /** With as many placeholders as columns, a record either runs the template with the i-th
      placeholder holding the value of the i-th column, or runs nothing; it runs nothing
      exactly when a configured column is missing from the record, or none is configured. */
  lemma NoShiftedValues(target: Target, record: seq<Field>)
    requires GoodTemplate(target.sql) && Placeholders(target.sql) == |target.columns| && Readable(record)
    ensures Executed(target, record).Some? <==> target.columns != [] && HasAll(target.columns, record)
    ensures Executed(target, record).Some? ==>
              Executed(target, record).value == NullPasses(Substitute(target.sql, ColumnValues(target.columns, record)))
  {
    var values := Selected(target.columns, record);
    SelectedAll(target.columns, record);
    SelectedNonempty(target.columns, record);
    if values != [] {
      HasPlaceholder(target.sql);
      if HasAll(target.columns, record) {
        FormatSubstitutes(target.sql, values);
      }
    }
  }

  lemma {:induction false} SelectedNonempty(columns: seq<string>, record: seq<Field>)
    requires Readable(record)
    ensures forall i :: 0 <= i < |Selected(columns, record)| ==> Selected(columns, record)[i] != ""
  {
    if columns != [] {
      SelectedNonempty(columns[1..], record);
      ColumnNulFree(columns[0], record);
    }
  }

  // ----- the same, label by label -----

  /** The first 256 characters of two labels agree. */
  ghost predicate Agree(a: string, b: string) {
    forall k :: 0 <= k < 256 ==> AgreeAt(a, b, k)
  }

  predicate AgreeAt(a: string, b: string, k: nat) {
    (k < |a| <==> k < |b|) && (k < |a| && k < |b| ==> a[k] == b[k])
  }

  lemma AgreeingLabels(a: string, b: string)
    ensures SameLabel(a, b) <==> Agree(a, b)
  {
    var p, q := Prefix(a), Prefix(b);
    forall k | 0 <= k < 256
      ensures (k < |p| <==> k < |a|) && (k < |q| <==> k < |b|)
      ensures (k < |p| ==> p[k] == a[k]) && (k < |q| ==> q[k] == b[k])
    {
    }
    if Agree(a, b) {
      SameLength(a, b);
      forall k | 0 <= k < |p|
        ensures p[k] == q[k]
      {
        assert AgreeAt(a, b, k);
      }
    }
  }

  lemma SameLength(a: string, b: string)
    requires Agree(a, b)
    ensures |Prefix(a)| == |Prefix(b)|
  {
    assert |a| < 256 ==> AgreeAt(a, b, |a|);
    assert |b| < 256 ==> AgreeAt(a, b, |b|);
  }

  /** The value of a column is that of the first field with its label, or the marker if that
      field is empty; a column without such a field has none. */
  lemma {:induction false} FirstWithLabel(column: string, record: seq<Field>, j: nat)
    requires j <= |record| && forall k :: 0 <= k < j ==> !Agree(column, record[k].name)
    requires j < |record| ==> Agree(column, record[j].name)
    ensures ColumnValue(column, record) ==
            if j == |record| then None
            else Some(if record[j].value == "" then "dcpamNULL" else record[j].value)
    decreases j
  {
    hide Agree, SameLabel;
    if record != [] {
      AgreeingLabels(column, record[0].name);
      if j > 0 {
        FirstWithLabel(column, record[1..], j - 1);
      }
    }
  }

  /** The statement of a record whose columns are all there: each value stands at the placeholder
      of its column, and an empty column as NULL, without the quotes of the template. */
  lemma RecordInStatement(target: Target, record: seq<Field>, pieces: seq<Piece>)
    requires Readable(record) && HasAll(target.columns, record)
    requires target.sql == Template(pieces) && Values(pieces) == ColumnValues(target.columns, record)
    requires NoMarks(pieces) && GoodTemplate(target.sql) && target.columns != [] && Clean(pieces)
    ensures Executed(target, record) == Some(Statement(pieces))
  {
    hide Format, GoodTemplate, NoMarks, Clean, Readable;
    SelectedAll(target.columns, record);
    SelectedNonempty(target.columns, record);
    FormatsNulls(pieces);
  }
}

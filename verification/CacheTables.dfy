/** Query results, and how a sub-cache selects rows of a cached result
    (src/core/cache.c and src/DCPAM_WDS/sql_parser.c). */
module CacheTables {
  import opened Common
  import opened Strings

  /** A label is stored in MAX_COLUMN_NAME_LEN bytes, so that comparing that many characters
      of two labels is comparing the labels. */
  type Row = seq<Field>

  /** A result: how many columns each row has, and the rows. */
  datatype Table = Table(columns: nat, rows: seq<Row>)

  /** A database, as far as reading goes: every statement has a result or fails. */
  type Database = string -> Option<Table>

  ghost predicate Rectangular(t: Table) {
    forall i :: 0 <= i < |t.rows| ==> |t.rows[i]| == t.columns
  }

  // ----- bytes -----

  function RowBytes(row: Row): nat {
    if row == [] then 0 else |row[0].value| + |row[0].name| + RowBytes(row[1..])
  }

  function TableBytes(rows: seq<Row>): nat {
    if rows == [] then 0 else RowBytes(rows[0]) + TableBytes(rows[1..])
  }

  /** The bytes of a row are those of its fields, and a field has those of its value and label. */
  lemma {:induction false} RowIsItsFields(row: Row, more: Row, f: Field)
    ensures RowBytes([]) == 0 && RowBytes([f]) == |f.value| + |f.name|
    ensures RowBytes(row + more) == RowBytes(row) + RowBytes(more)
  {
    if row == [] {
      assert [] + more == more;
    } else {
      assert (row + more)[1..] == row[1..] + more;
      RowIsItsFields(row[1..], more, f);
    }
    assert RowBytes([f][1..]) == 0;
  }

  /** The bytes of a result are those of its rows. */
  lemma {:induction false} TableIsItsRows(rows: seq<Row>, more: seq<Row>, row: Row)
    ensures TableBytes([]) == 0 && TableBytes([row]) == RowBytes(row)
    ensures TableBytes(rows + more) == TableBytes(rows) + TableBytes(more)
  {
    if rows == [] {
      assert [] + more == more;
    } else {
      assert (rows + more)[1..] == rows[1..] + more;
      TableIsItsRows(rows[1..], more, row);
    }
    assert TableBytes([row][1..]) == 0;
  }

  /** The loops of _DB_CACHE_calc_size. */
  method CalcSize(t: Table) returns (result: nat)
    requires Rectangular(t)
    ensures result == TableBytes(t.rows)
  {
    result := 0;
    var i := 0;
    assert t.rows[0..] == t.rows;
    while i < |t.rows|
      invariant 0 <= i <= |t.rows|
      invariant result + TableBytes(t.rows[i..]) == TableBytes(t.rows)
    {
      assert t.rows[i..][1..] == t.rows[i + 1..];
      var row := t.rows[i];
      ghost var before := result;
      var j := 0;
      assert row[0..] == row;
      while j < |row|
        invariant 0 <= j <= |row|
        invariant result + RowBytes(row[j..]) == before + RowBytes(row)
      {
        assert row[j..][1..] == row[j + 1..];
        result := result + |row[j].value|;
        result := result + |row[j].name|;
        j := j + 1;
      }
      i := i + 1;
    }
  }

  // ----- matching streamed rows against cached rows -----

  /** A cached row matches a record that starts with it: only as many fields are looked at as
      the cached row has. A row without columns matches nothing. */
  predicate Matches(row: Row, record: Row) {
    row != [] && |row| <= |record| && record[..|row|] == row
  }

  /** The comparison stays inside the record: the record is at least as wide as the cached row,
      or differs from its start. */
  predicate Comparable(row: Row, record: Row) {
    |row| <= |record| || row[..|record|] != record
  }

  predicate AllComparable(rows: seq<Row>, streamed: seq<Row>) {
    forall i, k :: 0 <= i < |rows| && 0 <= k < |streamed| ==> Comparable(rows[i], streamed[k])
  }

  /** The first cached row that matches the record. */
  function MatchIndex(rows: seq<Row>, record: Row, from: nat): (r: Option<nat>)
    ensures r.Some? ==> from <= r.value < |rows| && Matches(rows[r.value], record)
    ensures r.None? ==> forall k :: from <= k < |rows| ==> !Matches(rows[k], record)
    decreases |rows| - from
  {
    if from >= |rows| then None
    else if Matches(rows[from], record) then Some(from)
    else MatchIndex(rows, record, from + 1)
  }

  /** The indices the callback collects over a stream of rows. */
  function Collect(rows: seq<Row>, streamed: seq<Row>): (indices: seq<nat>)
    ensures forall k :: 0 <= k < |indices| ==> indices[k] < |rows|
  {
    if streamed == [] then []
    else
      match MatchIndex(rows, streamed[0], 0)
      case None => Collect(rows, streamed[1..])
      case Some(i) => [i] + Collect(rows, streamed[1..])
  }

  /** The rows that indices stand for. */
  function Select(rows: seq<Row>, indices: seq<nat>): (selected: seq<Row>)
    requires forall k :: 0 <= k < |indices| ==> indices[k] < |rows|
    ensures |selected| == |indices|
  {
    seq(|indices|, k requires 0 <= k < |indices| => rows[indices[k]])
  }

  /** The streamed rows that occur among the cached ones, in order and with multiplicity. */
  function Occurring(rows: seq<Row>, streamed: seq<Row>): seq<Row> {
    if streamed == [] then []
    else (if streamed[0] in rows then [streamed[0]] else []) + Occurring(rows, streamed[1..])
  }

  /** What a cached result with that many columns looks at of a record. */
  function Looked(record: Row, columns: nat): Row {
    if |record| <= columns then record else record[..columns]
  }

  function AllLooked(streamed: seq<Row>, columns: nat): (r: seq<Row>)
    ensures |r| == |streamed|
  {
    seq(|streamed|, i requires 0 <= i < |streamed| => Looked(streamed[i], columns))
  }

  /** Mapping the collected indices back gives exactly the streamed rows, as far as they are
      looked at, that occur in the cache. */
  lemma {:induction false} RowMatching(cached: Table, streamed: seq<Row>)
    requires Rectangular(cached) && cached.columns > 0
    ensures Select(cached.rows, Collect(cached.rows, streamed))
         == Occurring(cached.rows, AllLooked(streamed, cached.columns))
  {
    if streamed != [] {
      var rows := cached.rows;
      RowMatching(cached, streamed[1..]);
      assert AllLooked(streamed, cached.columns)[1..] == AllLooked(streamed[1..], cached.columns);
      var rest := Collect(rows, streamed[1..]);
      match MatchIndex(rows, streamed[0], 0)
      case None =>
        NotAmong(cached, streamed[0]);
      case Some(i) =>
        assert rows[i] == Looked(streamed[0], cached.columns);
        assert Select(rows, [i] + rest) == [rows[i]] + Select(rows, rest);
    }
  }

  lemma NotAmong(cached: Table, record: Row)
    requires Rectangular(cached) && cached.columns > 0 && MatchIndex(cached.rows, record, 0) == None
    ensures Looked(record, cached.columns) !in cached.rows
  {
    assert forall k :: 0 <= k < |cached.rows| ==>
             (cached.rows[k] == Looked(record, cached.columns) ==> Matches(cached.rows[k], record));
  }

  ghost predicate AllIn(streamed: seq<Row>, rows: seq<Row>) {
    forall i :: 0 <= i < |streamed| ==> streamed[i] in rows
  }

  /** Nothing is lost exactly when every streamed row is a cached one. */
  lemma {:induction false} OccurringAll(rows: seq<Row>, streamed: seq<Row>)
    ensures |Occurring(rows, streamed)| <= |streamed|
    ensures Occurring(rows, streamed) == streamed <==> AllIn(streamed, rows)
  {
    if streamed != [] {
      var rest := streamed[1..];
      OccurringAll(rows, rest);
      assert AllIn(streamed, rows) <==> streamed[0] in rows && AllIn(rest, rows) by {
        forall i | 0 <= i < |rest|
          ensures rest[i] == streamed[i + 1]
        {
        }
        forall i | 1 <= i < |streamed|
          ensures streamed[i] == rest[i - 1]
        {
        }
      }
      assert Occurring(rows, streamed) == streamed ==> streamed[0] in rows && Occurring(rows, rest) == rest by {
        if Occurring(rows, streamed) == streamed {
          assert streamed[0] in rows;
          assert ([streamed[0]] + Occurring(rows, rest))[1..] == Occurring(rows, rest);
        }
      }
      assert [streamed[0]] + rest == streamed;
    }
  }

  /** Comparing one cached row with a record, field by field: names first, then sizes, then
      values. */
  method RecordMatches(cached: Row, record: Row, columns: nat) returns (matches: bool)
    requires |cached| == columns && Comparable(cached, record)
    ensures matches <==> Matches(cached, record)
  {
    matches := false;
    var j := 0;
    while j < columns
      invariant 0 <= j <= columns && j <= |record|
      invariant matches <==> j > 0
      invariant cached[..j] == record[..j]
    {
      StillComparable(cached, record, j);
      if
        || cached[j].name != record[j].name
        || |cached[j].value| != |record[j].value| || cached[j].value != record[j].value
      {
        assert |cached| <= |record| ==> record[..|cached|][j] != cached[j];
        return false;
      }
      matches := true;
      j := j + 1;
    }
    assert cached == cached[..j];
  }

  lemma StillComparable(cached: Row, record: Row, j: nat)
    requires Comparable(cached, record) && j < |cached| && j <= |record| && cached[..j] == record[..j]
    ensures j < |record|
  {
    assert record[..|record|] == record;
  }

  /** _DB_CACHE_on_db_record: the index of the first match is added. */
  method OnDbRecord(cached: Table, record: Row, indices: seq<nat>) returns (r: seq<nat>)
    requires Rectangular(cached) && forall i :: 0 <= i < |cached.rows| ==> Comparable(cached.rows[i], record)
    ensures r == indices + Collect(cached.rows, [record])
  {
    var i := 0;
    while i < |cached.rows|
      invariant 0 <= i <= |cached.rows|
      invariant MatchIndex(cached.rows, record, 0) == MatchIndex(cached.rows, record, i)
    {
      var matches := RecordMatches(cached.rows[i], record, cached.columns);
      if matches {
        return indices + [i];
      }
      i := i + 1;
    }
    r := indices;
  }

  lemma {:induction false} CollectMore(rows: seq<Row>, streamed: seq<Row>, record: Row)
    ensures Collect(rows, streamed + [record]) == Collect(rows, streamed) + Collect(rows, [record])
  {
    if streamed == [] {
      assert [] + [record] == [record];
      assert Collect(rows, []) + Collect(rows, [record]) == Collect(rows, [record]);
    } else {
      assert (streamed + [record])[1..] == streamed[1..] + [record];
      CollectMore(rows, streamed[1..], record);
      var i := MatchIndex(rows, streamed[0], 0);
      if i.Some? {
        assert [i.value] + (Collect(rows, streamed[1..]) + Collect(rows, [record]))
            == [i.value] + Collect(rows, streamed[1..]) + Collect(rows, [record]);
      }
    }
  }

  /** The driver hands every row of the result to the callback. */
  method StreamRows(cached: Table, result: Table) returns (indices: seq<nat>)
    requires Rectangular(cached) && AllComparable(cached.rows, result.rows)
    ensures indices == Collect(cached.rows, result.rows)
  {
    indices := [];
    var i := 0;
    while i < |result.rows|
      invariant 0 <= i <= |result.rows|
      invariant indices == Collect(cached.rows, result.rows[..i])
    {
      CollectMore(cached.rows, result.rows[..i], result.rows[i]);
      assert result.rows[..i + 1] == result.rows[..i] + [result.rows[i]];
      indices := OnDbRecord(cached, result.rows[i], indices);
      i := i + 1;
    }
    assert result.rows[..i] == result.rows;
  }

  // ----- LIMIT answered from cached rows -----

  const LIMIT: string := " LIMIT "
  const WHERE: string := " WHERE "

  predicate IsSpace(c: char) {
    c == ' ' || c == '\t' || c == '\n' || c == '\r' || c as int == 11 || c as int == 12
  }

  predicate IsDigit(c: char) { '0' <= c <= '9' }

  function SkipSpaces(s: string, i: nat): (r: nat)
    requires i <= |s|
    ensures i <= r <= |s|
    decreases |s| - i
  {
    if i < |s| && IsSpace(s[i]) then SkipSpaces(s, i + 1) else i
  }

  /** The digits from `i` on, at most `width` of them. */
  function DigitRun(s: string, i: nat, width: nat): (n: nat)
    requires i <= |s|
    ensures n <= width && i + n <= |s|
    ensures forall k :: i <= k < i + n ==> IsDigit(s[k])
    decreases width
  {
    if width == 0 || i >= |s| || !IsDigit(s[i]) then 0 else 1 + DigitRun(s, i + 1, width - 1)
  }

  function DigitValue(c: char): nat
    requires IsDigit(c)
  {
    c as int - '0' as int
  }

  function DecimalValue(s: string): nat
    requires forall k :: 0 <= k < |s| ==> IsDigit(s[k])
  {
    if s == "" then 0 else DecimalValue(s[..|s| - 1]) * 10 + DigitValue(s[|s| - 1])
  }

  /** What sscanf reads for `%99ld`: spaces, a sign, and up to 99 characters with the sign. */
  function ScanNumber(s: string, from: nat): Option<int>
    requires from <= |s|
  {
    var start := SkipSpaces(s, from);
    var signed := start < |s| && (s[start] == '-' || s[start] == '+');
    var digits := if signed then start + 1 else start;
    var n := DigitRun(s, digits, if signed then 98 else 99);
    if n == 0 then None
    else if s[start] == '-' then Some(0 - DecimalValue(s[digits..digits + n]))
    else Some(DecimalValue(s[digits..digits + n]))
  }

  /** SQL_PARSER_supported_conditions: a LIMIT, but no WHERE. */
  predicate SupportedCondition(sql: string) {
    Contains(sql, LIMIT) && !Contains(sql, WHERE)
  }

  /** The limit the server takes from the request itself, at its first LIMIT. */
  function LimitOf(sql: string): Option<int> {
    if SupportedCondition(sql) then ScanNumber(sql, Strstr(sql, LIMIT, 0).value + |LIMIT|) else None
  }

  function FirstRows(rows: seq<Row>, n: nat): (r: seq<Row>)
    ensures r <= rows && (|r| == n || (r == rows && |rows| < n))
  {
    if n < |rows| then rows[..n] else rows
  }

  function FirstIndices(n: nat, count: nat): seq<nat> {
    seq(if count < n then count else n, i => i)
  }

  lemma FirstAreSelected(rows: seq<Row>, n: nat)
    ensures forall k :: 0 <= k < |FirstIndices(n, |rows|)| ==> FirstIndices(n, |rows|)[k] < |rows|
    ensures Select(rows, FirstIndices(n, |rows|)) == FirstRows(rows, n)
  {
  }

  /** What a long becomes when it is stored as a size_t. */
  function AsSize(n: int): nat {
    n % 0x1_0000_0000_0000_0000
  }

  /** SQL_PARSER_collect_data: the indices of the first rows, if the limit can be read. The
      count is the smaller of the limit and the number of rows. A negative limit is stored as a
      huge count, without any index. */
  method CollectData(cached: Table, sql: string) returns (ok: bool, count: nat, indices: seq<nat>)
    requires SupportedCondition(sql)
    ensures ok <==> LimitOf(sql).Some?
    ensures ok && LimitOf(sql).value >= 0 ==>
              count == |indices| && indices == FirstIndices(LimitOf(sql).value, |cached.rows|)
    ensures ok && -0x8000_0000_0000_0000 <= LimitOf(sql).value < 0 ==>
              count >= 0x8000_0000_0000_0000 && indices == []
  {
    var pos := Strstr(sql, LIMIT, 0).value;
    var value := ScanNumber(sql, pos + |LIMIT|);
    if value.None? {
      return false, 0, [];
    }
    var max := value.value;
    if |cached.rows| < max {
      max := |cached.rows|;
    }
    count := if max < 0 then AsSize(max) else max;
    indices := [];
    var i := 0;
    while i < max
      invariant 0 <= i && (if max < 0 then i == 0 else i <= max)
      invariant indices == seq(i, k => k)
    {
      indices := indices + [i];
      i := i + 1;
    }
    ok := true;
  }

  // ----- what a sub-cache answers -----

  /** The rows a sub-cache on the result `cached` selects for a request whose own result is
      `result`: a limit the server reads is applied to the cached rows, and the result is
      not looked at. */
  function SubsetRows(cached: Table, result: Table, sql: string): seq<Row> {
    if LimitOf(sql).Some? && LimitOf(sql).value >= 0 then FirstRows(cached.rows, LimitOf(sql).value)
    else Select(cached.rows, Collect(cached.rows, result.rows))
  }

  lemma {:induction false} NothingCollected(rows: seq<Row>, streamed: seq<Row>)
    requires forall i, k :: 0 <= i < |rows| && 0 <= k < |streamed| ==> !Matches(rows[i], streamed[k])
    ensures Collect(rows, streamed) == []
  {
    if streamed != [] {
      NothingCollected(rows, streamed[1..]);
      assert MatchIndex(rows, streamed[0], 0).None?;
    }
  }

  /** Streaming over the cached rows selects the whole result exactly when each of its rows
      is a cached row and rows have columns. */
  lemma StreamedIsFaithful(cached: Table, result: Table)
    requires Rectangular(cached) && Rectangular(result)
    ensures Select(cached.rows, Collect(cached.rows, result.rows)) == result.rows
            <==> AllIn(result.rows, cached.rows) && (result.columns > 0 || result.rows == [])
  {
    var selected := Select(cached.rows, Collect(cached.rows, result.rows));
    if result.columns != cached.columns {
      assert forall i, k :: 0 <= i < |result.rows| && 0 <= k < |cached.rows| ==> result.rows[i] != cached.rows[k];
      assert selected != [] ==> |selected[0]| == cached.columns;
    } else if result.columns > 0 {
      assert AllLooked(result.rows, cached.columns) == result.rows;
      RowMatching(cached, result.rows);
      OccurringAll(cached.rows, result.rows);
    } else {
      NothingCollected(cached.rows, result.rows);
    }
  }
}

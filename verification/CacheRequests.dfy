/** Which requests the query cache may answer from other results, in terms a caller can
    check; and one it answers wrongly. */
module CacheRequests {
  import opened Common
  import opened Strings
  import opened CacheTables
  import opened QueryCache

  const LIMIT_WORD: string := "LIMIT"

  // ----- a text plus " LIMIT n" -----

  function Decimal(n: nat): string {
    if n < 10 then [('0' as int + n) as char] else Decimal(n / 10) + [('0' as int + n % 10) as char]
  }

  function LimitText(base: string, n: nat): string {
    base + LIMIT + Decimal(n)
  }

  /** What LIMIT means to a database: the first rows of the result without it. */
  ghost predicate LimitMeansFirst(db: Database) {
    forall base: string, n: nat :: db(base).Some? && !Contains(base, LIMIT_WORD) ==>
      db(LimitText(base, n)) == Some(Table(db(base).value.columns, FirstRows(db(base).value.rows, n)))
  }

  lemma {:induction false} DecimalReads(n: nat)
    ensures Decimal(n) != "" && forall k :: 0 <= k < |Decimal(n)| ==> IsDigit(Decimal(n)[k])
    ensures DecimalValue(Decimal(n)) == n
  {
    if n >= 10 {
      DecimalReads(n / 10);
      assert Decimal(n)[..|Decimal(n)| - 1] == Decimal(n / 10);
    }
  }

  lemma {:induction false} DigitRunToEnd(s: string, i: nat, width: nat)
    requires i <= |s| && |s| - i <= width && forall k :: i <= k < |s| ==> IsDigit(s[k])
    ensures DigitRun(s, i, width) == |s| - i
    decreases width
  {
    if i < |s| {
      DigitRunToEnd(s, i + 1, width - 1);
    }
  }

  lemma OccursIn(s: string, sub: string, i: nat)
    requires OccursAt(s, sub, i)
    ensures Contains(s, sub)
  {
  }

  lemma OccursInside(s: string, sub: string, i: nat, from: nat, to: nat)
    requires from <= to <= |sub|
    ensures OccursAt(s, sub, i) ==> OccursAt(s, sub[from..to], i + from)
  {
    if OccursAt(s, sub, i) {
      var w := s[i..i + |sub|];
      forall k | 0 <= k < to - from
        ensures w[from..to][k] == s[i + from..i + to][k]
      {
        assert w[from + k] == s[i + from + k];
      }
      assert sub[from..to] == s[i + from..i + to];
    }
  }

  lemma OccursChar(s: string, sub: string, i: nat, j: nat)
    requires j < |sub|
    ensures OccursAt(s, sub, i) ==> s[i + j] == sub[j]
  {
    if OccursAt(s, sub, i) {
      assert s[i..i + |sub|][j] == s[i + j];
    }
  }

  lemma OccursInPrefix(base: string, rest: string, sub: string, i: nat)
    requires i + |sub| <= |base|
    ensures OccursAt(base + rest, sub, i) ==> Contains(base, sub)
  {
    if OccursAt(base + rest, sub, i) {
      assert (base + rest)[i..i + |sub|] == base[i..i + |sub|];
      OccursIn(base, sub, i);
    }
  }

  /** A base without the word has no LIMIT, nor the start of one. */
  lemma NoLimitBefore(base: string, rest: string, k: nat)
    requires !Contains(base, LIMIT_WORD) && k < |base|
    ensures !OccursAt(base + LIMIT + rest, LIMIT, k)
  {
    hide Contains, OccursAt;
    assert base + LIMIT + rest == base + (LIMIT + rest);
    if k + 6 <= |base| {
      assert LIMIT[1..6] == LIMIT_WORD;
      OccursInside(base + LIMIT + rest, LIMIT, k, 1, 6);
      OccursInPrefix(base, LIMIT + rest, LIMIT_WORD, k + 1);
    } else {
      OccursChar(base + LIMIT + rest, LIMIT, k, |base| - k);
      assert (base + LIMIT + rest)[|base|] == ' ';
      assert forall j :: 1 <= j <= 5 ==> LIMIT[j] != ' ';
    }
  }

  /** It keeps the first LIMIT where it was added. */
  lemma FirstLimit(base: string, rest: string)
    requires !Contains(base, LIMIT_WORD)
    ensures Strstr(base + LIMIT + rest, LIMIT, 0) == Some(|base|)
  {
    hide Contains;
    var s := base + LIMIT + rest;
    assert OccursAt(s, LIMIT, |base|) by {
      assert s[|base|..|base| + |LIMIT|] == LIMIT;
    }
    forall k | 0 <= k < |base|
      ensures !OccursAt(s, LIMIT, k)
    {
      NoLimitBefore(base, rest, k);
    }
  }

  lemma ScanDecimal(s: string, from: nat, n: nat)
    requires from <= |s| && s[from..] == Decimal(n) && |Decimal(n)| <= 99
    ensures ScanNumber(s, from) == Some(n)
  {
    hide DecimalValue, Decimal, DigitRun;
    DecimalReads(n);
    assert forall k :: from <= k < |s| ==> s[k] == s[from..][k - from];
    DigitRunToEnd(s, from, 99);
    assert s[from..from + |Decimal(n)|] == Decimal(n);
  }

  /** The server reads the limit of such a request, unless it has a WHERE. */
  lemma LimitIsRead(base: string, n: nat)
    requires !Contains(base, LIMIT_WORD) && |Decimal(n)| <= 99
    ensures LimitOf(LimitText(base, n)) == if Contains(LimitText(base, n), WHERE) then None else Some(n)
  {
    hide ScanNumber, Decimal, Strstr, OccursAt;
    var s := LimitText(base, n);
    FirstLimit(base, Decimal(n));
    assert s[|base| + |LIMIT|..] == Decimal(n);
    ScanDecimal(s, |base| + |LIMIT|, n);
  }

  // ----- what the server reads behind LIMIT -----

  predicate Digital(d: string) {
    forall i :: 0 <= i < |d| ==> '0' <= d[i] <= '9'
  }

  function Power10(k: nat): nat { if k == 0 then 1 else 10 * Power10(k - 1) }

  /** The number decimal digits denote. */
  function PlaceValue(d: string): nat
    requires Digital(d)
  {
    if d == "" then 0 else (d[0] as int - '0' as int) * Power10(|d| - 1) + PlaceValue(d[1..])
  }

  predicate Spaces(s: string) {
    forall i :: 0 <= i < |s| ==> s[i] == ' ' || 9 <= s[i] as int <= 13
  }

  predicate Goes(rest: string) {
    rest != "" && '0' <= rest[0] <= '9'
  }

  lemma {:induction false} PlaceSnoc(d: string, c: char)
    requires Digital(d) && '0' <= c <= '9'
    ensures Digital(d + [c]) && PlaceValue(d + [c]) == 10 * PlaceValue(d) + (c as int - '0' as int)
  {
    if d == "" {
      assert "" + [c] == [c];
      assert PlaceValue([c][1..]) == 0;
    } else {
      assert (d + [c])[1..] == d[1..] + [c];
      PlaceSnoc(d[1..], c);
      assert Power10(|d|) == 10 * Power10(|d| - 1);
      Distribute(d[0] as int - '0' as int, Power10(|d| - 1), PlaceValue(d[1..]));
    }
  }

  lemma Distribute(d: int, p: int, v: int)
    ensures d * (10 * p) + 10 * v == 10 * (d * p + v)
  {
  }

  lemma {:induction false} PlaceIsDecimal(d: string)
    requires Digital(d)
    ensures (forall k :: 0 <= k < |d| ==> IsDigit(d[k])) && DecimalValue(d) == PlaceValue(d)
  {
    if d != "" {
      var last := |d| - 1;
      PlaceIsDecimal(d[..last]);
      PlaceSnoc(d[..last], d[last]);
      assert d[..last] + [d[last]] == d;
    }
  }

  lemma {:induction false} DecimalDenotes(n: nat)
    ensures Digital(Decimal(n)) && Decimal(n) != "" && PlaceValue(Decimal(n)) == n
    ensures n > 0 ==> Decimal(n)[0] != '0'
  {
    if n >= 10 {
      DecimalDenotes(n / 10);
      PlaceSnoc(Decimal(n / 10), ('0' as int + n % 10) as char);
    } else {
      assert Decimal(n)[1..] == "" && Power10(0) == 1;
    }
  }

  lemma {:induction false} SpacesSkipped(s: string, i: nat, spaces: string)
    requires At(s, i, spaces) && Spaces(spaces)
    requires i + |spaces| < |s| ==> !Spaces([s[i + |spaces|]])
    ensures SkipSpaces(s, i) == i + |spaces|
    decreases |spaces|
  {
    if spaces != "" {
      AtHead(s, i, spaces);
      SpacesSkipped(s, i + 1, spaces[1..]);
    } else if i < |s| {
      assert [s[i]][0] == s[i];
    }
  }

  lemma {:induction false} DigitsRun(s: string, i: nat, width: nat, d: string)
    requires At(s, i, d) && Digital(d) && |d| <= width
    requires |d| == width || i + |d| == |s| || !IsDigit(s[i + |d|])
    ensures DigitRun(s, i, width) == |d|
    decreases width
  {
    if d != "" {
      AtHead(s, i, d);
      DigitsRun(s, i + 1, width - 1, d[1..]);
    }
  }

  /** What may stand behind LIMIT: spaces, a sign or none, digits or none, and a rest. */
  predicate Behind(spaces: string, sign: string, d: string, rest: string) {
    && Spaces(spaces) && (sign == "" || sign == "-" || sign == "+") && Digital(d) && |sign| + |d| <= 99
    && !Goes(rest)
    && (sign == "" && d == "" && rest != "" ==> !Spaces([rest[0]]) && rest[0] != '-' && rest[0] != '+')
  }

  lemma BehindStart(spaces: string, sign: string, d: string, rest: string)
    requires Behind(spaces, sign, d, rest)
    ensures
      var tail := sign + (d + rest);
      tail != "" ==>
        && !Spaces([tail[0]]) && (sign != "" ==> tail[0] == sign[0])
        && (sign == "" ==> tail[0] != '-' && tail[0] != '+')
  {
    var tail := sign + (d + rest);
    if tail != "" {
      assert [tail[0]][0] == tail[0];
      assert tail[0] == if sign != "" then sign[0] else if d != "" then d[0] else rest[0];
    }
  }

  lemma ScanStart(s: string, from: nat, spaces: string, sign: string, d: string, rest: string)
    requires Behind(spaces, sign, d, rest) && At(s, from, spaces + (sign + (d + rest)))
    requires from + |spaces + (sign + (d + rest))| == |s|
    ensures
      var start := from + |spaces|;
      && start <= |s| && SkipSpaces(s, from) == start
      && (sign != "" ==> start < |s| && s[start] == sign[0])
      && (sign == "" && start < |s| ==> s[start] != '-' && s[start] != '+')
  {
    hide SkipSpaces, At, Spaces, Digital;
    var tail := sign + (d + rest);
    AtSplit(s, from, spaces, tail);
    BehindStart(spaces, sign, d, rest);
    if tail != "" {
      AtHead(s, from + |spaces|, tail);
    }
    SpacesSkipped(s, from, spaces);
  }

  /** Digits before something that is none. */
  lemma DigitsBefore(s: string, i: nat, width: nat, d: string, rest: string)
    requires At(s, i, d + rest) && i + |d + rest| == |s| && Digital(d) && !Goes(rest) && |d| <= width
    ensures i + |d| <= |s| && s[i..i + |d|] == d && DigitRun(s, i, width) == |d|
  {
    hide DigitRun, Digital;
    AtSplit(s, i, d, rest);
    if rest != "" {
      AtHead(s, i + |d|, rest);
    }
    DigitsRun(s, i, width, d);
  }

  lemma ScanDigits(s: string, from: nat, spaces: string, sign: string, d: string, rest: string)
    requires Behind(spaces, sign, d, rest) && At(s, from, spaces + (sign + (d + rest)))
    requires from + |spaces + (sign + (d + rest))| == |s|
    ensures
      var digits := from + |spaces| + |sign|;
      digits + |d| <= |s| && s[digits..digits + |d|] == d && DigitRun(s, digits, 99 - |sign|) == |d|
  {
    hide DigitRun, Spaces, Digital, At, Goes;
    AtSplit(s, from, spaces, sign + (d + rest));
    AtSplit(s, from + |spaces|, sign, d + rest);
    DigitsBefore(s, from + |spaces| + |sign|, 99 - |sign|, d, rest);
  }

  /** Spaces, an optional sign, and digits are read as a number, whatever follows them but
      another digit; without a digit nothing is read. */
  lemma ScansNumber(s: string, from: nat, spaces: string, sign: string, d: string, rest: string)
    requires Behind(spaces, sign, d, rest) && At(s, from, spaces + (sign + (d + rest)))
    requires from + |spaces + (sign + (d + rest))| == |s|
    ensures Digital(d)
    ensures ScanNumber(s, from) ==
            if d == "" then None else Some(if sign == "-" then 0 - PlaceValue(d) else PlaceValue(d))
  {
    hide SkipSpaces, DigitRun, DecimalValue, PlaceValue, Spaces, At;
    ScanStart(s, from, spaces, sign, d, rest);
    ScanDigits(s, from, spaces, sign, d, rest);
    PlaceIsDecimal(d);
  }

  /** The limit of a request: the number behind the first LIMIT, if the text before it does not
      have the word and there is no WHERE. */
  lemma ReadsLimit(base: string, spaces: string, sign: string, d: string, rest: string)
    requires !Contains(base, "LIMIT") && Behind(spaces, sign, d, rest)
    ensures Digital(d)
    ensures
      var s := base + " LIMIT " + (spaces + (sign + (d + rest)));
      LimitOf(s) ==
      if Contains(s, " WHERE ") || d == "" then None
      else Some(if sign == "-" then 0 - PlaceValue(d) else PlaceValue(d))
  {
    hide ScanNumber, Strstr, OccursAt, PlaceValue;
    var tail := spaces + (sign + (d + rest));
    var s := base + " LIMIT " + tail;
    FirstLimit(base, tail);
    TailStands(base + " LIMIT ", tail);
    ScansNumber(s, |base + " LIMIT "|, spaces, sign, d, rest);
  }

  lemma TailStands(head: string, tail: string)
    ensures At(head + tail, |head|, tail) && |head| + |tail| == |head + tail|
  {
    assert (head + tail)[|head|..|head| + |tail|] == tail;
  }

  /** The first ten rows for a request that ends in a semicolon. */
  lemma LimitWithSemicolon(base: string)
    requires !Contains(base, "LIMIT") && !Contains(base + " LIMIT " + "10;", " WHERE ")
    ensures LimitOf(base + " LIMIT " + "10;") == Some(10)
  {
    hide Contains, LimitOf;
    assert "" + ("" + ("10" + ";")) == "10;";
    assert PlaceValue("10") == 10 by {
      assert "10"[1..] == "0" && "0"[1..] == "";
      assert PlaceValue("0") == 0;
    }
    ReadsLimit(base, "", "", "10", ";");
  }

  // ----- requests that are answered rightly -----

  /** A request with a limit the server reads is answered rightly from another text exactly when
      the two texts without limits have the same first rows, as many as the limit says. */
  lemma LimitedAnswer(db: Database, base: string, q: string, n: nat)
    requires LimitMeansFirst(db) && db(base).Some? && db(q).Some?
    requires !Contains(q, LIMIT_WORD) && !Contains(LimitText(q, n), WHERE) && |Decimal(n)| <= 99
    ensures Servable(db, base, LimitText(q, n)) <==> FirstRows(db(q).value.rows, n) == FirstRows(db(base).value.rows, n)
    ensures |db(q).value.rows| <= n && |db(base).value.rows| <= n ==>
              (Servable(db, base, LimitText(q, n)) <==> db(q).value.rows == db(base).value.rows)
  {
    hide Contains, LimitOf;
    LimitIsRead(q, n);
  }

  /** A database in which `base` has another row than all other texts without LIMIT have. */
  function OtherRow(base: string): Database {
    (s: string) =>
      match Strstr(s, LIMIT, 0)
      case None => Some(OneRow(base, s))
      case Some(p) =>
        var count := s[p + |LIMIT|..];
        if forall k :: 0 <= k < |count| ==> IsDigit(count[k]) then
          Some(Table(1, FirstRows(OneRow(base, s[..p]).rows, DecimalValue(count))))
        else None
  }

  function OneRow(base: string, s: string): Table {
    Table(1, [[Field("a", if s == base then "1" else "2")]])
  }

  lemma NoLimitInside(s: string)
    ensures Strstr(s, LIMIT, 0).Some? ==> Contains(s, LIMIT_WORD)
  {
    if Strstr(s, LIMIT, 0).Some? {
      var i := Strstr(s, LIMIT, 0).value;
      assert LIMIT[1..6] == LIMIT_WORD;
      OccursInside(s, LIMIT, i, 1, 6);
      OccursIn(s, LIMIT_WORD, i + 1);
    }
  }

  lemma OtherRowLimit(base: string, b: string, n: nat)
    requires !Contains(b, LIMIT_WORD)
    ensures OtherRow(base)(LimitText(b, n)) == Some(Table(1, FirstRows(OneRow(base, b).rows, n)))
  {
    hide Contains, Strstr, Decimal, DecimalValue, OccursAt, OneRow, FirstRows;
    FirstLimit(b, Decimal(n));
    DecimalReads(n);
    assert LimitText(b, n)[|b| + |LIMIT|..] == Decimal(n) && LimitText(b, n)[..|b|] == b;
  }

  lemma OtherRowLimits(base: string)
    ensures LimitMeansFirst(OtherRow(base))
  {
    hide Contains, Strstr, LimitText, FirstRows, Decimal, DecimalValue;
    var db := OtherRow(base);
    forall b: string, n: nat | db(b).Some? && !Contains(b, LIMIT_WORD)
      ensures db(LimitText(b, n)) == Some(Table(db(b).value.columns, FirstRows(db(b).value.rows, n)))
    {
      NoLimitInside(b);
      OtherRowLimit(base, b, n);
    }
  }

  /** Texts alone decide it only in one case: whatever the database, a request with a positive
      limit is answered rightly from a text without one if and only if it is that text plus the
      limit. */
  lemma LimitOfBaseOnly(base: string, q: string, n: nat)
    requires n > 0 && |Decimal(n)| <= 99
    requires !Contains(base, LIMIT_WORD) && !Contains(q, LIMIT_WORD) && !Contains(LimitText(q, n), WHERE)
    ensures (forall db: Database ::
              LimitMeansFirst(db) && db(base).Some? && db(q).Some? ==> Servable(db, base, LimitText(q, n)))
            <==> q == base
  {
    hide Contains, Servable, Decimal, LimitMeansFirst;
    if q == base {
      forall db: Database | LimitMeansFirst(db) && db(base).Some? && db(q).Some?
        ensures Servable(db, base, LimitText(q, n))
      {
        LimitedAnswer(db, base, q, n);
      }
    } else {
      var db := OtherRow(base);
      OtherRowLimits(base);
      NoLimitInside(base);
      NoLimitInside(q);
      LimitedAnswer(db, base, q, n);
      assert FirstRows(db(q).value.rows, n)[0][0].value[0] != FirstRows(db(base).value.rows, n)[0][0].value[0];
      assert !Servable(db, base, LimitText(q, n));
    }
  }

  /** A condition on a cached text and a request that contains it: the request adds a LIMIT to
      a text without one, or the server reads no limit from it and every requested row is a
      cached row. */
  ghost predicate PlainlyServable(db: Database, base: string, s: string) {
    || (exists n: nat :: |Decimal(n)| <= 99 && !Contains(base, LIMIT_WORD) && s == LimitText(base, n))
    || (LimitOf(s).None? && db(s).Some? && db(base).Some? && AllIn(db(s).value.rows, db(base).value.rows))
  }

  lemma FirstAreIn(rows: seq<Row>, n: nat)
    ensures AllIn(FirstRows(rows, n), rows)
  {
  }

  lemma PlainIsServable(db: Database, base: string, s: string)
    requires LimitMeansFirst(db) && db(base).Some? && PlainlyServable(db, base, s)
    requires db(s).Some? ==> Rectangular(db(s).value) && db(s).value.columns > 0
    requires Rectangular(db(base).value)
    ensures RegularPair(db, base, s) && Servable(db, base, s)
  {
    if n: nat :| |Decimal(n)| <= 99 && !Contains(base, LIMIT_WORD) && s == LimitText(base, n) {
      LimitIsRead(base, n);
      FirstAreIn(db(base).value.rows, n);
    }
  }

  /** The requests a server may get, checked pair by pair. */
  lemma PlainTextsAreAdmissible(db: Database, texts: set<string>)
    requires LimitMeansFirst(db)
    requires forall s :: s in texts && db(s).Some? ==> Rectangular(db(s).value) && db(s).value.columns > 0
    requires forall base, s :: base in texts && s in texts && base != s && Contains(s, base) && db(base).Some? ==>
               PlainlyServable(db, base, s)
    ensures Admissible(db, texts)
  {
    forall base, s | base in texts && s in texts && base != s && Contains(s, base) && db(base).Some?
      ensures RegularPair(db, base, s) && Servable(db, base, s)
    {
      PlainIsServable(db, base, s);
    }
  }

  /** An empty server is asked a text and then one that contains it: the second answer is right
      exactly when the rows of the first text answer it. */
  method BaseThen(db: Database, limit: nat, base: string, s: string)
    returns (first: Option<Response>, second: Option<Response>)
    requires base != s && Contains(s, base) && Regular(db, {base, s})
    requires db(base).Some? && TableBytes(db(base).value.rows) <= limit
    ensures first == Direct(db, base) && second == AnswerFrom(db, Some(base), s)
    ensures second == Direct(db, s) <==> Servable(db, base, s)
  {
    hide Contains, Servable, RegularPair, SubsetRows;
    var server := new Server(db, limit, {base, s}, 0);
    var nested;
    first, nested := server.GetDbData(base);
    assert server.Texts() == [Some(base)];
    second, nested := server.GetDbData(s);
    AnswerIsRight(db, base, s);
  }

  // ----- a request that is answered wrongly -----

  lemma ContainedChars(s: string, sub: string, c: char)
    requires c in sub
    ensures Contains(s, sub) ==> c in s
  {
    if Contains(s, sub) {
      var i := Strstr(s, sub, 0).value;
      var k :| 0 <= k < |sub| && sub[k] == c;
      assert s[i..i + |sub|][k] == s[i + k];
    }
  }

  const ALL_ROWS: string := "SELECT a FROM t"
  const FIRST_BY_VALUE: string := "SELECT a FROM t ORDER BY a LIMIT 1"
  const UNORDERED: Table := Table(1, [[Field("a", "2")], [Field("a", "1")]])
  const SMALLEST: Table := Table(1, [[Field("a", "1")]])

  lemma LongerNotContained(s: string, sub: string)
    requires |sub| > |s|
    ensures !Contains(s, sub)
  {
  }

  function OrderedTable(sql: string): Option<Table> {
    if sql == ALL_ROWS then Some(UNORDERED) else if sql == FIRST_BY_VALUE then Some(SMALLEST) else None
  }

  /** Every requested row is a cached row with the same columns; but the request has a LIMIT
      behind an ORDER BY, and the server answers it with the first rows of the unordered
      result. */
  lemma OrderedLimitIsWrong()
    ensures Contains(FIRST_BY_VALUE, ALL_ROWS) && Regular(OrderedTable, {ALL_ROWS, FIRST_BY_VALUE})
    ensures SMALLEST.columns == UNORDERED.columns && AllIn(SMALLEST.rows, UNORDERED.rows)
    ensures !Servable(OrderedTable, ALL_ROWS, FIRST_BY_VALUE)
  {
    hide LimitOf, Strstr;
    ReadsOne();
    assert OccursAt(FIRST_BY_VALUE, ALL_ROWS, 0);
    OccursIn(FIRST_BY_VALUE, ALL_ROWS, 0);
    LongerNotContained(ALL_ROWS, FIRST_BY_VALUE);
    assert SMALLEST.rows[0] == UNORDERED.rows[1];
    DifferentRows();
  }

  lemma FirstUnordered()
    ensures AnswerFrom(OrderedTable, Some(ALL_ROWS), FIRST_BY_VALUE) == Some(Response(1, [UNORDERED.rows[0]]))
  {
    hide LimitOf, Collect, Select;
    ReadsOne();
    assert FirstRows(UNORDERED.rows, 1) == [UNORDERED.rows[0]];
  }

  /** The run that shows it. */
  method AskOrdered() returns (first: Option<Response>, second: Option<Response>)
    ensures first == Direct(OrderedTable, ALL_ROWS)
    ensures second == Some(Response(1, [UNORDERED.rows[0]])) && second != Direct(OrderedTable, FIRST_BY_VALUE)
  {
    hide Contains, LimitOf, Servable, Regular, SubsetRows;
    OrderedLimitIsWrong();
    FirstUnordered();
    first, second := BaseThen(OrderedTable, TableBytes(UNORDERED.rows), ALL_ROWS, FIRST_BY_VALUE);
  }

  const BOTH_COLUMNS: string := "SELECT a, b FROM t"
  const COUNTED: string := "SELECT COUNT(*) FROM (" + BOTH_COLUMNS + ") x"
  const PAIRS: Table := Table(2, [[Field("a", "1"), Field("b", "2")]])
  const HOW_MANY: Table := Table(1, [[Field("COUNT(*)", "1")]])

  function CountedTable(sql: string): Option<Table> {
    if sql == BOTH_COLUMNS then Some(PAIRS) else if sql == COUNTED then Some(HOW_MANY) else None
  }

  lemma CountIsWrong()
    ensures Contains(COUNTED, BOTH_COLUMNS) && Regular(CountedTable, {BOTH_COLUMNS, COUNTED})
    ensures !Servable(CountedTable, BOTH_COLUMNS, COUNTED)
    ensures AnswerFrom(CountedTable, Some(BOTH_COLUMNS), COUNTED) == Some(Response(0, []))
  {
    hide LimitOf, Strstr;
    NoLimit();
    OccursIn(COUNTED, BOTH_COLUMNS, |"SELECT COUNT(*) FROM ("|);
    LongerNotContained(BOTH_COLUMNS, COUNTED);
    assert |HOW_MANY.rows[0][0].name| != |PAIRS.rows[0][..1][0].name|;
    NothingCollected(PAIRS.rows, HOW_MANY.rows);
  }

  lemma NoLimit()
    ensures LimitOf(COUNTED) == None
  {
    hide Contains;
    CountedChars();
    ContainedChars(COUNTED, LIMIT, 'I');
  }

  lemma CountedChars()
    ensures 'I' !in COUNTED
  {
    assert 'I' !in "SELECT COUNT(*) FROM (" && 'I' !in BOTH_COLUMNS && 'I' !in ") x";
  }

  /** A request that counts the rows of a cached text is answered with no row at all. */
  method AskCounted() returns (first: Option<Response>, second: Option<Response>)
    ensures first == Direct(CountedTable, BOTH_COLUMNS)
    ensures second == Some(Response(0, [])) && second != Direct(CountedTable, COUNTED)
  {
    hide Contains, LimitOf, Servable, Regular, SubsetRows;
    CountIsWrong();
    first, second := BaseThen(CountedTable, TableBytes(PAIRS.rows), BOTH_COLUMNS, COUNTED);
  }

  const BY_VALUE: string := "SELECT a FROM t ORDER BY a"

  lemma NoLimitWord()
    ensures !Contains(BY_VALUE, LIMIT_WORD)
  {
    hide Contains;
    ContainedChars(BY_VALUE, LIMIT_WORD, 'I');
  }

  lemma NoWhere()
    ensures !Contains(FIRST_BY_VALUE, WHERE)
  {
    hide Contains;
    ContainedChars(FIRST_BY_VALUE, WHERE, 'W');
  }

  lemma ReadsOne()
    ensures LimitOf(FIRST_BY_VALUE) == Some(1)
  {
    hide Contains, LimitOf;
    NoLimitWord();
    NoWhere();
    assert Decimal(1) == "1";
    assert FIRST_BY_VALUE == LimitText(BY_VALUE, 1);
    LimitIsRead(BY_VALUE, 1);
  }

  lemma DifferentRows()
    ensures FirstRows(UNORDERED.rows, 1) != SMALLEST.rows
  {
    assert FirstRows(UNORDERED.rows, 1) == [UNORDERED.rows[0]];
    assert UNORDERED.rows[0][0].value[0] != SMALLEST.rows[0][0].value[0];
  }
}

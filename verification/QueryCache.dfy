/** The query cache of the web data service, with its sub-cache
    (src/core/cache.c and DCPAM_WDS_get_db_data in src/DCPAM_WDS/dcpam-wds.c). */
module QueryCache {
  import opened Common
  import opened Strings
  import opened CacheTables

  datatype Query = Query(sql: string, table: Table)

  /** D_CACHE: a slot for one cached result. */
  class Entry {
    var query: Option<Query>
    var size: nat

    constructor ()
      ensures query == None && size == 0
    {
      query, size := None, 0;
    }
  }

  /** D_SUB_CACHE: a request answered by rows of another result. */
  datatype SubCache = SubCache(src: Entry, sql: string, indices: seq<nat>)

  /** What a client gets: the number of rows, and the rows. */
  datatype Response = Response(length: nat, data: seq<Row>)

  /** Asking the database itself. */
  function Direct(db: Database, sql: string): Option<Response> {
    match db(sql)
    case None => None
    case Some(t) => Some(Response(|t.rows|, t.rows))
  }

  /** The result of a text, or an empty one. */
  function TableOf(db: Database, sql: string): Table {
    match db(sql)
    case None => Table(0, [])
    case Some(t) => t
  }

  /** What the server answers: the database's answer, or, by a sub-cache on the result of the
      text `base`, the rows the sub-cache selects. */
  function AnswerFrom(db: Database, base: Option<string>, sql: string): Option<Response> {
    match base
    case None => Direct(db, sql)
    case Some(b) =>
      var rows := SubsetRows(TableOf(db, b), TableOf(db, sql), sql);
      Some(Response(|rows|, rows))
  }

  /** A sub-cache for `s` on the result of `base` can be created: the server reads a limit from
      `s` that is not negative, or it reads none and `s` has a result, no row of which is too
      short to be compared with a cached row. */
  predicate RegularPair(db: Database, base: string, s: string) {
    match LimitOf(s)
    case Some(n) => n >= 0
    case None => db(s).Some? && AllComparable(TableOf(db, base).rows, db(s).value.rows)
  }

  /** The texts a server is asked: rows are as wide as their result, and every sub-cache
      that could be asked for can be created. */
  ghost predicate Regular(db: Database, texts: set<string>) {
    && (forall s :: s in texts && db(s).Some? ==> Rectangular(db(s).value))
    && (forall base, s :: base in texts && s in texts && base != s && Contains(s, base) && db(base).Some? ==>
          RegularPair(db, base, s))
  }

  /** When the rows of `base` answer `s`: with a limit the server reads, the result of `s` is
      that many first rows of them; otherwise each of its rows is one of them. */
  ghost predicate Servable(db: Database, base: string, s: string) {
    && db(s).Some?
    && match LimitOf(s)
       case Some(n) => n >= 0 && db(s).value.rows == FirstRows(TableOf(db, base).rows, n)
       case None =>
         && AllIn(db(s).value.rows, TableOf(db, base).rows)
         && (db(s).value.columns > 0 || db(s).value.rows == [])
  }

  /** A sub-cache answers as the database does exactly when the rows of its base do. */
  lemma AnswerIsRight(db: Database, base: string, s: string)
    requires RegularPair(db, base, s) && Rectangular(TableOf(db, base)) && Rectangular(TableOf(db, s))
    ensures AnswerFrom(db, Some(base), s) == Direct(db, s) <==> Servable(db, base, s)
  {
    if LimitOf(s).None? {
      StreamedIsFaithful(TableOf(db, base), TableOf(db, s));
    }
  }

  /** Texts that may all be asked of one server: a text that occurs in another one answers it. */
  ghost predicate Admissible(db: Database, texts: set<string>) {
    && Regular(db, texts)
    && (forall base, s :: base in texts && s in texts && base != s && Contains(s, base) && db(base).Some? ==>
          Servable(db, base, s))
  }

  function Sum(sizes: seq<nat>): nat {
    if sizes == [] then 0 else sizes[0] + Sum(sizes[1..])
  }

  lemma {:induction false} SumAppend(sizes: seq<nat>, n: nat)
    ensures Sum(sizes + [n]) == Sum(sizes) + n
  {
    if sizes != [] {
      assert (sizes + [n])[1..] == sizes[1..] + [n];
      SumAppend(sizes[1..], n);
    }
  }

  lemma {:induction false} SumUpdate(sizes: seq<nat>, k: nat, n: nat)
    requires k < |sizes|
    ensures Sum(sizes[k := n]) == Sum(sizes) - sizes[k] + n
  {
    if k == 0 {
      assert sizes[0 := n][1..] == sizes[1..];
    } else {
      assert sizes[k := n][1..] == sizes[1..][k - 1 := n];
      SumUpdate(sizes[1..], k - 1, n);
    }
  }

  lemma {:induction false} SumZero(sizes: seq<nat>)
    requires forall i :: 0 <= i < |sizes| ==> sizes[i] == 0
    ensures Sum(sizes) == 0
  {
    if sizes != [] {
      SumZero(sizes[1..]);
    }
  }

  /** The texts of a cache, entry by entry; an empty slot has none. */
  ghost function TextSet(cached: seq<Option<string>>): set<string> {
    set t | t in cached && t.Some? :: t.value
  }

  /** `sql` contains one of the texts. */
  ghost predicate HasPart(texts: set<string>, sql: string) {
    exists t :: t in texts && Contains(sql, t)
  }

  /** The first of the texts that occurs in `sql`. */
  function FirstIn(cached: seq<Option<string>>, sql: string): (r: Option<string>)
    ensures r.Some? ==> Some(r.value) in cached && Contains(sql, r.value)
  {
    if cached == [] then None
    else if cached[0].Some? && Contains(sql, cached[0].value) then cached[0]
    else FirstIn(cached[1..], sql)
  }

  lemma {:induction false} FirstInIs(cached: seq<Option<string>>, sql: string, i: nat)
    requires i < |cached| && cached[i].Some? && Contains(sql, cached[i].value)
    requires forall k :: 0 <= k < i && cached[k].Some? ==> !Contains(sql, cached[k].value)
    ensures FirstIn(cached, sql) == cached[i]
  {
    if i > 0 {
      FirstInIs(cached[1..], sql, i - 1);
    }
  }

  lemma {:induction false} FirstInNone(cached: seq<Option<string>>, sql: string)
    requires FirstIn(cached, sql) == None
    ensures !HasPart(TextSet(cached), sql)
    ensures forall i :: 0 <= i < |cached| && cached[i].Some? ==> !Contains(sql, cached[i].value)
  {
    if cached != [] {
      FirstInNone(cached[1..], sql);
      assert forall i :: 0 < i < |cached| ==> cached[i] == cached[1..][i - 1];
    }
  }

  lemma HasFirst(cached: seq<Option<string>>, sql: string)
    ensures FirstIn(cached, sql).Some? <==> HasPart(TextSet(cached), sql)
  {
    if FirstIn(cached, sql).Some? {
      assert FirstIn(cached, sql).value in TextSet(cached);
    } else {
      FirstInNone(cached, sql);
    }
  }

  lemma TextSetGrows(cached: seq<Option<string>>, sql: string)
    ensures TextSet(cached + [Some(sql)]) == TextSet(cached) + {sql}
  {
  }

  lemma TextSetShrinks(cached: seq<Option<string>>, n: nat)
    requires n <= |cached|
    ensures TextSet(cached[..n]) <= TextSet(cached)
  {
  }

  lemma TextSetFills(cached: seq<Option<string>>, at: nat, sql: string)
    requires at < |cached| && cached[at] == None
    ensures TextSet(cached[at := Some(sql)]) == TextSet(cached) + {sql}
  {
    var next := cached[at := Some(sql)];
    forall t | Some(t) in cached
      ensures Some(t) in next
    {
      var i :| 0 <= i < |cached| && cached[i] == Some(t);
      assert next[i] == Some(t);
    }
    assert next[at] == Some(sql);
  }

  /** The bytes startup stores when the texts `stored` are cached already: those of the results
      of the configured queries, without the ones that become sub-caches. */
  ghost function StaticBytes(db: Database, stored: set<string>, queries: seq<string>): nat
    decreases |queries|
  {
    if queries == [] then 0
    else if HasPart(stored, queries[0]) || db(queries[0]).None? then StaticBytes(db, stored, queries[1..])
    else TableBytes(db(queries[0]).value.rows) + StaticBytes(db, stored + {queries[0]}, queries[1..])
  }

  class Server {
    const db: Database
    const limit: nat               // CACHE_MAX_size
    ghost const texts: set<string> // what is ever requested
    var cache: seq<Entry>
    var size: nat                  // CACHE_size
    var sub: seq<SubCache>
    ghost var repeated: set<string> // configured again when already cached

    // ----- the invariant -----

    /** The cached texts, entry by entry. */
    ghost function Texts(): seq<Option<string>>
      reads this`cache, cache
    {
      var c := cache;
      seq(|c|, i requires 0 <= i < |c| reads c => if c[i].query.Some? then Some(c[i].query.value.sql) else None)
    }

    ghost predicate EntriesOk()
      reads this`cache, cache
    {
      && (forall i, j :: 0 <= i < j < |cache| ==> cache[i] != cache[j])
      && (forall i :: 0 <= i < |cache| ==> EntryOk(cache[i]))
    }

    ghost predicate EntryOk(e: Entry)
      reads e
    {
      match e.query
      case None => e.size == 0
      case Some(q) => q.sql in texts && db(q.sql) == Some(q.table) && e.size == TableBytes(q.table.rows)
    }

    /** No earlier entry's text occurs in a later entry's. */
    ghost predicate NoEarlierPart()
      reads this`cache, cache
    {
      forall i, j :: 0 <= i < j < |cache| && cache[i].query.Some? && cache[j].query.Some? ==>
        !Contains(cache[j].query.value.sql, cache[i].query.value.sql)
    }

    /** The entry at `i` is the first one whose text occurs in `sql`. */
    ghost predicate FirstPart(i: nat, sql: string)
      requires i < |cache|
      reads this`cache, cache
    {
      && cache[i].query.Some? && Contains(sql, cache[i].query.value.sql)
      && forall k :: 0 <= k < i && cache[k].query.Some? ==> !Contains(sql, cache[k].query.value.sql)
    }

    /** A sub-cache points to a resident entry, the first one its text contains, and selects
        rows of it. The entry has another text, unless the text was configured twice. */
    ghost predicate SubOk(s: SubCache)
      reads this, cache
    {
      && s.sql in texts
      && exists i ::
           && 0 <= i < |cache| && cache[i] == s.src && FirstPart(i, s.sql)
           && Selects(cache[i].query.value.table, s)
           && (cache[i].query.value.sql == s.sql ==> s.sql in repeated)
    }

    ghost predicate Selects(t: Table, s: SubCache) {
      && (forall k :: 0 <= k < |s.indices| ==> s.indices[k] < |t.rows|)
      && Select(t.rows, s.indices) == SubsetRows(t, TableOf(db, s.sql), s.sql)
    }

    ghost predicate SubsOk()
      reads this, cache
    {
      forall k :: 0 <= k < |sub| ==> SubOk(sub[k])
    }

    ghost function Sizes(): seq<nat>
      reads this`cache, cache
    {
      var c := cache;
      seq(|c|, i requires 0 <= i < |c| reads c => c[i].size)
    }

    /** Everything but the limit, which one entry may exceed while it is being served. */
    ghost predicate Consistent()
      reads this, cache
    {
      && Regular(db, texts) && (forall t :: t in repeated ==> t in texts && RegularPair(db, t, t))
      && EntriesOk() && NoEarlierPart() && SubsOk() && size == Sum(Sizes())
    }

    ghost predicate Valid()
      reads this, cache
    {
      Consistent() && size <= limit
    }

    // ----- lookups -----

    /** A cached result for exactly this text, or a sub-cache for it. */
    ghost predicate Hit(sql: string)
      reads this, cache
    {
      Cached(sql) || SubCached(sql)
    }

    ghost predicate Cached(sql: string)
      reads this`cache, cache
    {
      Some(sql) in Texts()
    }

    ghost predicate SubCached(sql: string)
      reads this
    {
      exists k :: 0 <= k < |sub| && sub[k].sql == sql
    }

    /** The text whose cached rows a sub-cache answers `sql` from, if a sub-cache does. */
    ghost function Source(sql: string): Option<string>
      reads this, cache
    {
      if Cached(sql) && !SubCached(sql) then None else FirstIn(Texts(), sql)
    }

    /** DB_CACHE_get */
    method CacheGet(sql: string) returns (entry: Option<Entry>, subset: Option<SubCache>)
      ensures entry.Some? ==> entry.value in cache && entry.value.query.Some? && entry.value.query.value.sql == sql
      ensures entry.Some? <==> Cached(sql)
      ensures subset.Some? ==> subset.value in sub && subset.value.sql == sql
      ensures subset.Some? <==> SubCached(sql)
    {
      entry, subset := None, None;
      var i := 0;
      while i < |cache|
        invariant 0 <= i <= |cache| && entry == None
        invariant forall k :: 0 <= k < i && cache[k].query.Some? ==> cache[k].query.value.sql != sql
      {
        if cache[i].query.Some? && cache[i].query.value.sql == sql {
          entry := Some(cache[i]);
          CachedAt(i);
          break;
        }
        i := i + 1;
      }
      var k := 0;
      while k < |sub|
        invariant 0 <= k <= |sub| && subset == None
        invariant forall m :: 0 <= m < k ==> sub[m].sql != sql
      {
        if sub[k].sql == sql {
          subset := Some(sub[k]);
          break;
        }
        k := k + 1;
      }
    }

    /** _DB_CACHE_subset_search */
    method SubsetSearch(sql: string) returns (found: Option<Entry>, ghost at: nat)
      ensures found.Some? ==> at < |cache| && found.value == cache[at] && FirstPart(at, sql)
      ensures found.None? ==>
                forall i :: 0 <= i < |cache| && cache[i].query.Some? ==> !Contains(sql, cache[i].query.value.sql)
    {
      found, at := None, 0;
      var i := 0;
      while i < |cache|
        invariant 0 <= i <= |cache|
        invariant forall k :: 0 <= k < i && cache[k].query.Some? ==> !Contains(sql, cache[k].query.value.sql)
      {
        if cache[i].query.Some? && Contains(sql, cache[i].query.value.sql) {
          return Some(cache[i]), i;
        }
        i := i + 1;
      }
    }

    /** _DB_SUB_CACHE_exists */
    method SubExists(sql: string) returns (found: bool)
      ensures found <==> SubCached(sql)
    {
      var k := 0;
      while k < |sub|
        invariant 0 <= k <= |sub|
        invariant forall m :: 0 <= m < k ==> sub[m].sql != sql
      {
        if sub[k].sql == sql {
          return true;
        }
        k := k + 1;
      }
      found := false;
    }

    // ----- filling -----

    /** DB_SUB_CACHE_init: from the cached rows alone if the request has a limit the server
        can read, otherwise by streaming the result over the cached rows. */
    method SubCacheInit(src: Entry, sql: string) returns (s: SubCache)
      requires src.query.Some? && RegularPair(db, src.query.value.sql, sql)
      requires db(src.query.value.sql) == Some(src.query.value.table)
      requires Rectangular(src.query.value.table) && Rectangular(TableOf(db, sql))
      ensures s.src == src && s.sql == sql && Selects(src.query.value.table, s)
    {
      var cached := src.query.value.table;
      var indices: seq<nat> := [];
      var collected := false;
      if SupportedCondition(sql) {
        var count;
        collected, count, indices := CollectData(cached, sql);
        FirstAreSelected(cached.rows, if LimitOf(sql).Some? then LimitOf(sql).value else 0);
      }
      if !collected {
        indices := StreamRows(cached, db(sql).value);
      }
      s := SubCache(src, sql, indices);
    }

    /** DB_CACHE_init: -1 when the request is answered by a sub-cache, 1 when its result was
        cached, 2 when it was cached beyond the limit, 0 when the database failed. */
    method CacheInit(dst: Entry, sql: string) returns (code: int)
      requires Consistent() && sql in texts && dst.query == None
      requires Cached(sql) ==> RegularPair(db, sql, sql)
      modifies this, dst
      ensures cache == old(cache)
      ensures repeated == if old(Cached(sql)) then old(repeated) + {sql} else old(repeated)
      ensures code == -1 || code == 0 || code == 1 || code == 2
      ensures code == -1 <==> old(HasPart(TextSet(Texts()), sql))
      ensures code >= 0 ==> forall i :: 0 <= i < |cache| && cache[i] != dst && cache[i].query.Some? ==>
                              !Contains(sql, cache[i].query.value.sql)
      ensures code == -1 ==> size == old(size) && dst.query == None && dst.size == old(dst.size)
      ensures code == -1 ==> SubCached(sql)
      ensures code == -1 ==> sub == old(sub) || exists s :: sub == old(sub) + [s] && s.sql == sql && SubOk(s)
      ensures code == 0 ==> size == old(size) && sub == old(sub)
      ensures code == 0 ==> dst.query == None && dst.size == 0 && db(sql) == None
      ensures code > 0 ==> db(sql).Some? && dst.query == Some(Query(sql, db(sql).value))
      ensures code > 0 ==> dst.size == TableBytes(db(sql).value.rows)
      ensures code > 0 ==> sub == old(sub) && size == old(size) + dst.size && (code == 1 <==> size <= limit)
    {
      hide Contains, RegularPair, Selects, TableBytes;
      HasFirst(Texts(), sql);
      CachedIsPart(sql);
      var cached, at := SubsetSearch(sql);
      if cached.Some? {
        FirstTextIs(at, sql);
        AddSubCache(cached.value, at, sql);
        return -1;
      }
      assert FirstIn(Texts(), sql).None? by {
        NothingFound(sql);
      }
      dst.size := 0;
      var result := db(sql);
      if result.None? {
        return 0;
      }
      dst.query := Some(Query(sql, result.value));
      dst.size := CalcSize(result.value);
      size := size + dst.size;
      code := if size > limit then 2 else 1;
    }

    /** The branch of DB_CACHE_init for a request that contains a cached text: a sub-cache is
        created unless there is one. */
    method AddSubCache(src: Entry, ghost at: nat, sql: string)
      requires Consistent() && sql in texts && at < |cache| && cache[at] == src && FirstPart(at, sql)
      requires Cached(sql) ==> RegularPair(db, sql, sql)
      modifies this`sub, this`repeated
      ensures repeated == if Cached(sql) then old(repeated) + {sql} else old(repeated)
      ensures SubCached(sql) && (sub == old(sub) || exists s :: sub == old(sub) + [s] && s.sql == sql && SubOk(s))
    {
      hide Contains, AnswerFrom, Sum, RegularPair, Server.Selects, Server.NoEarlierPart, Server.SubsOk;
      assert EntryOk(src);
      CachedAt(at);
      if Cached(sql) {
        repeated := repeated + {sql};
      }
      var present := SubExists(sql);
      if !present {
        assert RegularPair(db, src.query.value.sql, sql);
        var s := SubCacheInit(src, sql);
        assert SubOk(s);
        sub := sub + [s];
        assert sub[|sub| - 1].sql == sql;
      }
    }

    /** DB_CACHE_free, of an entry that was taken out of the cache. */
    method CacheFree(dst: Entry)
      requires dst.size <= size
      modifies this`size, dst
      ensures size == old(size) - old(dst.size) && dst.query == None && dst.size == 0
    {
      dst.query := None;
      size := size - dst.size;
      dst.size := 0;
    }

    // ----- startup -----

    /** The slots of DCPAM_WDS_init_cache, one for each configured query, all empty. */
    constructor (db: Database, limit: nat, ghost texts: set<string>, slots: nat)
      requires Regular(db, texts)
      ensures this.db == db && this.limit == limit && this.texts == texts
      ensures Valid() && |cache| == slots && sub == [] && size == 0 && repeated == {} && TextSet(Texts()) == {}
      ensures forall i :: 0 <= i < |cache| ==> cache[i].query == None && fresh(cache[i])
    {
      this.db, this.limit, this.texts := db, limit, texts;
      cache, sub, size, repeated := [], [], 0, {};
      new;
      for i := 0 to slots
        invariant |cache| == i && sub == [] && size == 0 && repeated == {}
        invariant forall k :: 0 <= k < i ==> cache[k].query == None && cache[k].size == 0 && fresh(cache[k])
        invariant forall j, k :: 0 <= j < k < i ==> cache[j] != cache[k]
      {
        var e := new Entry();
        cache := cache + [e];
      }
      SumZero(Sizes());
      assert TextSet(Texts()) == {};
    }

    // ----- serving -----

    /** An entry and a sub-cache for one text are about the same rows: the entry is the
        sub-cache's own source. */
    lemma SubsetOfItself(m: nat, s: SubCache)
      requires Consistent() && s in sub
      requires m < |cache| && cache[m].query.Some? && cache[m].query.value.sql == s.sql
      ensures cache[m] == s.src
    {
      hide Contains, Sum, Selects;
      var k :| 0 <= k < |sub| && sub[k] == s;
      assert SubOk(s);
      var i :| 0 <= i < |cache| && cache[i] == s.src && FirstPart(i, s.sql);
      ContainsSelf(s.sql);
      assert Contains(s.sql, cache[m].query.value.sql);
      assert Contains(cache[m].query.value.sql, cache[i].query.value.sql);
    }

    lemma CachedIsPart(sql: string)
      ensures Cached(sql) ==> sql in TextSet(Texts()) && HasPart(TextSet(Texts()), sql)
    {
      ContainsSelf(sql);
    }

    lemma CachedAt(i: nat)
      requires i < |cache| && cache[i].query.Some?
      ensures Cached(cache[i].query.value.sql)
    {
      assert Texts()[i] == Some(cache[i].query.value.sql);
    }

    lemma NothingFound(sql: string)
      requires forall i :: 0 <= i < |cache| && cache[i].query.Some? ==> !Contains(sql, cache[i].query.value.sql)
      ensures FirstIn(Texts(), sql) == None
    {
    }

    lemma FirstTextIs(i: nat, sql: string)
      requires i < |cache| && FirstPart(i, sql)
      ensures FirstIn(Texts(), sql) == Some(cache[i].query.value.sql)
    {
      FirstInIs(Texts(), sql, i);
    }

    /** A cached text that has no sub-cache is answered by its entry. */
    lemma EntryAnswers(m: nat, sql: string)
      requires Consistent() && m < |cache| && cache[m].query.Some? && cache[m].query.value.sql == sql
      ensures db(sql) == Some(cache[m].query.value.table) && (!SubCached(sql) ==> Source(sql) == None)
    {
      hide Contains, Sum, FirstIn;
      assert EntryOk(cache[m]);
      CachedAt(m);
    }

    /** What a sub-cache selects, and from which text. */
    lemma SubCacheAnswers(s: SubCache)
      requires Consistent() && s in sub
      ensures s.src in cache && s.src.query.Some? && Selects(s.src.query.value.table, s)
      ensures
        var base := s.src.query.value.sql;
        && Source(s.sql) == Some(base) && base in texts && Some(base) in Texts() && Contains(s.sql, base)
        && db(base) == Some(s.src.query.value.table) && (base == s.sql ==> s.sql in repeated)
    {
      hide Contains, Sum, FirstIn, Selects;
      var k :| 0 <= k < |sub| && sub[k] == s;
      assert SubOk(s) && SubCached(s.sql);
      var i :| 0 <= i < |cache| && cache[i] == s.src && FirstPart(i, s.sql) && Selects(cache[i].query.value.table, s)
               && (cache[i].query.value.sql == s.sql ==> s.sql in repeated);
      FirstTextIs(i, s.sql);
      CachedAt(i);
      assert EntryOk(cache[i]);
    }

    /** Serving a hit: all rows of the entry, or the rows the sub-cache selects. */
    method Serve(entry: Option<Entry>, subset: Option<SubCache>, sql: string) returns (r: Response)
      requires Consistent() && (entry.Some? || subset.Some?)
      requires entry.Some? ==> entry.value in cache && entry.value.query.Some? && entry.value.query.value.sql == sql
      requires subset.Some? ==> subset.value in sub && subset.value.sql == sql
      requires subset.None? ==> !SubCached(sql)
      ensures Some(r) == AnswerFrom(db, Source(sql), sql)
    {
      hide Server.Source, FirstIn, SubsetRows, Server.EntriesOk, Server.NoEarlierPart;
      if entry.Some? {
        ghost var m: nat :| m < |cache| && cache[m] == entry.value;
        EntryAnswers(m, sql);
        if subset.Some? {
          SubsetOfItself(m, subset.value);
        }
      }
      if subset.Some? {
        SubCacheAnswers(subset.value);
      }
      var source := if entry.Some? then entry.value else subset.value.src;
      if subset.Some? {
        var data := SelectRows(source.query.value.table.rows, subset.value.indices);
        r := Response(|subset.value.indices|, data);
      } else {
        var rows := source.query.value.table.rows;
        var data := AllRows(rows);
        r := Response(|rows|, data);
      }
    }

    /** What stays the same, entry by entry, keeps the invariant about them. */
    twostate predicate SameEntries()
      reads this, cache
    {
      && cache == old(cache)
      && forall i :: 0 <= i < |cache| ==> cache[i].query == old(cache[i].query) && cache[i].size == old(cache[i].size)
    }

    twostate lemma KeepsEntries()
      requires old(EntriesOk() && NoEarlierPart()) && SameEntries() && old(repeated) <= repeated
      ensures EntriesOk() && NoEarlierPart() && Sizes() == old(Sizes()) && Texts() == old(Texts())
      ensures forall s :: s in old(sub) && old(SubOk(s)) ==> SubOk(s)
    {
    }

    /** A new entry at the end whose text contains no cached one. */
    twostate lemma GrowsConsistently(new e: Entry)
      requires old(EntriesOk() && NoEarlierPart()) && cache == old(cache) + [e] && e !in old(cache)
      requires old(repeated) <= repeated
      requires forall x :: x in old(cache) ==> x.query == old(x.query) && x.size == old(x.size)
      requires e.query.Some? && EntryOk(e)
      requires forall i :: 0 <= i < |old(cache)| && old(cache)[i].query.Some? ==>
                 !Contains(e.query.value.sql, old(cache)[i].query.value.sql)
      ensures EntriesOk() && NoEarlierPart() && Sizes() == old(Sizes()) + [e.size]
      ensures Texts() == old(Texts()) + [Some(e.query.value.sql)]
      ensures forall s :: s in old(sub) && old(SubOk(s)) ==> SubOk(s)
    {
      assert forall i :: 0 <= i < |old(cache)| ==> cache[i] == old(cache)[i] && cache[i] in old(cache);
      assert cache[|cache| - 1] == e;
    }

    /** A request that was not found: its result is put into the cache or the sub-cache. */
    method CacheRequest(sql: string) returns (code: int)
      requires Valid() && sql in texts && !Hit(sql)
      modifies this
      ensures Consistent() && repeated == old(repeated)
      ensures code == -1 || code == 0 || code == 1 || code == 2
      ensures code == 0 <==> !Hit(sql)
      ensures code == -1 <==> FirstIn(old(Texts()), sql).Some?
      ensures code == 0 ==> db(sql) == None
      ensures code != 0 ==> Source(sql) == old(Source(sql))
      ensures code <= 0 ==> size == old(size) && cache == old(cache) && Texts() == old(Texts())
      ensures code > 0 ==> |cache| == |old(cache)| + 1 && cache[..|old(cache)|] == old(cache)
                           && sub == old(sub) && size == old(size) + cache[|cache| - 1].size
                           && fresh(cache[|cache| - 1]) && (code == 1 <==> size <= limit)
                           && Texts() == old(Texts()) + [Some(sql)]
                           && db(sql).Some? && size == old(size) + TableBytes(db(sql).value.rows)
    {
      hide Contains, RegularPair, TableBytes, Sum, Server.Selects, HasPart, FirstIn, TextSet;
      hide Server.EntriesOk, Server.NoEarlierPart, Server.SubOk, Regular;
      var dst := new Entry();
      assert dst !in cache;
      HasFirst(Texts(), sql);
      code := CacheInit(dst, sql);
      if code > 0 {
        cache := cache + [dst];
        GrowsConsistently(dst);
        SumAppend(old(Sizes()), dst.size);
      } else {
        KeepsEntries();
      }
    }

    /** The entry at `at` got the result of a text that contains no cached one. */
    twostate lemma FillsConsistently(at: nat)
      requires old(EntriesOk() && NoEarlierPart()) && cache == old(cache) && at < |cache|
      requires old(repeated) <= repeated
      requires forall i :: 0 <= i < |cache| && i != at ==>
                 cache[i].query == old(cache[i].query) && cache[i].size == old(cache[i].size)
      requires forall i :: at <= i < |cache| ==> old(cache[i].query) == None
      requires cache[at].query.Some? && EntryOk(cache[at])
      requires forall i :: 0 <= i < |cache| && i != at && cache[i].query.Some? ==>
                 !Contains(cache[at].query.value.sql, cache[i].query.value.sql)
      ensures EntriesOk() && NoEarlierPart() && Sizes() == old(Sizes())[at := cache[at].size]
      ensures Texts() == old(Texts())[at := Some(cache[at].query.value.sql)]
      ensures forall s :: s in old(sub) && old(SubOk(s)) ==> SubOk(s)
    {
    }

    /** The result of a text is put into the cache: it occurs in no cached one, and the database
        has one. */
    ghost predicate Storable(sql: string)
      reads this`cache, cache
    {
      !HasPart(TextSet(Texts()), sql) && db(sql).Some?
    }

    /** One configured query of DCPAM_WDS_init_cache, into the slot at `initialized`. A result
        that exceeds the limit stays in its slot and in the total, but the slot is used again. */
    method CacheStatic(sql: string, initialized: nat) returns (next: nat)
      requires Consistent() && sql in texts && initialized < |cache|
      requires forall i :: initialized <= i < |cache| ==> cache[i].query == None
      requires Cached(sql) ==> RegularPair(db, sql, sql)
      modifies this, cache
      ensures Consistent() && cache == old(cache)
      ensures next == if old(Storable(sql)) && size <= limit then initialized + 1 else initialized
      ensures forall i :: initialized < i < |cache| ==> cache[i].query == None
      ensures cache[initialized].query.Some? <==> old(Storable(sql))
      ensures repeated == if old(Cached(sql)) then old(repeated) + {sql} else old(repeated)
      ensures
        if old(Storable(sql)) then
          TextSet(Texts()) == old(TextSet(Texts())) + {sql} && size == old(size) + TableBytes(db(sql).value.rows)
        else TextSet(Texts()) == old(TextSet(Texts())) && size == old(size)
    {
      hide Contains, RegularPair, Regular, Sum, TableBytes, Server.Selects, Server.SubOk, HasPart, TextSet;
      var dst := cache[initialized];
      assert EntryOk(dst);
      var code := CacheInit(dst, sql);
      next := initialized;
      if code > 0 {
        FillsConsistently(initialized);
        TextSetFills(old(Texts()), initialized, sql);
        SumUpdate(old(Sizes()), initialized, dst.size);
      } else {
        KeepsEntries();
      }
      if code == 1 {
        next := initialized + 1;
      }
    }

    /** DCPAM_WDS_init_cache: every configured query is cached, sub-cached or failed. */
    method InitCache(queries: seq<string>)
      requires Valid() && size == 0 && TextSet(Texts()) == {} && repeated == {} && |queries| <= |cache|
      requires forall i :: 0 <= i < |queries| ==> queries[i] in texts
      requires forall i, j :: 0 <= i < j < |queries| && queries[i] == queries[j] ==>
                 RegularPair(db, queries[i], queries[i])
      requires forall i :: 0 <= i < |cache| ==> cache[i].query == None
      requires StaticBytes(db, {}, queries) <= limit
      modifies this, cache
      ensures Valid() && cache == old(cache) && size == StaticBytes(db, {}, queries)
      ensures forall t :: t in repeated ==> exists i, j :: 0 <= i < j < |queries| && queries[i] == queries[j] == t
    {
      hide HasPart, TableBytes, RegularPair, TextSet, Server.Cached, Server.Consistent;
      var initialized := 0;
      var i := 0;
      assert queries[0..] == queries;
      while i < |queries|
        invariant 0 <= initialized <= i <= |queries| && Valid() && cache == old(cache)
        invariant forall k :: initialized <= k < |cache| ==> cache[k].query == None
        invariant size + StaticBytes(db, TextSet(Texts()), queries[i..]) == StaticBytes(db, {}, queries)
        invariant forall t :: t in TextSet(Texts()) ==> t in queries[..i]
        invariant forall t :: t in repeated ==> exists i, j :: 0 <= i < j < |queries| && queries[i] == queries[j] == t
      {
        assert queries[i..][1..] == queries[i + 1..];
        assert queries[..i + 1] == queries[..i] + [queries[i]];
        CachedIsPart(queries[i]);
        initialized := CacheStatic(queries[i], initialized);
        i := i + 1;
      }
    }

    /** The withdrawal of a result that exceeded the limit, after it was served. */
    method Withdraw()
      requires Consistent() && |cache| > 0
      requires forall k :: 0 <= k < |sub| ==> sub[k].src != cache[|cache| - 1]
      modifies this, cache[|cache| - 1]
      ensures Consistent() && sub == old(sub)
      ensures cache == old(cache)[..|old(cache)| - 1] && repeated == old(repeated)
      ensures size == old(size) - old(cache[|cache| - 1].size)
      ensures TextSet(Texts()) <= old(TextSet(Texts()))
    {
      var last := cache[|cache| - 1];
      ghost var sizes := Sizes();
      cache := cache[..|cache| - 1];
      SumAppend(sizes[..|sizes| - 1], last.size);
      assert sizes == sizes[..|sizes| - 1] + [last.size];
      CacheFree(last);
      assert Sizes() == sizes[..|sizes| - 1];
      ShrinksConsistently(last);
      TextSetShrinks(old(Texts()), |cache|);
    }

    twostate lemma ShrinksConsistently(last: Entry)
      requires old(EntriesOk() && NoEarlierPart() && SubsOk()) && sub == old(sub) && repeated == old(repeated)
      requires old(cache) == cache + [last] && forall k :: 0 <= k < |sub| ==> sub[k].src != last
      requires forall x :: x in old(cache) && x != last ==> x.query == old(x.query) && x.size == old(x.size)
      ensures EntriesOk() && NoEarlierPart() && SubsOk() && Texts() == old(Texts())[..|cache|]
    {
      assert old(cache)[|cache|] == last;
      forall i | 0 <= i < |cache|
        ensures cache[i] == old(cache)[i] && cache[i] in old(cache) && cache[i] != last
      {
        assert (cache + [last])[i] == cache[i];
      }
    }

    /** DCPAM_WDS_get_db_data. The answer is the database's or, when a cached text occurs in the
        request, what a sub-cache on the first such text selects. A miss makes at most one
        nested call, which hits; a result that exceeds the limit is served and then withdrawn. */
    method GetDbData(sql: string) returns (r: Option<Response>, nested: nat)
      requires Consistent() && sql in texts && (size <= limit || Hit(sql))
      modifies this
      ensures Consistent() && repeated == old(repeated)
      ensures r == AnswerFrom(db, old(Source(sql)), sql)
      ensures old(size <= limit) ==> size <= limit
      ensures old(Hit(sql)) ==> nested == 0 && unchanged(this)
      ensures nested <= 1
      ensures TextSet(Texts()) <= old(TextSet(Texts())) + {sql}
      ensures old(!Hit(sql) && FirstIn(Texts(), sql) == None) && db(sql).Some?
              && old(size) + TableBytes(db(sql).value.rows) <= limit ==>
                Texts() == old(Texts()) + [Some(sql)] && sub == old(sub)
      decreases !Hit(sql)
    {
      hide Server.Consistent, RegularPair, AnswerFrom;
      var entry, subset := CacheGet(sql);
      if entry.Some? || subset.Some? {
        var response := Serve(entry, subset, sql);
        return Some(response), 0;
      }
      SourcesCached();
      TextSetGrows(Texts(), sql);
      var code := CacheRequest(sql);
      if code == -1 {
        r, nested := GetDbData(sql);
        nested := nested + 1;
      } else if code == 1 {
        r, nested := GetDbData(sql);
        nested := nested + 1;
      } else if code == 2 {
        r, nested := GetDbData(sql);
        nested := nested + 1;
        Withdraw();
      } else {
        r, nested := None, 0;
        NotFoundAnywhere(db, sql);
      }
    }

    /** The sources of the sub-caches are all in the cache. */
    lemma SourcesCached()
      requires Consistent()
      ensures forall k :: 0 <= k < |sub| ==> sub[k].src in cache
    {
    }

    /** The base of an answer is a cached text with a result that occurs in the request, and it
        is the request itself only if that was configured twice. */
    lemma SourceOk(sql: string)
      requires Consistent() && sql in texts
      ensures Source(sql).Some? ==>
                var base := Source(sql).value;
                && base in TextSet(Texts()) && base in texts && db(base).Some? && Contains(sql, base)
                && (base == sql ==> sql in repeated) && RegularPair(db, base, sql)
    {
      hide Contains, Sum, RegularPair;
      if SubCached(sql) {
        var k :| 0 <= k < |sub| && sub[k].sql == sql;
        SubCacheAnswers(sub[k]);
      } else if Source(sql).Some? {
        var i: nat :| i < |cache| && cache[i].query.Some? && cache[i].query.value.sql == Source(sql).value;
        CachedAt(i);
        assert EntryOk(cache[i]);
      }
    }

    /** Any sequence of requests. Each answer is the database's own, or the one a sub-cache gives
        on a text cached before, at startup or by an earlier request, that occurs in the request.
        It is right exactly when the rows of that text answer the request. Between requests the
        cache never holds more than the limit. If the texts may all be asked of one server,
        every answer is right. */
    method ServeAll(requests: seq<string>) returns (answers: seq<Option<Response>>, ghost bases: seq<Option<string>>)
      requires Valid() && forall i :: 0 <= i < |requests| ==> requests[i] in texts
      modifies this
      ensures Valid() && |answers| == |bases| == |requests|
      ensures forall i :: 0 <= i < |requests| ==> answers[i] == AnswerFrom(db, bases[i], requests[i])
      ensures forall i :: 0 <= i < |requests| && bases[i].Some? ==>
                && (bases[i].value in old(TextSet(Texts())) || bases[i].value in requests[..i])
                && Contains(requests[i], bases[i].value)
                && (bases[i].value == requests[i] ==> requests[i] in old(repeated))
      ensures forall i :: 0 <= i < |requests| ==>
                (answers[i] == Direct(db, requests[i]) <==> bases[i].None? || Servable(db, bases[i].value, requests[i]))
      ensures Admissible(db, texts) && (forall t :: t in old(repeated) ==> Servable(db, t, t)) ==>
                forall i :: 0 <= i < |requests| ==> answers[i] == Direct(db, requests[i])
    {
      hide RegularPair, AnswerFrom, Servable, Server.Consistent, Server.Source, Contains;
      answers, bases := [], [];
      ghost var cached := TextSet(Texts());
      for i := 0 to |requests|
        invariant Valid() && repeated == old(repeated) && |answers| == |bases| == i
        invariant forall t :: t in TextSet(Texts()) ==> t in cached || t in requests[..i]
        invariant forall k :: 0 <= k < i ==> answers[k] == AnswerFrom(db, bases[k], requests[k])
        invariant forall k :: 0 <= k < i && bases[k].Some? ==>
                    && (bases[k].value in cached || bases[k].value in requests[..k])
                    && bases[k].value in texts && db(bases[k].value).Some? && Contains(requests[k], bases[k].value)
                    && (bases[k].value == requests[k] ==> requests[k] in repeated)
                    && RegularPair(db, bases[k].value, requests[k])
      {
        SourceOk(requests[i]);
        bases := bases + [Source(requests[i])];
        assert requests[..i + 1] == requests[..i] + [requests[i]];
        var answer, nested := GetDbData(requests[i]);
        answers := answers + [answer];
      }
      assert Regular(db, texts) by {
        RegularTexts();
      }
      forall i | 0 <= i < |requests|
        ensures answers[i] == Direct(db, requests[i]) <==> bases[i].None? || Servable(db, bases[i].value, requests[i])
      {
        RightFromBase(db, texts, bases[i], requests[i]);
      }
    }

    lemma RegularTexts()
      requires Consistent()
      ensures Regular(db, texts)
    {
    }
  }

  lemma NotFoundAnywhere(db: Database, sql: string)
    ensures db(sql) == None ==> AnswerFrom(db, None, sql) == None
  {
  }

  /** An answer is right exactly when it is the database's own or that of a servable base. */
  lemma RightFromBase(db: Database, texts: set<string>, base: Option<string>, s: string)
    requires Regular(db, texts) && s in texts
    requires base.Some? ==> base.value in texts && RegularPair(db, base.value, s)
    ensures AnswerFrom(db, base, s) == Direct(db, s) <==> base.None? || Servable(db, base.value, s)
  {
    if base.Some? {
      AnswerIsRight(db, base.value, s);
    }
  }

  lemma ContainsSelf(s: string)
    ensures Contains(s, s)
  {
    assert OccursAt(s, s, 0);
  }

  /** The loop that adds every cached row to the answer. */
  method AllRows(rows: seq<Row>) returns (data: seq<Row>)
    ensures data == rows
  {
    data := [];
    var i := 0;
    while i < |rows|
      invariant 0 <= i <= |rows| && data == rows[..i]
    {
      data := data + [rows[i]];
      i := i + 1;
    }
  }

  /** The loop that adds the selected rows to the answer. */
  method SelectRows(rows: seq<Row>, indices: seq<nat>) returns (data: seq<Row>)
    requires forall k :: 0 <= k < |indices| ==> indices[k] < |rows|
    ensures data == Select(rows, indices)
  {
    data := [];
    var i := 0;
    while i < |indices|
      invariant 0 <= i <= |indices| && |data| == i
      invariant forall k :: 0 <= k < i ==> data[k] == rows[indices[k]]
    {
      data := data + [rows[indices[i]]];
      i := i + 1;
    }
  }
}

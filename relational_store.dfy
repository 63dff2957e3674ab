/**
 * The relational store's side of the study-log queries: the WHERE clause and
 * parameter list a search builds, the count query and the data query that share
 * them, the paging offset, and how the store reads the row counts the database
 * reports. The database itself is not modelled; where a lemma needs one, a table
 * is a map from id to record.
 */
module RelationalStore {
  import opened Wrappers
  import opened StudyLogDomain
  import opened StoreQueries
  import JavaText
  import Paging

  /** A bound statement parameter. */
  datatype SqlParam = TextParam(text: string) | DateParam(day: Day) | IntParam(n: int)

  /** SQL text as the store concatenates it: literal pieces and `?` placeholders. */
  datatype Token = Text(text: string) | Mark

  /** The SQL string the tokens spell. */
  function Render(ts: seq<Token>): string
  {
    if ts == [] then "" else (if ts[0].Mark? then "?" else ts[0].text) + Render(ts[1..])
  }

  /** Number of placeholders. */
  function Marks(ts: seq<Token>): nat
  {
    if ts == [] then 0 else (if ts[0].Mark? then 1 else 0) + Marks(ts[1..])
  }

  /** No literal piece contains a `?` of its own. */
  predicate Plain(ts: seq<Token>)
  {
    forall i :: 0 <= i < |ts| && ts[i].Text? ==> '?' !in ts[i].text
  }

  /** A single piece: a placeholder counts one, a text without `?` none. */
  lemma MarksOfOne(t: Token)
    ensures Marks([t]) == (if t.Mark? then 1 else 0)
    ensures Plain([t]) <==> (t.Text? ==> '?' !in t.text)
  {
    assert [t][1..] == [];
  }

  lemma {:induction false} MarksAppend(a: seq<Token>, b: seq<Token>)
    ensures Marks(a + b) == Marks(a) + Marks(b)
    ensures Plain(a) && Plain(b) ==> Plain(a + b)
    decreases |a|
  {
    if a != [] {
      assert (a + b)[1..] == a[1..] + b;
      MarksAppend(a[1..], b);
    } else {
      assert a + b == b;
    }
  }

  /** In a plain token list, the `?` characters of the SQL string are exactly its placeholders. */
  lemma {:induction false} RenderCount(ts: seq<Token>)
    requires Plain(ts)
    ensures JavaText.CountChar(Render(ts), '?') == Marks(ts)
    decreases |ts|
  {
    if ts != [] {
      var piece := if ts[0].Mark? then "?" else ts[0].text;
      RenderCount(ts[1..]);
      JavaText.CountCharAppend(piece, Render(ts[1..]), '?');
      if ts[0].Text? {
        JavaText.CountCharZero(piece, '?');
      }
    }
  }

  /** One filter of a search, as it enters the WHERE clause. */
  datatype Condition =
    | TitleLike(keyword: string)
    | CategoryEquals(name: string)
    | DateFrom(from: Day)
    | DateTo(to: Day)

  /** A statement and the values bound to its placeholders. */
  datatype SqlQuery = SqlQuery(sql: seq<Token>, params: seq<SqlParam>)

  /** Every placeholder has a value and every value a placeholder. */
  predicate WellBound(q: SqlQuery)
  {
    Plain(q.sql) && Marks(q.sql) == |q.params|
  }

  /** In a well-bound query the SQL string holds one `?` per bound value. */
  lemma WellBoundPlaceholders(q: SqlQuery)
    requires WellBound(q)
    ensures JavaText.CountChar(Render(q.sql), '?') == |q.params|
  {
    RenderCount(q.sql);
  }

  /** Where each kind of condition stands in the clause. */
  function Position(c: Condition): nat
  {
    match c
    case TitleLike(_) => 0
    case CategoryEquals(_) => 1
    case DateFrom(_) => 2
    case DateTo(_) => 3
  }

  /** The conditions a search filter contributes, appended one filter at a time. */
  function Conditions(f: SearchFilter): seq<Condition>
  {
    var none: seq<Condition> := [];
    var afterTitle := if IsPresent(f.titleKeyword) then none + [TitleLike(f.titleKeyword.value)] else none;
    var afterCategory := if IsPresent(f.category) then afterTitle + [CategoryEquals(f.category.value)] else afterTitle;
    var afterStart := if f.startDate.Some? then afterCategory + [DateFrom(f.startDate.value)] else afterCategory;
    if f.endDate.Some? then afterStart + [DateTo(f.endDate.value)] else afterStart
  }

  /** A search contributes a title keyword and a category when present and not blank,
      each date when present, and nothing else, in the fixed order title, category,
      start date, end date. */
  lemma ConditionsOfFilter(f: SearchFilter)
    ensures forall k :: TitleLike(k) in Conditions(f) <==> IsPresent(f.titleKeyword) && k == f.titleKeyword.value
    ensures forall n :: CategoryEquals(n) in Conditions(f) <==> IsPresent(f.category) && n == f.category.value
    ensures forall d :: DateFrom(d) in Conditions(f) <==> f.startDate == Some(d)
    ensures forall d :: DateTo(d) in Conditions(f) <==> f.endDate == Some(d)
    ensures forall i, j :: 0 <= i < j < |Conditions(f)| ==> Position(Conditions(f)[i]) < Position(Conditions(f)[j])
  {
    TextConditions(f);
    DateConditions(f);
    ConditionsOrdered(f);
  }

  lemma TextConditions(f: SearchFilter)
    ensures forall k :: TitleLike(k) in Conditions(f) <==> IsPresent(f.titleKeyword) && k == f.titleKeyword.value
    ensures forall n :: CategoryEquals(n) in Conditions(f) <==> IsPresent(f.category) && n == f.category.value
  {
  }

  lemma DateConditions(f: SearchFilter)
    ensures forall d :: DateFrom(d) in Conditions(f) <==> f.startDate == Some(d)
    ensures forall d :: DateTo(d) in Conditions(f) <==> f.endDate == Some(d)
  {
  }

  lemma ConditionsOrdered(f: SearchFilter)
    ensures forall i, j :: 0 <= i < j < |Conditions(f)| ==> Position(Conditions(f)[i]) < Position(Conditions(f)[j])
  {
  }

  /** The text a condition appends to the WHERE clause, up to its placeholder. */
  function Test(c: Condition): string
  {
    match c
    case TitleLike(_) => " AND title LIKE "
    case CategoryEquals(_) => " AND category = "
    case DateFrom(_) => " AND study_date >= "
    case DateTo(_) => " AND study_date <= "
  }

  lemma TestPlain(c: Condition)
    ensures '?' !in Test(c)
  {
  }

  /** What a condition appends to the WHERE clause: its test and one placeholder. */
  function Fragment(c: Condition): (ts: seq<Token>)
    ensures Plain(ts) && Marks(ts) == 1
  {
    TestPlain(c);
    MarksOfOne(Text(Test(c)));
    MarksOfOne(Mark);
    MarksAppend([Text(Test(c))], [Mark]);
    [Text(Test(c))] + [Mark]
  }

  /** The value a condition binds: the keyword wrapped in `%` wildcards, the other
      filters unchanged. */
  function Param(c: Condition): SqlParam
  {
    match c
    case TitleLike(k) => TextParam("%" + k + "%")
    case CategoryEquals(n) => TextParam(n)
    case DateFrom(d) => DateParam(d)
    case DateTo(d) => DateParam(d)
  }

  /** `WHERE 1=1` followed by the fragments of `cs`, in order. */
  function Clause(cs: seq<Condition>): (ts: seq<Token>)
    ensures Plain(ts) && Marks(ts) == |cs|
  {
    if cs == [] then
      WherePrefixPlain();
      WherePrefix
    else
      var rest := Clause(cs[..|cs| - 1]);
      MarksAppend(rest, Fragment(cs[|cs| - 1]));
      rest + Fragment(cs[|cs| - 1])
  }

  function Params(cs: seq<Condition>): (ps: seq<SqlParam>)
    ensures |ps| == |cs| && forall i :: 0 <= i < |cs| ==> ps[i] == Param(cs[i])
  {
    if cs == [] then [] else Params(cs[..|cs| - 1]) + [Param(cs[|cs| - 1])]
  }

  const WherePrefix: seq<Token> := [Text("WHERE 1=1")]

  /** The WHERE clause of a search. */
  function WhereClause(f: SearchFilter): (where: seq<Token>)
    ensures Plain(where) && Marks(where) == |Params(Conditions(f))|
  {
    Clause(Conditions(f))
  }

  /** Appending one more condition extends the clause and the parameter list by its own. */
  lemma ExtendByOne(cs: seq<Condition>, c: Condition)
    ensures Clause(cs + [c]) == Clause(cs) + Fragment(c)
    ensures Params(cs + [c]) == Params(cs) + [Param(c)]
  {
    assert (cs + [c])[..|cs|] == cs;
  }

  /** The clause and parameter list of a search, built as the store builds them: start
      from `WHERE 1=1` and append a test, a placeholder and a value for each active
      filter in turn. */
  method BuildWhereClause(f: SearchFilter) returns (where: seq<Token>, params: seq<SqlParam>)
    ensures where == WhereClause(f) && params == Params(Conditions(f))
    ensures WellBound(SqlQuery(where, params))
  {
    ghost var cs: seq<Condition> := [];
    where := WherePrefix;
    params := [];
    if IsPresent(f.titleKeyword) {
      ExtendByOne(cs, TitleLike(f.titleKeyword.value));
      cs := cs + [TitleLike(f.titleKeyword.value)];
      where := where + Fragment(TitleLike(f.titleKeyword.value));
      params := params + [TextParam("%" + f.titleKeyword.value + "%")];
    }
    assert where == Clause(cs) && params == Params(cs);
    if IsPresent(f.category) {
      ExtendByOne(cs, CategoryEquals(f.category.value));
      cs := cs + [CategoryEquals(f.category.value)];
      where := where + Fragment(CategoryEquals(f.category.value));
      params := params + [TextParam(f.category.value)];
    }
    assert where == Clause(cs) && params == Params(cs);
    if f.startDate.Some? {
      ExtendByOne(cs, DateFrom(f.startDate.value));
      cs := cs + [DateFrom(f.startDate.value)];
      where := where + Fragment(DateFrom(f.startDate.value));
      params := params + [DateParam(f.startDate.value)];
    }
    assert where == Clause(cs) && params == Params(cs);
    if f.endDate.Some? {
      ExtendByOne(cs, DateTo(f.endDate.value));
      cs := cs + [DateTo(f.endDate.value)];
      where := where + Fragment(DateTo(f.endDate.value));
      params := params + [DateParam(f.endDate.value)];
    }
    assert where == Clause(cs) && params == Params(cs);
    assert cs == Conditions(f);
  }

  const CountFrom: seq<Token> := [Text("SELECT COUNT(*) FROM study_logs ")]
  const SelectFrom: seq<Token> := [Text("SELECT * FROM study_logs ")]
  const AllCount: seq<Token> := [Text("SELECT COUNT(*) FROM study_logs")]
  const CategoryWhere: seq<Token> := [Text("WHERE category = "), Mark]
  const OrderBy: seq<Token> := [Text(" ORDER BY "), Text("study_date DESC, "), Text("id DESC")]
  const LimitTail: seq<Token> := [Text(" LIMIT "), Mark, Text(" OFFSET "), Mark]
  /** ` ORDER BY study_date DESC, id DESC LIMIT ? OFFSET ?` */
  const OrderAndLimit: seq<Token> := OrderBy + LimitTail

  /** The row offset of a page, as the store writes it: `page * size` in 32-bit `int`. */
  function OffsetAsWritten(page: Int32, size: Int32): (r: Int32)
    ensures (r - page * size) % 0x1_0000_0000 == 0
    ensures -0x8000_0000 <= page * size < 0x8000_0000 ==> r == page * size
  {
    Paging.Wrap32Congruent(page * size);
    Paging.Wrap32(page * size)
  }

  /** The row offset of a page: the number of rows on the pages before it. */
  function Offset(page: Int32, size: Int32): int
  {
    page * size
  }

  /** `LIMIT limit OFFSET offset` over rows in query order; the database refuses a
      negative value. */
  function LimitOffset<T>(rows: seq<T>, limit: int, offset: int): (r: Option<seq<T>>)
    ensures r.Some? <==> limit >= 0 && offset >= 0
    ensures r.Some? ==> |r.value| <= limit && (offset >= |rows| ==> r.value == [])
  {
    if limit < 0 || offset < 0 then None
    else
      var from := Paging.Min(offset, |rows|);
      Some(rows[from..Paging.Min(offset + limit, |rows|)])
  }

  /** With the offset computed exactly, the database returns, for every page a caller
      may ask for, the same slice the in-memory store takes of the same ordered rows. */
  lemma OffsetSelectsPage<T>(rows: seq<T>, page: Int32, size: Int32)
    requires 0 <= page && 0 <= size
    ensures LimitOffset(rows, size, Offset(page, size)) == Some(Paging.Slice(rows, page * size, size))
  {
  }

  /** The offset as written wraps to a negative value for a large page number that the
      service's clamping lets through, so the data query is refused where an empty page
      was due. */
  lemma OffsetOverflowRefused<T>(rows: seq<T>)
    ensures OffsetAsWritten(21474837, 100) == -2147483596
    ensures LimitOffset(rows, 100, OffsetAsWritten(21474837, 100)) == None
    ensures LimitOffset(rows, 100, Offset(21474837, 100)).Some?
  {
  }

  lemma WherePrefixPlain() ensures Plain(WherePrefix) && Marks(WherePrefix) == 0 { }
  lemma CountFromPlain() ensures Plain(CountFrom) && Marks(CountFrom) == 0 { }
  lemma SelectFromPlain() ensures Plain(SelectFrom) && Marks(SelectFrom) == 0 { }
  lemma AllCountPlain() ensures Plain(AllCount) && Marks(AllCount) == 0 { }
  lemma CategoryWherePlain() ensures Plain(CategoryWhere) && Marks(CategoryWhere) == 1 { }
  lemma OrderByPlain() ensures Plain(OrderBy) && Marks(OrderBy) == 0 { }
  lemma LimitTailPlain() ensures Plain(LimitTail) && Marks(LimitTail) == 2 { }

  lemma OrderAndLimitPlain()
    ensures Plain(OrderAndLimit) && Marks(OrderAndLimit) == 2
  {
    OrderByPlain();
    LimitTailPlain();
    MarksAppend(OrderBy, LimitTail);
  }

  /** The fixed pieces around a clause hold no placeholder, the order-and-limit tail two. */
  lemma FixedPieces()
    ensures Plain(WherePrefix) && Marks(WherePrefix) == 0
    ensures Plain(CountFrom) && Marks(CountFrom) == 0
    ensures Plain(SelectFrom) && Marks(SelectFrom) == 0
    ensures Plain(OrderAndLimit) && Marks(OrderAndLimit) == 2
  {
    WherePrefixPlain();
    CountFromPlain();
    SelectFromPlain();
    OrderAndLimitPlain();
  }

  /** The count query of a search: the clause after `SELECT COUNT(*)`. */
  function CountQuery(where: seq<Token>, params: seq<SqlParam>): (q: SqlQuery)
    ensures WellBound(SqlQuery(where, params)) ==> WellBound(q)
    ensures q.params == params
  {
    FixedPieces();
    MarksAppend(CountFrom, where);
    SqlQuery(CountFrom + where, params)
  }

  /** The data query of a page: the count query's clause and values, then the order,
      `LIMIT size` and `OFFSET` of the page. */
  function DataQuery(where: seq<Token>, params: seq<SqlParam>, page: Int32, size: Int32): (q: SqlQuery)
    ensures WellBound(SqlQuery(where, params)) ==> WellBound(q)
    ensures q.params == params + [IntParam(size), IntParam(Offset(page, size))]
  {
    FixedPieces();
    MarksAppend(SelectFrom, where);
    MarksAppend(SelectFrom + where, OrderAndLimit);
    SqlQuery(SelectFrom + where + OrderAndLimit, params + [IntParam(size), IntParam(Offset(page, size))])
  }

  /** What a paged query does once the count is known. */
  datatype Step = Done(result: Page<Record>) | Fetch(query: SqlQuery)

  /** A null or zero count gives an empty page with total 0 and no data query;
      any other count runs the data query. */
  function AfterCount(count: Option<int>, data: SqlQuery, page: Int32, size: Int32): (s: Step)
    ensures s.Done? <==> count == None || count == Some(0)
    ensures s.Done? ==> s.result == Page([], page, size, 0)
    ensures s.Fetch? ==> s.query == data
  {
    if count.None? || count.value == 0 then Done(Page([], page, size, 0)) else Fetch(data)
  }

  /** The page a data query's rows make, with the count as total. */
  function Assemble(content: seq<Record>, page: Int32, size: Int32, total: int): Page<Record>
  {
    Page(content, page, size, total)
  }

  /** Given the rows a query selects, in its order, the relational store returns the
      page the in-memory paging step takes of the same rows: the early empty page when
      the count is zero, otherwise the data query's rows under the count. */
  lemma RelationalPageMatchesInMemory(rows: seq<Record>, data: SqlQuery, page: Int32, size: Int32)
    requires 0 <= page && 0 <= size
    ensures var step := AfterCount(Some(|rows|), data, page, size);
      (step.Done? ==> step.result == Paging.PageOf(rows, page, size).value) &&
      (step.Fetch? ==>
        LimitOffset(rows, size, Offset(page, size)).Some? &&
        Assemble(LimitOffset(rows, size, Offset(page, size)).value, page, size, |rows|)
          == Paging.PageOf(rows, page, size).value)
  {
    OffsetSelectsPage(rows, page, size);
  }

  /** `searchWithPaging` up to the data query: build the clause, issue the count query
      with it and, when `count` reports rows, the data query that reuses it. */
  method SearchWithPaging(f: SearchFilter, page: Int32, size: Int32, count: Option<int>)
      returns (countQuery: SqlQuery, next: Step)
    ensures countQuery == SqlQuery(CountFrom + WhereClause(f), Params(Conditions(f)))
    ensures WellBound(countQuery)
    ensures next == AfterCount(count, DataQuery(WhereClause(f), Params(Conditions(f)), page, size), page, size)
    ensures next.Fetch? ==>
      (WellBound(next.query) && next.query.sql == SelectFrom + WhereClause(f) + OrderAndLimit &&
       next.query.params == countQuery.params + [IntParam(size), IntParam(page * size)])
  {
    var where, params := BuildWhereClause(f);
    countQuery := CountQuery(where, params);
    next := AfterCount(count, DataQuery(where, params, page, size), page, size);
  }

  /** `findAllWithPaging`: the unfiltered count query, then one page of every row. */
  function AllPageQueries(page: Int32, size: Int32, count: Option<int>): (r: (SqlQuery, Step))
    ensures WellBound(r.0) && r.0.params == []
    ensures r.1.Done? <==> count == None || count == Some(0)
    ensures r.1.Fetch? ==> (WellBound(r.1.query) && r.1.query.params == [IntParam(size), IntParam(page * size)])
  {
    AllCountPlain();
    assert WellBound(SqlQuery([], []));
    (SqlQuery(AllCount, []),
     AfterCount(count, DataQuery([], [], page, size), page, size))
  }

  /** `findByCategoryWithPaging`: both queries bind the category first. */
  function CategoryPageQueries(category: string, page: Int32, size: Int32, count: Option<int>): (r: (SqlQuery, Step))
    ensures WellBound(r.0) && r.0.params == [TextParam(category)]
    ensures r.1.Done? <==> count == None || count == Some(0)
    ensures r.1.Fetch? ==>
      (WellBound(r.1.query) && r.1.query.params == [TextParam(category), IntParam(size), IntParam(page * size)])
  {
    var where := CategoryWhere;
    CategoryWherePlain();
    (CountQuery(where, [TextParam(category)]),
     AfterCount(count, DataQuery(where, [TextParam(category)], page, size), page, size))
  }

  /** `update`: zero affected rows is a failure naming the id. */
  function UpdateOutcome(updated: int, log: Record): (r: Result<Record, Failure>)
    ensures r.Err? <==> updated == 0
    ensures r.Err? ==> r.error == RowNotFound(log.id)
    ensures r.Ok? ==> r.value == log
  {
    if updated == 0 then Err(RowNotFound(log.id)) else Ok(log)
  }

  /** `deleteById`: whether any row was deleted. */
  function DeleteOutcome(deleted: int): (removed: bool)
    ensures removed <==> deleted > 0
  {
    deleted > 0
  }

  /** `existsById`: whether the count is present and positive. */
  function ExistsOutcome(count: Option<int>): (exists_: bool)
    ensures exists_ <==> count.Some? && count.value > 0
  {
    count.Some? && count.value > 0
  }

  /** `count` and `countByCategory`: a null count reads as 0. */
  function CountOutcome(count: Option<int>): (n: int)
    ensures count.None? ==> n == 0
    ensures count.Some? ==> n == count.value
  {
    if count.Some? then count.value else 0
  }

  /** Rows a statement `... WHERE id = ?` touches in a table keyed by id; `null` matches none. */
  function RowsWithId(table: map<int, Record>, id: Option<int>): (n: nat)
    ensures n <= 1 && (n == 1 <==> id.Some? && id.value in table)
  {
    if id.Some? && id.value in table then 1 else 0
  }

  /** Over a table keyed by id, the relational store's answers agree with the in-memory
      store's: delete and exists report whether the id is stored, and update fails
      exactly when it is not. */
  lemma OutcomesAgreeWithInMemoryStore(table: map<int, Record>, id: int, log: Record)
    ensures DeleteOutcome(RowsWithId(table, Some(id))) <==> id in table
    ensures ExistsOutcome(Some(RowsWithId(table, Some(id)))) <==> id in table
    ensures UpdateOutcome(RowsWithId(table, log.id), log).Err? <==> log.id.None? || log.id.value !in table
  {
  }

  /** Whether a record satisfies a condition other than the title pattern, whose
      meaning depends on the database's collation. `category = ?` is read as exact
      string equality, as under a binary, no-pad collation; a case-insensitive or
      PAD SPACE collation would also match the stored name against `"java"` or
      `"JAVA "`. */
  predicate Satisfies(c: Condition, log: Record)
    requires !c.TitleLike?
  {
    match c
    case CategoryEquals(n) => CategoryName(log.category) == n
    case DateFrom(d) => log.studyDate >= d
    case DateTo(d) => log.studyDate <= d
  }

  /** Without a title keyword, and with `category = ?` compared exactly, a record
      passes every condition of the WHERE clause exactly when the in-memory store's
      search keeps it. */
  lemma ConditionsAgreeWithSearch(f: SearchFilter, log: Record)
    requires !IsPresent(f.titleKeyword)
    ensures forall c :: c in Conditions(f) ==> !c.TitleLike?
    ensures (forall c :: c in Conditions(f) ==> !c.TitleLike? && Satisfies(c, log)) <==> SearchMatches(f, log)
  {
    var cs := Conditions(f);
    ConditionsOfFilter(f);
    if IsPresent(f.category) {
      assert CategoryEquals(f.category.value) in cs;
    }
    if f.startDate.Some? {
      assert DateFrom(f.startDate.value) in cs;
    }
    if f.endDate.Some? {
      assert DateTo(f.endDate.value) in cs;
    }
  }
}

/**
 * The study-log service over the in-memory store: paged queries with their
 * page and size clamped, category text resolved case-insensitively, the update
 * flow (existence check, empty-update check, enum resolution, null-preserving
 * merge) and the delete flow. A response carries the record's own fields, so
 * records are returned as they are.
 */
module StudyLogServices {
  import opened Wrappers
  import opened StudyLogDomain
  import opened StoreQueries
  import opened UpdateRequest
  import InMemoryStore
  import Paging
  import JavaText

  /** The largest page size the service passes on. */
  const MaxPageSize: int := 100

  /** `Math.max(0, page)`: negative page numbers become the first page. */
  function ClampPage(page: Int32): (p: Int32)
    ensures p >= 0
    ensures page >= 0 ==> p == page
    ensures page < 0 ==> p == 0
  {
    if page < 0 then 0 else page
  }

  /** `Math.min(Math.max(1, size), MAX_PAGE_SIZE)`: sizes are kept within 1..100. */
  function ClampSize(size: Int32): (s: Int32)
    ensures 1 <= s <= MaxPageSize
    ensures 1 <= size <= MaxPageSize ==> s == size
    ensures size < 1 ==> s == 1
    ensures size > MaxPageSize ==> s == MaxPageSize
  {
    if size < 1 then 1 else if size > MaxPageSize then MaxPageSize else size
  }

  /** The category the search passes on: null when the text is null or blank,
      otherwise the text upper-cased, which the store then treats as present. */
  function SearchCategory(categoryStr: Option<string>): (category: Option<string>)
    ensures category.Some? <==> IsPresent(categoryStr)
    ensures category.Some? ==> category.value == JavaText.ToUpper(categoryStr.value) && IsPresent(category)
  {
    if IsPresent(categoryStr) then
      JavaText.ToUpperKeepsBlank(categoryStr.value);
      Some(JavaText.ToUpper(categoryStr.value))
    else None
  }

  /** No category name is blank. */
  lemma CategoryNameNotBlank(c: Category)
    ensures !JavaText.IsBlank(CategoryName(c))
  {
    assert !JavaText.IsWhitespace(CategoryName(c)[0]);
  }

  /** For every clamped page whose end stays inside the `int` range, the store's paging
      step as written and the exact one give the same page. */
  lemma ClampedPagesAsWritten<T>(items: seq<T>, page: Int32, size: Int32)
    requires |items| < 0x8000_0000
    requires (ClampPage(page) as int + 1) * (ClampSize(size) as int) < 0x8000_0000
    ensures Paging.PageOfAsWritten(items, ClampPage(page), ClampSize(size))
      == Paging.PageOf(items, ClampPage(page), ClampSize(size))
  {
    var p, s := ClampPage(page) as int, ClampSize(size) as int;
    assert (p + 1) * s == p * s + s;
    assert p * s >= 0;
    Paging.AsWrittenAgreesWithoutOverflow(items, ClampPage(page), ClampSize(size));
  }

  /** Clamping leaves a page number large enough to overflow the store's 32-bit
      offset, so the store as written fails for a page the service lets through. */
  lemma ClampAdmitsOverflow<T>(items: seq<T>)
    requires |items| < 0x8000_0000
    ensures ClampPage(21474837) == 21474837 && ClampSize(500) == 100
    ensures Paging.PageOfAsWritten(items, ClampPage(21474837), ClampSize(500)) == Err(Paging.IndexOutOfBounds)
  {
    Paging.PagingOverflowThrows(items);
  }

  /** Searching by any case variant of a category's name keeps exactly that category's
      records: the upper-cased text survives the blank check and names the constant. */
  lemma SearchByCategoryText(text: string, c: Category, log: Record)
    requires JavaText.ToUpper(text) == CategoryName(c)
    ensures SearchMatches(SearchFilter(None, SearchCategory(Some(text)), None, None), log) <==> log.category == c
  {
    CategoryNameNotBlank(c);
    JavaText.ToUpperKeepsBlank(text);
    assert CategoryValueOf(CategoryName(log.category)) == Some(log.category);
  }

  /** `Category.valueOf(text.toUpperCase())`, failing with the text as given. */
  function ResolveCategory(text: string): (r: Result<Category, Failure>)
    ensures r.Ok? <==> JavaText.ToUpper(text) in CategoryNames
    ensures r.Ok? ==> CategoryName(r.value) == JavaText.ToUpper(text)
    ensures r.Err? ==> r.error == IllegalArgument(InvalidCategory(text))
  {
    match CategoryValueOf(JavaText.ToUpper(text))
    case None => Err(IllegalArgument(InvalidCategory(text)))
    case Some(c) => Ok(c)
  }

  /** `Understanding.valueOf(text.toUpperCase())`, failing with the text as given. */
  function ResolveUnderstanding(text: string): (r: Result<Understanding, Failure>)
    ensures r.Ok? <==> JavaText.ToUpper(text) in UnderstandingNames
    ensures r.Ok? ==> UnderstandingName(r.value) == JavaText.ToUpper(text)
    ensures r.Err? ==> r.error == IllegalArgument(InvalidUnderstanding(text))
  {
    match UnderstandingValueOf(JavaText.ToUpper(text))
    case None => Err(IllegalArgument(InvalidUnderstanding(text)))
    case Some(u) => Ok(u)
  }

  /** Two texts that upper-case alike resolve alike. */
  lemma ResolutionIgnoresCase(a: string, b: string)
    requires JavaText.ToUpper(a) == JavaText.ToUpper(b)
    ensures ResolveCategory(a).Ok? <==> ResolveCategory(b).Ok?
    ensures ResolveCategory(a).Ok? ==> ResolveCategory(a).value == ResolveCategory(b).value
    ensures ResolveUnderstanding(a).Ok? <==> ResolveUnderstanding(b).Ok?
    ensures ResolveUnderstanding(a).Ok? ==> ResolveUnderstanding(a).value == ResolveUnderstanding(b).value
  {
  }

  /** The entity's update: each non-null argument replaces its field. */
  function Merge(existing: Record, u: UpdateFields, category: Option<Category>,
                 understanding: Option<Understanding>): Record
  {
    existing.(
      title := if u.title.Some? then u.title.value else existing.title,
      content := if u.content.Some? then u.content.value else existing.content,
      category := if category.Some? then category.value else existing.category,
      understanding := if understanding.Some? then understanding.value else existing.understanding,
      studyTime := if u.studyTime.Some? then u.studyTime.value else existing.studyTime,
      studyDate := if u.studyDate.Some? then u.studyDate.value else existing.studyDate)
  }

  /** What `updateStudyLog` yields on a store holding `db` at time `now`: the checks in
      the service's order, then the merged record as the store saves it. */
  function UpdateOutcome(db: map<int, Record>, id: int, u: UpdateFields, now: Timestamp): (r: Result<Record, Failure>)
    ensures r.Err? ==> r.error.IllegalArgument?
    ensures r.Ok? ==>
      id in db && r.value.id == db[id].id && r.value.createdAt == db[id].createdAt && r.value.updatedAt == now
  {
    if id !in db then Err(IllegalArgument(UnknownId(id)))
    else if AllNull(u) then Err(IllegalArgument(Reason.NoUpdates))
    else if u.category.Some? && ResolveCategory(u.category.value).Err? then
      Err(ResolveCategory(u.category.value).error)
    else if u.understanding.Some? && ResolveUnderstanding(u.understanding.value).Err? then
      Err(ResolveUnderstanding(u.understanding.value).error)
    else
      var category := if u.category.Some? then Some(ResolveCategory(u.category.value).value) else None;
      var understanding := if u.understanding.Some? then Some(ResolveUnderstanding(u.understanding.value).value) else None;
      Ok(Merge(db[id], u, category, understanding).(updatedAt := now))
  }

  /** The update's checks, in order: an unknown id first, then an empty request, then
      category text, then understanding text; it succeeds exactly when all pass. */
  lemma UpdateChecksInOrder(db: map<int, Record>, id: int, u: UpdateFields, now: Timestamp)
    ensures id !in db ==> UpdateOutcome(db, id, u, now) == Err(IllegalArgument(UnknownId(id)))
    ensures id in db && u == NoFields ==> UpdateOutcome(db, id, u, now) == Err(IllegalArgument(Reason.NoUpdates))
    ensures id in db && u != NoFields && u.category.Some? && JavaText.ToUpper(u.category.value) !in CategoryNames ==>
      UpdateOutcome(db, id, u, now) == Err(IllegalArgument(InvalidCategory(u.category.value)))
    ensures (id in db && u != NoFields && (u.category.Some? ==> JavaText.ToUpper(u.category.value) in CategoryNames) &&
             u.understanding.Some? && JavaText.ToUpper(u.understanding.value) !in UnderstandingNames) ==>
      UpdateOutcome(db, id, u, now) == Err(IllegalArgument(InvalidUnderstanding(u.understanding.value)))
    ensures UpdateOutcome(db, id, u, now).Ok? <==>
      id in db && u != NoFields &&
      (u.category.Some? ==> JavaText.ToUpper(u.category.value) in CategoryNames) &&
      (u.understanding.Some? ==> JavaText.ToUpper(u.understanding.value) in UnderstandingNames)
  {
  }

  /** A successful update keeps the id and creation time, stamps the update time, takes
      every non-null request field (enum text by its upper-cased name) and keeps the
      stored value of every null one. */
  lemma UpdateKeepsNullFields(db: map<int, Record>, id: int, u: UpdateFields, now: Timestamp)
    requires WellKeyed(db)
    ensures var r := UpdateOutcome(db, id, u, now);
      r.Ok? ==>
        r.value.id == Some(id) && r.value.createdAt == db[id].createdAt && r.value.updatedAt == now &&
        r.value.title == (if u.title.Some? then u.title.value else db[id].title) &&
        r.value.content == (if u.content.Some? then u.content.value else db[id].content) &&
        r.value.studyTime == (if u.studyTime.Some? then u.studyTime.value else db[id].studyTime) &&
        r.value.studyDate == (if u.studyDate.Some? then u.studyDate.value else db[id].studyDate) &&
        (u.category.Some? ==> CategoryName(r.value.category) == JavaText.ToUpper(u.category.value)) &&
        (u.category.None? ==> r.value.category == db[id].category) &&
        (u.understanding.Some? ==> UnderstandingName(r.value.understanding) == JavaText.ToUpper(u.understanding.value)) &&
        (u.understanding.None? ==> r.value.understanding == db[id].understanding)
  {
  }

  /** The merge reads the request's category only through its resolved constant. */
  lemma MergeIgnoresCategoryText(existing: Record, ua: UpdateFields, ub: UpdateFields)
    requires ua.(category := None) == ub.(category := None)
    ensures forall c, d :: Merge(existing, ua, c, d) == Merge(existing, ub, c, d)
  {
    assert ua.title == ub.title && ua.content == ub.content;
    assert ua.studyTime == ub.studyTime && ua.studyDate == ub.studyDate;
  }

  /** Category text that differs only in case updates alike. */
  lemma UpdateIgnoresCategoryCase(db: map<int, Record>, id: int, u: UpdateFields, a: string, b: string, now: Timestamp)
    requires JavaText.ToUpper(a) == JavaText.ToUpper(b)
    ensures UpdateOutcome(db, id, u.(category := Some(a)), now).Ok? <==> UpdateOutcome(db, id, u.(category := Some(b)), now).Ok?
    ensures UpdateOutcome(db, id, u.(category := Some(a)), now).Ok? ==>
      UpdateOutcome(db, id, u.(category := Some(a)), now) == UpdateOutcome(db, id, u.(category := Some(b)), now)
  {
    var ua, ub := u.(category := Some(a)), u.(category := Some(b));
    UpdateChecksInOrder(db, id, ua, now);
    UpdateChecksInOrder(db, id, ub, now);
    if UpdateOutcome(db, id, ua, now).Ok? {
      ResolutionIgnoresCase(a, b);
      MergeIgnoresCategoryText(db[id], ua, ub);
    }
  }

  /** Applying the same request again changes nothing but the update time. */
  lemma UpdateIsIdempotent(db: map<int, Record>, id: int, u: UpdateFields, now: Timestamp, later: Timestamp)
    requires UpdateOutcome(db, id, u, now).Ok?
    ensures var r := UpdateOutcome(db, id, u, now).value;
      UpdateOutcome(db[id := r], id, u, later) == Ok(r.(updatedAt := later))
  {
  }

  class StudyLogService {
    const dao: InMemoryStore.InMemoryStudyLogDao

    constructor (dao: InMemoryStore.InMemoryStudyLogDao)
      ensures this.dao == dao
    {
      this.dao := dao;
    }

    /** A page of all records: the clamped page and size, the store's total, and the
        store's records of that page in the store's order. */
    method GetStudyLogsWithPaging(page: Int32, size: Int32) returns (result: Page<Record>)
      requires dao.Valid()
      ensures result.page == ClampPage(page) && result.size == ClampSize(size)
      ensures result.totalElements == dao.Count()
      ensures result.content == Paging.Slice(dao.FindAll(), (result.page as int) * (result.size as int), result.size)
    {
      var p := ClampPage(page);
      var s := ClampSize(size);
      var stored := dao.FindAllWithPaging(p, s);
      result := Page(stored.value.content, p, s, stored.value.totalElements);
    }

    /** A page of one category's records; null or blank text yields an empty page with
        total 0 without consulting the store, other text is upper-cased. */
    method GetStudyLogsByCategoryWithPaging(categoryStr: Option<string>, page: Int32, size: Int32)
        returns (result: Page<Record>)
      requires dao.Valid()
      ensures result.page == ClampPage(page) && result.size == ClampSize(size)
      ensures !IsPresent(categoryStr) ==> result.content == [] && result.totalElements == 0
      ensures IsPresent(categoryStr) ==>
        Ok(result) == dao.FindByCategoryWithPaging(JavaText.ToUpper(categoryStr.value), result.page, result.size)
    {
      var p := ClampPage(page);
      var s := ClampSize(size);
      if !IsPresent(categoryStr) {
        return Page([], p, s, 0);
      }
      var category := JavaText.ToUpper(categoryStr.value);
      var stored := dao.FindByCategoryWithPaging(category, p, s);
      result := Page(stored.value.content, p, s, stored.value.totalElements);
    }

    /** A page of the search: the category is upper-cased or dropped when blank, the
        title and dates pass unchanged, and the page holds the matching records. */
    method SearchStudyLogsWithPaging(titleKeyword: Option<string>, categoryStr: Option<string>,
                                     startDate: Option<Day>, endDate: Option<Day>,
                                     page: Int32, size: Int32) returns (result: Page<Record>)
      requires dao.Valid()
      ensures result.page == ClampPage(page) && result.size == ClampSize(size)
      ensures Ok(result) ==
        dao.SearchWithPaging(titleKeyword, SearchCategory(categoryStr), startDate, endDate, result.page, result.size)
    {
      var p := ClampPage(page);
      var s := ClampSize(size);
      var category := SearchCategory(categoryStr);
      var stored := dao.SearchWithPaging(titleKeyword, category, startDate, endDate, p, s);
      result := Page(stored.value.content, p, s, stored.value.totalElements);
    }

    /** The number of records of a category; 0 for null or blank text. */
    method GetStudyLogCountByCategory(categoryStr: Option<string>) returns (n: int)
      requires dao.Valid()
      ensures !IsPresent(categoryStr) ==> n == 0
      ensures IsPresent(categoryStr) ==> n == |dao.FindByCategory(JavaText.ToUpper(categoryStr.value))|
    {
      if categoryStr.None? || JavaText.IsBlank(categoryStr.value) {
        return 0;
      }
      n := dao.CountByCategory(JavaText.ToUpper(categoryStr.value));
    }

    /** The records of `category`, newest id first. */
    method GetStudyLogsByCategory(category: Category) returns (logs: seq<Record>)
      requires dao.Valid()
      ensures forall i :: 0 <= i < |logs| ==> StoredIn(dao.database, logs[i]) && logs[i].category == category
      ensures forall k :: k in dao.database && dao.database[k].category == category ==> dao.database[k] in logs
      ensures NewestIdFirst(logs)
    {
      logs := dao.FindByCategory(CategoryName(category));
      forall i | 0 <= i < |logs|
        ensures logs[i].category == category
      {
        var other := logs[i].category;
        assert CategoryValueOf(CategoryName(other)) == Some(other);
      }
    }

    /** The records of the category the text names up to case; text naming no
        category fails with the text as given. */
    method GetStudyLogsByCategoryString(categoryStr: string) returns (r: Result<seq<Record>, Failure>)
      requires dao.Valid()
      ensures r.Err? <==> JavaText.ToUpper(categoryStr) !in CategoryNames
      ensures r.Err? ==> r.error == IllegalArgument(InvalidCategory(categoryStr))
      ensures r.Ok? ==>
        (forall i :: 0 <= i < |r.value| ==>
          StoredIn(dao.database, r.value[i]) && CategoryName(r.value[i].category) == JavaText.ToUpper(categoryStr)) &&
        (forall k :: k in dao.database && CategoryName(dao.database[k].category) == JavaText.ToUpper(categoryStr) ==>
          dao.database[k] in r.value) &&
        NewestIdFirst(r.value)
    {
      var category := CategoryValueOf(JavaText.ToUpper(categoryStr));
      if category.None? {
        return Err(IllegalArgument(InvalidCategory(categoryStr)));
      }
      var logs := GetStudyLogsByCategory(category.value);
      r := Ok(logs);
    }

    /** Update record `id` from `request` at time `now`, as `UpdateOutcome` says;
        the store changes only on success, and then only at `id`. */
    method UpdateStudyLog(id: int, request: UpdateRequest.StudyLogUpdateRequest, now: Timestamp)
        returns (r: Result<Record, Failure>)
      requires dao.Valid()
      modifies dao
      ensures dao.Valid() && dao.sequence == old(dao.sequence)
      ensures r == UpdateOutcome(old(dao.database), id, request.Snapshot(), now)
      ensures r.Ok? ==> dao.database == old(dao.database)[id := r.value]
      ensures r.Err? ==> dao.database == old(dao.database)
    {
      var found := dao.FindById(id);
      if found.None? {
        return Err(IllegalArgument(UnknownId(id)));
      }
      var existing := found.value;
      if request.HasNoUpdates() {
        return Err(IllegalArgument(Reason.NoUpdates));
      }
      var category: Option<Category> := None;
      if request.category.Some? {
        var resolved := CategoryValueOf(JavaText.ToUpper(request.category.value));
        if resolved.None? {
          return Err(IllegalArgument(InvalidCategory(request.category.value)));
        }
        category := resolved;
      }
      var understanding: Option<Understanding> := None;
      if request.understanding.Some? {
        var resolved := UnderstandingValueOf(JavaText.ToUpper(request.understanding.value));
        if resolved.None? {
          return Err(IllegalArgument(InvalidUnderstanding(request.understanding.value)));
        }
        understanding := resolved;
      }
      var merged := Merge(existing, request.Snapshot(), category, understanding);
      r := dao.Update(merged, now);
    }

    /** Delete record `id`: a missing id fails and leaves the store as it was;
        otherwise the record is removed and its id is reported back. */
    method DeleteStudyLog(id: int) returns (r: Result<int, Failure>)
      requires dao.Valid()
      modifies dao
      ensures dao.Valid() && dao.sequence == old(dao.sequence)
      ensures id !in old(dao.database) ==> r == Err(StudyLogNotFound(id)) && dao.database == old(dao.database)
      ensures id in old(dao.database) ==> r == Ok(id) && dao.database == old(dao.database) - {id}
    {
      if !dao.ExistsById(id) {
        return Err(StudyLogNotFound(id));
      }
      var _ := dao.DeleteById(id);
      r := Ok(id);
    }
  }

  /** Deleting the same id twice: the second call fails with not-found. */
  method DeleteTwiceFails(service: StudyLogService, id: int) returns (first: Result<int, Failure>, second: Result<int, Failure>)
    requires service.dao.Valid() && id in service.dao.database
    modifies service.dao
    ensures first == Ok(id) && second == Err(StudyLogNotFound(id))
    ensures service.dao.database == old(service.dao.database) - {id}
  {
    first := service.DeleteStudyLog(id);
    second := service.DeleteStudyLog(id);
  }
}

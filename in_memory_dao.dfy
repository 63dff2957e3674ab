/**
 * The in-memory study-log store: a map from id to record plus an id sequence.
 * Saves, updates and deletes change the map in place; the finders, counts and
 * paged queries are functions of the map.
 */
module InMemoryStore {
  import opened Wrappers
  import opened StudyLogDomain
  import opened StoreQueries
  import Paging
  import JavaText

  class InMemoryStudyLogDao {
    /** The stored records by id. */
    var database: map<int, Record>
    /** The next id `save` hands out. */
    var sequence: int

    /** Every record is stored under its own id, and the sequence starts at 1. */
    ghost predicate Valid()
      reads this
    {
      WellKeyed(database) && sequence >= 1
    }

    /** Every stored id was handed out before the current sequence value. */
    ghost predicate IdsBelowSequence()
      reads this
    {
      forall k :: k in database ==> k < sequence
    }

    constructor ()
      ensures Valid() && IdsBelowSequence()
      ensures database == map[] && sequence == 1
    {
      database := map[];
      sequence := 1;
    }

    /** Store `log`; a record without an id first takes the next sequence value. */
    method Save(log: Record) returns (saved: Record)
      requires Valid()
      modifies this
      ensures Valid()
      ensures log.id.None? ==> saved == log.(id := Some(old(sequence))) && sequence == old(sequence) + 1
      ensures log.id.Some? ==> saved == log && sequence == old(sequence)
      ensures saved.id.Some? && database == old(database)[saved.id.value := saved]
      ensures old(IdsBelowSequence()) && log.id.None? ==> saved.id.value !in old(database) && IdsBelowSequence()
      ensures old(IdsBelowSequence()) && log.id.Some? && log.id.value < old(sequence) ==> IdsBelowSequence()
    {
      saved := log;
      if log.id.None? {
        saved := log.(id := Some(sequence));
        sequence := sequence + 1;
      }
      database := database[saved.id.value := saved];
    }

    /** Replace the stored record with `log`, stamped with `now`; refuse a record
        without an id or with an id nothing is stored under. */
    method Update(log: Record, now: Timestamp) returns (r: Result<Record, Failure>)
      requires Valid()
      modifies this
      ensures Valid() && sequence == old(sequence)
      ensures log.id.None? ==> r == Err(IllegalArgument(MissingId)) && database == old(database)
      ensures log.id.Some? && log.id.value !in old(database) ==>
        r == Err(IllegalArgument(UnknownId(log.id.value))) && database == old(database)
      ensures log.id.Some? && log.id.value in old(database) ==>
        r == Ok(log.(updatedAt := now)) && database == old(database)[log.id.value := log.(updatedAt := now)]
      ensures old(IdsBelowSequence()) ==> IdsBelowSequence()
    {
      if log.id.None? {
        return Err(IllegalArgument(MissingId));
      }
      if log.id.value !in database {
        return Err(IllegalArgument(UnknownId(log.id.value)));
      }
      var stamped := log.(updatedAt := now);
      database := database[log.id.value := stamped];
      r := Ok(stamped);
    }

    /** Remove the record stored under `id`; report whether there was one. */
    method DeleteById(id: int) returns (removed: bool)
      requires Valid()
      modifies this
      ensures Valid() && sequence == old(sequence)
      ensures removed <==> id in old(database)
      ensures database == old(database) - {id}
      ensures old(IdsBelowSequence()) ==> IdsBelowSequence()
    {
      removed := id in database;
      database := database - {id};
    }

    /** Empty the store and restart the id sequence at 1. */
    method DeleteAll()
      modifies this
      ensures Valid() && IdsBelowSequence()
      ensures database == map[] && sequence == 1
    {
      database := map[];
      sequence := 1;
    }

    function FindById(id: int): (r: Option<Record>)
      requires Valid()
      reads this
      ensures r.Some? <==> id in database
      ensures r.Some? ==> r.value.id == Some(id) && StoredIn(database, r.value)
    {
      if id in database then Some(database[id]) else None
    }

    function ExistsById(id: int): (b: bool)
      requires Valid()
      reads this
      ensures b <==> FindById(id).Some?
    {
      id in database
    }

    /** Every stored record, newest id first. */
    function FindAll(): (logs: seq<Record>)
      requires Valid()
      reads this
      ensures forall i :: 0 <= i < |logs| ==> StoredIn(database, logs[i])
      ensures forall k :: k in database ==> database[k] in logs
      ensures NewestIdFirst(logs)
    {
      Listing(database, Everything)
    }

    /** The records whose category constant is named `category`, newest id first. */
    function FindByCategory(category: string): (logs: seq<Record>)
      requires Valid()
      reads this
      ensures forall i :: 0 <= i < |logs| ==>
        StoredIn(database, logs[i]) && CategoryName(logs[i].category) == category
      ensures forall k :: k in database && CategoryName(database[k].category) == category ==> database[k] in logs
      ensures NewestIdFirst(logs)
    {
      Listing(database, CategoryNamed(category))
    }

    /** The records studied on `date`, newest id first. */
    function FindByStudyDate(date: Day): (logs: seq<Record>)
      requires Valid()
      reads this
      ensures forall i :: 0 <= i < |logs| ==> StoredIn(database, logs[i]) && logs[i].studyDate == date
      ensures forall k :: k in database && database[k].studyDate == date ==> database[k] in logs
      ensures NewestIdFirst(logs)
    {
      var logs := Listing(database, OnDate(date));
      forall i | 0 <= i < |logs|
        ensures logs[i].studyDate == date
      {
        assert Keeps(OnDate(date), logs[i]);
      }
      logs
    }

    function Count(): (n: nat)
      requires Valid()
      reads this
      ensures n == |FindAll()|
    {
      KeptEverything(database);
      ListingCount(database, Everything);
      |database|
    }

    function CountByCategory(category: string): (n: nat)
      requires Valid()
      reads this
      ensures n == |FindByCategory(category)|
    {
      ListingCount(database, CategoryNamed(category));
      CountMatching(database, CategoryNamed(category))
    }

    /** One page of `FindAll()`. */
    function FindAllWithPaging(page: Int32, size: Int32): (r: Result<Page<Record>, Paging.SliceFault>)
      requires Valid()
      reads this
      ensures r.Ok? ==> (r.value.page == page && r.value.size == size && r.value.totalElements == Count())
      ensures r.Err? <==> page * size < Count() && (page * size < 0 || size < 0)
      ensures page * size >= Count() ==> r.Ok? && r.value.content == []
      ensures 0 <= page && 0 <= size ==>
        (r.Ok? && r.value.content == Paging.Slice(FindAll(), page * size, size))
    {
      var all := FindAll();
      Paging.PageOf(all, page, size)
    }

    /** One page of `FindByCategory(category)`. */
    function FindByCategoryWithPaging(category: string, page: Int32, size: Int32): (r: Result<Page<Record>, Paging.SliceFault>)
      requires Valid()
      reads this
      ensures r.Ok? ==>
        (r.value.page == page && r.value.size == size && r.value.totalElements == CountByCategory(category))
      ensures r.Err? <==> page * size < CountByCategory(category) && (page * size < 0 || size < 0)
      ensures page * size >= CountByCategory(category) ==> r.Ok? && r.value.content == []
      ensures 0 <= page && 0 <= size ==>
        (r.Ok? && r.value.content == Paging.Slice(FindByCategory(category), page * size, size))
    {
      var matching := FindByCategory(category);
      Paging.PageOf(matching, page, size)
    }

    /** One page of the records the four optional criteria all accept, newest id first. */
    function SearchWithPaging(titleKeyword: Option<string>, category: Option<string>,
                              startDate: Option<Day>, endDate: Option<Day>,
                              page: Int32, size: Int32): (r: Result<Page<Record>, Paging.SliceFault>)
      requires Valid()
      reads this
      ensures var f := SearchFilter(titleKeyword, category, startDate, endDate);
        r.Ok? ==> (r.value.page == page && r.value.size == size &&
                   r.value.totalElements == CountMatching(database, Matching(f)))
      ensures var f := SearchFilter(titleKeyword, category, startDate, endDate);
        r.Err? <==> page * size < CountMatching(database, Matching(f)) && (page * size < 0 || size < 0)
      ensures var f := SearchFilter(titleKeyword, category, startDate, endDate);
        page * size >= CountMatching(database, Matching(f)) ==> r.Ok? && r.value.content == []
      ensures var f := SearchFilter(titleKeyword, category, startDate, endDate);
        0 <= page && 0 <= size ==>
          (r.Ok? && r.value.content == Paging.Slice(Listing(database, Matching(f)), page * size, size))
    {
      var f := SearchFilter(titleKeyword, category, startDate, endDate);
      ListingCount(database, Matching(f));
      Paging.PageOf(Listing(database, Matching(f)), page, size)
    }
  }

  /** The criterion `Everything` keeps every key. */
  lemma KeptEverything(db: map<int, Record>)
    ensures KeptKeys(db, Everything) == db.Keys
  {
  }

  /** Two records saved without ids get distinct, increasing ids, and both are stored. */
  method SuccessiveSavesIncrease(dao: InMemoryStudyLogDao, a: Record, b: Record)
      returns (first: Record, second: Record)
    requires dao.Valid() && a.id.None? && b.id.None?
    modifies dao
    ensures first.id.Some? && second.id.Some? && first.id.value < second.id.value
    ensures first.id.value in dao.database && dao.database[first.id.value] == first
    ensures second.id.value in dao.database && dao.database[second.id.value] == second
  {
    first := dao.Save(a);
    second := dao.Save(b);
  }

  /** `deleteAll` restarts the sequence: a record saved after it takes id 1 again. */
  method IdsRestartAfterDeleteAll(dao: InMemoryStudyLogDao, a: Record, b: Record)
      returns (first: Record, second: Record)
    requires a.id.None? && b.id.None?
    modifies dao
    ensures first.id == Some(1) && second.id == Some(1)
    ensures dao.database == map[1 := second]
  {
    dao.DeleteAll();
    first := dao.Save(a);
    dao.DeleteAll();
    second := dao.Save(b);
  }

  /** A record saved under an explicit id at or past the sequence is later
      overwritten by a record saved without an id. */
  method ExplicitIdIsOverwritten(dao: InMemoryStudyLogDao, a: Record, b: Record)
      returns (second: Record)
    requires a.id == Some(1) && b.id.None?
    modifies dao
    ensures second.id == Some(1) && dao.database == map[1 := second]
  {
    dao.DeleteAll();
    var first := dao.Save(a);
    second := dao.Save(b);
  }

  /** Deleting twice: the first call reports whether the record was there, the second reports false. */
  method DeleteTwice(dao: InMemoryStudyLogDao, id: int) returns (first: bool, second: bool)
    requires dao.Valid()
    modifies dao
    ensures first <==> id in old(dao.database)
    ensures dao.Valid() && !second && !dao.ExistsById(id)
  {
    first := dao.DeleteById(id);
    second := dao.DeleteById(id);
  }

  /** The store of the category scenario: a JAVA record under id 1, a SPRING record
      under id 2 and a JAVA record under id 3. */
  predicate ScenarioStore(db: map<int, Record>, s1: Record, s2: Record, s3: Record)
  {
    db == map[1 := s1, 2 := s2, 3 := s3] &&
    s1.id == Some(1) && s2.id == Some(2) && s3.id == Some(3) &&
    s1.category == JAVA && s2.category == SPRING && s3.category == JAVA
  }

  /** Of that store, a criterion keeping exactly the JAVA records lists record 3, then record 1. */
  lemma {:induction false} JavaOnlyListing(db: map<int, Record>, s1: Record, s2: Record, s3: Record, c: Criterion)
    requires ScenarioStore(db, s1, s2, s3)
    requires Keeps(c, s1) && !Keeps(c, s2) && Keeps(c, s3)
    ensures Listing(db, c) == [s3, s1]
  {
    var expected := [s3, s1];
    forall k | k in db && Keeps(c, db[k])
      ensures db[k] in expected
    {
      assert k == 1 || k == 3;
    }
    assert NewestIdFirst(expected);
    ListingUnique(db, c, expected);
  }

  /** The text "JAVA" passes the blank check. */
  lemma JavaIsPresent()
    ensures IsPresent(Some("JAVA"))
  {
    assert !JavaText.IsWhitespace("JAVA"[0]);
  }

  /** Exactly the JAVA records carry the name "JAVA". */
  lemma NamedJava(log: Record)
    ensures CategoryName(log.category) == "JAVA" <==> log.category == JAVA
  {
    assert CategoryValueOf(CategoryName(log.category)) == Some(log.category);
  }

  /** Both the category query and a search for the category keep exactly the JAVA records. */
  lemma JavaListings(db: map<int, Record>, s1: Record, s2: Record, s3: Record)
    requires ScenarioStore(db, s1, s2, s3)
    ensures Listing(db, CategoryNamed("JAVA")) == [s3, s1]
    ensures Listing(db, Matching(SearchFilter(None, Some("JAVA"), None, None))) == [s3, s1]
  {
    NamedJava(s2);
    JavaOnlyListing(db, s1, s2, s3, CategoryNamed("JAVA"));
    JavaIsPresent();
    JavaOnlyListing(db, s1, s2, s3, Matching(SearchFilter(None, Some("JAVA"), None, None)));
  }

  /** Three records dated 2025-01-01 (JAVA), 2025-01-02 (SPRING) and 2025-01-03 (JAVA),
      saved in that order into an empty store: the category query lists the third before
      the first, and a one-record search page holds the third of two matches. */
  method CategoryScenario(dao: InMemoryStudyLogDao, r1: Record, r2: Record, r3: Record)
      returns (byCategory: seq<Record>, firstPage: Result<Page<Record>, Paging.SliceFault>)
    requires r1.id.None? && r2.id.None? && r3.id.None?
    requires r1.category == JAVA && r2.category == SPRING && r3.category == JAVA
    requires r1.studyDate == 20089 && r2.studyDate == 20090 && r3.studyDate == 20091
    modifies dao
    ensures byCategory == [r3.(id := Some(3)), r1.(id := Some(1))]
    ensures firstPage == Ok(Page([r3.(id := Some(3))], 0, 1, 2))
  {
    dao.DeleteAll();
    var s1 := dao.Save(r1);
    var s2 := dao.Save(r2);
    var s3 := dao.Save(r3);
    JavaListings(dao.database, s1, s2, s3);
    byCategory := dao.FindByCategory("JAVA");
    firstPage := dao.SearchWithPaging(None, Some("JAVA"), None, None, 0, 1);
    assert Paging.Slice([s3, s1], 0, 1) == [s3];
  }
}

/**
 * The older in-memory repository: the same map-plus-sequence store, listing
 * records newest-created first, without paging, and with a `deleteAll` that
 * leaves the id sequence where it is.
 */
module LegacyRepository {
  import opened Wrappers
  import opened StudyLogDomain
  import opened StoreQueries
  import KeyOrder

  /** The creation time of every stored record, by id. */
  function CreatedRank(db: map<int, Record>): (rank: map<int, int>)
    ensures rank.Keys == db.Keys
    ensures forall k :: k in db ==> rank[k] == db[k].createdAt
  {
    map k | k in db :: db[k].createdAt
  }

  /** The records stored under `keys`, in the order of `keys`. */
  function RecordsAt(db: map<int, Record>, keys: seq<int>): (logs: seq<Record>)
    requires forall i :: 0 <= i < |keys| ==> keys[i] in db
    ensures |logs| == |keys| && forall i :: 0 <= i < |keys| ==> logs[i] == db[keys[i]]
  {
    if keys == [] then [] else [db[keys[0]]] + RecordsAt(db, keys[1..])
  }

  /** Creation times never increase along the list. */
  predicate NewestCreatedFirst(logs: seq<Record>)
  {
    forall i, j :: 0 <= i < j < |logs| ==> logs[i].createdAt >= logs[j].createdAt
  }

  /** The keys a criterion keeps, newest created first. */
  function RankedKeys(db: map<int, Record>, c: Criterion): (keys: seq<int>)
    ensures forall k :: k in keys <==> k in KeptKeys(db, c)
    ensures |keys| == |KeptKeys(db, c)|
    ensures forall i :: 0 <= i < |keys| ==> keys[i] in db
  {
    KeyOrder.KeysByRank(CreatedRank(db), KeptKeys(db, c))
  }

  lemma RankedRecordsKept(db: map<int, Record>, c: Criterion)
    requires WellKeyed(db)
    ensures var logs := RecordsAt(db, RankedKeys(db, c));
      forall i :: 0 <= i < |logs| ==> StoredIn(db, logs[i]) && Keeps(c, logs[i])
  {
    var keys := RankedKeys(db, c);
    var logs := RecordsAt(db, keys);
    forall i | 0 <= i < |logs|
      ensures StoredIn(db, logs[i]) && Keeps(c, logs[i])
    {
      assert keys[i] in KeptKeys(db, c);
    }
  }

  lemma RankedRecordsComplete(db: map<int, Record>, c: Criterion)
    ensures var logs := RecordsAt(db, RankedKeys(db, c));
      forall k :: k in db && Keeps(c, db[k]) ==> db[k] in logs
  {
    var keys := RankedKeys(db, c);
    var logs := RecordsAt(db, keys);
    forall k | k in db && Keeps(c, db[k])
      ensures db[k] in logs
    {
      var i :| 0 <= i < |keys| && keys[i] == k;
      assert logs[i] == db[k];
    }
  }

  lemma RankedRecordsOrdered(db: map<int, Record>, c: Criterion)
    ensures NewestCreatedFirst(RecordsAt(db, RankedKeys(db, c)))
  {
    var rank := CreatedRank(db);
    var keys := RankedKeys(db, c);
    var logs := RecordsAt(db, keys);
    assert KeyOrder.RankedOrder(rank, keys);
    forall i, j | 0 <= i < j < |logs|
      ensures logs[i].createdAt >= logs[j].createdAt
    {
      assert KeyOrder.RankedBefore(rank, keys[i], keys[j]);
    }
  }

  /** The records a query of this repository returns: those the criterion keeps,
      newest created first. Records created at the same time come in ascending id order. */
  function CreatedListing(db: map<int, Record>, c: Criterion): (logs: seq<Record>)
    requires WellKeyed(db)
    ensures forall i :: 0 <= i < |logs| ==> StoredIn(db, logs[i]) && Keeps(c, logs[i])
    ensures forall k :: k in db && Keeps(c, db[k]) ==> db[k] in logs
    ensures NewestCreatedFirst(logs)
    ensures |logs| == CountMatching(db, c)
  {
    RankedRecordsKept(db, c);
    RankedRecordsComplete(db, c);
    RankedRecordsOrdered(db, c);
    RecordsAt(db, RankedKeys(db, c))
  }

  /** Both stores list the same records for a criterion; only the order differs. */
  lemma SameRecordsAsNewerStore(db: map<int, Record>, c: Criterion)
    requires WellKeyed(db)
    ensures forall r :: r in CreatedListing(db, c) <==> r in Listing(db, c)
    ensures |CreatedListing(db, c)| == |Listing(db, c)|
  {
    var older, newer := CreatedListing(db, c), Listing(db, c);
    forall r
      ensures r in older <==> r in newer
    {
      if r in older {
        var i :| 0 <= i < |older| && older[i] == r;
        assert StoredIn(db, r) && Keeps(c, db[r.id.value]);
      }
      if r in newer {
        var i :| 0 <= i < |newer| && newer[i] == r;
        assert StoredIn(db, r) && Keeps(c, db[r.id.value]);
      }
    }
    ListingCount(db, c);
  }

  class StudyLogRepository {
    var database: map<int, Record>
    var sequence: int

    ghost predicate Valid()
      reads this
    {
      WellKeyed(database) && sequence >= 1
    }

    constructor ()
      ensures Valid()
      ensures database == map[] && sequence == 1
    {
      database := map[];
      sequence := 1;
    }

    /** Store `log`; a record without an id first takes the next sequence value. */
    method Save(log: Record) returns (saved: Record)
      requires Valid()
      modifies this
      ensures Valid()
      ensures log.id.None? ==> saved == log.(id := Some(old(sequence))) && sequence == old(sequence) + 1
      ensures log.id.Some? ==> saved == log && sequence == old(sequence)
      ensures saved.id.Some? && database == old(database)[saved.id.value := saved]
    {
      saved := log;
      if log.id.None? {
        saved := log.(id := Some(sequence));
        sequence := sequence + 1;
      }
      database := database[saved.id.value := saved];
    }

    /** Replace the stored record with `log` as given; refuse a record without an id
        or with an id nothing is stored under. */
    method Update(log: Record) returns (r: Result<Record, Failure>)
      requires Valid()
      modifies this
      ensures Valid() && sequence == old(sequence)
      ensures log.id.None? ==> r == Err(IllegalArgument(MissingId)) && database == old(database)
      ensures log.id.Some? && log.id.value !in old(database) ==>
        r == Err(IllegalArgument(UnknownId(log.id.value))) && database == old(database)
      ensures log.id.Some? && log.id.value in old(database) ==>
        r == Ok(log) && database == old(database)[log.id.value := log]
    {
      if log.id.None? {
        return Err(IllegalArgument(MissingId));
      }
      if log.id.value !in database {
        return Err(IllegalArgument(UnknownId(log.id.value)));
      }
      database := database[log.id.value := log];
      r := Ok(log);
    }

    function ExistsById(id: int): (b: bool)
      requires Valid()
      reads this
      ensures b <==> FindById(id).Some?
    {
      id in database
    }

    function FindById(id: int): (r: Option<Record>)
      requires Valid()
      reads this
      ensures r.Some? <==> id in database
      ensures r.Some? ==> r.value.id == Some(id) && StoredIn(database, r.value)
    {
      if id in database then Some(database[id]) else None
    }

    /** Every stored record, newest created first. */
    function FindAll(): (logs: seq<Record>)
      requires Valid()
      reads this
      ensures forall i :: 0 <= i < |logs| ==> StoredIn(database, logs[i])
      ensures forall k :: k in database ==> database[k] in logs
      ensures NewestCreatedFirst(logs)
      ensures |logs| == |database|
    {
      assert KeptKeys(database, Everything) == database.Keys;
      CreatedListing(database, Everything)
    }

    /** The records studied on `date`, newest created first. */
    function FindByStudyDate(date: Day): (logs: seq<Record>)
      requires Valid()
      reads this
      ensures forall i :: 0 <= i < |logs| ==> StoredIn(database, logs[i]) && logs[i].studyDate == date
      ensures forall k :: k in database && database[k].studyDate == date ==> database[k] in logs
      ensures NewestCreatedFirst(logs)
      ensures |logs| == CountMatching(database, OnDate(date))
    {
      var logs := CreatedListing(database, OnDate(date));
      forall i | 0 <= i < |logs|
        ensures logs[i].studyDate == date
      {
        assert Keeps(OnDate(date), logs[i]);
      }
      logs
    }

    /** The records of `category`, newest created first. */
    function FindByCategory(category: Category): (logs: seq<Record>)
      requires Valid()
      reads this
      ensures forall i :: 0 <= i < |logs| ==> StoredIn(database, logs[i]) && logs[i].category == category
      ensures forall k :: k in database && database[k].category == category ==> database[k] in logs
      ensures NewestCreatedFirst(logs)
      ensures |logs| == CountMatching(database, CategoryIs(category))
    {
      CreatedListing(database, CategoryIs(category))
    }

    function Count(): (n: nat)
      requires Valid()
      reads this
      ensures n == |FindAll()|
      ensures n == |database|
    {
      assert KeptKeys(database, Everything) == database.Keys;
      |database|
    }

    /** Remove the record stored under `id`; report whether there was one. */
    method DeleteById(id: int) returns (removed: bool)
      requires Valid()
      modifies this
      ensures Valid() && sequence == old(sequence)
      ensures removed <==> id in old(database)
      ensures database == old(database) - {id}
    {
      removed := id in database;
      database := database - {id};
    }

    /** Empty the store; the id sequence carries on. */
    method DeleteAll()
      requires Valid()
      modifies this
      ensures Valid()
      ensures database == map[] && sequence == old(sequence)
    {
      database := map[];
    }
  }

  /** Ids are never reused: a record saved after `deleteAll` takes a larger id
      than one saved before it. */
  method IdsNotReusedAfterDeleteAll(repo: StudyLogRepository, a: Record, b: Record)
      returns (first: Record, second: Record)
    requires repo.Valid() && a.id.None? && b.id.None?
    modifies repo
    ensures first.id.Some? && second.id.Some? && first.id.value < second.id.value
    ensures repo.database == map[second.id.value := second]
  {
    first := repo.Save(a);
    repo.DeleteAll();
    second := repo.Save(b);
  }
}

/**
 * The read side of the in-memory store as functions of its map: filter the
 * stored records by a criterion, newest id first, and count the matches.
 */
module StoreQueries {
  import opened Wrappers
  import opened StudyLogDomain
  import JavaText
  import KeyOrder

  /** A text filter is active when it is non-null and not blank. */
  predicate IsPresent(text: Option<string>)
  {
    text.Some? && !JavaText.IsBlank(text.value)
  }

  /** The search predicate, evaluated step by step in the store's order: title,
      category, start date, end date, each step only while the previous ones matched. */
  function SearchMatches(f: SearchFilter, log: Record): (matches: bool)
    ensures matches <==>
      (IsPresent(f.titleKeyword) ==> JavaText.Contains(log.title, f.titleKeyword.value)) &&
      (IsPresent(f.category) ==> CategoryName(log.category) == f.category.value) &&
      (f.startDate.Some? ==> f.startDate.value <= log.studyDate) &&
      (f.endDate.Some? ==> log.studyDate <= f.endDate.value)
  {
    var afterTitle := if IsPresent(f.titleKeyword) then JavaText.Contains(log.title, f.titleKeyword.value) else true;
    var afterCategory := if afterTitle && IsPresent(f.category) then CategoryName(log.category) == f.category.value else afterTitle;
    var afterStart := if afterCategory && f.startDate.Some? then !(log.studyDate < f.startDate.value) else afterCategory;
    if afterStart && f.endDate.Some? then !(log.studyDate > f.endDate.value) else afterStart
  }

  /** Which stored records a query keeps. */
  datatype Criterion =
    | Everything
    | CategoryNamed(name: string)     // `getCategory().name().equals(name)`
    | CategoryIs(category: Category)  // `getCategory().equals(category)`
    | OnDate(day: Day)                // `getStudyDate().equals(day)`
    | Matching(filter: SearchFilter)

  predicate Keeps(c: Criterion, log: Record)
  {
    match c
    case Everything => true
    case CategoryNamed(name) => CategoryName(log.category) == name
    case CategoryIs(category) => log.category == category
    case OnDate(day) => log.studyDate == day
    case Matching(f) => SearchMatches(f, log)
  }

  /** Every record is stored under its own id. */
  predicate WellKeyed(db: map<int, Record>)
  {
    forall k :: k in db ==> db[k].id == Some(k)
  }

  /** `log` is the record stored under its id. */
  predicate StoredIn(db: map<int, Record>, log: Record)
  {
    log.id.Some? && log.id.value in db && db[log.id.value] == log
  }

  /** Every record carries an id, and the ids strictly decrease along the list. */
  predicate NewestIdFirst(logs: seq<Record>)
  {
    (forall i :: 0 <= i < |logs| ==> logs[i].id.Some?) &&
    (forall i, j :: 0 <= i < j < |logs| ==> logs[i].id.value > logs[j].id.value)
  }

  /** The ids of the stored records the criterion keeps. */
  function KeptKeys(db: map<int, Record>, c: Criterion): (kept: set<int>)
    ensures forall k :: k in kept <==> k in db && Keeps(c, db[k])
  {
    set k | k in db && Keeps(c, db[k])
  }

  /** The records stored under those of `keys` that are in `kept`, in the order of `keys`. */
  function Select(db: map<int, Record>, keys: seq<int>, kept: set<int>): seq<Record>
    requires forall i :: 0 <= i < |keys| ==> keys[i] in db
  {
    if keys == [] then []
    else (if keys[0] in kept then [db[keys[0]]] else []) + Select(db, keys[1..], kept)
  }

  /** Every selected record is stored under one of `keys` that is in `kept`. */
  lemma {:induction false} SelectStored(db: map<int, Record>, keys: seq<int>, kept: set<int>)
    requires WellKeyed(db)
    requires forall i :: 0 <= i < |keys| ==> keys[i] in db
    ensures forall i :: 0 <= i < |Select(db, keys, kept)| ==>
      StoredIn(db, Select(db, keys, kept)[i]) && Select(db, keys, kept)[i].id.value in kept &&
      Select(db, keys, kept)[i].id.value in keys
  {
    if keys != [] {
      var head, tail := keys[0], keys[1..];
      SelectStored(db, tail, kept);
      var first: seq<Record> := if head in kept then [db[head]] else [];
      var rest := Select(db, tail, kept);
      var all := Select(db, keys, kept);
      assert all == first + rest;
      forall i | 0 <= i < |all|
        ensures StoredIn(db, all[i]) && all[i].id.value in kept && all[i].id.value in keys
      {
        if i >= |first| {
          assert all[i] == rest[i - |first|];
          var k := rest[i - |first|].id.value;
          assert k in tail;
        }
      }
    }
  }

  /** Every record stored under one of `keys` that is in `kept` is selected. */
  lemma {:induction false} SelectComplete(db: map<int, Record>, keys: seq<int>, kept: set<int>)
    requires forall i :: 0 <= i < |keys| ==> keys[i] in db
    ensures forall k :: k in keys && k in kept ==> db[k] in Select(db, keys, kept)
  {
    if keys != [] {
      var head, tail := keys[0], keys[1..];
      SelectComplete(db, tail, kept);
      forall k | k in keys && k in kept
        ensures db[k] in Select(db, keys, kept)
      {
        if k != head {
          var p :| 0 <= p < |keys| && keys[p] == k;
          assert tail[p - 1] == k;
        }
      }
    }
  }

  /** Selecting along strictly descending keys lists the records newest id first. */
  lemma {:induction false} SelectNewestFirst(db: map<int, Record>, keys: seq<int>, kept: set<int>)
    requires WellKeyed(db) && KeyOrder.StrictlyDescending(keys)
    requires forall i :: 0 <= i < |keys| ==> keys[i] in db
    ensures NewestIdFirst(Select(db, keys, kept))
  {
    if keys != [] {
      var head, tail := keys[0], keys[1..];
      SelectNewestFirst(db, tail, kept);
      SelectStored(db, tail, kept);
      var rest := Select(db, tail, kept);
      forall i | 0 <= i < |rest|
        ensures rest[i].id.value < head
      {
        var k := rest[i].id.value;
        var p :| 0 <= p < |tail| && tail[p] == k;
        assert keys[p + 1] == k;
      }
    }
  }

  /** The records a query returns: those the criterion keeps, newest id first. */
  function Listing(db: map<int, Record>, c: Criterion): (logs: seq<Record>)
    requires WellKeyed(db)
    ensures forall i :: 0 <= i < |logs| ==> StoredIn(db, logs[i]) && Keeps(c, logs[i])
    ensures forall k :: k in db && Keeps(c, db[k]) ==> db[k] in logs
    ensures NewestIdFirst(logs)
  {
    var keys := KeyOrder.KeysDescending(db.Keys);
    var kept := KeptKeys(db, c);
    SelectStored(db, keys, kept);
    SelectComplete(db, keys, kept);
    SelectNewestFirst(db, keys, kept);
    Select(db, keys, kept)
  }

  /** Number of stored records the criterion keeps. */
  function CountMatching(db: map<int, Record>, c: Criterion): nat
  {
    |KeptKeys(db, c)|
  }

  lemma {:induction false} SelectCount(db: map<int, Record>, keys: seq<int>, kept: set<int>)
    requires KeyOrder.StrictlyDescending(keys)
    requires forall i :: 0 <= i < |keys| ==> keys[i] in db
    requires forall k :: k in kept ==> k in keys
    ensures |Select(db, keys, kept)| == |kept|
  {
    if keys != [] {
      var head, tail := keys[0], keys[1..];
      var rest := kept - {head};
      forall k | k in rest
        ensures k in tail
      {
        var p :| 0 <= p < |keys| && keys[p] == k;
        assert tail[p - 1] == k;
      }
      SelectCount(db, tail, rest);
      SelectAgrees(db, tail, kept, rest);
    } else {
      KeyOrder.HasElementOrEmpty(kept);
    }
  }

  /** Selecting by two sets that agree on `keys` gives the same records. */
  lemma {:induction false} SelectAgrees(db: map<int, Record>, keys: seq<int>, a: set<int>, b: set<int>)
    requires KeyOrder.StrictlyDescending(keys)
    requires forall i :: 0 <= i < |keys| ==> keys[i] in db
    requires forall i :: 0 <= i < |keys| ==> (keys[i] in a <==> keys[i] in b)
    ensures Select(db, keys, a) == Select(db, keys, b)
  {
    if keys != [] {
      SelectAgrees(db, keys[1..], a, b);
    }
  }

  /** A query returns exactly as many records as the criterion keeps. */
  lemma ListingCount(db: map<int, Record>, c: Criterion)
    requires WellKeyed(db)
    ensures |Listing(db, c)| == CountMatching(db, c)
  {
    var keys := KeyOrder.KeysDescending(db.Keys);
    SelectCount(db, keys, KeptKeys(db, c));
  }

  /** The ids of a list whose records all carry one. */
  function Ids(logs: seq<Record>): (ids: seq<int>)
    requires forall i :: 0 <= i < |logs| ==> logs[i].id.Some?
    ensures |ids| == |logs| && forall i :: 0 <= i < |logs| ==> ids[i] == logs[i].id.value
  {
    if logs == [] then [] else [logs[0].id.value] + Ids(logs[1..])
  }

  /** Two lists of stored records, newest id first, holding the same records, are equal. */
  lemma {:induction false} SameStoredRecordsEqual(db: map<int, Record>, xs: seq<Record>, ys: seq<Record>)
    requires forall i :: 0 <= i < |xs| ==> StoredIn(db, xs[i])
    requires forall i :: 0 <= i < |ys| ==> StoredIn(db, ys[i])
    requires NewestIdFirst(xs) && NewestIdFirst(ys)
    requires forall r :: r in xs <==> r in ys
    ensures xs == ys
  {
    var a, b := Ids(xs), Ids(ys);
    forall k
      ensures k in a <==> k in b
    {
      if k in a {
        var i :| 0 <= i < |a| && a[i] == k;
        var r := xs[i];
        assert r in xs;
        var j :| 0 <= j < |ys| && ys[j] == r;
        assert b[j] == k;
      }
      if k in b {
        var j :| 0 <= j < |b| && b[j] == k;
        var r := ys[j];
        assert r in ys;
        var i :| 0 <= i < |xs| && xs[i] == r;
        assert a[i] == k;
      }
    }
    KeyOrder.StrictlyDescendingUnique(a, b);
    forall i | 0 <= i < |xs|
      ensures xs[i] == ys[i]
    {
      assert StoredIn(db, xs[i]) && StoredIn(db, ys[i]);
    }
  }

  /** The contract of `Listing` leaves no freedom: any list of stored, kept records,
      newest id first, that misses no kept record is the listing. */
  lemma ListingUnique(db: map<int, Record>, c: Criterion, logs: seq<Record>)
    requires WellKeyed(db)
    requires forall i :: 0 <= i < |logs| ==> StoredIn(db, logs[i]) && Keeps(c, logs[i])
    requires forall k :: k in db && Keeps(c, db[k]) ==> db[k] in logs
    requires NewestIdFirst(logs)
    ensures logs == Listing(db, c)
  {
    var listing := Listing(db, c);
    forall r
      ensures r in logs <==> r in listing
    {
      if r in logs {
        var i :| 0 <= i < |logs| && logs[i] == r;
        assert StoredIn(db, r) && Keeps(c, db[r.id.value]);
      }
      if r in listing {
        var i :| 0 <= i < |listing| && listing[i] == r;
        assert StoredIn(db, r) && Keeps(c, db[r.id.value]);
      }
    }
    SameStoredRecordsEqual(db, logs, listing);
  }

  /** A search with no active filter lists the same records as `findAll`. */
  lemma SearchWithoutFiltersListsAll(db: map<int, Record>, f: SearchFilter)
    requires WellKeyed(db)
    requires !IsPresent(f.titleKeyword) && !IsPresent(f.category)
    requires f.startDate.None? && f.endDate.None?
    ensures Listing(db, Matching(f)) == Listing(db, Everything)
  {
    var listing := Listing(db, Matching(f));
    forall k | k in db
      ensures db[k] in listing
    {
      assert Keeps(Matching(f), db[k]);
    }
    ListingUnique(db, Everything, listing);
  }
}

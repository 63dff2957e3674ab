# Study diary: stores, paging, search and the update service

A Dafny model of the core of a Spring study-diary application. A study log is a
titled note with a category, a self-rated understanding level, a study time, a
study date and creation and update times. The model covers:

- the two in-memory stores:
  - the newer DAO, a `HashMap` plus an id sequence, with unpaged queries, paged
    queries and a four-criterion search;
  - the older repository, which lists newest-created first and never resets its
    sequence;
- the relational DAO's query building (WHERE clause, placeholders and parameters,
  the count-then-data sequence of the paged queries) and its result handling;
- the service layer: page and size clamping, category text handling, the update
  workflow with its checks in order, and delete;
- the update request DTO with its "all fields null" test;
- the enum-name validator behind `@EnumValid`.

Modelling choices:

- Java `int` is `Int32`. The source computes the paging offset `page * size` in
  32-bit `int` arithmetic, which wraps for large page numbers (see "Findings").
  That step is modelled twice: as written, with the wrap spelled out
  (`Paging.Wrap32`, `Paging.PageOfAsWritten`, `RelationalStore.OffsetAsWritten`),
  and with exact arithmetic (`Paging.PageOf`, `RelationalStore.Offset`). The
  paged store, query and service members use the exact step; lemmas state where
  the two agree and give inputs where they do not.
- Dates are epoch-day integers and times are instant numbers. The clock read by
  the newer store's `update` (line 210 of its source) is an explicit `now`
  argument; a record's `createdAt` is part of the record it is given.
- `Category` has the constants named by the category pattern of the update
  request (`JAVA|SPRING|JPA|DATABASE|ALGORITHM|CS|NETWORK|GIT|ETC`). The enum
  source itself is not part of this model.
- `String.toUpperCase` maps ASCII `a`–`z` only. `isBlank` uses Java's
  `Character.isWhitespace` set: space, U+0009 to U+000D (tab, newline, vertical
  tab, form feed, carriage return), U+001C to U+001F, U+1680, U+2000 to U+2006,
  U+2008 to U+200A, U+2028, U+2029, U+205F and U+3000.
- The service is modelled over the in-memory DAO. The relational DAO is modelled
  by the queries it sends and by what it does with the answers; the database
  itself is a parameter.
- `StudyLog.update` is not part of this model. The service's merge follows the
  update request's own documentation: a null field keeps the stored value.
- `StudyLogResponse.from` copies every field, so it is the identity here.
- The newer in-memory store sorts by id with a total comparator, so its listings
  are unique (`StoreQueries.ListingUnique`). The older repository sorts by
  `createdAt` only, and `HashMap` iteration order decides ties. The model breaks
  those ties by ascending id; see "Left out".
- The validator's comment says null passes, but the annotation's default has
  `allowNull = false` (EnumValid.java line 29). The model follows the code: a
  null passes exactly when `allowNull` holds.

## Model

| member | source | states |
|---|---|---|
| StudyLogDomain.CategoryValueOf | src/main/java/com/study/myspringstudydiary/dto/request/StudyLogUpdateRequest.java:21 | `valueOf` succeeds exactly on the nine constant names, and returns the constant with that name |
| StudyLogDomain.UnderstandingValueOf | src/main/java/com/study/my_spring_study_diary/entity/Understanding.java:7-11 | `valueOf` succeeds exactly on the five constant names, and returns the constant with that name |
| JavaText.ToUpperKeepsBlank | src/main/java/com/study/myspringstudydiary/study_log/service/StudyLogService.java:253-256 | upper-casing neither makes nor unmakes a blank string, so the upper-cased category still passes the store's blank check |
| JavaText.ToUpperIdempotent | src/main/java/com/study/myspringstudydiary/study_log/service/StudyLogService.java:309 | upper-casing twice is upper-casing once |
| JavaText.ContainsIffOccurs | src/main/java/com/study/myspringstudydiary/dao/InMemoryStudyLogDao.java:162 | `contains` holds exactly when the keyword occurs at some index of the title |
| StoreQueries.SearchMatches | src/main/java/com/study/myspringstudydiary/dao/InMemoryStudyLogDao.java:156-181 | the step-by-step filter keeps a record exactly when each active criterion holds: title contains the keyword, category name equals, date not before start, date not after end |
| StoreQueries.Listing | src/main/java/com/study/myspringstudydiary/dao/InMemoryStudyLogDao.java:72-78 | a listing holds only stored records the criterion keeps, holds every such record, and is in strictly descending id order |
| StoreQueries.ListingCount | src/main/java/com/study/myspringstudydiary/dao/InMemoryStudyLogDao.java:108-112 | a listing's length is the number of stored records the criterion keeps |
| StoreQueries.ListingUnique | src/main/java/com/study/myspringstudydiary/dao/InMemoryStudyLogDao.java:82-85 | any list that is complete, sound and newest-id-first for a criterion equals the listing |
| StoreQueries.SameStoredRecordsEqual | src/main/java/com/study/myspringstudydiary/dao/InMemoryStudyLogDao.java:76 | two newest-id-first lists of stored records with the same members are equal |
| StoreQueries.SearchWithoutFiltersListsAll | src/main/java/com/study/myspringstudydiary/dao/InMemoryStudyLogDao.java:156-183 | a search whose four criteria are all null or blank lists the same records as `findAll` |
| StoreQueries.SelectCount | src/main/java/com/study/myspringstudydiary/dao/InMemoryStudyLogDao.java:109-111 | filtering a strictly descending key list keeps one record per kept key |
| KeyOrder.KeysDescending | src/main/java/com/study/myspringstudydiary/dao/InMemoryStudyLogDao.java:75-77 | the ids, each once, in strictly descending order |
| KeyOrder.StrictlyDescendingUnique | src/main/java/com/study/myspringstudydiary/dao/InMemoryStudyLogDao.java:76 | two strictly descending lists with the same members are equal |
| KeyOrder.KeysByRank | src/main/java/com/study/my_spring_study_diary/repository/StudyLogRepository.java:110-114 | the ids, each once, ordered by descending rank with ties by ascending id |
| Paging.SubList | src/main/java/com/study/myspringstudydiary/dao/InMemoryStudyLogDao.java:129 | `subList` succeeds exactly when `0 <= from <= to <= size` |
| Paging.PageOf | src/main/java/com/study/myspringstudydiary/dao/InMemoryStudyLogDao.java:121-130 | the corrected step of the first "Findings" row, with `page * size` exact: the page echoes page, size and total; an offset at or past the end gives an empty page; for non-negative page and size the content is the slice `[page*size, page*size+size)`; it fails exactly when the offset is before the end and the offset or the size is negative |
| Paging.PageOfAsWritten | src/main/java/com/study/myspringstudydiary/dao/InMemoryStudyLogDao.java:121-130 | the step as written, `page * size` wrapped to 32 bits: the page echoes page, size and total; a wrapped offset at or past the end gives an empty page; a negative wrapped offset throws `IndexOutOfBounds`; a wrapped offset inside the list whose end stays in range gives the slice from that offset |
| Paging.PagingOverflowWrapsAround | src/main/java/com/study/myspringstudydiary/dao/InMemoryStudyLogDao.java:122-129 | page 42949673 of size 100 wraps `page * size` to 4, and the step as written returns elements 4..103 where the exact step gives an empty page |
| Paging.PagingOverflowThrows | src/main/java/com/study/myspringstudydiary/dao/InMemoryStudyLogDao.java:122 | page 21474837 of size 100 wraps `page * size` negative and `subList` throws, where the exact step gives an empty page |
| Paging.AsWrittenAgreesWithoutOverflow | src/main/java/com/study/myspringstudydiary/dao/InMemoryStudyLogDao.java:121-130 | when neither `page * size` nor `fromIndex + size` leaves the `int` range, the 32-bit step equals the exact step |
| Paging.PageCountBounds | src/main/java/com/study/myspringstudydiary/dao/InMemoryStudyLogDao.java:121-125 | the ceiling page count's pages reach every element, its last page starts before the end, and there are no more pages than elements |
| Paging.PagesUpToIsPrefix | src/main/java/com/study/myspringstudydiary/dao/InMemoryStudyLogDao.java:122-129 | the contents of pages 0..n-1, concatenated, are the first `min(n*size, total)` elements |
| Paging.PagesCoverAll | src/main/java/com/study/myspringstudydiary/dao/InMemoryStudyLogDao.java:117-131 | reading pages 0 up to the page count returns every element once, in order; each of those pages is non-empty and the next page is empty |
| InMemoryStore.InMemoryStudyLogDao.constructor | src/main/java/com/study/myspringstudydiary/dao/InMemoryStudyLogDao.java:43-46 | empty map, sequence 1 |
| InMemoryStore.InMemoryStudyLogDao.Save | src/main/java/com/study/myspringstudydiary/dao/InMemoryStudyLogDao.java:51-61 | an id-less record takes the sequence value and the sequence advances; a record with an id keeps it; the map maps the id to the saved record; when every stored id was below the sequence beforehand (`IdsBelowSequence`), a fresh id is not already in use and that property still holds |
| InMemoryStore.InMemoryStudyLogDao.Update | src/main/java/com/study/myspringstudydiary/dao/InMemoryStudyLogDao.java:200-214 | a missing id and an unknown id each fail with the store unchanged; otherwise the record, stamped with `now`, replaces the stored one |
| InMemoryStore.InMemoryStudyLogDao.DeleteById | src/main/java/com/study/myspringstudydiary/dao/InMemoryStudyLogDao.java:219-223 | reports whether the id was stored and removes exactly that key |
| InMemoryStore.InMemoryStudyLogDao.DeleteAll | src/main/java/com/study/myspringstudydiary/dao/InMemoryStudyLogDao.java:226-230 | empties the map and resets the sequence to 1 |
| InMemoryStore.InMemoryStudyLogDao.FindById | src/main/java/com/study/myspringstudydiary/dao/InMemoryStudyLogDao.java:66-69 | present exactly when the id is stored, and then the record stored under it |
| InMemoryStore.InMemoryStudyLogDao.ExistsById | src/main/java/com/study/myspringstudydiary/dao/InMemoryStudyLogDao.java:98-100 | true exactly when `findById` finds a record |
| InMemoryStore.InMemoryStudyLogDao.FindAll | src/main/java/com/study/myspringstudydiary/dao/InMemoryStudyLogDao.java:72-78 | every stored record once, newest id first |
| InMemoryStore.InMemoryStudyLogDao.FindByCategory | src/main/java/com/study/myspringstudydiary/dao/InMemoryStudyLogDao.java:81-86 | exactly the records whose category name equals the text, newest id first |
| InMemoryStore.InMemoryStudyLogDao.FindByStudyDate | src/main/java/com/study/myspringstudydiary/dao/InMemoryStudyLogDao.java:90-95 | exactly the records of that date, newest id first |
| InMemoryStore.InMemoryStudyLogDao.Count | src/main/java/com/study/myspringstudydiary/dao/InMemoryStudyLogDao.java:103-105 | the length of `findAll` |
| InMemoryStore.InMemoryStudyLogDao.CountByCategory | src/main/java/com/study/myspringstudydiary/dao/InMemoryStudyLogDao.java:108-112 | the length of `findByCategory` for the same text |
| InMemoryStore.InMemoryStudyLogDao.FindAllWithPaging | src/main/java/com/study/myspringstudydiary/dao/InMemoryStudyLogDao.java:117-131 | the page echoes page and size with total `count()`; for non-negative arguments it succeeds with the `page*size` slice of `findAll`; it fails (`subList` throws) exactly when the offset is before the end and the offset or the size is negative, and an offset at or past the end gives an empty page; the offset `page * size` is computed exactly (see "Left out") |
| InMemoryStore.InMemoryStudyLogDao.FindByCategoryWithPaging | src/main/java/com/study/myspringstudydiary/dao/InMemoryStudyLogDao.java:134-150 | as above, over `findByCategory`, with total `countByCategory`, the same failure condition and the empty page past the end; the offset `page * size` is computed exactly (see "Left out") |
| InMemoryStore.InMemoryStudyLogDao.SearchWithPaging | src/main/java/com/study/myspringstudydiary/dao/InMemoryStudyLogDao.java:153-195 | the total is the number of matching records, and for non-negative arguments the content is the page's slice of the matching records, newest id first; it fails exactly when the offset is before the end and the offset or the size is negative, and an offset at or past the end gives an empty page; the offset `page * size` is computed exactly (see "Left out") |
| InMemoryStore.SuccessiveSavesIncrease | src/main/java/com/study/myspringstudydiary/dao/InMemoryStudyLogDao.java:51-61 | two id-less saves get increasing ids, and the store maps each of the two ids to its saved record |
| InMemoryStore.IdsRestartAfterDeleteAll | src/main/java/com/study/myspringstudydiary/dao/InMemoryStudyLogDao.java:226-230 | after `deleteAll` the next id-less save takes id 1 again |
| InMemoryStore.ExplicitIdIsOverwritten | src/main/java/com/study/myspringstudydiary/dao/InMemoryStudyLogDao.java:53-58 | a record saved under id 1 on a reset store is replaced by the next id-less save |
| InMemoryStore.DeleteTwice | src/main/java/com/study/myspringstudydiary/dao/InMemoryStudyLogDao.java:219-223 | a second delete of the same id reports false and the id no longer exists |
| InMemoryStore.JavaListings | src/main/java/com/study/myspringstudydiary/dao/InMemoryStudyLogDao.java:81-86 | of three stored records JAVA, SPRING, JAVA, both the category query and a category search list record 3 then record 1 |
| InMemoryStore.CategoryScenario | src/main/java/com/study/myspringstudydiary/dao/InMemoryStudyLogDao.java:153-195 | saving JAVA, SPRING, JAVA into an empty store: the category query lists the third before the first, and a one-record search page holds the third record of two matches |
| LegacyRepository.CreatedListing | src/main/java/com/study/my_spring_study_diary/repository/StudyLogRepository.java:110-114 | the stored records the criterion keeps, all of them, with non-increasing creation times, as many as match |
| LegacyRepository.SameRecordsAsNewerStore | src/main/java/com/study/my_spring_study_diary/repository/StudyLogRepository.java:110-114 | the older repository lists the same records as the newer store for every criterion; only the order differs |
| LegacyRepository.StudyLogRepository.constructor | src/main/java/com/study/my_spring_study_diary/repository/StudyLogRepository.java:38-41 | empty map, sequence 1 |
| LegacyRepository.StudyLogRepository.Save | src/main/java/com/study/my_spring_study_diary/repository/StudyLogRepository.java:72-80 | an id-less record takes the sequence value and the sequence advances; the map maps the id to the saved record |
| LegacyRepository.StudyLogRepository.Update | src/main/java/com/study/my_spring_study_diary/repository/StudyLogRepository.java:87-97 | a missing or unknown id fails with the store unchanged; otherwise the record replaces the stored one as given |
| LegacyRepository.StudyLogRepository.ExistsById | src/main/java/com/study/my_spring_study_diary/repository/StudyLogRepository.java:102-104 | true exactly when `findById` finds a record |
| LegacyRepository.StudyLogRepository.FindById | src/main/java/com/study/my_spring_study_diary/repository/StudyLogRepository.java:121-125 | present exactly when the id is stored, and then the record stored under it |
| LegacyRepository.StudyLogRepository.FindAll | src/main/java/com/study/my_spring_study_diary/repository/StudyLogRepository.java:110-114 | every stored record, newest created first, each once: the length is the map's size |
| LegacyRepository.StudyLogRepository.FindByStudyDate | src/main/java/com/study/my_spring_study_diary/repository/StudyLogRepository.java:148-153 | exactly the records of that date, newest created first, each once: the length is the number of stored records of that date |
| LegacyRepository.StudyLogRepository.FindByCategory | src/main/java/com/study/my_spring_study_diary/repository/StudyLogRepository.java:158-163 | exactly the records of that category, newest created first, each once: the length is the number of stored records of that category |
| LegacyRepository.StudyLogRepository.Count | src/main/java/com/study/my_spring_study_diary/repository/StudyLogRepository.java:168-171 | the length of `findAll`, which is the map's size |
| LegacyRepository.StudyLogRepository.DeleteById | src/main/java/com/study/my_spring_study_diary/repository/StudyLogRepository.java:181-185 | reports whether the id was stored and removes exactly that key |
| LegacyRepository.StudyLogRepository.DeleteAll | src/main/java/com/study/my_spring_study_diary/repository/StudyLogRepository.java:210-212 | empties the map and leaves the sequence where it was |
| LegacyRepository.IdsNotReusedAfterDeleteAll | src/main/java/com/study/my_spring_study_diary/repository/StudyLogRepository.java:210-212 | a record saved after `deleteAll` takes a larger id than one saved before it |
| RelationalStore.RenderCount | src/main/java/com/study/myspringstudydiary/study_log/dao/MySQLStudyLogDaoImpl.java:228-246 | the SQL text of a placeholder-separated statement holds one `?` per placeholder |
| RelationalStore.WellBoundPlaceholders | src/main/java/com/study/myspringstudydiary/study_log/dao/MySQLStudyLogDaoImpl.java:249-250 | a well-bound statement's text holds as many `?` as values bound to it |
| RelationalStore.ConditionsOfFilter | src/main/java/com/study/myspringstudydiary/study_log/dao/MySQLStudyLogDaoImpl.java:228-246 | the clause tests the title and category exactly when non-null and non-blank, each date exactly when non-null, in the order title, category, start, end |
| RelationalStore.WhereClause | src/main/java/com/study/myspringstudydiary/study_log/dao/MySQLStudyLogDaoImpl.java:225-246 | the clause has exactly one placeholder per parameter |
| RelationalStore.ExtendByOne | src/main/java/com/study/myspringstudydiary/study_log/dao/MySQLStudyLogDaoImpl.java:228-231 | adding a condition appends its fragment to the clause and its value to the parameters |
| RelationalStore.BuildWhereClause | src/main/java/com/study/myspringstudydiary/study_log/dao/MySQLStudyLogDaoImpl.java:225-246 | the clause and parameters built step by step are those of the filter's conditions, and they are well bound |
| RelationalStore.LimitOffset | src/main/java/com/study/myspringstudydiary/study_log/dao/MySQLStudyLogDaoImpl.java:178-185 | `LIMIT`/`OFFSET` is refused for a negative value, returns at most `limit` rows, and none at or past the end |
| RelationalStore.OffsetSelectsPage | src/main/java/com/study/myspringstudydiary/study_log/dao/MySQLStudyLogDaoImpl.java:184-185 | with an exact offset, `LIMIT size OFFSET page*size` returns the same slice the in-memory store takes |
| RelationalStore.OffsetAsWritten | src/main/java/com/study/myspringstudydiary/study_log/dao/MySQLStudyLogDaoImpl.java:265 | the offset as bound: congruent to `page * size` modulo 2^32, and equal to it when the product is in the `int` range |
| RelationalStore.RelationalPageMatchesInMemory | src/main/java/com/study/myspringstudydiary/study_log/dao/MySQLStudyLogDaoImpl.java:252-270 | given the rows the query selects, in its order, a zero count gives the empty page and a positive count gives the data query's rows under the count, and either way the page equals the in-memory paging step of the same rows |
| RelationalStore.OffsetOverflowRefused | src/main/java/com/study/myspringstudydiary/study_log/dao/MySQLStudyLogDaoImpl.java:265 | page 21474837 of size 100 binds offset -2147483596 and the data query is refused, where an exact offset succeeds |
| RelationalStore.FixedPieces | src/main/java/com/study/myspringstudydiary/study_log/dao/MySQLStudyLogDaoImpl.java:249-260 | the fixed statement pieces hold no placeholder, except two in the order-and-limit tail |
| RelationalStore.CountQuery | src/main/java/com/study/myspringstudydiary/study_log/dao/MySQLStudyLogDaoImpl.java:249-250 | the count query reuses the clause's parameters and stays well bound |
| RelationalStore.DataQuery | src/main/java/com/study/myspringstudydiary/study_log/dao/MySQLStudyLogDaoImpl.java:257-268 | the data query binds the clause's parameters, then the size, then the offset, and stays well bound; the offset `page * size` is computed exactly (see "Left out") |
| RelationalStore.AfterCount | src/main/java/com/study/myspringstudydiary/study_log/dao/MySQLStudyLogDaoImpl.java:252-254 | a null or zero count gives an empty page with total 0 and no data query; any other count runs the data query |
| RelationalStore.SearchWithPaging | src/main/java/com/study/myspringstudydiary/study_log/dao/MySQLStudyLogDaoImpl.java:216-271 | the count query is the clause after `SELECT COUNT(*)`; the data query, when run, has the same clause plus order and limit, and binds the count's parameters plus size and offset; the offset `page * size` is computed exactly (see "Left out") |
| RelationalStore.AllPageQueries | src/main/java/com/study/myspringstudydiary/study_log/dao/MySQLStudyLogDaoImpl.java:167-189 | an unparameterised count, then a data query bound to size and offset unless the count is null or zero; the offset `page * size` is computed exactly (see "Left out") |
| RelationalStore.CategoryPageQueries | src/main/java/com/study/myspringstudydiary/study_log/dao/MySQLStudyLogDaoImpl.java:192-213 | both queries bind the category first; the data query adds size and offset unless the count is null or zero; the offset `page * size` is computed exactly (see "Left out") |
| RelationalStore.UpdateOutcome | src/main/java/com/study/myspringstudydiary/study_log/dao/MySQLStudyLogDaoImpl.java:142-146 | zero updated rows fails naming the id; otherwise the record is returned |
| RelationalStore.DeleteOutcome | src/main/java/com/study/myspringstudydiary/study_log/dao/MySQLStudyLogDaoImpl.java:152-156 | deleted exactly when a row was affected |
| RelationalStore.ExistsOutcome | src/main/java/com/study/myspringstudydiary/study_log/dao/MySQLStudyLogDaoImpl.java:109-113 | exists exactly when the count is non-null and positive |
| RelationalStore.CountOutcome | src/main/java/com/study/myspringstudydiary/study_log/dao/MySQLStudyLogDaoImpl.java:116-120 | a null count reads as 0, any other as itself |
| RelationalStore.RowsWithId | src/main/java/com/study/myspringstudydiary/study_log/dao/MySQLStudyLogDaoImpl.java:130 | a statement keyed by id touches one row exactly when the id is stored, else none |
| RelationalStore.OutcomesAgreeWithInMemoryStore | src/main/java/com/study/myspringstudydiary/study_log/dao/MySQLStudyLogDaoImpl.java:109-156 | over a table keyed by id, delete and exists report whether the id is stored, and update fails exactly when the id is null or not stored, as in the in-memory store |
| RelationalStore.ConditionsAgreeWithSearch | src/main/java/com/study/myspringstudydiary/study_log/dao/MySQLStudyLogDaoImpl.java:233-246 | without a title keyword, and reading `category = ?` as exact string equality (a binary, no-pad collation), a record passes every WHERE condition exactly when the in-memory search keeps it |
| UpdateRequest.AllNull | src/main/java/com/study/myspringstudydiary/dto/request/StudyLogUpdateRequest.java:59-66 | true exactly for the request whose six fields are all null |
| UpdateRequest.AnyFieldIsAnUpdate | src/main/java/com/study/myspringstudydiary/dto/request/StudyLogUpdateRequest.java:59-66 | setting any one of the six fields to a value makes a request with updates |
| UpdateRequest.StudyLogUpdateRequest.constructor | src/main/java/com/study/myspringstudydiary/dto/request/StudyLogUpdateRequest.java:36-37 | a new request has all six fields null |
| UpdateRequest.StudyLogUpdateRequest.SetTitle | src/main/java/com/study/myspringstudydiary/dto/request/StudyLogUpdateRequest.java:48 | changes the title and nothing else |
| UpdateRequest.StudyLogUpdateRequest.SetContent | src/main/java/com/study/myspringstudydiary/dto/request/StudyLogUpdateRequest.java:49 | changes the content and nothing else |
| UpdateRequest.StudyLogUpdateRequest.SetCategory | src/main/java/com/study/myspringstudydiary/dto/request/StudyLogUpdateRequest.java:50 | changes the category text and nothing else |
| UpdateRequest.StudyLogUpdateRequest.SetUnderstanding | src/main/java/com/study/myspringstudydiary/dto/request/StudyLogUpdateRequest.java:51 | changes the understanding text and nothing else |
| UpdateRequest.StudyLogUpdateRequest.SetStudyTime | src/main/java/com/study/myspringstudydiary/dto/request/StudyLogUpdateRequest.java:52 | changes the study time and nothing else |
| UpdateRequest.StudyLogUpdateRequest.SetStudyDate | src/main/java/com/study/myspringstudydiary/dto/request/StudyLogUpdateRequest.java:53 | changes the study date and nothing else |
| UpdateRequest.StudyLogUpdateRequest.HasNoUpdates | src/main/java/com/study/myspringstudydiary/dto/request/StudyLogUpdateRequest.java:59-66 | true exactly when all six fields are null |
| UpdateRequest.SetOneField | src/main/java/com/study/myspringstudydiary/dto/request/StudyLogUpdateRequest.java:36-66 | a new request with only its title set has updates and holds only that title |
| EnumValidation.EnumValidator.Initialize | src/main/java/com/study/myspringstudydiary/entity/EnumValidator.java:16-30 | copies both flags; the valid set holds exactly the constant names, upper-cased when case is ignored |
| EnumValidation.EnumValidator.IsValid | src/main/java/com/study/myspringstudydiary/entity/EnumValidator.java:33-46 | null passes exactly when allowed; otherwise the text, upper-cased when case is ignored, must be in the valid set |
| EnumValidation.ValidatorAcceptsAdmitted | src/main/java/com/study/myspringstudydiary/entity/EnumValidator.java:16-46 | after `initialize`, the validator accepts exactly what the annotation admits: null when allowed, a text naming some constant exactly or up to case |
| EnumValidation.CaseVariantsAdmitted | src/main/java/com/study/myspringstudydiary/entity/EnumValidator.java:41-43 | with case ignored, every case variant of a name passes, and texts that upper-case alike pass alike |
| EnumValidation.ExactNamesAdmitted | src/main/java/com/study/myspringstudydiary/entity/EnumValidator.java:45 | without case ignored, a text passes exactly when it is one of the names |
| EnumValidation.DefaultsRefuseNullAndOtherCase | src/main/java/com/study/myspringstudydiary/entity/EnumValid.java:29-33 | with the annotation's defaults, null and a lower-case variant are refused and the exact name passes |
| StudyLogServices.ClampPage | src/main/java/com/study/myspringstudydiary/study_log/service/StudyLogService.java:193 | never negative; a non-negative page is kept and a negative one becomes 0 |
| StudyLogServices.ClampSize | src/main/java/com/study/myspringstudydiary/study_log/service/StudyLogService.java:194 | always in 1..100; in range it is kept, below becomes 1, above becomes 100 |
| StudyLogServices.SearchCategory | src/main/java/com/study/myspringstudydiary/study_log/service/StudyLogService.java:253-256 | passed on exactly when non-null and non-blank, upper-cased, and still counts as present in the store |
| StudyLogServices.CategoryNameNotBlank | src/main/java/com/study/myspringstudydiary/study_log/service/StudyLogService.java:254 | no category name is blank |
| StudyLogServices.SearchByCategoryText | src/main/java/com/study/myspringstudydiary/study_log/service/StudyLogService.java:253-259 | searching by any case variant of a category's name keeps exactly that category's records |
| StudyLogServices.ResolveCategory | src/main/java/com/study/myspringstudydiary/study_log/service/StudyLogService.java:306-314 | succeeds exactly when the upper-cased text is a category name, with the constant of that name; otherwise fails naming the text as given |
| StudyLogServices.ResolveUnderstanding | src/main/java/com/study/myspringstudydiary/study_log/service/StudyLogService.java:316-324 | the same for understanding levels |
| StudyLogServices.ResolutionIgnoresCase | src/main/java/com/study/myspringstudydiary/study_log/service/StudyLogService.java:306-324 | texts that upper-case alike resolve alike |
| StudyLogServices.UpdateOutcome | src/main/java/com/study/myspringstudydiary/study_log/service/StudyLogService.java:289-339 | every failure is an illegal-argument failure; a success keeps the stored record's id and creation time and stamps the update time |
| StudyLogServices.ClampedPagesAsWritten | src/main/java/com/study/myspringstudydiary/study_log/service/StudyLogService.java:191-204 | for every clamped page whose end `(page+1)*size` stays in the `int` range, the store's step as written and the exact step give the same page |
| StudyLogServices.ClampAdmitsOverflow | src/main/java/com/study/myspringstudydiary/study_log/service/StudyLogService.java:193-194 | clamping keeps page 21474837 and cuts size 500 to 100, and the store's step as written then throws |
| StudyLogServices.UpdateChecksInOrder | src/main/java/com/study/myspringstudydiary/study_log/service/StudyLogService.java:292-324 | unknown id first, then an empty request, then bad category text, then bad understanding text; the update succeeds exactly when all pass |
| StudyLogServices.UpdateKeepsNullFields | src/main/java/com/study/myspringstudydiary/study_log/service/StudyLogService.java:326-338 | a successful update keeps id and creation time, stamps the update time, takes every non-null field (enums by upper-cased name) and keeps every null one |
| StudyLogServices.UpdateIgnoresCategoryCase | src/main/java/com/study/myspringstudydiary/study_log/service/StudyLogService.java:306-314 | category texts differing only in case update alike |
| StudyLogServices.UpdateIsIdempotent | src/main/java/com/study/myspringstudydiary/study_log/service/StudyLogService.java:326-338 | applying the same request again changes nothing but the update time |
| StudyLogServices.StudyLogService.GetStudyLogsWithPaging | src/main/java/com/study/myspringstudydiary/study_log/service/StudyLogService.java:191-204 | the page has the clamped page and size, the store's total, and the clamped slice of `findAll`; the offset `page * size` is computed exactly (see "Left out") |
| StudyLogServices.StudyLogService.GetStudyLogsByCategoryWithPaging | src/main/java/com/study/myspringstudydiary/study_log/service/StudyLogService.java:213-229 | clamped page and size; null or blank text gives an empty page with total 0; otherwise the store's page for the upper-cased text; the offset `page * size` is computed exactly (see "Left out") |
| StudyLogServices.StudyLogService.SearchStudyLogsWithPaging | src/main/java/com/study/myspringstudydiary/study_log/service/StudyLogService.java:241-266 | clamped page and size; the store's search page with the category upper-cased or dropped when blank; the offset `page * size` is computed exactly (see "Left out") |
| StudyLogServices.StudyLogService.GetStudyLogCountByCategory | src/main/java/com/study/myspringstudydiary/study_log/service/StudyLogService.java:273-278 | 0 for null or blank text; otherwise the number of records of the upper-cased name |
| StudyLogServices.StudyLogService.GetStudyLogsByCategory | src/main/java/com/study/myspringstudydiary/study_log/service/StudyLogService.java:151-156 | exactly the records of the category, newest id first |
| StudyLogServices.StudyLogService.GetStudyLogsByCategoryString | src/main/java/com/study/myspringstudydiary/study_log/service/StudyLogService.java:163-172 | fails naming the text exactly when its upper-cased form is no category name; otherwise exactly the records of that category |
| StudyLogServices.StudyLogService.UpdateStudyLog | src/main/java/com/study/myspringstudydiary/study_log/service/StudyLogService.java:289-339 | the result is the update specification's outcome; on success the store holds the merged record at the id, on failure it is unchanged |
| StudyLogServices.StudyLogService.DeleteStudyLog | src/main/java/com/study/myspringstudydiary/study_log/service/StudyLogService.java:350-361 | an unknown id fails with not-found and the store unchanged; otherwise the id is returned and exactly that record removed |
| StudyLogServices.DeleteTwiceFails | src/main/java/com/study/myspringstudydiary/study_log/service/StudyLogService.java:350-361 | deleting a stored id succeeds once, and the second delete fails with not-found |

## Left out

- LegacyRepository.CreatedListing: ties in creation time come in ascending id order. In the source, `HashMap` iteration order and a stable sort decide them; the model fixes one order and proves only the non-increasing creation times and the membership.
- JavaText.ToUpper: maps ASCII letters only. Java's locale-dependent and non-ASCII case mapping is not modelled.
- Id sequences use unbounded integers; `AtomicLong` overflow and concurrent access to the stores are not modelled.
- The clock in the newer store's `update` is an explicit `now` argument; `createdAt` comes with the record passed to `save`.
- The relational DAO's SQL execution, row mapping, `LIKE` matching, collation and the rows' order are the database's; the model states the statements and parameters sent and what the DAO does with the answers. Its unpaged `findAll`, `findByCategory`, `findByStudyDate`, `findById`, `save` and `deleteAll` are single statements with no logic of their own and are not modelled.
- Text blocks are modelled as token lists: the white space inside the SQL strings is not modelled.
- Records are values: Java's mutation of the fetched entity, and the aliasing between the stored object and the caller's, are not modelled.
- StudyLog.java, the Category enum and the service's and relational DAO's `study_log.entity.Understanding` enum are not part of this model; the understanding constants are the five of `my_spring_study_diary/entity/Understanding.java`, which are also the five of the update request's understanding pattern (StudyLogUpdateRequest.java line 24). Category constants come from the update request's pattern, and the entity update follows the request's null-keeps-value documentation.
- The update request's getters read the fields and are modelled by `Snapshot`. Its bean-validation annotations are not modelled.
- `StudyLogResponse.from` copies every field and is the identity. The delete response wraps the id, which is all `DeleteStudyLog` returns.
- A null `categoryStr` in `getStudyLogsByCategoryString` throws `NullPointerException` in the source; the model takes a non-null string there. Null `Long` ids passed to the service are not modelled.
- The service's `createStudyLog`, `getAllStudyLogs`, `getStudyLogById`, `getStudyLogsByDate` and `getStudyLogCount` only delegate to the store or convert records. They are covered by the store operations and not modelled separately.
- Controllers, exception handlers, security and configuration are not part of this model.
- GetStudyLogsByCategory: passes `CategoryName(category)` to the store where the source passes `category.toString()`; the Category enum is not part of this model, and the model assumes it does not override `toString`, so that `toString()` equals `name()`.
- PageOf: computes `page * size` and `fromIndex + size` exactly, where the source wraps them to 32 bits; it is the corrected step of the first "Findings" row. `Paging.AsWrittenAgreesWithoutOverflow` states where the two agree.
- FindAllWithPaging (InMemoryStore.InMemoryStudyLogDao): pages with the exact step `Paging.PageOf`, so for a page number whose offset leaves the `int` range it returns the exact page, where the source throws or returns a wrapped page (`Paging.PagingOverflowThrows`, `Paging.PagingOverflowWrapsAround`).
- FindByCategoryWithPaging (InMemoryStore.InMemoryStudyLogDao): the same exact step over the category's records, with the same gap for an offset outside the `int` range.
- SearchWithPaging (InMemoryStore.InMemoryStudyLogDao): the same exact step over the matching records, with the same gap for an offset outside the `int` range.
- DataQuery: binds the exact offset `Offset(page, size)`, where the source binds the wrapped `OffsetAsWritten(page, size)`; the two are equal when `page * size` is in the `int` range.
- SearchWithPaging (RelationalStore): its data query binds the exact offset, with the same gap as `DataQuery`.
- AllPageQueries: binds the exact offset, with the same gap as `DataQuery`.
- CategoryPageQueries: binds the exact offset, with the same gap as `DataQuery`.
- GetStudyLogsWithPaging: returns the exact page for every clamped page number, so it does not show the source's exception or wrapped page when `(page+1)*size` leaves the `int` range; `StudyLogServices.ClampedPagesAsWritten` states that below that bound the source's page is the same, and `StudyLogServices.ClampAdmitsOverflow` that the clamp lets such pages through.
- GetStudyLogsByCategoryWithPaging: the same exact paging as `GetStudyLogsWithPaging`, with the same gap.
- SearchStudyLogsWithPaging: the same exact paging as `GetStudyLogsWithPaging`, with the same gap.
- ConditionsAgreeWithSearch: assumes the database compares `category = ?` exactly, as under a binary, no-pad collation. Under MySQL's default case-insensitive collations, or a PAD SPACE one, a category text such as `"java"` or `"JAVA "` also matches the JAVA rows, while the in-memory search keeps none; the model does not capture that difference. The service sends upper-cased text, so the difference shows only for text with trailing blanks or other characters that the collation ignores.
- The enum validator's reflection over the enum class is replaced by the list of constant names.

## Findings

| source | as written | input that shows it | evidently intended | confidence | as-written member | corrected member |
|---|---|---|---|---|---|---|
| src/main/java/com/study/myspringstudydiary/dao/InMemoryStudyLogDao.java:122 | `int fromIndex = page * size` wraps in 32-bit arithmetic; the service clamps the size to 1..100 but the page only from below | page 21474837, size 100: `fromIndex` wraps to -2147483596, passes the `fromIndex >= totalElements` check, and `subList` throws `IndexOutOfBoundsException`; page 42949673, size 100: `fromIndex` wraps to 4 and the page holds elements 4..103 | a page past the end is empty, as the check before `subList` shows | high; not executed | Paging.PageOfAsWritten, Paging.PagingOverflowThrows, Paging.PagingOverflowWrapsAround | Paging.PageOf, Paging.PagesCoverAll |
| src/main/java/com/study/myspringstudydiary/study_log/dao/MySQLStudyLogDaoImpl.java:265 | the offset `page * size` is bound as a 32-bit `int` (also at lines 184 and 208) | page 21474837, size 100: the statement binds `OFFSET -2147483596`, which the database refuses | a page past the end is empty | high; not executed | RelationalStore.OffsetAsWritten, RelationalStore.OffsetOverflowRefused | RelationalStore.Offset, RelationalStore.OffsetSelectsPage, RelationalStore.RelationalPageMatchesInMemory |

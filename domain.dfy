/**
 * The study-log entity and the small value types every layer shares: the two
 * enumerations, the record itself, the page envelope, the search filter, and
 * the failures the store and the service raise.
 */
module StudyLogDomain {
  import opened Wrappers

  /** A `LocalDate`, as its epoch-day number: `isBefore` and `isAfter` are `<` and `>`. */
  type Day = int

  /** A `LocalDateTime`, as an instant number on one clock. */
  type Timestamp = int

  /** Java's `int`. */
  type Int32 = x: int | -0x8000_0000 <= x < 0x8000_0000

  /** The study categories, named as the service and the validators spell them. */
  datatype Category = JAVA | SPRING | JPA | DATABASE | ALGORITHM | CS | NETWORK | GIT | ETC

  /** The self-rated understanding levels, from "fully understood" to "not understood". */
  datatype Understanding = VERY_GOOD | GOOD | NORMAL | BAD | VERY_BAD

  /** `Category.name()`. */
  function CategoryName(c: Category): string
  {
    match c
    case JAVA => "JAVA"
    case SPRING => "SPRING"
    case JPA => "JPA"
    case DATABASE => "DATABASE"
    case ALGORITHM => "ALGORITHM"
    case CS => "CS"
    case NETWORK => "NETWORK"
    case GIT => "GIT"
    case ETC => "ETC"
  }

  /** The names of all category constants, in declaration order. */
  const CategoryNames: seq<string> :=
    ["JAVA", "SPRING", "JPA", "DATABASE", "ALGORITHM", "CS", "NETWORK", "GIT", "ETC"]

  /** `Category.valueOf(text)`: the constant with exactly that name, or `None`
      where Java throws `IllegalArgumentException`. */
  function CategoryValueOf(text: string): (r: Option<Category>)
    ensures r.Some? ==> CategoryName(r.value) == text
    ensures forall c :: CategoryName(c) == text ==> r == Some(c)
    ensures r.Some? <==> text in CategoryNames
  {
    CategoryNamesListed(text);
    if text == "JAVA" then Some(JAVA)
    else if text == "SPRING" then Some(SPRING)
    else if text == "JPA" then Some(JPA)
    else if text == "DATABASE" then Some(DATABASE)
    else if text == "ALGORITHM" then Some(ALGORITHM)
    else if text == "CS" then Some(CS)
    else if text == "NETWORK" then Some(NETWORK)
    else if text == "GIT" then Some(GIT)
    else if text == "ETC" then Some(ETC)
    else None
  }

  /** The listed names are exactly the constants' names. */
  lemma CategoryNamesListed(text: string)
    ensures text in CategoryNames <==> exists c :: CategoryName(c) == text
  {
    if text in CategoryNames {
      var i :| 0 <= i < |CategoryNames| && CategoryNames[i] == text;
      assert CategoryName([JAVA, SPRING, JPA, DATABASE, ALGORITHM, CS, NETWORK, GIT, ETC][i]) == text;
    }
  }

  /** `Understanding.name()`. */
  function UnderstandingName(u: Understanding): string
  {
    match u
    case VERY_GOOD => "VERY_GOOD"
    case GOOD => "GOOD"
    case NORMAL => "NORMAL"
    case BAD => "BAD"
    case VERY_BAD => "VERY_BAD"
  }

  /** The names of all understanding constants, in declaration order. */
  const UnderstandingNames: seq<string> := ["VERY_GOOD", "GOOD", "NORMAL", "BAD", "VERY_BAD"]

  /** `Understanding.valueOf(text)`, with `None` where Java throws. */
  function UnderstandingValueOf(text: string): (r: Option<Understanding>)
    ensures r.Some? ==> UnderstandingName(r.value) == text
    ensures forall u :: UnderstandingName(u) == text ==> r == Some(u)
    ensures r.Some? <==> text in UnderstandingNames
  {
    UnderstandingNamesListed(text);
    if text == "VERY_GOOD" then Some(VERY_GOOD)
    else if text == "GOOD" then Some(GOOD)
    else if text == "NORMAL" then Some(NORMAL)
    else if text == "BAD" then Some(BAD)
    else if text == "VERY_BAD" then Some(VERY_BAD)
    else None
  }

  /** The listed names are exactly the constants' names. */
  lemma UnderstandingNamesListed(text: string)
    ensures text in UnderstandingNames <==> exists u :: UnderstandingName(u) == text
  {
    if text in UnderstandingNames {
      var i :| 0 <= i < |UnderstandingNames| && UnderstandingNames[i] == text;
      assert UnderstandingName([VERY_GOOD, GOOD, NORMAL, BAD, VERY_BAD][i]) == text;
    }
  }

  /** A study log. `id` is `None` until a store assigns one. */
  datatype Record = Record(
    id: Option<int>,
    title: string,
    content: string,
    category: Category,
    understanding: Understanding,
    studyTime: int,
    studyDate: Day,
    createdAt: Timestamp,
    updatedAt: Timestamp)

  /** The page envelope, holding exactly the four constructor arguments. */
  datatype Page<T> = Page(content: seq<T>, page: int, size: int, totalElements: int)

  /** The optional criteria of a search; `None` is Java's `null`. */
  datatype SearchFilter = SearchFilter(
    titleKeyword: Option<string>,
    category: Option<string>,
    startDate: Option<Day>,
    endDate: Option<Day>)

  /** Why a call was refused with `IllegalArgumentException`. */
  datatype Reason =
    | MissingId                      // update of a record whose id is null
    | UnknownId(id: int)             // no record stored under the id
    | NoUpdates                      // update request with every field null
    | InvalidCategory(text: string)  // text naming no category constant
    | InvalidUnderstanding(text: string)

  /** The exceptions the store and the service throw. */
  datatype Failure =
    | IllegalArgument(reason: Reason)
    | StudyLogNotFound(logId: int)   // StudyLogNotFoundException of the delete flow
    | RowNotFound(rowId: Option<int>)  // RuntimeException of the relational update
}

/**
 * The paging step shared by the three paged queries of the in-memory store:
 * slice a sorted list at `[page*size, min(page*size+size, total))`, or return an
 * empty page when the offset is past the end.
 */
module Paging {
  import opened Wrappers
  import opened StudyLogDomain

  /** What `List.subList` throws on a bad range. */
  datatype SliceFault = IndexOutOfBounds | ReversedRange

  function Min(a: int, b: int): int { if a <= b then a else b }

  /** Java `int` arithmetic: the two's-complement wrap of the exact result. */
  function Wrap32(x: int): Int32
  {
    (x + 0x8000_0000) % 0x1_0000_0000 - 0x8000_0000
  }

  /** `items.subList(from, to)`: `IndexOutOfBoundsException` for an index outside
      the list, `IllegalArgumentException` (ReversedRange) for a reversed range. */
  function SubList<T>(items: seq<T>, from: int, to: int): (r: Result<seq<T>, SliceFault>)
    ensures r.Ok? <==> 0 <= from <= to <= |items|
  {
    if from < 0 || to > |items| then Err(IndexOutOfBounds)
    else if from > to then Err(ReversedRange)
    else Ok(items[from..to])
  }

  /** The paging step as the store writes it, with `page * size` and
      `fromIndex + size` evaluated in 32-bit `int` arithmetic. A Java list holds
      fewer than 2^31 elements. */
  function PageOfAsWritten<T>(items: seq<T>, page: Int32, size: Int32): (r: Result<Page<T>, SliceFault>)
    requires |items| < 0x8000_0000
    ensures r.Ok? ==> r.value.page == page && r.value.size == size && r.value.totalElements == |items|
    ensures Wrap32(page * size) >= |items| ==> r == Ok(Page([], page, size, |items|))
    ensures Wrap32(page * size) < 0 ==> r == Err(IndexOutOfBounds)
    ensures var from := Wrap32(page * size);
      0 <= from < |items| && 0 <= size && from + size < 0x8000_0000 ==>
        r == Ok(Page(items[from..Min(from + size, |items|)], page, size, |items|))
  {
    var total := |items|;
    var fromIndex := Wrap32(page * size);
    var toIndex := Min(Wrap32(fromIndex + size), total);
    if fromIndex >= total then Ok(Page([], page, size, total))
    else
      match SubList(items, fromIndex, toIndex)
      case Ok(content) => Ok(Page(content, page, size, total))
      case Err(fault) => Err(fault)
  }

  /** The elements of `items` from `from` on, at most `size` of them. */
  function Slice<T>(items: seq<T>, from: nat, size: nat): (r: seq<T>)
    ensures |r| == Min(from + size, |items|) - Min(from, |items|)
  {
    items[Min(from, |items|)..Min(from + size, |items|)]
  }

  /** The paging step with the index arithmetic done exactly, as it is in `long`
      arithmetic for any two `int` operands. */
  function PageOf<T>(items: seq<T>, page: Int32, size: Int32): (r: Result<Page<T>, SliceFault>)
    ensures r.Ok? ==> r.value.page == page && r.value.size == size && r.value.totalElements == |items|
    ensures r.Err? <==> page * size < |items| && (page * size < 0 || size < 0)
    ensures page * size >= |items| ==> r == Ok(Page([], page, size, |items|))
    ensures 0 <= page && 0 <= size ==> r == Ok(Page(Slice(items, page * size, size), page, size, |items|))
  {
    var total := |items|;
    var fromIndex := page * size;
    var toIndex := Min(fromIndex + size, total);
    if fromIndex >= total then
      assert items[total..total] == [];
      Ok(Page([], page, size, total))
    else
      match SubList(items, fromIndex, toIndex)
      case Ok(content) => Ok(Page(content, page, size, total))
      case Err(fault) => Err(fault)
  }

  /** A large page number makes the written `page * size` wrap to a negative
      index, and the store throws where it should return an empty page. */
  lemma PagingOverflowThrows<T>(items: seq<T>)
    requires |items| < 0x8000_0000
    ensures Wrap32(21474837 * 100) < 0
    ensures PageOfAsWritten(items, 21474837, 100) == Err(IndexOutOfBounds)
    ensures PageOf(items, 21474837, 100) == Ok(Page([], 21474837, 100, |items|))
  {
    assert 21474837 * 100 == 2147483700;
    assert Wrap32(2147483700) == -2147483596;
  }

  /** A still larger page number wraps `page * size` back to a small offset, and the
      store returns a page of early records where it should return an empty one. */
  lemma PagingOverflowWrapsAround<T>(items: seq<T>)
    requires 104 <= |items| < 0x8000_0000
    ensures Wrap32(42949673 * 100) == 4
    ensures PageOfAsWritten(items, 42949673, 100) == Ok(Page(items[4..104], 42949673, 100, |items|))
    ensures PageOf(items, 42949673, 100) == Ok(Page([], 42949673, 100, |items|))
  {
    assert 42949673 * 100 == 4294967300;
    assert Wrap32(4294967300) == 4;
    Wrap32Exact(104);
  }

  /** Where neither sum nor product leaves the `int` range, the written step and the
      exact step agree. */
  lemma AsWrittenAgreesWithoutOverflow<T>(items: seq<T>, page: Int32, size: Int32)
    requires |items| < 0x8000_0000
    requires -0x8000_0000 <= page * size < 0x8000_0000
    requires -0x8000_0000 <= page * size + size < 0x8000_0000
    ensures PageOfAsWritten(items, page, size) == PageOf(items, page, size)
  {
    Wrap32Exact(page * size);
    Wrap32Exact(page * size + size);
  }

  /** The wrap differs from the exact result by a multiple of 2^32. */
  lemma Wrap32Congruent(x: int)
    ensures (Wrap32(x) - x) % 0x1_0000_0000 == 0
  {
    var q := (x + 0x8000_0000) / 0x1_0000_0000;
    assert Wrap32(x) - x == -q * 0x1_0000_0000;
  }

  /** An exact result inside the `int` range is not changed by the wrap. */
  lemma Wrap32Exact(x: int)
    requires -0x8000_0000 <= x < 0x8000_0000
    ensures Wrap32(x) == x
  {
    var shifted := x + 0x8000_0000;
    assert 0 <= shifted < 0x1_0000_0000;
    assert shifted % 0x1_0000_0000 == shifted;
  }

  /** Number of pages of `size` needed for `total` elements: `ceil(total / size)`. */
  function PageCount(total: nat, size: int): nat
    requires size >= 1
  {
    (total + size - 1) / size
  }

  /** The last page starts before the end and the one after it starts at or past the end. */
  lemma PageCountBounds(total: nat, size: int)
    requires size >= 1
    ensures PageCount(total, size) * size >= total
    ensures PageCount(total, size) >= 1 ==> (PageCount(total, size) - 1) * size < total
    ensures PageCount(total, size) <= total
  {
    var n := total + size - 1;
    QuotientBounds(total, size, n / size, n % size);
  }

  /** The bounds of `PageCount`, stated for a quotient and remainder of `total + size - 1`. */
  lemma QuotientBounds(total: nat, size: int, q: int, r: int)
    requires size >= 1 && q * size + r == total + size - 1 && 0 <= r < size
    ensures q * size >= total
    ensures q >= 1 ==> (q - 1) * size < total
    ensures q <= total
  {
    MulSub(q, size);
    MulMono(1, size, total);
    MulAddOne(total, size);
    MulCancel(q, total + 1, size);
  }

  lemma MulCancel(a: int, b: int, c: int)
    requires a * c < b * c && c > 0
    ensures a < b
  {
  }

  lemma MulSub(a: int, b: int)
    ensures (a - 1) * b == a * b - b
  {
  }

  lemma MulAddOne(a: int, b: int)
    ensures (a + 1) * b == a * b + b
  {
  }

  lemma MulMono(a: int, b: int, c: int)
    requires a <= b && c >= 0
    ensures a * c <= b * c
  {
  }

  /** The contents of pages 0 .. n-1 of `items`, one after another. */
  function PagesUpTo<T>(items: seq<T>, n: nat, size: Int32): seq<T>
    requires 1 <= size && n <= 0x8000_0000
  {
    if n == 0 then [] else PagesUpTo(items, n - 1, size) + PageOf(items, n - 1, size).value.content
  }

  /** The first n pages, concatenated, are the first `min(n*size, total)` elements. */
  lemma {:induction false} PagesUpToIsPrefix<T>(items: seq<T>, n: nat, size: Int32)
    requires 1 <= size && n <= 0x8000_0000
    ensures PagesUpTo(items, n, size) == items[..Min(n * size, |items|)]
  {
    if n > 0 {
      PagesUpToIsPrefix(items, n - 1, size);
      var from := (n - 1) * size;
      assert from + size == n * size;
      var k := Min(from, |items|);
      var t := Min(n * size, |items|);
      assert k <= t;
      assert items[..t] == items[..k] + items[k..t];
    }
  }

  /** Pagination completeness: reading pages 0 .. PageCount-1 returns every element
      in order, each of those pages is non-empty, and the next page is empty. */
  lemma PagesCoverAll<T>(items: seq<T>, size: Int32)
    requires 1 <= size && |items| < 0x8000_0000
    ensures PagesUpTo(items, PageCount(|items|, size), size) == items
    ensures forall p: Int32 :: 0 <= p < PageCount(|items|, size) ==> PageOf(items, p, size).value.content != []
    ensures PageOf(items, PageCount(|items|, size) as Int32, size).value.content == []
  {
    var n := PageCount(|items|, size);
    PageCountBounds(|items|, size);
    PagesUpToIsPrefix(items, n, size);
    assert items[..|items|] == items;
    forall p: Int32 | 0 <= p < n
      ensures PageOf(items, p, size).value.content != []
    {
      MulMono(p, n - 1, size);
    }
  }
}

/** Pagination of a search result: the record count, the page count (the ceiling
    of records over page size), and the page itself, taken with the semantics of
    LINQ's Skip and Take. */
module Paging {

  /** The envelope returned by a search: the request echoed and the page. */
  datatype PagedOutput<T> = PagedOutput(
    pageNumber: int,
    pageSize: int,
    totalNumberOfPages: int,
    totalNumberOfRecords: int,
    results: seq<T>)

  /** A count as LINQ takes it: negative counts as zero, and no more than `len`.
      Every cut-off of a count at a sequence's length in this module is a Clamp. */
  function Clamp(n: int, len: nat): (r: nat)
    ensures r <= len
    ensures 0 <= n <= len ==> r == n
    ensures n < 0 ==> r == 0
    ensures len < n ==> r == len
  {
    if n <= 0 then 0 else if n >= len then len else n
  }

  /** LINQ Skip: drops the first `count` elements (none when `count` is not positive). */
  function Skip<T>(s: seq<T>, count: int): (r: seq<T>)
    ensures r == s[Clamp(count, |s|)..]
  {
    if count <= 0 then s else if count >= |s| then [] else s[count..]
  }

  /** LINQ Take: keeps the first `count` elements (none when `count` is not positive). */
  function Take<T>(s: seq<T>, count: int): (r: seq<T>)
    ensures r == s[..Clamp(count, |s|)]
  {
    if count <= 0 then [] else if count >= |s| then s else s[..count]
  }

  /** The number of pages of `pageSize` records needed for `total` records: the
      integer ceiling of total / pageSize. */
  function PageCount(total: nat, pageSize: int): (pages: nat)
    requires pageSize >= 1
    ensures (pages - 1) * pageSize < total <= pages * pageSize
    ensures pages == 0 <==> total == 0
  {
    var q := (total + pageSize - 1) / pageSize;
    var m := (total + pageSize - 1) % pageSize;
    assert total + pageSize - 1 == q * pageSize + m && 0 <= m < pageSize;
    assert q * pageSize - pageSize == (q - 1) * pageSize;
    q
  }

  lemma MulMonotone(a: int, b: int, c: int)
    requires a <= b && c >= 0
    ensures a * c <= b * c
  {
    assert b * c - a * c == (b - a) * c;
  }

  /** The ceiling is the only count with that property: PageCount agrees with
      any other definition of "just enough pages". */
  lemma PageCountUnique(total: nat, pageSize: int, k: int)
    requires pageSize >= 1
    requires (k - 1) * pageSize < total <= k * pageSize
    ensures k == PageCount(total, pageSize)
  {
    var p := PageCount(total, pageSize);
    if k < p {
      MulMonotone(k, p - 1, pageSize);
    } else if p < k {
      MulMonotone(p, k - 1, pageSize);
    }
  }

  /** Number of records a page skips before its first one: none for page 1, a
      whole page more for every page after it, and a negative count (which Skip
      treats as none) for page numbers below 1. */
  function Offset(pageNumber: int, pageSize: int): (r: int)
    ensures pageSize >= 1 && pageNumber >= 1 ==> r >= 0
    ensures pageSize >= 1 && pageNumber <= 0 ==> r <= -pageSize
    ensures r + pageSize == pageNumber * pageSize
  {
    if pageSize >= 1 && pageNumber <= 0 then
      MulMonotone(pageNumber - 1, -1, pageSize);
      (pageNumber - 1) * pageSize
    else if pageSize >= 1 then
      MulMonotone(0, pageNumber - 1, pageSize);
      (pageNumber - 1) * pageSize
    else
      (pageNumber - 1) * pageSize
  }

  /** Skip then Take selects the window [offset, offset + count) of `s`. */
  lemma TakeAfterSkip<T>(s: seq<T>, offset: int, count: int)
    requires count >= 1
    ensures offset >= 0 ==> Take(Skip(s, offset), count) == s[Clamp(offset, |s|)..Clamp(offset + count, |s|)]
    ensures offset <= 0 ==> Take(Skip(s, offset), count) == s[..Clamp(count, |s|)]
  {
  }

  /** The search envelope for page `pageNumber` of `s`. */
  function Page<T>(s: seq<T>, pageNumber: int, pageSize: int): (r: PagedOutput<T>)
    requires pageSize >= 1
    ensures r.pageNumber == pageNumber && r.pageSize == pageSize
    ensures r.totalNumberOfRecords == |s|
    ensures r.totalNumberOfPages >= 0
    ensures (r.totalNumberOfPages - 1) * pageSize < |s| <= r.totalNumberOfPages * pageSize
    ensures pageNumber >= 1 ==>
      r.results == s[Clamp(Offset(pageNumber, pageSize), |s|)..Clamp(Offset(pageNumber, pageSize) + pageSize, |s|)]
    ensures pageNumber <= 0 ==> r.results == s[..Clamp(pageSize, |s|)]
  {
    var offset := Offset(pageNumber, pageSize);
    TakeAfterSkip(s, offset, pageSize);
    PagedOutput(pageNumber, pageSize, PageCount(|s|, pageSize), |s|, Take(Skip(s, offset), pageSize))
  }

  /** A page never holds more than `pageSize` records, and only records of `s`. */
  lemma PageWithinBounds<T>(s: seq<T>, pageNumber: int, pageSize: int)
    requires pageSize >= 1
    ensures |Page(s, pageNumber, pageSize).results| <= pageSize
    ensures forall x :: x in Page(s, pageNumber, pageSize).results ==> x in s
  {
  }

  /** The length of a page: pageSize, except for the last page, and zero after it. */
  lemma PageLength<T>(s: seq<T>, pageNumber: int, pageSize: int)
    requires pageSize >= 1 && pageNumber >= 1
    ensures |Page(s, pageNumber, pageSize).results|
      == if Offset(pageNumber, pageSize) >= |s| then 0
         else Clamp(pageSize, |s| - Offset(pageNumber, pageSize))
  {
  }

  /** A page is empty exactly when its number is past the page count. */
  lemma PageEmptyIff<T>(s: seq<T>, pageNumber: int, pageSize: int)
    requires pageSize >= 1 && pageNumber >= 1
    ensures Page(s, pageNumber, pageSize).results == []
      <==> pageNumber > PageCount(|s|, pageSize)
  {
    var p := PageCount(|s|, pageSize);
    if pageNumber > p {
      MulMonotone(p, pageNumber - 1, pageSize);
    } else {
      MulMonotone(pageNumber - 1, p - 1, pageSize);
    }
  }

  /** A page number below one is served as the first page. */
  lemma NonPositivePageIsFirst<T>(s: seq<T>, pageNumber: int, pageSize: int)
    requires pageSize >= 1 && pageNumber <= 0
    ensures Page(s, pageNumber, pageSize).results == Page(s, 1, pageSize).results
  {
  }

  /** Pages 1 to k laid end to end. */
  function FirstPages<T>(s: seq<T>, pageSize: int, k: nat): (r: seq<T>)
    requires pageSize >= 1
  {
    if k == 0 then [] else FirstPages(s, pageSize, k - 1) + Page(s, k, pageSize).results
  }

  lemma ConcatSlices<T>(s: seq<T>, a: int, b: int)
    requires 0 <= a <= b
    ensures s[..Clamp(a, |s|)] + s[Clamp(a, |s|)..Clamp(b, |s|)] == s[..Clamp(b, |s|)]
  {
  }

  /** The first k pages are the first k * pageSize records, in order. */
  lemma {:induction false} FirstPagesArePrefix<T>(s: seq<T>, pageSize: int, k: nat)
    requires pageSize >= 1
    ensures FirstPages(s, pageSize, k) == s[..Clamp(k * pageSize, |s|)]
  {
    if k > 0 {
      FirstPagesArePrefix(s, pageSize, k - 1);
      var before := Offset(k, pageSize);
      assert k * pageSize == before + pageSize;
      ConcatSlices(s, before, before + pageSize);
    }
  }

  /** Paging loses nothing, repeats nothing and keeps the order: the pages from
      1 to the page count, concatenated, are the whole result. */
  lemma AllPagesAreWhole<T>(s: seq<T>, pageSize: int)
    requires pageSize >= 1
    ensures FirstPages(s, pageSize, PageCount(|s|, pageSize)) == s
  {
    FirstPagesArePrefix(s, pageSize, PageCount(|s|, pageSize));
  }

  /** Position j of page pageNumber is record Offset + j. */
  lemma PageAt<T>(s: seq<T>, pageNumber: int, pageSize: int, j: nat)
    requires pageSize >= 1 && pageNumber >= 1
    requires j < pageSize && 0 <= Offset(pageNumber, pageSize) + j < |s|
    ensures var page := Page(s, pageNumber, pageSize).results;
      j < |page| && page[j] == s[Offset(pageNumber, pageSize) + j]
  {
  }

  /** Every record sits on page i / pageSize + 1, at position i % pageSize. */
  lemma RecordOnItsPage<T>(s: seq<T>, pageSize: int, i: nat)
    requires pageSize >= 1 && i < |s|
    ensures var page := Page(s, i / pageSize + 1, pageSize).results;
      i % pageSize < |page| && page[i % pageSize] == s[i]
  {
    var q, m := i / pageSize, i % pageSize;
    assert Offset(q + 1, pageSize) + m == i;
    PageAt(s, q + 1, pageSize, m);
  }

  /** 25 matching records, page 2 of size 10: three pages, records 11 to 20. */
  lemma SearchSecondPageOfTwentyFive<T>(s: seq<T>)
    requires |s| == 25
    ensures Page(s, 2, 10).totalNumberOfPages == 3
    ensures Page(s, 2, 10).totalNumberOfRecords == 25
    ensures Page(s, 2, 10).pageNumber == 2
    ensures Page(s, 2, 10).results == s[10..20]
  {
    PageCountUnique(25, 10, 3);
  }

  // The source computes the offset (pageNumber - 1) * pageSize in 32-bit
  // integers, which wrap around on overflow.

  predicate IsInt32(x: int) {
    -0x8000_0000 <= x < 0x8000_0000
  }

  /** Two's-complement truncation to 32 bits. */
  function Wrap32(x: int): (r: int)
    ensures IsInt32(r)
    ensures (x - r) % 0x1_0000_0000 == 0
    ensures IsInt32(x) ==> r == x
  {
    (x + 0x8000_0000) % 0x1_0000_0000 - 0x8000_0000
  }

  /** The search envelope with the offset computed in 32-bit arithmetic. */
  function PageAsWritten<T>(s: seq<T>, pageNumber: int, pageSize: int): (r: PagedOutput<T>)
    requires pageSize >= 1 && IsInt32(pageNumber) && IsInt32(pageSize)
    ensures IsInt32(Offset(pageNumber, pageSize)) ==> r == Page(s, pageNumber, pageSize)
  {
    PagedOutput(pageNumber, pageSize, PageCount(|s|, pageSize), |s|,
      Take(Skip(s, Wrap32(Offset(pageNumber, pageSize))), pageSize))
  }

  /** Page 0x4000_0001 of size 4 lies past the last page of any result the
      source can count, yet the wrapped offset is 0 and the first page comes back. */
  lemma WrappedOffsetServesFirstPage<T>(s: seq<T>)
    requires 1 <= |s| < 0x8000_0000
    ensures PageAsWritten(s, 0x4000_0001, 4).totalNumberOfPages < 0x4000_0001
    ensures PageAsWritten(s, 0x4000_0001, 4).results == s[..Clamp(4, |s|)] != []
    ensures Page(s, 0x4000_0001, 4).results == []
  {
    assert Offset(0x4000_0001, 4) == 0x1_0000_0000;
    assert Wrap32(0x1_0000_0000) == 0;
    var p := PageCount(|s|, 4);
    assert (p - 1) * 4 < |s|;
  }

  /** Page -0x4000_0000 of size 2 should be served as the first page, yet the
      wrapped offset is 0x7FFF_FFFE, which skips every record the source can
      count, and the page comes back empty. */
  lemma WrappedOffsetEmptiesNonPositivePage<T>(s: seq<T>)
    requires 1 <= |s| < 0x7FFF_FFFE
    ensures PageAsWritten(s, -0x4000_0000, 2).results == []
    ensures Page(s, -0x4000_0000, 2).results == Page(s, 1, 2).results == s[..Clamp(2, |s|)] != []
  {
    assert Offset(-0x4000_0000, 2) == -0x8000_0002;
    assert Wrap32(-0x8000_0002) == 0x7FFF_FFFE;
  }
}

/**
 * The list logic of the attendance dashboard (app/view-attendance/page.tsx):
 * the `filteredRecords` chain (copy, filter by status and search, sort by last
 * name), the pagination arithmetic over it, the ascending sort of the date
 * list with its default selection, and the effect that resets the page. The
 * rows are the entries the report route answers with. React state is
 * represented by the values it holds when the component renders.
 */
module Dashboard {
  import opened Wrappers
  import opened Text
  import opened Seqs
  import opened Report

  /** The status filter of the select: 'all', 'present' or 'absent'. */
  const AllStatuses: string := "all"

  /** The lowercased field contains the query, which the caller has already lowercased. */
  predicate Mentions(text: string, query: string) {
    Contains(Lower(text), query)
  }

  /** The predicate of the `filter` call. */
  predicate Keep(e: ReportEntry, statusFilter: string, searchQuery: string) {
    if statusFilter != AllStatuses && e.status != statusFilter then false
    else if searchQuery != "" then
      var q := Lower(searchQuery);
      Mentions(e.student.id, q) || Mentions(e.student.firstName, q) || Mentions(e.student.lastName, q)
      || Mentions(e.student.section, q)
    else true
  }

  /** The comparator of the `sort` call, `localeCompare(...) <= 0` on the lowercased last names. */
  predicate LastNameLe(a: ReportEntry, b: ReportEntry) {
    LexLe(Lower(a.student.lastName), Lower(b.student.lastName))
  }

  lemma LastNameLeTotalPreorder()
    ensures TotalPreorder(LastNameLe)
  {
    forall a: ReportEntry, b: ReportEntry
      ensures LastNameLe(a, b) || LastNameLe(b, a)
    {
      LexLeTotal(Lower(a.student.lastName), Lower(b.student.lastName));
    }
    forall a: ReportEntry, b: ReportEntry, c: ReportEntry | LastNameLe(a, b) && LastNameLe(b, c)
      ensures LastNameLe(a, c)
    {
      LexLeTransitive(Lower(a.student.lastName), Lower(b.student.lastName), Lower(c.student.lastName));
    }
  }

  /**
   * `filteredRecords`: ordered by lowercased last name (rows with equal names
   * keep their order), holding exactly the rows that pass the filter, each as
   * often as in the input. The input is a value and is left as it is.
   */
  function Filtered(records: seq<ReportEntry>, statusFilter: string, searchQuery: string): (r: seq<ReportEntry>)
    ensures SortedBy(r, LastNameLe)
    ensures forall e :: e in r <==> e in records && Keep(e, statusFilter, searchQuery)
    ensures multiset(r) <= multiset(records)
    ensures forall e :: multiset(r)[e] == if Keep(e, statusFilter, searchQuery) then multiset(records)[e] else 0
  {
    var kept := Filter(records, (e: ReportEntry) => Keep(e, statusFilter, searchQuery));
    FilterMembers(records, (e: ReportEntry) => Keep(e, statusFilter, searchQuery));
    LastNameLeTotalPreorder();
    SortBySorted(kept, LastNameLe);
    var r := SortBy(kept, LastNameLe);
    forall e
      ensures multiset(r)[e] == if Keep(e, statusFilter, searchQuery) then multiset(records)[e] else 0
    {
      FilterMultiplicity(records, (e: ReportEntry) => Keep(e, statusFilter, searchQuery), e);
    }
    assert forall e :: e in r <==> e in kept by {
      forall e
        ensures e in r <==> e in kept
      {
        assert e in r <==> e in multiset(r);
        assert e in kept <==> e in multiset(kept);
      }
    }
    r
  }

  /** A status filter other than 'all', with no search, keeps exactly the rows of that status. */
  lemma StatusFilterExact(records: seq<ReportEntry>, statusFilter: string)
    requires statusFilter != AllStatuses
    ensures forall e :: e in Filtered(records, statusFilter, "") <==> e in records && e.status == statusFilter
  {
  }

  /** With 'all' and an empty search nothing is filtered out: the list is a reordering of the input. */
  lemma NoFilterKeepsAll(records: seq<ReportEntry>)
    ensures multiset(Filtered(records, AllStatuses, "")) == multiset(records)
  {
    var kept := Filter(records, (e: ReportEntry) => Keep(e, AllStatuses, ""));
    FilterAll(records, (e: ReportEntry) => Keep(e, AllStatuses, ""));
    assert kept == records;
  }

  /** The search is case-insensitive in the query: a query and its lowercased form keep the same rows. */
  lemma SearchIgnoresQueryCase(e: ReportEntry, statusFilter: string, searchQuery: string)
    ensures Keep(e, statusFilter, searchQuery) == Keep(e, statusFilter, Lower(searchQuery))
  {
    LowerIdempotent(searchQuery);
  }

  /** A row whose lowercased field contains the lowercased query is found by the search, whatever the case of either. */
  lemma SearchFindsField(records: seq<ReportEntry>, k: nat, searchQuery: string)
    requires k < |records| && searchQuery != ""
    requires Contains(Lower(records[k].student.lastName), Lower(searchQuery))
    ensures records[k] in Filtered(records, AllStatuses, searchQuery)
  {
  }

  /** The number of pages: the total divided by the page size, rounded up. */
  function TotalPages(total: nat, pageSize: int): (n: nat)
    requires pageSize > 0
    ensures total == 0 ==> n == 0
    ensures total > 0 ==> (n - 1) * pageSize < total <= n * pageSize
  {
    (total + pageSize - 1) / pageSize
  }

  /** `(currentPage - 1) * pageSize`. */
  function StartIndex(page: int, pageSize: int): int {
    (page - 1) * pageSize
  }

  /** One past the last row of the page: a page's length on from its start, capped at the total. */
  function EndIndex(page: int, pageSize: int, total: nat): int {
    Min(StartIndex(page, pageSize) + pageSize, total)
  }

  lemma StartIndexFacts(page: int, pageSize: int)
    requires pageSize > 0
    ensures StartIndex(page, pageSize) + pageSize == page * pageSize
    ensures page >= 1 ==> StartIndex(page, pageSize) >= 0
    ensures page < 1 ==> StartIndex(page, pageSize) + pageSize <= 0
    ensures StartIndex(page + 1, pageSize) == StartIndex(page, pageSize) + pageSize
    ensures StartIndex(page + 1, pageSize) == page * pageSize
  {
  }

  lemma MulMonotone(a: int, b: int, c: int)
    requires a <= b && c > 0
    ensures a * c <= b * c
  {
  }

  /** The rows shown on one page: the filtered list sliced between the page's start and end. */
  function CurrentRecords(list: seq<ReportEntry>, page: int, pageSize: int): (r: seq<ReportEntry>)
    requires pageSize > 0
    ensures |r| <= pageSize
    ensures 1 <= page ==>
      r == list[Min(StartIndex(page, pageSize), |list|)..Min(StartIndex(page, pageSize) + pageSize, |list|)]
  {
    var start := StartIndex(page, pageSize);
    var end := EndIndex(page, pageSize, |list|);
    JsSliceAtMost(list, start, end, pageSize);
    StartIndexFacts(page, pageSize);
    JsSlice(list, start, end)
  }

  /** The pages 1..n in order. */
  function PagesUpTo(list: seq<ReportEntry>, pageSize: int, n: nat): seq<seq<ReportEntry>>
    requires pageSize > 0
    decreases n
  {
    if n == 0 then [] else PagesUpTo(list, pageSize, n - 1) + [CurrentRecords(list, n, pageSize)]
  }

  /** Page `n` continues the rows shown on pages 1..n-1. */
  lemma PageContinues(list: seq<ReportEntry>, pageSize: int, n: nat)
    requires pageSize > 0 && n >= 1
    ensures list[..Min(StartIndex(n, pageSize), |list|)] + CurrentRecords(list, n, pageSize)
            == list[..Min(StartIndex(n + 1, pageSize), |list|)]
  {
    StartIndexFacts(n, pageSize);
    var a := Min(StartIndex(n, pageSize), |list|);
    var b := Min(StartIndex(n + 1, pageSize), |list|);
    assert CurrentRecords(list, n, pageSize) == list[a..b];
    assert list[..a] + list[a..b] == list[..b];
  }

  lemma {:induction false} PagesUpToPrefix(list: seq<ReportEntry>, pageSize: int, n: nat)
    requires pageSize > 0
    ensures Concat(PagesUpTo(list, pageSize, n)) == list[..Min(StartIndex(n + 1, pageSize), |list|)]
    decreases n
  {
    if n == 0 {
      StartIndexFacts(0, pageSize);
    } else {
      PagesUpToPrefix(list, pageSize, n - 1);
      ConcatSnoc(PagesUpTo(list, pageSize, n - 1), CurrentRecords(list, n, pageSize));
      assert n - 1 + 1 == n;
      PageContinues(list, pageSize, n);
    }
  }

  /** Pages 1..totalPages, read in order, give back the whole filtered list: nothing is skipped or shown twice. */
  lemma PagesPartition(list: seq<ReportEntry>, pageSize: int)
    requires pageSize > 0
    ensures Concat(PagesUpTo(list, pageSize, TotalPages(|list|, pageSize))) == list
  {
    var n := TotalPages(|list|, pageSize);
    PagesUpToPrefix(list, pageSize, n);
    StartIndexFacts(n, pageSize);
  }

  /** Each page from 1 to totalPages shows at least one row; every page after the last shows none. */
  lemma PageEmptyIffBeyondLast(list: seq<ReportEntry>, page: int, pageSize: int)
    requires pageSize > 0 && page >= 1
    ensures CurrentRecords(list, page, pageSize) == [] <==> page > TotalPages(|list|, pageSize)
  {
    var n := TotalPages(|list|, pageSize);
    StartIndexFacts(page, pageSize);
    StartIndexFacts(n + 1, pageSize);
    if page > n {
      MulMonotone(n + 1, page, pageSize);
      assert StartIndex(page, pageSize) >= |list|;
    } else {
      MulMonotone(page, n, pageSize);
      assert StartIndex(page, pageSize) < |list|;
    }
  }

  /** `[...data.dates].sort(... compareAsc ...)`: the dates earliest first, as a reordering of the list. */
  function SortedDates(dates: seq<string>): (r: seq<string>)
    ensures SortedBy(r, LexLe) && multiset(r) == multiset(dates)
  {
    assert TotalPreorder(LexLe) by {
      forall a: string, b: string
        ensures LexLe(a, b) || LexLe(b, a)
      {
        LexLeTotal(a, b);
      }
      forall a: string, b: string, c: string | LexLe(a, b) && LexLe(b, c)
        ensures LexLe(a, c)
      {
        LexLeTransitive(a, b, c);
      }
    }
    SortBySorted(dates, LexLe);
    SortBy(dates, LexLe)
  }

  /** The selected date: kept when one is set, otherwise the earliest listed date when there is one. */
  function DefaultSelection(sorted: seq<string>, selected: Option<string>): (s: Option<string>)
    ensures Truthy(selected) || |sorted| == 0 ==> s == selected
    ensures !Truthy(selected) && |sorted| > 0 ==> s == Some(sorted[0])
  {
    if |sorted| > 0 && !Truthy(selected) then Some(sorted[0]) else selected
  }

  /** With nothing selected, the dashboard selects the earliest date the report route lists. */
  lemma DefaultIsEarliest(dates: seq<string>, selected: Option<string>)
    requires |dates| > 0 && !Truthy(selected)
    ensures var s := DefaultSelection(SortedDates(dates), selected);
            s.Some? && s.value in dates && forall d :: d in dates ==> LexLe(s.value, d)
  {
    var sorted := SortedDates(dates);
    assert sorted[0] in multiset(dates);
    forall d | d in dates
      ensures LexLe(sorted[0], d)
    {
      assert d in multiset(sorted);
      var j :| 0 <= j < |sorted| && sorted[j] == d;
      if j == 0 {
        LexLeReflexive(d);
      }
    }
  }

  /** The filter controls as they stand at one render. */
  datatype Controls = Controls(statusFilter: string, pageSize: int, searchQuery: string)

  /** The page number after a render: back to page 1 when the status filter or the page size changed, kept otherwise. */
  function PageAfterRender(before: Controls, after: Controls, page: int): (p: int)
    ensures before.statusFilter != after.statusFilter || before.pageSize != after.pageSize ==> p == 1
    ensures before.statusFilter == after.statusFilter && before.pageSize == after.pageSize ==> p == page
  {
    if before.statusFilter != after.statusFilter || before.pageSize != after.pageSize then 1 else page
  }

  /**
   * The effect does not watch the search box: a search that shrinks the list
   * below the current page keeps the page number, and the page then shows
   * no rows.
   */
  lemma SearchCanStrandPage(records: seq<ReportEntry>, before: Controls, query: string, page: int)
    requires before.pageSize > 0 && page >= 1
    requires page > TotalPages(|Filtered(records, before.statusFilter, query)|, before.pageSize)
    ensures var after := before.(searchQuery := query);
            && PageAfterRender(before, after, page) == page
            && CurrentRecords(Filtered(records, after.statusFilter, after.searchQuery), page, after.pageSize) == []
  {
    PageEmptyIffBeyondLast(Filtered(records, before.statusFilter, query), page, before.pageSize);
  }
}

/** Sorting and paging the restore area (`syseba_restore_list`, src/fs.c). */
module RestoreListing {
  import opened Ascii

  datatype Item = Item(name: string, path: string, size: nat, mtime: string, directory: bool)

  datatype Order = NameAsc | NameDesc | MtimeAsc | MtimeDesc | SizeAsc | SizeDesc

  /** `strcmp`, up to the sign. */
  function Compare(a: string, b: string): int {
    if a == [] then if b == [] then 0 else -1
    else if b == [] then 1
    else if a[0] < b[0] then -1
    else if a[0] > b[0] then 1
    else Compare(a[1..], b[1..])
  }

  function CompareNames(a: Item, b: Item): int {
    Compare(Lower(a.name), Lower(b.name))
  }

  function CompareSizes(a: Item, b: Item): int {
    if a.size == b.size then CompareNames(a, b) else if a.size < b.size then -1 else 1
  }

  function CompareSizesDown(a: Item, b: Item): int {
    if a.size == b.size then CompareNames(a, b) else if a.size > b.size then -1 else 1
  }

  /** The six comparators: directories come first in all of them. */
  function CompareItems(o: Order, a: Item, b: Item): int {
    if a.directory != b.directory then if a.directory then -1 else 1
    else
      match o
      case NameAsc => CompareNames(a, b)
      case NameDesc => -CompareNames(a, b)
      case MtimeAsc => Compare(a.mtime, b.mtime)
      case MtimeDesc => -Compare(a.mtime, b.mtime)
      case SizeAsc => CompareSizes(a, b)
      case SizeDesc => CompareSizesDown(a, b)
  }

  lemma {:induction false} CompareFacts(a: string, b: string)
    ensures Compare(a, b) == -Compare(b, a) && -1 <= Compare(a, b) <= 1
    ensures Compare(a, b) == 0 <==> a == b
  {
    if a != [] && b != [] && a[0] == b[0] {
      CompareFacts(a[1..], b[1..]);
      assert a == [a[0]] + a[1..] && b == [b[0]] + b[1..];
    }
  }

  lemma {:induction false} CompareTransitive(a: string, b: string, c: string)
    requires Compare(a, b) <= 0 && Compare(b, c) <= 0
    ensures Compare(a, c) <= 0
  {
    if a != [] && b != [] && c != [] && a[0] == b[0] == c[0] {
      CompareTransitive(a[1..], b[1..], c[1..]);
    }
  }

  /** Each comparator is a total preorder that is consistent in both directions and puts directories first. */
  lemma TotalPreorder(o: Order, a: Item, b: Item, c: Item)
    ensures CompareItems(o, a, b) == -CompareItems(o, b, a)
    ensures CompareItems(o, a, b) <= 0 && CompareItems(o, b, c) <= 0 ==> CompareItems(o, a, c) <= 0
    ensures a.directory && !b.directory ==> CompareItems(o, a, b) < 0
  {
    CompareFacts(Lower(a.name), Lower(b.name));
    CompareFacts(Lower(b.name), Lower(c.name));
    CompareFacts(Lower(a.name), Lower(c.name));
    CompareFacts(a.mtime, b.mtime);
    CompareFacts(b.mtime, c.mtime);
    CompareFacts(a.mtime, c.mtime);
    if CompareItems(o, a, b) <= 0 && CompareItems(o, b, c) <= 0 && a.directory == b.directory == c.directory {
      match o
      case NameAsc => CompareTransitive(Lower(a.name), Lower(b.name), Lower(c.name));
      case NameDesc => CompareTransitive(Lower(c.name), Lower(b.name), Lower(a.name));
      case MtimeAsc => CompareTransitive(a.mtime, b.mtime, c.mtime);
      case MtimeDesc => CompareTransitive(c.mtime, b.mtime, a.mtime);
      case SizeAsc | SizeDesc =>
        if a.size == b.size == c.size {
          CompareTransitive(Lower(a.name), Lower(b.name), Lower(c.name));
        }
    }
  }

  // ---------------------------------------------------------------------------
  // Pages
  // ---------------------------------------------------------------------------

  const DEFAULT_PAGE := 100
  const MAX_PAGE := 250

  function PageSize(requested: nat): (size: nat)
    ensures 1 <= size <= MAX_PAGE
  {
    if requested == 0 then DEFAULT_PAGE else if requested > MAX_PAGE then MAX_PAGE else requested
  }

  function PageCount(total: nat, size: nat): (pages: nat)
    requires size > 0
    ensures pages >= 1
  {
    var pages := (total + size - 1) / size;
    if pages == 0 then 1 else pages
  }

  function Min(a: nat, b: nat): nat {
    if a < b then a else b
  }

  /** Up to `size` items from `offset` on. */
  function Window<T>(list: seq<T>, offset: nat, size: nat): seq<T> {
    list[Min(offset, |list|)..Min(offset + size, |list|)]
  }

  /** Where page `k` ends: after `k` times `size` items, as far as there are any. */
  function End(size: nat, total: nat, k: nat): (b: nat)
    ensures b <= total
  {
    if k == 0 then 0 else Min(End(size, total, k - 1) + size, total)
  }

  lemma {:induction false} EndIs(size: nat, total: nat, k: nat)
    ensures End(size, total, k) == Min(k * size, total)
  {
    if k > 0 {
      EndIs(size, total, k - 1);
      assert k * size == (k - 1) * size + size;
    }
  }

  /** Page `k`, counted from 1, of a list. */
  function PageOf<T>(list: seq<T>, size: nat, k: nat): seq<T>
    requires k >= 1
  {
    list[End(size, |list|, k - 1)..End(size, |list|, k)]
  }

  /** A page is what the code selects by its offset. */
  lemma PageIsWindow<T>(list: seq<T>, size: nat, k: nat)
    requires k >= 1
    ensures PageOf(list, size, k) == Window(list, (k - 1) * size, size)
  {
    EndIs(size, |list|, k - 1);
  }

  datatype Listing = Listing(page: nat, pages: nat, pageSize: nat, total: nat, count: nat,
                             hasPrevious: bool, hasNext: bool)

  /** The end of `syseba_restore_list`: clamping, and the chosen page moved to the front of the sorted array
      in place. */
  method Paginate(items: array<Item>, total: nat, requestedPage: nat, requestedSize: nat) returns (l: Listing)
    requires total <= items.Length
    modifies items
    ensures l.total == total && l.pageSize == PageSize(requestedSize)
    ensures l.pages == PageCount(total, l.pageSize)
    ensures 1 <= l.page <= l.pages && l.hasPrevious == (l.page > 1) && l.hasNext == (l.page < l.pages)
    ensures 1 <= requestedPage <= l.pages ==> l.page == requestedPage
    ensures requestedPage == 0 ==> l.page == 1
    ensures requestedPage > l.pages ==> l.page == l.pages
    ensures l.count <= items.Length && items[..l.count] == PageOf(old(items[..total]), l.pageSize, l.page)
  {
    var page := if requestedPage == 0 then 1 else requestedPage;
    var size := PageSize(requestedSize);
    var pages := PageCount(total, size);
    if page > pages {
      page := pages;
    }
    PageIsWindow(items[..total], size, page);
    var selected := MoveToFront(items, total, (page - 1) * size, size);
    l := Listing(page, pages, size, total, selected, page > 1, page < pages);
  }

  method MoveToFront(items: array<Item>, total: nat, offset: nat, size: nat) returns (selected: nat)
    requires total <= items.Length
    modifies items
    ensures selected <= items.Length && items[..selected] == Window(old(items[..total]), offset, size)
  {
    ghost var all := items[..];
    ghost var list := items[..total];
    var available := if total > offset then total - offset else 0;
    selected := if available > size then size else available;
    if selected > 0 && offset > 0 {
      MoveDown(items, offset, selected);
    }
    assert selected > 0 ==> all[offset..offset + selected] == Window(list, offset, size);
    assert selected == 0 ==> Window(list, offset, size) == [];
  }

  /** `memmove` towards the front. */
  method MoveDown(items: array<Item>, offset: nat, count: nat)
    requires offset + count <= items.Length
    modifies items
    ensures items[..count] == old(items[offset..offset + count])
  {
    for i := 0 to count
      invariant items[..i] == old(items[offset..offset + i])
      invariant forall j :: i <= j < items.Length ==> items[j] == old(items[j])
    {
      items[i] := items[offset + i];
    }
  }

  /** The pages 1 to `n` one after the other. */
  function Pages<T>(list: seq<T>, size: nat, n: nat): seq<T>
    requires size > 0
  {
    if n == 0 then [] else Pages(list, size, n - 1) + PageOf(list, size, n)
  }

  lemma {:induction false} PagesArePrefix<T>(list: seq<T>, size: nat, n: nat)
    requires size > 0
    ensures Pages(list, size, n) == list[..End(size, |list|, n)]
  {
    if n > 0 {
      PagesArePrefix(list, size, n - 1);
    }
  }

  /** For every list and page size the pages concatenate to the whole list. */
  lemma PagesPartition<T>(list: seq<T>, size: nat)
    requires size > 0
    ensures Pages(list, size, PageCount(|list|, size)) == list
  {
    PagesArePrefix(list, size, PageCount(|list|, size));
    LastEnd(size, |list|);
    assert list[..|list|] == list;
  }

  lemma CoveredByPages(total: nat, size: nat)
    requires size > 0
    ensures PageCount(total, size) * size >= total
  {
    var x := total + size - 1;
    assert x == size * (x / size) + x % size;
    assert size * (x / size) == (x / size) * size;
  }

  // ---------------------------------------------------------------------------
  // Pages of separate calls
  // ---------------------------------------------------------------------------

  ghost predicate Sorted(o: Order, list: seq<Item>) {
    forall i, j :: 0 <= i < j < |list| ==> CompareItems(o, list[i], list[j]) <= 0
  }

  /** A result `qsort` may give: the same items, in order. */
  ghost predicate IsSortOf(o: Order, items: multiset<Item>, list: seq<Item>) {
    multiset(list) == items && Sorted(o, list)
  }

  /** Pages 1 to `n`, the `k`-th taken from the `k`-th call. */
  function PagesOfCalls(calls: seq<seq<Item>>, size: nat, n: nat): seq<Item>
    requires size > 0 && n <= |calls|
  {
    if n == 0 then [] else PagesOfCalls(calls, size, n - 1) + PageOf(calls[n - 1], size, n)
  }

  /** One call for each page of a restore area that stands still; every call sorts anew. */
  ghost predicate AreCalls(o: Order, items: multiset<Item>, calls: seq<seq<Item>>, n: nat) {
    |calls| == n && forall k :: 0 <= k < n ==> IsSortOf(o, items, calls[k])
  }

  lemma SortLength(o: Order, items: multiset<Item>, list: seq<Item>)
    requires IsSortOf(o, items, list)
    ensures |list| == |items|
  {
    assert |multiset(list)| == |list|;
  }

  /** Two tied items on both sides of position `b` are the same. */
  ghost predicate NoTieAcross(o: Order, list: seq<Item>, b: nat) {
    forall i, j :: 0 <= i < b <= j < |list| && CompareItems(o, list[i], list[j]) == 0 ==> list[i] == list[j]
  }

  function Drop(list: seq<Item>, k: nat): seq<Item>
    requires k < |list|
  {
    list[..k] + list[k + 1..]
  }

  lemma DropAt(list: seq<Item>, k: nat, i: nat)
    requires k < |list| && i < |list| - 1
    ensures Drop(list, k)[i] == list[if i < k then i else i + 1]
  {
  }

  lemma DropItems(list: seq<Item>, k: nat)
    requires k < |list|
    ensures multiset(list) == multiset(Drop(list, k)) + multiset{list[k]}
  {
    assert list == list[..k] + [list[k]] + list[k + 1..];
  }

  lemma DropSorted(o: Order, items: multiset<Item>, list: seq<Item>, k: nat)
    requires IsSortOf(o, items, list) && k < |list|
    ensures IsSortOf(o, items - multiset{list[k]}, Drop(list, k))
  {
    DropItems(list, k);
    forall i, j | 0 <= i < j < |list| - 1
      ensures CompareItems(o, Drop(list, k)[i], Drop(list, k)[j]) <= 0
    {
      DropAt(list, k, i);
      DropAt(list, k, j);
    }
  }

  lemma DropInFront(list: seq<Item>, b: nat, k: nat)
    requires k < b <= |list|
    ensures multiset(list[..b]) == multiset(Drop(list, k)[..b - 1]) + multiset{list[k]}
  {
    assert list[..b][..k] == list[..k] && list[..b][k + 1..] == list[k + 1..b];
    assert Drop(list, k)[..b - 1] == Drop(list[..b], k);
    DropItems(list[..b], k);
  }

  lemma DropKeepsTies(o: Order, list: seq<Item>, b: nat, k: nat)
    requires NoTieAcross(o, list, b) && k < b <= |list|
    ensures NoTieAcross(o, Drop(list, k), b - 1)
  {
    forall i, j | 0 <= i < b - 1 <= j < |list| - 1 && CompareItems(o, Drop(list, k)[i], Drop(list, k)[j]) == 0
      ensures Drop(list, k)[i] == Drop(list, k)[j]
    {
      DropAt(list, k, i);
      DropAt(list, k, j);
    }
  }

  /** The first item of one sorted list stands in front of `b` in the other, or its equal does. */
  lemma FindFirst(o: Order, items: multiset<Item>, list: seq<Item>, a: seq<Item>, b: nat) returns (k: nat)
    requires IsSortOf(o, items, list) && IsSortOf(o, items, a) && NoTieAcross(o, list, b) && 0 < b <= |list|
    ensures a != [] && k < b && list[k] == a[0]
  {
    SortLength(o, items, list);
    SortLength(o, items, a);
    assert a[0] in multiset(a);
    assert a[0] in multiset(list);
    var i :| 0 <= i < |list| && list[i] == a[0];
    if i < b {
      k := i;
    } else {
      FirstIsLeast(o, items, list, a[0]);
      assert list[0] in multiset(list);
      FirstIsLeast(o, items, a, list[0]);
      TotalPreorder(o, a[0], list[0], a[0]);
      k := 0;
    }
  }

  lemma FirstIsLeast(o: Order, items: multiset<Item>, list: seq<Item>, x: Item)
    requires IsSortOf(o, items, list) && x in items
    ensures list != [] && CompareItems(o, list[0], x) <= 0
  {
    assert x in multiset(list);
    var i :| 0 <= i < |list| && list[i] == x;
    TotalPreorder(o, x, x, x);
  }

  /** Where no tie crosses position `b`, every sorted list has the same items in front of it. */
  lemma {:induction false} SameInFront(o: Order, items: multiset<Item>, list: seq<Item>, a: seq<Item>, b: nat)
    requires IsSortOf(o, items, list) && IsSortOf(o, items, a) && NoTieAcross(o, list, b) && b <= |list|
    ensures |a| == |list| && multiset(a[..b]) == multiset(list[..b])
    decreases b
  {
    SortLength(o, items, list);
    SortLength(o, items, a);
    if b == 0 {
      assert a[..b] == [] && list[..b] == [];
    } else {
      var k := FindFirst(o, items, list, a, b);
      DropSorted(o, items, list, k);
      DropSorted(o, items, a, 0);
      DropKeepsTies(o, list, b, k);
      SameInFront(o, items - multiset{a[0]}, Drop(list, k), Drop(a, 0), b - 1);
      DropInFront(list, b, k);
      DropInFront(a, b, 0);
    }
  }

  lemma LastEnd(size: nat, total: nat)
    requires size > 0
    ensures End(size, total, PageCount(total, size)) == total
  {
    CoveredByPages(total, size);
    EndIs(size, total, PageCount(total, size));
  }

  /** No page boundary separates two different items that tie. */
  ghost predicate TiesStayTogether(o: Order, list: seq<Item>, size: nat) {
    forall k: nat :: TogetherAt(o, list, size, k)
  }

  ghost predicate TogetherAt(o: Order, list: seq<Item>, size: nat, k: nat) {
    NoTieAcross(o, list, End(size, |list|, k))
  }

  lemma InBetween(a: seq<Item>, lo: nat, hi: nat)
    requires lo <= hi <= |a|
    ensures multiset(a[..hi]) == multiset(a[..lo]) + multiset(a[lo..hi])
  {
    assert a[..hi] == a[..lo] + a[lo..hi];
  }

  /** The items of a page are the same whichever way the list was sorted. */
  lemma SamePage(o: Order, items: multiset<Item>, list: seq<Item>, a: seq<Item>, size: nat, n: nat)
    requires size > 0 && n > 0 && IsSortOf(o, items, list) && IsSortOf(o, items, a)
    requires TiesStayTogether(o, list, size)
    ensures multiset(list[..End(size, |list|, n)])
            == multiset(list[..End(size, |list|, n - 1)]) + multiset(PageOf(a, size, n))
  {
    var lo, hi := End(size, |list|, n - 1), End(size, |list|, n);
    assert TogetherAt(o, list, size, n - 1) && TogetherAt(o, list, size, n);
    SameInFront(o, items, list, a, lo);
    SameInFront(o, items, list, a, hi);
    InBetween(a, lo, hi);
  }

  /** Call `k` shows the items that page `k` of `list` has. */
  ghost predicate CallMatches(list: seq<Item>, calls: seq<seq<Item>>, size: nat, k: nat)
    requires 1 <= k <= |calls|
  {
    multiset(list[..End(size, |list|, k)])
    == multiset(list[..End(size, |list|, k - 1)]) + multiset(PageOf(calls[k - 1], size, k))
  }

  lemma {:induction false} CallsShowThePrefix(list: seq<Item>, calls: seq<seq<Item>>, size: nat, n: nat)
    requires size > 0 && n <= |calls| && forall k :: 1 <= k <= |calls| ==> CallMatches(list, calls, size, k)
    ensures multiset(PagesOfCalls(calls, size, n)) == multiset(list[..End(size, |list|, n)])
  {
    if n > 0 {
      CallsShowThePrefix(list, calls, size, n - 1);
      NextShown(calls, size, n);
      assert CallMatches(list, calls, size, n);
    }
  }

  /** Every choice of sorted lists shows every item exactly once. */
  ghost predicate AlwaysComplete(o: Order, items: multiset<Item>, size: nat, n: nat)
    requires size > 0
  {
    forall calls | AreCalls(o, items, calls, n) :: multiset(PagesOfCalls(calls, size, n)) == items
  }

  lemma CompleteWithoutTies(o: Order, items: multiset<Item>, size: nat, list: seq<Item>)
    requires size > 0 && IsSortOf(o, items, list) && TiesStayTogether(o, list, size)
    ensures AlwaysComplete(o, items, size, PageCount(|list|, size))
  {
    var n := PageCount(|list|, size);
    LastEnd(size, |list|);
    assert list[..|list|] == list;
    forall calls | AreCalls(o, items, calls, n)
      ensures multiset(PagesOfCalls(calls, size, n)) == items
    {
      forall k | 1 <= k <= n
        ensures CallMatches(list, calls, size, k)
      {
        SamePage(o, items, list, calls[k - 1], size, k);
      }
      CallsShowThePrefix(list, calls, size, n);
    }
  }

  // ---------------------------------------------------------------------------
  // A tie across a boundary
  // ---------------------------------------------------------------------------

  function Swapped(list: seq<Item>, i: nat, j: nat): seq<Item>
    requires i < j < |list|
  {
    list[i := list[j]][j := list[i]]
  }

  lemma TiedBetween(o: Order, items: multiset<Item>, list: seq<Item>, i: nat, j: nat, k: nat)
    requires IsSortOf(o, items, list) && i < j < |list| && k < |list|
    requires CompareItems(o, list[i], list[j]) == 0
    ensures k < j ==> CompareItems(o, list[k], list[i]) <= 0
    ensures i < k ==> CompareItems(o, list[j], list[k]) <= 0
  {
    TotalPreorder(o, list[k], list[j], list[i]);
    TotalPreorder(o, list[i], list[j], list[i]);
    TotalPreorder(o, list[j], list[i], list[k]);
    TotalPreorder(o, list[i], list[i], list[i]);
    TotalPreorder(o, list[j], list[j], list[j]);
  }

  /** Swapping two tied items gives another sorted list. */
  lemma SwapSorted(o: Order, items: multiset<Item>, list: seq<Item>, i: nat, j: nat)
    requires IsSortOf(o, items, list) && i < j < |list| && CompareItems(o, list[i], list[j]) == 0
    ensures IsSortOf(o, items, Swapped(list, i, j))
  {
    var a := Swapped(list, i, j);
    assert multiset(a) == multiset(list);
    TotalPreorder(o, list[i], list[j], list[i]);
    forall x, y | 0 <= x < y < |a|
      ensures CompareItems(o, a[x], a[y]) <= 0
    {
      TiedBetween(o, items, list, i, j, x);
      TiedBetween(o, items, list, i, j, y);
    }
  }

  /** The first `k` calls sorted one way and the others another way. */
  function TwoSorts(list: seq<Item>, other: seq<Item>, k: nat, n: nat): (calls: seq<seq<Item>>)
    ensures |calls| == n && forall c :: 0 <= c < n ==> calls[c] == if c < k then list else other
  {
    seq(n, c => if c < k then list else other)
  }

  /** A page continues a slice of the list that ends where the page begins. */
  lemma NextSlice(front: seq<Item>, list: seq<Item>, from: nat, size: nat, n: nat)
    requires n > 0 && from <= End(size, |list|, n - 1)
    ensures End(size, |list|, n - 1) <= End(size, |list|, n)
    ensures front + list[from..End(size, |list|, n - 1)] + PageOf(list, size, n)
            == front + list[from..End(size, |list|, n)]
  {
  }

  lemma NextShown(calls: seq<seq<Item>>, size: nat, n: nat)
    requires size > 0 && 0 < n <= |calls|
    ensures PagesOfCalls(calls, size, n) == PagesOfCalls(calls, size, n - 1) + PageOf(calls[n - 1], size, n)
  {
  }

  lemma {:induction false} FirstSortShows(list: seq<Item>, other: seq<Item>, size: nat, k: nat, n: nat, m: nat)
    requires size > 0 && m <= k && m <= n
    ensures PagesOfCalls(TwoSorts(list, other, k, n), size, m) == [] + list[0..End(size, |list|, m)]
  {
    if m > 0 {
      FirstSortShows(list, other, size, k, n, m - 1);
      NextShown(TwoSorts(list, other, k, n), size, m);
      NextSlice([], list, 0, size, m);
    }
  }

  lemma NextOfTwo(list: seq<Item>, other: seq<Item>, size: nat, k: nat, n: nat, m: nat, b: nat)
    requires size > 0 && |list| == |other| && k < m <= n && b <= End(size, |list|, m - 1) && b <= |list|
    requires PagesOfCalls(TwoSorts(list, other, k, n), size, m - 1) == list[..b] + other[b..End(size, |list|, m - 1)]
    ensures b <= End(size, |list|, m)
    ensures PagesOfCalls(TwoSorts(list, other, k, n), size, m) == list[..b] + other[b..End(size, |list|, m)]
  {
    NextShown(TwoSorts(list, other, k, n), size, m);
    NextSlice(list[..b], other, b, size, m);
  }

  lemma {:induction false} SecondSortShows(list: seq<Item>, other: seq<Item>, size: nat, k: nat, n: nat, m: nat,
                                           b: nat)
    requires size > 0 && |list| == |other| && k <= m <= n && b == End(size, |list|, k)
    ensures b <= End(size, |list|, m)
    ensures PagesOfCalls(TwoSorts(list, other, k, n), size, m) == list[..b] + other[b..End(size, |list|, m)]
  {
    if m == k {
      FirstSortShows(list, other, size, k, n, m);
    } else {
      SecondSortShows(list, other, size, k, n, m - 1, b);
      NextOfTwo(list, other, size, k, n, m, b);
    }
  }

  lemma {:induction false} LaterEnd(size: nat, total: nat, k: nat, n: nat)
    requires k <= n
    ensures End(size, total, k) <= End(size, total, n)
  {
    if k < n {
      LaterEnd(size, total, k, n - 1);
    }
  }

  lemma ReplacedItem(list: seq<Item>, j: nat, x: Item)
    requires j < |list| && list[j] != x
    ensures multiset(list[j := x]) != multiset(list)
  {
    assert multiset(list[j := x])[list[j]] == multiset(list)[list[j]] - 1;
  }

  /** What is shown when the lists before and after the boundary differ by a swap across it: one item twice. */
  lemma SwapShowsTwice(list: seq<Item>, other: seq<Item>, size: nat, k: nat, n: nat, i: nat, j: nat)
    requires size > 0 && i < End(size, |list|, k) <= j < |list| && list[i] != list[j]
    requires other == Swapped(list, i, j) && n == PageCount(|list|, size)
    ensures multiset(PagesOfCalls(TwoSorts(list, other, k, n), size, n)) != multiset(list)
  {
    LastEnd(size, |list|);
    if n <= k {
      LaterEnd(size, |list|, n, k);
    }
    SecondSortShows(list, other, size, k, n, n, End(size, |list|, k));
    SwapAcross(list, End(size, |list|, k), i, j);
    ReplacedItem(list, j, list[i]);
  }

  lemma SwapAcross(list: seq<Item>, b: nat, i: nat, j: nat)
    requires i < b <= j < |list|
    ensures list[..b] + Swapped(list, i, j)[b..|list|] == list[j := list[i]]
  {
  }

  lemma IncompleteWithTie(o: Order, items: multiset<Item>, size: nat, list: seq<Item>, k: nat)
    requires size > 0 && IsSortOf(o, items, list) && !NoTieAcross(o, list, End(size, |list|, k))
    ensures !AlwaysComplete(o, items, size, PageCount(|list|, size))
  {
    var n := PageCount(|list|, size);
    var i, j := TieAcross(o, list, End(size, |list|, k));
    var other := Swapped(list, i, j);
    SwapSorted(o, items, list, i, j);
    TwoSortsAreCalls(o, items, list, other, k, n);
    SwapShowsTwice(list, other, size, k, n, i, j);
    NotAlwaysComplete(o, items, size, n, TwoSorts(list, other, k, n));
  }

  lemma TwoSortsAreCalls(o: Order, items: multiset<Item>, list: seq<Item>, other: seq<Item>, k: nat, n: nat)
    requires IsSortOf(o, items, list) && IsSortOf(o, items, other)
    ensures AreCalls(o, items, TwoSorts(list, other, k, n), n)
  {
  }

  lemma TieAcross(o: Order, list: seq<Item>, b: nat) returns (i: nat, j: nat)
    requires !NoTieAcross(o, list, b)
    ensures i < b <= j < |list| && CompareItems(o, list[i], list[j]) == 0 && list[i] != list[j]
  {
    i, j :| 0 <= i < b <= j < |list| && CompareItems(o, list[i], list[j]) == 0 && list[i] != list[j];
  }

  lemma NotAlwaysComplete(o: Order, items: multiset<Item>, size: nat, n: nat, calls: seq<seq<Item>>)
    requires size > 0 && AreCalls(o, items, calls, n) && multiset(PagesOfCalls(calls, size, n)) != items
    ensures !AlwaysComplete(o, items, size, n)
  {
  }

  /** Paging through a restore area that stands still, one call per page, shows every item exactly once whichever way
      each call sorts, if and only if no page boundary separates two different items that tie. */
  lemma SeparateCallsIff(o: Order, items: multiset<Item>, size: nat, list: seq<Item>)
    requires size > 0 && IsSortOf(o, items, list)
    ensures AlwaysComplete(o, items, size, PageCount(|list|, size)) <==> TiesStayTogether(o, list, size)
  {
    if TiesStayTogether(o, list, size) {
      CompleteWithoutTies(o, items, size, list);
    } else {
      var k: nat :| !TogetherAt(o, list, size, k);
      IncompleteWithTie(o, items, size, list, k);
    }
  }

  // ---------------------------------------------------------------------------
  // The order of the items
  // ---------------------------------------------------------------------------

  /** No two different items are equal for the comparator. */
  ghost predicate NoTies(o: Order, items: multiset<Item>) {
    forall a, b :: a in items && b in items && a != b ==> CompareItems(o, a, b) != 0
  }

  lemma NoTiesAcrossAny(o: Order, items: multiset<Item>, list: seq<Item>, b: nat)
    requires IsSortOf(o, items, list) && NoTies(o, items)
    ensures NoTieAcross(o, list, b)
  {
    forall i, j | 0 <= i < b <= j < |list| && CompareItems(o, list[i], list[j]) == 0
      ensures list[i] == list[j]
    {
      assert list[i] in multiset(list) && list[j] in multiset(list);
    }
  }

  lemma OneMore(list: seq<Item>, a: seq<Item>, k: nat)
    requires k < |list| == |a| && multiset(a[..k]) == multiset(list[..k])
    requires multiset(a[..k + 1]) == multiset(list[..k + 1])
    ensures a[k] == list[k]
  {
    assert a[..k + 1] == a[..k] + [a[k]] && list[..k + 1] == list[..k] + [list[k]];
    var front := multiset(list[..k]);
    assert (front + multiset{a[k]})[a[k]] == (front + multiset{list[k]})[a[k]];
  }

  /** There is only one sorted list, so that every call pages through the same list, if and only if no two different
      items tie. */
  lemma SortIsUniqueIff(o: Order, items: multiset<Item>, list: seq<Item>)
    requires IsSortOf(o, items, list)
    ensures (forall a :: IsSortOf(o, items, a) ==> a == list) <==> NoTies(o, items)
  {
    if NoTies(o, items) {
      forall a | IsSortOf(o, items, a)
        ensures a == list
      {
        SortIsUnique(o, items, list, a);
      }
    } else {
      var x, y :| x in items && y in items && x != y && CompareItems(o, x, y) == 0;
      var i, j := TiedPositions(o, list, x, y);
      SwapSorted(o, items, list, i, j);
      assert Swapped(list, i, j)[i] != list[i];
    }
  }

  lemma TiedPositions(o: Order, list: seq<Item>, x: Item, y: Item) returns (i: nat, j: nat)
    requires x in multiset(list) && y in multiset(list) && x != y && CompareItems(o, x, y) == 0
    ensures i < j < |list| && CompareItems(o, list[i], list[j]) == 0 && list[i] != list[j]
  {
    var k :| 0 <= k < |list| && list[k] == x;
    var l :| 0 <= l < |list| && list[l] == y;
    TotalPreorder(o, x, y, x);
    i, j := if k < l then k else l, if k < l then l else k;
  }

  lemma SortIsUnique(o: Order, items: multiset<Item>, list: seq<Item>, a: seq<Item>)
    requires IsSortOf(o, items, list) && IsSortOf(o, items, a) && NoTies(o, items)
    ensures a == list
  {
    SortLength(o, items, list);
    SortLength(o, items, a);
    forall k | 0 <= k < |list|
      ensures a[k] == list[k]
    {
      NoTiesAcrossAny(o, items, list, k);
      NoTiesAcrossAny(o, items, list, k + 1);
      SameInFront(o, items, list, a, k);
      SameInFront(o, items, list, a, k + 1);
      OneMore(list, a, k);
    }
  }

  /** With a tie across a boundary, two calls may show one item twice and never show the other. */
  lemma TieCanHideAnItem(o: Order, x: Item, y: Item)
    requires x != y && CompareItems(o, x, y) == 0
    ensures IsSortOf(o, multiset{x, y}, [x, y]) && IsSortOf(o, multiset{x, y}, [y, x])
    ensures y !in PageOf([x, y], 1, 1) + PageOf([y, x], 1, 2)
  {
    TotalPreorder(o, x, y, x);
    assert PageOf([x, y], 1, 1) == [x] && PageOf([y, x], 1, 2) == [x];
  }

  // ---------------------------------------------------------------------------
  // What comes first
  // ---------------------------------------------------------------------------

  /** `a` is a proper beginning of `b`, or has the smaller character where they first differ. */
  ghost predicate LexLess(a: string, b: string) {
    exists k: nat :: LessAt(a, b, k)
  }

  predicate LessAt(a: string, b: string, k: nat) {
    k <= |a| && k < |b| && a[..k] == b[..k] && (k == |a| || a[k] < b[k])
  }

  lemma {:induction false} CompareIsLexicographic(a: string, b: string)
    ensures Compare(a, b) < 0 <==> LexLess(a, b)
    decreases |a|
  {
    if a == [] {
      if b != [] {
        assert LessAt(a, b, 0);
      }
    } else if b != [] && a[0] == b[0] {
      CompareIsLexicographic(a[1..], b[1..]);
      if LexLess(a[1..], b[1..]) {
        var k: nat :| LessAt(a[1..], b[1..], k);
        assert a[..k + 1] == [a[0]] + a[1..][..k] && b[..k + 1] == [b[0]] + b[1..][..k];
        assert LessAt(a, b, k + 1);
      }
      if LexLess(a, b) {
        var k: nat :| LessAt(a, b, k);
        assert k > 0;
        assert a[1..][..k - 1] == a[..k][1..] && b[1..][..k - 1] == b[..k][1..];
        assert LessAt(a[1..], b[1..], k - 1);
      }
    } else if b != [] {
      if a[0] < b[0] {
        assert LessAt(a, b, 0);
      } else {
        forall k: nat ensures !LessAt(a, b, k) {
          assert 0 < k <= |a| && k <= |b| ==> a[..k][0] == a[0] && b[..k][0] == b[0];
        }
      }
    }
  }

  /** What each order puts first among two items of one kind, told from their fields; directories come before files. */
  lemma OrderMeans(o: Order, a: Item, b: Item)
    ensures a.directory && !b.directory ==> CompareItems(o, a, b) < 0
    ensures a.directory == b.directory ==>
              (CompareItems(o, a, b) < 0 <==>
                 match o
                 case NameAsc => LexLess(Lower(a.name), Lower(b.name))
                 case NameDesc => LexLess(Lower(b.name), Lower(a.name))
                 case MtimeAsc => LexLess(a.mtime, b.mtime)
                 case MtimeDesc => LexLess(b.mtime, a.mtime)
                 case SizeAsc => a.size < b.size || (a.size == b.size && LexLess(Lower(a.name), Lower(b.name)))
                 case SizeDesc => a.size > b.size || (a.size == b.size && LexLess(Lower(a.name), Lower(b.name))))
  {
    CompareIsLexicographic(Lower(a.name), Lower(b.name));
    CompareIsLexicographic(Lower(b.name), Lower(a.name));
    CompareIsLexicographic(a.mtime, b.mtime);
    CompareIsLexicographic(b.mtime, a.mtime);
    CompareFacts(Lower(a.name), Lower(b.name));
    CompareFacts(a.mtime, b.mtime);
  }

  /** A page has 100 items unless asked otherwise, and 250 at most. */
  lemma PageSizes(requested: nat)
    ensures PageSize(0) == 100 && (1 <= requested <= 250 ==> PageSize(requested) == requested)
    ensures requested > 250 ==> PageSize(requested) == 250
  {
  }

  /** There are as many pages as it takes, and at least one. */
  lemma PagesNeeded(total: nat, size: nat)
    requires size > 0
    ensures var pages := PageCount(total, size);
            pages * size >= total && pages >= 1 && (pages > 1 ==> (pages - 1) * size < total)
  {
    CoveredByPages(total, size);
    var x := total + size - 1;
    var q := x / size;
    QuotientFits(x, size);
    assert (q - 1) * size == q * size - size;
  }

  lemma QuotientFits(x: nat, size: nat)
    requires size > 0
    ensures (x / size) * size <= x
  {
    assert x == size * (x / size) + x % size;
    assert size * (x / size) == (x / size) * size;
  }
}

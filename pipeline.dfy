/**
 * The record view pipeline of the dashboard: the search filter, the sort
 * of a copy of the filtered records, the page slice, the page count and
 * the window of page-number buttons.
 */
module ViewPipeline {
  import opened Wrappers
  import opened Text
  import opened Records

  // ---------------------------------------------------------------- filter

  /** What the filter callback does with one record. */
  datatype Probe = Keep | Drop | NoPhone

  /**
   * The filter callback: `name`, then `email`, then `phone` is lower-cased
   * and searched for the lower-cased term, stopping at the first hit. When
   * neither name nor email contains the term and the record has no phone,
   * `record.phone.toLowerCase()` throws (`NoPhone`).
   */
  function ProbeRecord(r: Record, term: string): (p: Probe)
    ensures p == Keep <==> Matches(r, term)
    ensures p == NoPhone <==>
      !ContainsIgnoringCase(r.name, term) && !ContainsIgnoringCase(r.email, term) && r.phone.None?
  {
    var t := Lower(term);
    if Includes(Lower(r.name), t) then Keep
    else if Includes(Lower(r.email), t) then Keep
    else match r.phone
      case None => NoPhone
      case Some(p) => if Includes(Lower(p), t) then Keep else Drop
  }

  /** `term` occurs in `s` when both are lower-cased. */
  ghost predicate ContainsIgnoringCase(s: string, term: string) {
    exists i :: OccursAt(Lower(s), Lower(term), i)
  }

  /** The record answers the search: the term is in its name, its email or its phone. */
  ghost predicate Matches(r: Record, term: string) {
    ContainsIgnoringCase(r.name, term) || ContainsIgnoringCase(r.email, term) ||
    (r.phone.Some? && ContainsIgnoringCase(r.phone.value, term))
  }

  /** The outcome of `records.filter(...)`: the kept rows, or the index of the record whose missing phone made the callback throw. */
  datatype FilterResult = Filtered(rows: seq<Record>) | PhoneMissing(at: nat)

  /** `xs` is `ys` with some elements left out and the rest in their original order. */
  ghost predicate Subsequence<T>(xs: seq<T>, ys: seq<T>)
    decreases |ys|
  {
    if xs == [] then true
    else if ys == [] then false
    else (xs[0] == ys[0] && Subsequence(xs[1..], ys[1..])) || Subsequence(xs, ys[1..])
  }

  /**
   * `records.filter(callback)`, visiting the records from first to last.
   * It fails exactly when some record's callback throws, and then at the
   * first such record.
   */
  function Filter(records: seq<Record>, term: string): (r: FilterResult)
    ensures r.Filtered? <==> forall i :: 0 <= i < |records| ==> ProbeRecord(records[i], term) != NoPhone
    ensures r.PhoneMissing? ==>
      r.at < |records| && ProbeRecord(records[r.at], term) == NoPhone &&
      forall i :: 0 <= i < r.at ==> ProbeRecord(records[i], term) != NoPhone
  {
    if records == [] then Filtered([])
    else
      var head, tail := records[0], records[1..];
      assert forall i :: 0 < i < |records| ==> records[i] == tail[i - 1];
      var probe := ProbeRecord(head, term);
      if probe == NoPhone then PhoneMissing(0)
      else
        match Filter(tail, term)
        case PhoneMissing(i) => PhoneMissing(i + 1)
        case Filtered(rest) => if probe == Keep then Filtered([head] + rest) else Filtered(rest)
  }

  /**
   * When the filter does not throw, its rows are a subsequence of the
   * records that holds every copy of each matching record and nothing
   * else: the matching records in their original order.
   */
  lemma {:induction false} FilterRows(records: seq<Record>, term: string)
    requires Filter(records, term).Filtered?
    ensures Subsequence(Filter(records, term).rows, records)
    ensures forall x ::
      multiset(Filter(records, term).rows)[x] == if Matches(x, term) then multiset(records)[x] else 0
  {
    if records != [] {
      var head := records[0];
      var rows := Filter(records, term).rows;
      var rest := Filter(records[1..], term).rows;
      FilterRows(records[1..], term);
      assert records == [head] + records[1..];
      if ProbeRecord(head, term) == Keep {
        assert rows == [head] + rest && rows[1..] == rest;
      } else {
        assert rows == rest;
      }
    }
  }

  /** Every kept row matches the search and every matching record is kept. */
  lemma FilterKeepsExactlyMatches(records: seq<Record>, term: string, x: Record)
    requires Filter(records, term).Filtered?
    ensures x in Filter(records, term).rows <==> x in records && Matches(x, term)
  {
    FilterRows(records, term);
  }

  /** An empty search term keeps every record, in order, and never reaches a phone. */
  lemma {:induction false} EmptyTermKeepsAll(records: seq<Record>)
    ensures Filter(records, "") == Filtered(records)
  {
    if records != [] {
      EmptyIncluded(Lower(records[0].name));
      EmptyTermKeepsAll(records[1..]);
      assert [records[0]] + records[1..] == records;
    }
  }

  // ------------------------------------------------------------------ sort

  /** Every record stands in comparator order with every record after it. */
  predicate Sorted(s: seq<Record>, key: SortKey, dir: Direction) {
    forall i, j :: 0 <= i < j < |s| ==> InOrder(s[i], s[j], key, dir)
  }

  /** Neighbours at positions `k - 1`, `k` for `lo < k < hi` are in comparator order. */
  predicate NeighboursInOrder(s: seq<Record>, lo: int, hi: int, key: SortKey, dir: Direction) {
    forall k :: 0 <= lo < k < hi <= |s| ==> InOrder(s[k - 1], s[k], key, dir)
  }

  /** Order between neighbours is order between all pairs, since the comparator is transitive. */
  lemma {:induction false} NeighboursToSorted(s: seq<Record>, key: SortKey, dir: Direction)
    requires NeighboursInOrder(s, 0, |s|, key, dir)
    ensures Sorted(s, key, dir)
    decreases |s|
  {
    if |s| > 1 {
      var t := s[..|s| - 1];
      assert NeighboursInOrder(t, 0, |t|, key, dir) by {
        forall k | 0 < k < |t| ensures InOrder(t[k - 1], t[k], key, dir) {
          assert t[k - 1] == s[k - 1] && t[k] == s[k];
        }
      }
      NeighboursToSorted(t, key, dir);
      forall i, j | 0 <= i < j < |s| ensures InOrder(s[i], s[j], key, dir) {
        if j < |s| - 1 {
          assert t[i] == s[i] && t[j] == s[j];
        } else if i < j - 1 {
          assert t[i] == s[i] && t[j - 1] == s[j - 1];
          InOrderTransitive(s[i], s[j - 1], s[j], key, dir);
        }
      }
    }
  }

  /** The records of `s` whose value in column `key` equals that of `x`, in their order in `s`. */
  function KeyGroup(s: seq<Record>, key: SortKey, x: Record): seq<Record> {
    if s == [] then []
    else (if SameKey(s[0], x, key) then [s[0]] else []) + KeyGroup(s[1..], key, x)
  }

  /**
   * The sort is stable: records with equal values in the sort column come
   * out in the order they came in.
   */
  ghost predicate Stable(sorted: seq<Record>, input: seq<Record>, key: SortKey) {
    forall x :: KeyGroup(sorted, key, x) == KeyGroup(input, key, x)
  }

  lemma {:induction false} KeyGroupConcat(s: seq<Record>, t: seq<Record>, key: SortKey, x: Record)
    ensures KeyGroup(s + t, key, x) == KeyGroup(s, key, x) + KeyGroup(t, key, x)
  {
    if s == [] {
      assert s + t == t;
    } else {
      assert (s + t)[0] == s[0] && (s + t)[1..] == s[1..] + t;
      KeyGroupConcat(s[1..], t, key, x);
      assert KeyGroup(s + t, key, x)
          == (if SameKey(s[0], x, key) then [s[0]] else []) + KeyGroup(s[1..] + t, key, x);
    }
  }

  /** Exchanging two neighbours with different values in the sort column changes no key group. */
  lemma SwapKeepsKeyGroups(before: seq<Record>, after: seq<Record>, j: int, key: SortKey)
    requires 0 < j < |before|
    requires after == before[j - 1 := before[j]][j := before[j - 1]]
    requires !SameKey(before[j - 1], before[j], key)
    ensures Stable(after, before, key)
  {
    var left, right := before[..j - 1], before[j + 1..];
    var y, z := before[j - 1], before[j];
    assert before == (left + [y, z]) + right;
    assert after == (left + [z, y]) + right;
    forall x ensures KeyGroup(after, key, x) == KeyGroup(before, key, x) {
      KeyGroupConcat(left + [y, z], right, key, x);
      KeyGroupConcat(left + [z, y], right, key, x);
      KeyGroupConcat(left, [y, z], key, x);
      KeyGroupConcat(left, [z, y], key, x);
      PairKeyGroup(y, z, key, x);
    }
  }

  /** Two records with different keys give the same key group in either order. */
  lemma PairKeyGroup(y: Record, z: Record, key: SortKey, x: Record)
    requires !SameKey(y, z, key)
    ensures KeyGroup([y, z], key, x) == KeyGroup([z, y], key, x)
  {
    assert [y, z][1..] == [z] && [z, y][1..] == [y];
    assert [z][1..] == [] && [y][1..] == [];
  }

  /**
   * `sortedRecords.sort(comparator)` on the copied array: an insertion
   * sort that moves each record left past the records the comparator puts
   * after it. The array ends sorted, holds the same records, and keeps
   * records with equal keys in their original order.
   */
  method SortInPlace(a: array<Record>, key: SortKey, dir: Direction)
    modifies a
    ensures Sorted(a[..], key, dir)
    ensures multiset(a[..]) == multiset(old(a[..]))
    ensures Stable(a[..], old(a[..]), key)
  {
    var i := 0;
    while i < a.Length
      invariant 0 <= i <= a.Length
      invariant NeighboursInOrder(a[..], 0, i, key, dir)
      invariant multiset(a[..]) == multiset(old(a[..]))
      invariant Stable(a[..], old(a[..]), key)
    {
      InsertLeft(a, i, key, dir);
      i := i + 1;
    }
    NeighboursToSorted(a[..], key, dir);
  }

  /** One pass of the insertion sort: `a[i]` moves left into the ordered prefix `a[..i]`. */
  method InsertLeft(a: array<Record>, i: int, key: SortKey, dir: Direction)
    requires 0 <= i < a.Length
    requires NeighboursInOrder(a[..], 0, i, key, dir)
    modifies a
    ensures NeighboursInOrder(a[..], 0, i + 1, key, dir)
    ensures multiset(a[..]) == multiset(old(a[..]))
    ensures Stable(a[..], old(a[..]), key)
    ensures a[i + 1..] == old(a[i + 1..])
  {
    var j := i;
    while j > 0 && !InOrder(a[j - 1], a[j], key, dir)
      invariant 0 <= j <= i
      invariant NeighboursInOrder(a[..], 0, j, key, dir)
      invariant NeighboursInOrder(a[..], j, i + 1, key, dir)
      invariant 0 < j < i ==> InOrder(a[j - 1], a[j + 1], key, dir)
      invariant multiset(a[..]) == multiset(old(a[..]))
      invariant Stable(a[..], old(a[..]), key)
      invariant a[i + 1..] == old(a[i + 1..])
    {
      ghost var before := a[..];
      InOrderSwap(before[j - 1], before[j], key, dir);
      Trichotomy(before[j - 1], before[j], key);
      SwapNeighbours(a, j);
      SwapKeepsOrder(before, a[..], j, i, key, dir);
      SwapKeepsKeyGroups(before, a[..], j, key);
      j := j - 1;
    }
  }

  /** Exchanges `a[j - 1]` and `a[j]`. */
  method SwapNeighbours(a: array<Record>, j: int)
    requires 0 < j < a.Length
    modifies a
    ensures a[..] == old(a[..])[j - 1 := old(a[j])][j := old(a[j - 1])]
    ensures multiset(a[..]) == multiset(old(a[..]))
  {
    a[j - 1], a[j] := a[j], a[j - 1];
  }

  /** The invariant of the insertion pass survives moving the inserted record one place left. */
  lemma SwapKeepsOrder(before: seq<Record>, after: seq<Record>, j: int, i: int, key: SortKey, dir: Direction)
    requires 0 < j <= i < |before|
    requires after == before[j - 1 := before[j]][j := before[j - 1]]
    requires NeighboursInOrder(before, 0, j, key, dir)
    requires NeighboursInOrder(before, j, i + 1, key, dir)
    requires 0 < j < i ==> InOrder(before[j - 1], before[j + 1], key, dir)
    requires InOrder(before[j], before[j - 1], key, dir)
    ensures NeighboursInOrder(after, 0, j - 1, key, dir)
    ensures NeighboursInOrder(after, j - 1, i + 1, key, dir)
    ensures 0 < j - 1 < i ==> InOrder(after[j - 2], after[j], key, dir)
  {
  }

  /**
   * `let sortedRecords = [...filteredRecords]`, sorted in place when the
   * configuration holds both a key and a direction. Without them the rows
   * keep the filtered order; with them they are a sorted permutation in
   * which records with equal keys keep their filtered order.
   */
  method SortedRecords(filtered: seq<Record>, config: SortConfig) returns (sorted: seq<Record>)
    ensures config.key.None? || config.direction.None? ==> sorted == filtered
    ensures config.key.Some? && config.direction.Some? ==>
      Sorted(sorted, config.key.value, config.direction.value) &&
      multiset(sorted) == multiset(filtered) &&
      Stable(sorted, filtered, config.key.value)
  {
    var a := new Record[|filtered|](i requires 0 <= i < |filtered| => filtered[i]);
    assert a[..] == filtered;
    if config.key.Some? && config.direction.Some? {
      SortInPlace(a, config.key.value, config.direction.value);
    }
    sorted := a[..];
  }

  /** Ascending output is non-decreasing on the key, descending output non-increasing. */
  lemma SortedMeaning(s: seq<Record>, key: SortKey, dir: Direction, i: int, j: int)
    requires Sorted(s, key, dir) && 0 <= i < j < |s|
    ensures dir == Asc ==> Less(s[i], s[j], key) || SameKey(s[i], s[j], key)
    ensures dir == Desc ==> Less(s[j], s[i], key) || SameKey(s[i], s[j], key)
  {
    InOrderMeaning(s[i], s[j], key, dir);
  }

  // ------------------------------------------------------------ pagination

  /**
   * `Math.ceil(count / perPage)`: the fewest pages of `perPage` rows that
   * hold `count` rows, so 0 when there are no rows.
   */
  function TotalPages(count: nat, perPage: nat): (r: nat)
    requires perPage > 0
    ensures r * perPage >= count
    ensures r > 0 ==> (r - 1) * perPage < count
    ensures r == 0 <==> count == 0
  {
    (count + perPage - 1) / perPage
  }

  /** Where an index passed to `Array.prototype.slice` lands: negative counts from the end, then clamped to `[0, len]`. */
  function SliceIndex(i: int, len: nat): (r: nat)
    ensures r <= len
    ensures 0 <= i ==> r == Min(i, len)
    ensures i < 0 && -i <= len ==> r == len + i
    ensures i < 0 && -i > len ==> r == 0
  {
    if i < 0 then (if len + i < 0 then 0 else len + i)
    else if i > len then len
    else i
  }

  /**
   * `s.slice(start, end)`: never longer than `end - start`, and for
   * indices that are not negative the part of `[start, end)` inside `s`.
   */
  function Slice(s: seq<Record>, start: int, end: int): (r: seq<Record>)
    ensures start <= end ==> |r| <= end - start
    ensures 0 <= start <= end ==> r == s[Min(start, |s|)..Min(end, |s|)]
  {
    var b := SliceIndex(start, |s|);
    var e := SliceIndex(end, |s|);
    if b < e then s[b..e] else []
  }

  /**
   * `currentRecords`: the slice from `indexOfFirstRecord = page * perPage
   * - perPage` to `indexOfLastRecord = page * perPage`. It never holds
   * more than `perPage` rows, and for a page from 1 on it is the window
   * `[(page - 1) * perPage, page * perPage)` cut to the rows that exist.
   */
  function CurrentRecords(sorted: seq<Record>, page: int, perPage: nat): (r: seq<Record>)
    ensures |r| <= perPage
    ensures page >= 1 ==>
      var lo := Min((page - 1) * perPage, |sorted|);
      var hi := Min(page * perPage, |sorted|);
      0 <= lo <= hi && r == sorted[lo..hi]
  {
    var last := page * perPage;
    var first := last - perPage;
    PageIndices(page, perPage);
    Slice(sorted, first, last)
  }

  /** The two ends of page `page`'s window, as `currentRecords` computes them. */
  lemma PageIndices(page: int, perPage: nat)
    ensures page * perPage - perPage == (page - 1) * perPage
    ensures page >= 1 ==> 0 <= (page - 1) * perPage <= page * perPage
  {
    MulStep(page, perPage);
    if page >= 1 {
      MulMonotone(0, page - 1, perPage);
    }
  }

  function Min(a: int, b: int): int {
    if a <= b then a else b
  }

  /** Pages 1 to `k`, one after the other. */
  function PagesUpTo(sorted: seq<Record>, k: nat, perPage: nat): seq<Record> {
    if k == 0 then [] else PagesUpTo(sorted, k - 1, perPage) + CurrentRecords(sorted, k, perPage)
  }

  lemma {:induction false} PagesUpToPrefix(sorted: seq<Record>, k: nat, perPage: nat)
    ensures PagesUpTo(sorted, k, perPage) == sorted[..Min(k * perPage, |sorted|)]
  {
    if k > 0 {
      PagesUpToPrefix(sorted, k - 1, perPage);
      MulMonotone(k - 1, k, perPage);
      MulMonotone(0, k - 1, perPage);
      PrefixThenWindow(sorted, (k - 1) * perPage, k * perPage);
    }
  }

  lemma PrefixThenWindow(s: seq<Record>, a: int, b: int)
    requires 0 <= a <= b
    ensures s[..Min(a, |s|)] + s[Min(a, |s|)..Min(b, |s|)] == s[..Min(b, |s|)]
  {
  }

  /** Pages 1 to `totalPages`, concatenated, give back every sorted row in order. */
  lemma PagesRebuildAll(sorted: seq<Record>, perPage: nat)
    requires perPage > 0
    ensures PagesUpTo(sorted, TotalPages(|sorted|, perPage), perPage) == sorted
  {
    PagesUpToPrefix(sorted, TotalPages(|sorted|, perPage), perPage);
  }

  /** From page 1 on, a page has rows exactly when it is at most `totalPages`; every page but the last is full. */
  lemma PageOccupancy(sorted: seq<Record>, page: int, perPage: nat)
    requires perPage > 0 && page >= 1
    ensures CurrentRecords(sorted, page, perPage) != [] <==> page <= TotalPages(|sorted|, perPage)
    ensures page < TotalPages(|sorted|, perPage) ==> |CurrentRecords(sorted, page, perPage)| == perPage
    ensures page == TotalPages(|sorted|, perPage) ==>
      |CurrentRecords(sorted, page, perPage)| == |sorted| - (page - 1) * perPage
  {
    var t := TotalPages(|sorted|, perPage);
    var lo, hi := (page - 1) * perPage, page * perPage;
    MulStep(page, perPage);
    if page <= t {
      MulMonotone(page - 1, t - 1, perPage);
      PageWindow(sorted, lo, hi);
    } else {
      MulMonotone(t, page - 1, perPage);
      PageWindow(sorted, lo, hi);
    }
    if page < t {
      MulMonotone(page, t - 1, perPage);
    }
  }

  /** The length of a page window in terms of where its ends fall. */
  lemma PageWindow(s: seq<Record>, lo: int, hi: int)
    requires 0 <= lo <= hi
    ensures |s[Min(lo, |s|)..Min(hi, |s|)]| == (if hi <= |s| then hi - lo else if lo <= |s| then |s| - lo else 0)
  {
  }

  lemma MulMonotone(a: int, b: int, n: nat)
    requires a <= b
    ensures a * n <= b * n
  {
  }

  lemma MulStep(a: int, n: int)
    ensures a * n == (a - 1) * n + n
  {
  }

  /** The page buttons are the consecutive pages from `max(1, p - 1)` to `min(totalPages, p + 1)`. */
  predicate ButtonRange(buttons: seq<int>, p: int, totalPages: int) {
    var start := if p - 1 > 1 then p - 1 else 1;
    var end := if totalPages < p + 1 then totalPages else p + 1;
    |buttons| == (if start <= end then end - start + 1 else 0) &&
    forall k :: 0 <= k < |buttons| ==> buttons[k] == start + k
  }

  /**
   * `getPaginationRange()`: pushes the page numbers from `max(1, page - 1)`
   * to `min(totalPages, page + 1)`. At most three buttons, every one a page
   * that exists, and the current page among them whenever it exists.
   */
  method PaginationRange(currentPage: int, totalPages: int) returns (range: seq<int>)
    ensures ButtonRange(range, currentPage, totalPages)
    ensures |range| <= 3
    ensures forall k :: 0 <= k < |range| ==> 1 <= range[k] <= totalPages
    ensures 1 <= currentPage <= totalPages ==> currentPage in range
  {
    range := [];
    var startPage := if currentPage - 1 > 1 then currentPage - 1 else 1;
    var endPage := if totalPages < currentPage + 1 then totalPages else currentPage + 1;
    var i := startPage;
    while i <= endPage
      invariant startPage <= i
      invariant i <= endPage + 1 || range == []
      invariant |range| == i - startPage
      invariant forall k :: 0 <= k < |range| ==> range[k] == startPage + k
    {
      range := range + [i];
      i := i + 1;
    }
    if 1 <= currentPage <= totalPages {
      assert range[currentPage - startPage] == currentPage;
    }
  }

  // ------------------------------------------------------------- the view

  /**
   * One render of the table: the sorted records, the rows of the current
   * page, the page count and the page-number buttons; or the index of the
   * record at which the filter threw.
   */
  datatype View =
    | Shown(sorted: seq<Record>, rows: seq<Record>, totalPages: nat, pageButtons: seq<int>)
    | Crashed(at: nat)

  /**
   * Filter, copy and sort, count the pages, slice the current page and
   * build the page buttons, as one render of the dashboard does.
   */
  method ComputeView(records: seq<Record>, searchTerm: string, config: SortConfig, currentPage: int, perPage: nat)
    returns (v: View)
    requires perPage > 0
    ensures Filter(records, searchTerm).PhoneMissing? ==> v == Crashed(Filter(records, searchTerm).at)
    ensures Filter(records, searchTerm).Filtered? ==> v.Shown?
    ensures v.Shown? ==>
      var filtered := Filter(records, searchTerm).rows;
      (config.key.None? || config.direction.None? ==> v.sorted == filtered) &&
      (config.key.Some? && config.direction.Some? ==>
        Sorted(v.sorted, config.key.value, config.direction.value) &&
        multiset(v.sorted) == multiset(filtered) &&
        Stable(v.sorted, filtered, config.key.value)) &&
      v.totalPages == TotalPages(|filtered|, perPage) &&
      v.rows == CurrentRecords(v.sorted, currentPage, perPage) &&
      ButtonRange(v.pageButtons, currentPage, v.totalPages) &&
      |v.pageButtons| <= 3 &&
      (forall k :: 0 <= k < |v.pageButtons| ==> 1 <= v.pageButtons[k] <= v.totalPages) &&
      (1 <= currentPage <= v.totalPages ==> currentPage in v.pageButtons)
  {
    match Filter(records, searchTerm)
    case PhoneMissing(i) =>
      v := Crashed(i);
    case Filtered(filtered) =>
      var sorted := SortedRecords(filtered, config);
      assert |sorted| == |filtered| by {
        assert |multiset(sorted)| == |multiset(filtered)| || sorted == filtered;
      }
      var totalPages := TotalPages(|sorted|, perPage);
      var rows := CurrentRecords(sorted, currentPage, perPage);
      var buttons := PaginationRange(currentPage, totalPages);
      v := Shown(sorted, rows, totalPages, buttons);
  }
}

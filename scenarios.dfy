/** Concrete cases of the record view pipeline. */
module Scenarios {
  import opened Wrappers
  import opened Text
  import opened Records
  import opened ViewPipeline
  import opened DashboardState

  const Bob := Record(1, 2, "Bob", "b@x.com", "hi", None)
  const Ann := Record(2, 1, "Ann", "a@x.com", "yo", None)

  /**
   * Searching "an" over records fetched without a phone field: Ann's name
   * matches, but Bob's name and email do not, so the callback reads Bob's
   * missing phone and the filter throws at Bob, the first record.
   */
  lemma SearchReachesMissingPhone()
    ensures Filter([Bob, Ann], "an") == PhoneMissing(0)
    ensures Filter([Ann], "an") == Filtered([Ann])
  {
    BobProbe();
    AnnAlone();
  }

  lemma AnnAlone()
    ensures Filter([Ann], "an") == Filtered([Ann])
  {
    AnnProbe();
    assert [Ann][1..] == [];
  }

  lemma BobProbe()
    ensures ProbeRecord(Bob, "an") == NoPhone
  {
    assert Lower("an") == "an";
    assert Lower("Bob") == "bob";
    assert Lower("b@x.com") == "b@x.com";
    NotIncluded("bob", "an");
    NotIncluded("b@x.com", "an");
  }

  /** When `t` starts with a character `s` lacks, `t` does not occur in `s`. */
  lemma NotIncluded(s: string, t: string)
    requires t != [] && t[0] !in s
    ensures !Includes(s, t)
  {
  }

  lemma AnnProbe()
    ensures ProbeRecord(Ann, "an") == Keep
  {
  }

  /** 25 rows, 10 per page: three pages, the last holding 5 rows, and a fourth page empty. */
  lemma TwentyFiveRows(sorted: seq<Record>)
    requires |sorted| == 25
    ensures TotalPages(|sorted|, 10) == 3
    ensures |CurrentRecords(sorted, 3, 10)| == 5
    ensures CurrentRecords(sorted, 4, 10) == []
  {
  }

  /**
   * The sorting scenario: sorted by `postId` ascending, Bob (post 2) and
   * Ann (post 1) come out as Ann, Bob; descending as Bob, Ann.
   */
  lemma SortByPostId(s: seq<Record>, dir: Direction)
    requires multiset(s) == multiset([Bob, Ann]) && Sorted(s, PostId, dir)
    ensures dir == Asc ==> s == [Ann, Bob]
    ensures dir == Desc ==> s == [Bob, Ann]
  {
    assert |s| == |multiset(s)| == 2;
    assert s[0] in multiset(s) && s[1] in multiset(s);
    assert s == [s[0], s[1]];
  }

  /** A client of the dashboard: three clicks on Name come back to unsorted; another column starts ascending. */
  method SortClicks(fetched: seq<Record>)
  {
    var d := new Dashboard(fetched);
    d.RequestSort(Name);
    assert d.sortConfig == SortConfig(Some(Name), Some(Asc));
    d.RequestSort(Name);
    assert d.sortConfig == SortConfig(Some(Name), Some(Desc));
    d.RequestSort(Email);
    assert d.sortConfig == SortConfig(Some(Email), Some(Asc));
    d.RequestSort(Email);
    d.RequestSort(Email);
    assert d.sortConfig == Unsorted;
  }

  /** A client of the dashboard: 25 records, 10 per page; Previous is idle on page 1, Next on page 3. */
  method PagingTwentyFive(fetched: seq<Record>)
    requires |fetched| == 25
  {
    var d := new Dashboard(fetched);
    EmptyTermKeepsAll(fetched);
    assert d.ShownTotalPages() == Some(3);
    d.ClickPrevious();
    assert d.currentPage == 1;
    d.ClickNext(3);
    d.ClickNext(3);
    assert d.currentPage == 3;
    d.ClickNext(3);
    assert d.currentPage == 3;
    d.ChangePageSize(50);
    assert d.currentPage == 1 && d.ShownTotalPages() == Some(1);
  }

  /** A client of the dashboard: the first render of 25 records shows the first ten and the buttons 1 and 2. */
  method RenderTwentyFive(fetched: seq<Record>)
    requires |fetched| == 25
  {
    var d := new Dashboard(fetched);
    EmptyTermKeepsAll(fetched);
    var v := d.Render();
    assert v.sorted == fetched;
    assert v.rows == fetched[..10];
    assert v.pageButtons == [1, 2];
  }

  /** A client of the dashboard: typing "an" over Bob and Ann makes the next render throw at Bob. */
  method SearchCrashes()
  {
    var d := new Dashboard([Bob, Ann]);
    d.ChangeSearch("an");
    SearchReachesMissingPhone();
    var v := d.Render();
    assert v == Crashed(0);
  }
}

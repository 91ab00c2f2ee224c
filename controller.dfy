/** The two list endpoints of the controller: the list request, which runs
    the filtering pass, then the sort, then the page slice, and the count
    request, which runs the filtering pass alone. */
module Controller {
  import opened Entity
  import opened PlayerQuery
  import opened Repository
  import opened PlayerService

  /** The answer to a list request over the records `all`: a failure is a
      NullPointerException of the filter or the sort, or the OutOfRange of
      the page slice; a success needs the filtering pass and the sort to
      succeed, and is never longer than the page size. */
  function ListSpec(all: seq<Player>, c: Criteria, order: Option<PlayerOrder>,
                    pageNumber: Option<int>, pageSize: Option<int>): (r: Result<seq<Player>>)
    ensures r.Err? ==> r.error == NullPointer || r.error == OutOfRange
    ensures r.Ok? ==> Filter(all, c).Ok? && SortSpec(Filter(all, c).value, order).Ok?
    ensures r.Ok? ==> |r.value| <= PageSizeOf(pageSize)
  {
    match Filter(all, c)
    case Err(e) => Err(e)
    case Ok(filtered) =>
      match SortSpec(filtered, order)
      case Err(e) => Err(e)
      case Ok(sorted) => GetPage(sorted, pageNumber, pageSize)
  }

  /** `getAllPlayers` of the controller: filter, sort in place, page. */
  method ListPlayers(repo: PlayerRepository, c: Criteria, order: Option<PlayerOrder>,
                     pageNumber: Option<int>, pageSize: Option<int>) returns (r: Result<seq<Player>>)
    requires repo.Valid()
    ensures r == ListSpec(repo.FindAll(), c, order, pageNumber, pageSize)
  {
    var found := GetAllPlayers(repo, c);
    if found.Err? {
      return Err(found.error);
    }
    var players := found.value;
    FilteredRecords(repo.FindAll(), c);
    var a := new Player[|players|](i requires 0 <= i < |players| => players[i]);
    assert a[..] == players;
    var sorted := SortPlayers(a, order);
    if sorted.Err? {
      return Err(sorted.error);
    }
    SortedIsSortSpec(players, a[..], order);
    r := GetPage(a[..], pageNumber, pageSize);
  }

  /** The filtered records keep their ids and their ascending order, and
      the fields a comparator reads when the records have them. */
  lemma FilteredRecords(all: seq<Player>, c: Criteria)
    requires Filter(all, c).Ok? && HasIds(all) && AscendingIds(all)
    ensures HasIds(Filter(all, c).value) && AscendingIds(Filter(all, c).value)
    ensures AllFilterReady(all) ==> AllFilterReady(Filter(all, c).value)
  {
    var players := Filter(all, c).value;
    FilterSelects(all, c);
    SubsequenceAscending(players, all);
    forall i | 0 <= i < |players|
      ensures players[i].id.Some?
      ensures AllFilterReady(all) ==> FilterReady(players[i])
    {
      assert players[i] in all;
    }
  }

  /** `getCount`: the number of players the filtering pass keeps. */
  method GetCount(repo: PlayerRepository, c: Criteria) returns (r: Result<int>)
    requires repo.Valid()
    ensures r.Ok? <==> Filter(repo.FindAll(), c).Ok?
    ensures r.Ok? ==> r.value == |Filter(repo.FindAll(), c).value|
    ensures r.Err? ==> r.error == NullPointer
  {
    var found := GetAllPlayers(repo, c);
    FilterFails(repo.FindAll(), c);
    if found.Err? {
      return Err(found.error);
    }
    r := Ok(|found.value|);
  }

  /** A list request the filtering pass and the sort let through is the
      page of the sorted filtered list. */
  lemma ListSpecOk(all: seq<Player>, c: Criteria, order: Option<PlayerOrder>,
                   pageNumber: Option<int>, pageSize: Option<int>)
    requires Filter(all, c).Ok? && SortSpec(Filter(all, c).value, order).Ok?
    ensures ListSpec(all, c, order, pageNumber, pageSize) ==
      GetPage(SortSpec(Filter(all, c).value, order).value, pageNumber, pageSize)
  {
  }

  /** Every listed player comes from the records and meets every present
      criterion; a page is never longer than the count for the same
      criteria, nor than the page size (3 when absent). */
  lemma ListedPlayersMatch(all: seq<Player>, c: Criteria, order: Option<PlayerOrder>,
                           pageNumber: Option<int>, pageSize: Option<int>)
    requires ListSpec(all, c, order, pageNumber, pageSize).Ok?
    ensures Filter(all, c).Ok?
    ensures var listed := ListSpec(all, c, order, pageNumber, pageSize).value;
      && (forall x :: x in listed ==> x in all && Matches(x, c))
      && |listed| <= |Filter(all, c).value|
      && |listed| <= PageSizeOf(pageSize)
  {
    var filtered := Filter(all, c).value;
    var sorted := SortSpec(filtered, order).value;
    ListSpecOk(all, c, order, pageNumber, pageSize);
    PageMembers(sorted, pageNumber, pageSize);
    FilterSelects(all, c);
    forall x | x in ListSpec(all, c, order, pageNumber, pageSize).value ensures x in all && Matches(x, c) {
      assert x in multiset(sorted);
    }
  }

  /** A list request fails exactly as its stages do: with the error of the
      filtering pass; else with NullPointer when the sort meets a null
      field; else with OutOfRange when the page start is negative or past
      the filtered count, or the page size is negative. */
  lemma ListFailure(all: seq<Player>, c: Criteria, order: Option<PlayerOrder>,
                    pageNumber: Option<int>, pageSize: Option<int>)
    ensures Filter(all, c).Err? ==> ListSpec(all, c, order, pageNumber, pageSize) == Err(Filter(all, c).error)
    ensures Filter(all, c).Ok? && SortFails(Filter(all, c).value, order) ==>
      ListSpec(all, c, order, pageNumber, pageSize) == Err(NullPointer)
    ensures Filter(all, c).Ok? && !SortFails(Filter(all, c).value, order) ==>
      (ListSpec(all, c, order, pageNumber, pageSize).Err? <==>
        var from := PageStart(pageNumber, pageSize);
        from < 0 || from > |Filter(all, c).value| || PageSizeOf(pageSize) < 0)
    ensures (Filter(all, c).Ok? && !SortFails(Filter(all, c).value, order) &&
             ListSpec(all, c, order, pageNumber, pageSize).Err?) ==>
      ListSpec(all, c, order, pageNumber, pageSize).error == OutOfRange
  {
    if Filter(all, c).Ok? && !SortFails(Filter(all, c).value, order) {
      ListSpecOk(all, c, order, pageNumber, pageSize);
    }
  }

  /** On stored records in ascending id order the list is the same whatever
      the order asked for: the sort by id then leaves the filtered list as
      it is, and the other orders never move anything. */
  lemma AscendingRecordsIgnoreOrder(all: seq<Player>, c: Criteria, o1: Option<PlayerOrder>,
                                    o2: Option<PlayerOrder>, pageNumber: Option<int>, pageSize: Option<int>)
    requires AscendingIds(all) && HasIds(all) && AllFilterReady(all)
    ensures ListSpec(all, c, o1, pageNumber, pageSize) == ListSpec(all, c, o2, pageNumber, pageSize)
  {
    if Filter(all, c).Ok? {
      FilteredRecords(all, c);
      SortSpecAscending(Filter(all, c).value, o1);
      SortSpecAscending(Filter(all, c).value, o2);
      ListSpecOk(all, c, o1, pageNumber, pageSize);
      ListSpecOk(all, c, o2, pageNumber, pageSize);
    }
  }

  /** With no criteria and the default paging, the list of stored records
      is the first three. */
  lemma DefaultListIsFirstPage(all: seq<Player>, order: Option<PlayerOrder>)
    requires AscendingIds(all) && HasIds(all) && AllFilterReady(all) && |all| >= 3
    ensures ListSpec(all, NoCriteria, order, None, None) == Ok(all[..3])
  {
    FilterNoCriteria(all);
    SortSpecAscending(all, order);
    ListSpecOk(all, NoCriteria, order, None, None);
    DefaultPage(all);
  }

  /** A list request over a consistent repository fails only in the
      filtering pass or the paging, never in the sort. */
  lemma ConsistentListSorts(repo: PlayerRepository, c: Criteria, order: Option<PlayerOrder>)
    requires Consistent(repo) && Filter(repo.FindAll(), c).Ok?
    ensures SortSpec(Filter(repo.FindAll(), c).value, order).Ok?
  {
    StoredRecordsReady(repo);
    FilteredRecords(repo.FindAll(), c);
    StoredRecordsSort(Filter(repo.FindAll(), c).value, order);
  }
}

/** The list side of the player service: the filtering pass of
    `getAllPlayers`, the in-place sort of `sortPlayers` and the page slice of
    `getPage`. */
module PlayerQuery {
  import opened Entity
  import opened JavaLib
  import opened PlayerValidation

  // ---------------------------------------------------------------------
  // Filtering

  /** The optional query parameters of a list or count request; `None` is a
      parameter left out of the request. */
  datatype Criteria = Criteria(
    name: Option<string>,
    title: Option<string>,
    race: Option<Race>,
    profession: Option<Profession>,
    after: Option<int>,
    before: Option<int>,
    banned: Option<bool>,
    minExperience: Option<int>,
    maxExperience: Option<int>,
    minLevel: Option<int>,
    maxLevel: Option<int>)

  const NoCriteria := Criteria(None, None, None, None, None, None, None, None, None, None, None)

  /** What the body of the `forEach` in `getAllPlayers` does with one player:
      add it, return early, or fail on a null field it unboxes or
      dereferences. */
  datatype Verdict = Keep | Skip | Throw

  /** The checks of the `forEach` body, in the order the source makes them.
      Where the step does not fail, it keeps exactly the players that meet
      every present criterion; it fails only when a criterion that unboxes
      or dereferences its field meets that field null; and with no criteria
      it keeps everyone. */
  function Examine(p: Player, c: Criteria): (v: Verdict)
    ensures v != Throw ==> (v == Keep <==> Matches(p, c))
    ensures v == Throw ==>
      || (c.name.Some? && p.name.None?)
      || (c.title.Some? && p.title.None?)
      || (c.banned.Some? && p.banned.None?)
      || ((c.minExperience.Some? || c.maxExperience.Some?) && p.experience.None?)
      || ((c.minLevel.Some? || c.maxLevel.Some?) && p.level.None?)
      || ((c.after.Some? || c.before.Some?) && p.birthday.None?)
    ensures c == NoCriteria ==> v == Keep
  {
    if c.name.Some? && p.name.None? then Throw
    else if c.name.Some? && !Contains(p.name.value, c.name.value) then Skip
    else if c.title.Some? && p.title.None? then Throw
    else if c.title.Some? && !Contains(p.title.value, c.title.value) then Skip
    else if c.race.Some? && p.race != c.race then Skip
    else if c.profession.Some? && p.profession != c.profession then Skip
    else if c.banned.Some? && p.banned.None? then Throw
    else if c.banned.Some? && p.banned != c.banned then Skip
    else if (c.minExperience.Some? || c.maxExperience.Some?) && p.experience.None? then Throw
    else if c.minExperience.Some? && p.experience.value < c.minExperience.value then Skip
    else if c.maxExperience.Some? && p.experience.value > c.maxExperience.value then Skip
    else if (c.minLevel.Some? || c.maxLevel.Some?) && p.level.None? then Throw
    else if c.minLevel.Some? && p.level.value < c.minLevel.value then Skip
    else if c.maxLevel.Some? && p.level.value > c.maxLevel.value then Skip
    else if (c.after.Some? || c.before.Some?) && p.birthday.None? then Throw
    else if c.after.Some? && p.birthday.value < c.after.value then Skip
    else if c.before.Some? && p.birthday.value > c.before.value then Skip
    else Keep
  }

  /** A player meets the criteria: every present criterion holds of it.
      Names and titles by case-sensitive containment, race, profession and
      banned by equality, experience, level and birthday within inclusive
      bounds; absent criteria ask nothing. */
  predicate Matches(p: Player, c: Criteria) {
    && (c.name.Some? ==> p.name.Some? && Contains(p.name.value, c.name.value))
    && (c.title.Some? ==> p.title.Some? && Contains(p.title.value, c.title.value))
    && (c.race.Some? ==> p.race == c.race)
    && (c.profession.Some? ==> p.profession == c.profession)
    && (c.banned.Some? ==> p.banned == c.banned)
    && (c.minExperience.Some? ==> p.experience.Some? && c.minExperience.value <= p.experience.value)
    && (c.maxExperience.Some? ==> p.experience.Some? && p.experience.value <= c.maxExperience.value)
    && (c.minLevel.Some? ==> p.level.Some? && c.minLevel.value <= p.level.value)
    && (c.maxLevel.Some? ==> p.level.Some? && p.level.value <= c.maxLevel.value)
    && (c.after.Some? ==> p.birthday.Some? && c.after.value <= p.birthday.value)
    && (c.before.Some? ==> p.birthday.Some? && p.birthday.value <= c.before.value)
  }

  /** A record as the repository keeps it: every field the filter reads,
      except `banned`, is present. */
  predicate FilterReady(p: Player) {
    !ContainsNullField(p) && p.level.Some?
  }

  /** On a repository record the step fails only when a banned criterion
      meets a record whose `banned` is null (Boolean unboxing). */
  lemma ExamineThrowsOnlyOnBanned(p: Player, c: Criteria)
    requires FilterReady(p)
    ensures Examine(p, c) == Throw <==>
      c.banned.Some? && p.banned.None? &&
      (c.name.Some? ==> Contains(p.name.value, c.name.value)) &&
      (c.title.Some? ==> Contains(p.title.value, c.title.value)) &&
      (c.race.Some? ==> p.race == c.race) &&
      (c.profession.Some? ==> p.profession == c.profession)
  {
  }

  /** The result of the filtering pass over `s`, in the order of `s`: the
      players the step keeps, or the failure of the first player that
      throws. A failure is a NullPointerException; a success is never
      longer than `s` and holds only players that meet the criteria. */
  function Filter(s: seq<Player>, c: Criteria): (r: Result<seq<Player>>)
    ensures r.Err? ==> r.error == NullPointer
    ensures r.Ok? ==> |r.value| <= |s| && forall i :: 0 <= i < |r.value| ==> Matches(r.value[i], c)
  {
    if s == [] then Ok([])
    else
      match Filter(s[..|s| - 1], c)
      case Err(e) => Err(e)
      case Ok(kept) =>
        match Examine(s[|s| - 1], c)
        case Throw => Err(NullPointer)
        case Skip => Ok(kept)
        case Keep => Ok(kept + [s[|s| - 1]])
  }

  /** `r` is `s` with some elements left out and the rest in their order. */
  predicate IsSubsequence<T(==)>(r: seq<T>, s: seq<T>)
    decreases |s|
  {
    if r == [] then true
    else if s == [] then false
    else (r[|r| - 1] == s[|s| - 1] && IsSubsequence(r[..|r| - 1], s[..|s| - 1]))
         || IsSubsequence(r, s[..|s| - 1])
  }

  lemma {:induction false} SubsequenceMembers<T>(r: seq<T>, s: seq<T>)
    requires IsSubsequence(r, s)
    ensures forall x :: x in r ==> x in s
    decreases |s|
  {
    if r != [] {
      if r[|r| - 1] == s[|s| - 1] && IsSubsequence(r[..|r| - 1], s[..|s| - 1]) {
        SubsequenceMembers(r[..|r| - 1], s[..|s| - 1]);
        assert r == r[..|r| - 1] + [r[|r| - 1]];
        assert s == s[..|s| - 1] + [s[|s| - 1]];
      } else {
        SubsequenceMembers(r, s[..|s| - 1]);
        assert s == s[..|s| - 1] + [s[|s| - 1]];
      }
    }
  }

  /** The filtering pass fails exactly when some player's step throws, and
      then with a NullPointerException. */
  lemma {:induction false} FilterFails(s: seq<Player>, c: Criteria)
    ensures Filter(s, c).Err? <==> exists i :: 0 <= i < |s| && Examine(s[i], c) == Throw
    ensures Filter(s, c).Err? ==> Filter(s, c).error == NullPointer
  {
    if s != [] {
      var init := s[..|s| - 1];
      FilterFails(init, c);
      if exists i :: 0 <= i < |init| && Examine(init[i], c) == Throw {
        var i :| 0 <= i < |init| && Examine(init[i], c) == Throw;
        assert s[i] == init[i];
      }
      if exists i :: 0 <= i < |s| && Examine(s[i], c) == Throw {
        var i :| 0 <= i < |s| && Examine(s[i], c) == Throw;
        if i < |init| { assert init[i] == s[i]; }
      }
    }
  }

  /** One step of the filtering pass: the pass over `s[..i + 1]` is the pass
      over `s[..i]` followed by the verdict on `s[i]`. */
  lemma FilterStep(s: seq<Player>, i: int, c: Criteria)
    requires 0 <= i < |s| && Filter(s[..i], c).Ok?
    ensures Examine(s[i], c) == Keep ==> Filter(s[..i + 1], c) == Ok(Filter(s[..i], c).value + [s[i]])
    ensures Examine(s[i], c) == Skip ==> Filter(s[..i + 1], c) == Filter(s[..i], c)
    ensures Examine(s[i], c) == Throw ==> Filter(s[..i + 1], c) == Err(NullPointer)
  {
    assert s[..i + 1][..i] == s[..i];
  }

  /** A successful filtering pass keeps the order of its input and keeps
      exactly the players that meet every present criterion. */
  lemma {:induction false} FilterSelects(s: seq<Player>, c: Criteria)
    requires Filter(s, c).Ok?
    ensures IsSubsequence(Filter(s, c).value, s)
    ensures forall x :: x in Filter(s, c).value <==> x in s && Matches(x, c)
  {
    if s != [] {
      var init, last := s[..|s| - 1], s[|s| - 1];
      FilterSelects(init, c);
      var kept := Filter(init, c).value;
      assert s == init + [last];
      if Examine(last, c) == Keep {
        assert (kept + [last])[..|kept|] == kept;
      } else {
        assert kept == [] || IsSubsequence(kept, s[..|s| - 1]);
      }
    }
  }

  /** The players of `s` that meet the criteria, in their order: a plain
      filter, with no early failure. */
  function Selected(s: seq<Player>, c: Criteria): seq<Player> {
    if s == [] then []
    else Selected(s[..|s| - 1], c) + (if Matches(s[|s| - 1], c) then [s[|s| - 1]] else [])
  }

  /** A successful filtering pass is the plain filter by the criteria, each
      matching player kept exactly as many times as it occurs. */
  lemma {:induction false} FilterIsSelected(s: seq<Player>, c: Criteria)
    requires Filter(s, c).Ok?
    ensures Filter(s, c).value == Selected(s, c)
  {
    if s != [] {
      FilterIsSelected(s[..|s| - 1], c);
    }
  }

  lemma Snoc<T>(s: seq<T>)
    requires |s| > 0
    ensures s[..|s| - 1] + [s[|s| - 1]] == s
  {
  }

  /** Without criteria the pass gives back its input. */
  lemma {:induction false} FilterNoCriteria(s: seq<Player>)
    ensures Filter(s, NoCriteria) == Ok(s)
  {
    if s != [] {
      FilterNoCriteria(s[..|s| - 1]);
      Snoc(s);
    }
  }

  /** A request whose only criterion is `banned` fails on any list that
      holds a record with a null `banned`. */
  lemma NullBannedFails(s: seq<Player>, p: Player, b: bool)
    requires p in s && FilterReady(p) && p.banned.None?
    ensures Filter(s, NoCriteria.(banned := Some(b))) == Err(NullPointer)
  {
    var c := NoCriteria.(banned := Some(b));
    var i :| 0 <= i < |s| && s[i] == p;
    assert Examine(s[i], c) == Throw;
    FilterFails(s, c);
  }

  // ---------------------------------------------------------------------
  // Sorting

  /** The sort key of the comparator `Comparator.comparing(Player::getId)`. */
  function IdKey(p: Player): int {
    p.id.GetOr(0)
  }

  predicate HasIds(s: seq<Player>) {
    forall i :: 0 <= i < |s| ==> s[i].id.Some?
  }

  predicate SortedById(s: seq<Player>) {
    forall i, j :: 0 <= i < j < |s| ==> IdKey(s[i]) <= IdKey(s[j])
  }

  predicate DistinctIds(s: seq<Player>) {
    forall i, j :: 0 <= i < j < |s| ==> IdKey(s[i]) != IdKey(s[j])
  }

  predicate AscendingIds(s: seq<Player>) {
    forall i, j :: 0 <= i < j < |s| ==> IdKey(s[i]) < IdKey(s[j])
  }

  /** Leaving players out of a list in ascending id order keeps it ascending. */
  lemma {:induction false} SubsequenceAscending(r: seq<Player>, s: seq<Player>)
    requires IsSubsequence(r, s) && AscendingIds(s)
    ensures AscendingIds(r)
    decreases |s|
  {
    if r != [] {
      var s' := s[..|s| - 1];
      assert AscendingIds(s');
      if r[|r| - 1] == s[|s| - 1] && IsSubsequence(r[..|r| - 1], s') {
        var r' := r[..|r| - 1];
        SubsequenceAscending(r', s');
        SubsequenceMembers(r', s');
        forall i | 0 <= i < |r'| ensures IdKey(r[i]) < IdKey(r[|r| - 1]) {
          assert r[i] == r'[i] && r'[i] in s';
          var k :| 0 <= k < |s'| && s'[k] == r'[i];
          assert s[k] == s'[k];
        }
      } else {
        SubsequenceAscending(r, s');
      }
    }
  }

  /** Whether `sortPlayers` sorts by id: the order is absent or `ID`. */
  predicate ByIdOrder(order: Option<PlayerOrder>) {
    order.None? || order == Some(Id)
  }

  /** The fields whose `compareTo` the comparator of `sortPlayers` calls:
      the id when sorting by id; otherwise every case of the switch from
      the matched one down, since none of them returns. */
  predicate ComparedFieldsPresent(p: Player, order: Option<PlayerOrder>) {
    match order
    case None => p.id.Some?
    case Some(o) =>
      match o
      case Id => p.id.Some?
      case Name => p.name.Some? && p.level.Some? && p.birthday.Some? && p.experience.Some?
      case Level => p.level.Some? && p.birthday.Some? && p.experience.Some?
      case Birthday => p.birthday.Some? && p.experience.Some?
      case Experience => p.experience.Some?
  }

  /** `List.sort` compares every element of a list of two or more, so the
      comparator meets a null field, and throws, exactly when some player
      lacks one of the compared fields; a list of fewer than two is never
      compared and never fails. */
  predicate SortFails(s: seq<Player>, order: Option<PlayerOrder>) {
    |s| >= 2 && exists i :: 0 <= i < |s| && !ComparedFieldsPresent(s[i], order)
  }

  /** Every field the filter or a comparator reads is present. */
  predicate AllFilterReady(s: seq<Player>) {
    forall i :: 0 <= i < |s| ==> FilterReady(s[i])
  }

  /** Stored records, which carry an id and every field a comparator reads,
      never make the sort fail, whatever the order. */
  lemma StoredRecordsSort(s: seq<Player>, order: Option<PlayerOrder>)
    requires HasIds(s) && AllFilterReady(s)
    ensures !SortFails(s, order)
  {
    forall i | 0 <= i < |s| ensures ComparedFieldsPresent(s[i], order) {
      assert FilterReady(s[i]) && s[i].id.Some?;
    }
  }

  /** Insertion of one player into a list sorted by id, before the players
      with an id not less than its own. */
  function InsertById(p: Player, s: seq<Player>): (r: seq<Player>)
    ensures multiset(r) == multiset(s) + multiset{p}
    ensures |r| == |s| + 1
  {
    if s == [] || IdKey(p) <= IdKey(s[0]) then [p] + s
    else
      assert s == [s[0]] + s[1..];
      [s[0]] + InsertById(p, s[1..])
  }

  lemma {:induction false} InsertByIdMembers(p: Player, s: seq<Player>)
    ensures forall x :: x in InsertById(p, s) ==> x == p || x in s
  {
    if s != [] && IdKey(p) > IdKey(s[0]) {
      InsertByIdMembers(p, s[1..]);
    }
  }

  lemma {:induction false} InsertByIdSorted(p: Player, s: seq<Player>)
    requires SortedById(s)
    ensures SortedById(InsertById(p, s))
  {
    if s != [] && IdKey(p) > IdKey(s[0]) {
      InsertByIdSorted(p, s[1..]);
      var t := InsertById(p, s[1..]);
      InsertByIdMembers(p, s[1..]);
      forall j | 0 <= j < |t| ensures IdKey(s[0]) <= IdKey(t[j]) {
        assert t[j] in t;
        if t[j] != p {
          var k :| 0 <= k < |s[1..]| && s[1..][k] == t[j];
          assert s[k + 1] == t[j];
        }
      }
    }
  }

  /** The reference sort by id: an insertion sort that inserts each player
      before the later players of equal id, so ties keep their order. */
  function SortById(s: seq<Player>): (r: seq<Player>)
    ensures multiset(r) == multiset(s)
    ensures |r| == |s|
  {
    if s == [] then []
    else
      assert s == [s[0]] + s[1..];
      InsertById(s[0], SortById(s[1..]))
  }

  /** Two players of equal id come out of the reference sort in the order
      they went in, as with the stable `List.sort`. */
  lemma SortByIdKeepsTies(a: Player, b: Player)
    requires IdKey(a) == IdKey(b)
    ensures SortById([a, b]) == [a, b]
  {
    assert [a, b][1..] == [b];
    assert [b][1..] == [];
  }

  lemma {:induction false} SortByIdSorted(s: seq<Player>)
    ensures SortedById(SortById(s))
  {
    if s != [] {
      SortByIdSorted(s[1..]);
      InsertByIdSorted(s[0], SortById(s[1..]));
    }
  }

  /** Of two lists sorted by id holding the same players, the first player
      is the same, when the ids of the first list are distinct. */
  lemma SortedPermutationHead(a: seq<Player>, b: seq<Player>)
    requires SortedById(a) && SortedById(b) && DistinctIds(a)
    requires multiset(a) == multiset(b) && a != []
    ensures b != [] && a[0] == b[0]
  {
    assert a[0] in multiset(b);
    var j :| 0 <= j < |b| && b[j] == a[0];
    assert b[0] in multiset(a);
    var i :| 0 <= i < |a| && a[i] == b[0];
    assert IdKey(a[0]) <= IdKey(a[i]) && IdKey(b[0]) <= IdKey(b[j]);
  }

  /** Dropping the first player keeps a list sorted and its ids distinct. */
  lemma SortedTail(a: seq<Player>)
    requires a != []
    ensures SortedById(a) ==> SortedById(a[1..])
    ensures DistinctIds(a) ==> DistinctIds(a[1..])
    ensures multiset(a[1..]) == multiset(a) - multiset{a[0]}
  {
    assert a == [a[0]] + a[1..];
  }

  /** Two lists sorted by id that hold the same players are equal, when the
      ids are distinct. */
  lemma {:induction false} SortedPermutationUnique(a: seq<Player>, b: seq<Player>)
    requires SortedById(a) && SortedById(b) && DistinctIds(a)
    requires multiset(a) == multiset(b)
    ensures a == b
    decreases |a|
  {
    if a == [] {
      assert |b| == |multiset(b)| == 0;
    } else {
      SortedPermutationHead(a, b);
      SortedTail(a);
      SortedTail(b);
      SortedPermutationUnique(a[1..], b[1..]);
      assert a == [a[0]] + a[1..] && b == [b[0]] + b[1..];
    }
  }

  /** A list already in ascending id order is its own sort. */
  lemma AscendingIsSorted(s: seq<Player>)
    requires AscendingIds(s)
    ensures SortById(s) == s
  {
    SortByIdSorted(s);
    SortedPermutationUnique(s, SortById(s));
  }

  /** Exchanges two players of the array. */
  method Swap(a: array<Player>, i: int, j: int)
    requires 0 <= i < a.Length && 0 <= j < a.Length
    modifies a
    ensures a[..] == old(a[..])[i := old(a[j])][j := old(a[i])]
    ensures multiset(a[..]) == multiset(old(a[..]))
  {
    a[i], a[j] := a[j], a[i];
  }

  /** While `s[j]` moves left: the prefix `s[..i + 1]` is sorted apart from
      position `j`, and `s[j]` is at most every id to its right. */
  predicate Inserting(s: seq<Player>, i: int, j: int)
    requires 0 <= j <= i < |s|
  {
    && (forall k, l :: 0 <= k < l <= i && k != j && l != j ==> IdKey(s[k]) <= IdKey(s[l]))
    && (forall l :: j < l <= i ==> IdKey(s[j]) <= IdKey(s[l]))
  }

  /** Swapping `s[j]` with a greater left neighbour moves the hole one place
      left and leaves the part beyond `i` alone. */
  lemma InsertingSwap(s: seq<Player>, i: int, j: int)
    requires 0 < j <= i < |s| && Inserting(s, i, j) && IdKey(s[j - 1]) > IdKey(s[j])
    ensures Inserting(s[j - 1 := s[j]][j := s[j - 1]], i, j - 1)
    ensures s[j - 1 := s[j]][j := s[j - 1]][i + 1..] == s[i + 1..]
  {
  }

  /** The insertion stops once the left neighbour is not greater. */
  lemma InsertingDone(s: seq<Player>, i: int, j: int)
    requires 0 <= j <= i < |s| && Inserting(s, i, j)
    requires j == 0 || IdKey(s[j - 1]) <= IdKey(s[j])
    ensures SortedById(s[..i + 1])
  {
  }

  /** One step of the insertion sort: moves `a[i]` left past every player
      with a greater id, so that `a[..i + 1]` is sorted, and leaves the
      players after `i` where they were. */
  method InsertLast(a: array<Player>, i: int)
    requires 0 <= i < a.Length && SortedById(a[..i])
    modifies a
    ensures SortedById(a[..i + 1])
    ensures multiset(a[..]) == multiset(old(a[..]))
    ensures a[i + 1..] == old(a[i + 1..])
  {
    var j := i;
    while j > 0 && IdKey(a[j - 1]) > IdKey(a[j])
      invariant 0 <= j <= i
      invariant Inserting(a[..], i, j)
      invariant multiset(a[..]) == multiset(old(a[..]))
      invariant a[i + 1..] == old(a[i + 1..])
    {
      InsertingSwap(a[..], i, j);
      Swap(a, j - 1, j);
      j := j - 1;
    }
    InsertingDone(a[..], i, j);
  }

  /** `sortPlayers`: a comparator that meets a null field throws a
      NullPointerException; otherwise, with order absent or `ID`, the list
      is sorted in place by ascending id, and with any other order the
      comparator's switch falls through to `return 0`, so the stable
      `List.sort` leaves the list as it was. */
  method SortPlayers(a: array<Player>, order: Option<PlayerOrder>) returns (r: Result<()>)
    modifies a
    ensures r.Err? <==> SortFails(old(a[..]), order)
    ensures r.Err? ==> r.error == NullPointer && a[..] == old(a[..])
    ensures r.Ok? && ByIdOrder(order) ==> SortedById(a[..]) && multiset(a[..]) == multiset(old(a[..]))
    ensures r.Ok? && !ByIdOrder(order) ==> a[..] == old(a[..])
  {
    if SortFails(a[..], order) {
      return Err(NullPointer);
    }
    r := Ok(());
    if !ByIdOrder(order) {
      return;
    }
    var i := 0;
    while i < a.Length
      invariant 0 <= i <= a.Length
      invariant SortedById(a[..i])
      invariant multiset(a[..]) == multiset(old(a[..]))
    {
      InsertLast(a, i);
      i := i + 1;
    }
    assert a[..i] == a[..];
  }

  /** What `sortPlayers` makes of a list. It fails with a
      NullPointerException exactly when a comparator meets a null field; a
      sort that succeeds rearranges the list and nothing more, under the id
      order leaves it sorted by id, and under every other order leaves it as
      it was. */
  function SortSpec(s: seq<Player>, order: Option<PlayerOrder>): (r: Result<seq<Player>>)
    ensures r.Err? <==> SortFails(s, order)
    ensures r.Err? ==> r.error == NullPointer
    ensures r.Ok? ==> multiset(r.value) == multiset(s) && |r.value| == |s|
    ensures r.Ok? && ByIdOrder(order) ==> SortedById(r.value)
    ensures r.Ok? && !ByIdOrder(order) ==> r.value == s
  {
    if SortFails(s, order) then Err(NullPointer)
    else if ByIdOrder(order) then
      SortByIdSorted(s);
      Ok(SortById(s))
    else Ok(s)
  }

  /** What the in-place sort leaves in the array is the reference sort, for
      a list in ascending id order. */
  lemma SortedIsSortSpec(players: seq<Player>, sorted: seq<Player>, order: Option<PlayerOrder>)
    requires AscendingIds(players) && !SortFails(players, order)
    requires ByIdOrder(order) ==> SortedById(sorted) && multiset(sorted) == multiset(players)
    requires !ByIdOrder(order) ==> sorted == players
    ensures SortSpec(players, order) == Ok(sorted)
  {
    if ByIdOrder(order) {
      AscendingIsSorted(players);
      SortedPermutationUnique(players, sorted);
    }
  }

  /** A list of stored records in ascending id order comes out of every
      sort as it went in. */
  lemma SortSpecAscending(s: seq<Player>, order: Option<PlayerOrder>)
    requires AscendingIds(s) && HasIds(s) && AllFilterReady(s)
    ensures SortSpec(s, order) == Ok(s)
  {
    StoredRecordsSort(s, order);
    AscendingIsSorted(s);
  }

  // ---------------------------------------------------------------------
  // Pagination

  const DefaultPageNumber := 0
  const DefaultPageSize := 3

  function PageSizeOf(pageSize: Option<int>): int {
    pageSize.GetOr(DefaultPageSize)
  }

  /** The index of the first player of the requested page. */
  function PageStart(pageNumber: Option<int>, pageSize: Option<int>): int {
    pageNumber.GetOr(DefaultPageNumber) * PageSizeOf(pageSize)
  }

  function Min(x: int, y: int): int {
    if x <= y then x else y
  }

  /** `getPage`: the players from `from = page * size` up to `from + size`,
      cut short at the end of the list; `subList` refuses a start before the
      list or past its end, and a negative size. */
  function GetPage<T>(players: seq<T>, pageNumber: Option<int>, pageSize: Option<int>): (r: Result<seq<T>>)
    ensures r.Ok? <==> 0 <= PageStart(pageNumber, pageSize) <= |players| && PageSizeOf(pageSize) >= 0
    ensures r.Err? ==> r.error == OutOfRange
    ensures r.Ok? ==>
      var from := PageStart(pageNumber, pageSize);
      && |r.value| <= PageSizeOf(pageSize)
      && r.value == players[from..Min(from + PageSizeOf(pageSize), |players|)]
  {
    var page := pageNumber.GetOr(DefaultPageNumber);
    var size := pageSize.GetOr(DefaultPageSize);
    var from := page * size;
    var to := if from + size > |players| then |players| else from + size;
    if 0 <= from <= to then Ok(players[from..to]) else Err(OutOfRange)
  }

  /** The first `k` pages of size `size`, one after the other. */
  function PagesUpTo<T>(players: seq<T>, size: int, k: nat): seq<T>
    requires size > 0 && (k == 0 || (k - 1) * size <= |players|)
  {
    if k == 0 then []
    else
      assert k == 1 || (k - 2) * size <= (k - 1) * size;
      PagesUpTo(players, size, k - 1) + GetPage(players, Some(k - 1), Some(size)).value
  }

  lemma PageArithmetic(size: int, k: nat)
    requires size > 0 && k > 0
    ensures 0 <= (k - 1) * size && (k - 1) * size + size == k * size
    ensures k == 1 || (k - 2) * size <= (k - 1) * size
  {
  }

  lemma SliceJoin<T>(s: seq<T>, from: int, to: int)
    requires 0 <= from <= to <= |s|
    ensures s[..from] + s[from..to] == s[..to]
  {
  }

  /** Reading the pages in turn gives the players in their order, with none
      skipped and none repeated. */
  lemma {:induction false} PagesTile<T>(players: seq<T>, size: int, k: nat)
    requires size > 0 && (k == 0 || (k - 1) * size <= |players|)
    ensures PagesUpTo(players, size, k) == players[..Min(k * size, |players|)]
  {
    if k > 0 {
      PageArithmetic(size, k);
      PagesTile(players, size, k - 1);
      var from := (k - 1) * size;
      SliceJoin(players, from, Min(from + size, |players|));
    }
  }

  /** A page holds players of the list only, and no more of them than the
      list has. */
  lemma PageMembers<T>(players: seq<T>, pageNumber: Option<int>, pageSize: Option<int>)
    requires GetPage(players, pageNumber, pageSize).Ok?
    ensures forall x :: x in GetPage(players, pageNumber, pageSize).value ==> x in players
    ensures |GetPage(players, pageNumber, pageSize).value| <= |players|
  {
  }

  /** With the default paging the page is the first three players. */
  lemma DefaultPage<T>(players: seq<T>)
    requires |players| >= 3
    ensures GetPage(players, None, None) == Ok(players[..3])
  {
  }

  lemma PageExamples(players: seq<Player>)
    requires |players| == 5
    ensures GetPage(players, None, None) == Ok(players[..3])
    ensures GetPage(players, Some(1), Some(3)) == Ok(players[3..])
    ensures GetPage(players, Some(10), Some(3)) == Err(OutOfRange)
    ensures GetPage(players, Some(5), Some(1)) == Ok([])
  {
    assert players[3..5] == players[3..];
  }
}

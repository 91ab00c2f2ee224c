/** The operations of `PlayerServiceImpl` that read or change the
    repository: lookup by id, the filtering pass, create, update and delete. */
module PlayerService {
  import opened Entity
  import opened JavaLib
  import opened PlayerValidation
  import opened PlayerQuery
  import opened Repository

  /** A record as the service stores it: every required field present, every
      field within bounds, and the derived fields in step with the
      experience. */
  predicate WellFormed(p: Player) {
    !ContainsNullField(p) && !InvalidValues(p) && LevelsConsistent(p)
  }

  /** The repository holds only well-formed records. */
  ghost predicate Consistent(repo: PlayerRepository)
    reads repo
  {
    repo.Valid() && forall k :: k in repo.records ==> WellFormed(repo.records[k])
  }

  /** The store the application starts from holds no records, so it is
      consistent; every mutator below keeps it so. */
  lemma EmptyStoreConsistent(repo: PlayerRepository)
    requires repo.Valid() && repo.records == map[]
    ensures Consistent(repo)
  {
  }

  /** The records of a consistent repository carry every field the filter
      and the comparators read. */
  lemma StoredRecordsReady(repo: PlayerRepository)
    requires Consistent(repo)
    ensures AllFilterReady(repo.FindAll())
  {
    var all := repo.FindAll();
    forall i | 0 <= i < |all| ensures FilterReady(all[i]) {
      assert all[i] in all;
      var k := all[i].id.value;
      assert k in repo.records && repo.records[k] == all[i];
      assert WellFormed(repo.records[k]);
    }
  }

  /** `getPlayer`: the id is parsed first, so a malformed or non-positive id
      is InvalidData whether or not any record exists; a well-formed id with
      no record is NotFound. */
  function GetPlayer(repo: PlayerRepository, id: string): (r: Result<Player>)
    reads repo
    ensures ExaminationValidId(id).Err? ==> r == Err(InvalidData)
    ensures ExaminationValidId(id).Ok? ==>
      var k := ExaminationValidId(id).value;
      r == if k in repo.records then Ok(repo.records[k]) else Err(NotFound)
  {
    match ExaminationValidId(id)
    case Err(e) => Err(e)
    case Ok(k) =>
      match repo.FindById(k)
      case None => Err(NotFound)
      case Some(p) => Ok(p)
  }

  /** `getAllPlayers`: one pass over `findAll`, appending each player that
      passes every present criterion. */
  method GetAllPlayers(repo: PlayerRepository, c: Criteria) returns (r: Result<seq<Player>>)
    requires repo.Valid()
    ensures r == Filter(repo.FindAll(), c)
  {
    var all := repo.FindAll();
    var players: seq<Player> := [];
    var i := 0;
    while i < |all|
      invariant 0 <= i <= |all|
      invariant Filter(all[..i], c) == Ok(players)
    {
      var p := all[i];
      FilterStep(all, i, c);
      match Examine(p, c) {
        case Throw =>
          FilterFails(all, c);
          return Err(NullPointer);
        case Skip =>
        case Keep =>
          players := players + [p];
      }
      i := i + 1;
    }
    assert all[..i] == all;
    r := Ok(players);
  }

  /** `deletePlayer`: looks the player up, then removes that one record. */
  method DeletePlayer(repo: PlayerRepository, id: string) returns (r: Result<()>)
    requires Consistent(repo)
    modifies repo
    ensures Consistent(repo)
    ensures repo.nextId == old(repo.nextId)
    ensures r.Err? <==> old(GetPlayer(repo, id)).Err?
    ensures r.Err? ==> r.error == old(GetPlayer(repo, id)).error && repo.records == old(repo.records)
    ensures r.Ok? ==> repo.records == old(repo.records) - {ExaminationValidId(id).value}
    ensures r.Ok? ==> GetPlayer(repo, id) == Err(NotFound)
  {
    var found := GetPlayer(repo, id);
    match found {
      case Err(e) =>
        r := Err(e);
      case Ok(player) =>
        repo.Delete(player.id.value);
        r := Ok(());
    }
  }

  /** `addNewPlayer`: a body missing a required field or breaking a bound is
      InvalidData and nothing is stored; otherwise the player gets its
      derived fields and a fresh id and is stored. */
  method AddNewPlayer(repo: PlayerRepository, player: Player) returns (r: Result<Player>)
    requires Consistent(repo)
    modifies repo
    ensures Consistent(repo)
    ensures ContainsNullField(player) || InvalidValues(player) ==>
      r == Err(InvalidData) && repo.records == old(repo.records) && repo.nextId == old(repo.nextId)
    ensures !ContainsNullField(player) && !InvalidValues(player) ==>
      && r == Ok(LvlCalculation(player).(id := Some(old(repo.nextId))))
      && old(repo.nextId) !in old(repo.records)
      && repo.records == old(repo.records)[old(repo.nextId) := r.value]
      && repo.nextId == old(repo.nextId) + 1
    ensures r.Ok? && r.value.id.value <= MaxLong ==>
      GetPlayer(repo, DecimalString(r.value.id.value)) == r
  {
    if ContainsNullField(player) || InvalidValues(player) {
      return Err(InvalidData);
    }
    var leveled := LvlCalculation(player);
    var saved := repo.SaveNew(leveled);
    r := Ok(saved);
    if saved.id.value <= MaxLong {
      ValidIdRoundTrip(saved.id.value);
    }
  }

  function Or<T>(a: Option<T>, b: Option<T>): Option<T> {
    if a.Some? then a else b
  }

  /** The setter calls of `updatePlayer`: each non-null field of the body
      among name, title, race, profession, birthday, experience and banned
      overwrites the stored one. */
  function Merge(source: Player, body: Player): (r: Player)
    ensures r.id == source.id && r.level == source.level && r.untilNextLevel == source.untilNextLevel
    ensures !ContainsNullField(source) ==> !ContainsNullField(r)
    ensures !InvalidValues(source) && !InvalidValues(body) ==> !InvalidValues(r)
  {
    source.(
      name := Or(body.name, source.name),
      title := Or(body.title, source.title),
      race := Or(body.race, source.race),
      profession := Or(body.profession, source.profession),
      birthday := Or(body.birthday, source.birthday),
      experience := Or(body.experience, source.experience),
      banned := Or(body.banned, source.banned))
  }

  /** A body with every field null changes nothing. */
  lemma MergeEmpty(source: Player)
    ensures Merge(source, EmptyPlayer) == source
  {
  }

  /** Sending the same body twice is the same as sending it once. */
  lemma MergeIdempotent(source: Player, body: Player)
    ensures Merge(Merge(source, body), body) == Merge(source, body)
  {
  }

  /** An update of a stored record by a valid body gives a record the
      service may store under the same id. */
  lemma UpdateKeepsWellFormed(source: Player, body: Player)
    requires WellFormed(source) && !InvalidValues(body)
    ensures Merge(source, body).experience.Some?
    ensures 0 <= Merge(source, body).experience.value <= MaxExperience
    ensures WellFormed(LvlCalculation(Merge(source, body)))
    ensures LvlCalculation(Merge(source, body)).id == source.id
  {
  }

  /** `updatePlayer`: the id and NotFound checks come first, then the body
      is validated; a valid body is merged onto the stored record, whose
      derived fields are then always recomputed, and the record is saved. */
  method UpdatePlayer(repo: PlayerRepository, id: string, body: Player) returns (r: Result<Player>)
    requires Consistent(repo)
    modifies repo
    ensures Consistent(repo)
    ensures repo.nextId == old(repo.nextId)
    ensures old(GetPlayer(repo, id)).Err? ==>
      r == old(GetPlayer(repo, id)) && repo.records == old(repo.records)
    ensures old(GetPlayer(repo, id)).Ok? && InvalidValues(body) ==>
      r == Err(InvalidData) && repo.records == old(repo.records)
    ensures old(GetPlayer(repo, id)).Ok? && !InvalidValues(body) ==>
      var source := old(GetPlayer(repo, id)).value;
      && WellFormed(source)
      && r == Ok(LvlCalculation(Merge(source, body)))
      && repo.records == old(repo.records)[source.id.value := r.value]
  {
    var found := GetPlayer(repo, id);
    if found.Err? {
      return found;
    }
    var source := found.value;
    assert WellFormed(source);
    if InvalidValues(body) {
      return Err(InvalidData);
    }
    UpdateKeepsWellFormed(source, body);
    var merged := LvlCalculation(Merge(source, body));
    repo.SaveExisting(merged);
    r := Ok(merged);
  }

  /** An update that carries only an experience leaves every other client
      field as stored and recomputes the derived fields. */
  lemma ExperienceOnlyUpdate(source: Player, exp: int)
    requires WellFormed(source) && 0 <= exp <= MaxExperience
    ensures var u := LvlCalculation(Merge(source, EmptyPlayer.(experience := Some(exp))));
      && u.(experience := source.experience, level := source.level, untilNextLevel := source.untilNextLevel) == source
      && u.experience == Some(exp)
      && u.level == Some(CalculateLvl(exp))
      && u.untilNextLevel == Some(CalculateUntilNextLevel(CalculateLvl(exp), exp))
  {
  }
}

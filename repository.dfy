/** The player repository, in memory: the records keyed by id and the
    counter that gives each new record a fresh positive id. */
module Repository {
  import opened Entity
  import opened PlayerQuery

  /** Every record is stored under its own id. */
  ghost predicate KeyedById(records: map<int, Player>) {
    forall k :: k in records ==> records[k].id == Some(k)
  }

  /** The records whose keys lie in [k, hi), in ascending key order. */
  function Rows(records: map<int, Player>, k: int, hi: int): seq<Player>
    decreases hi - k
  {
    if k >= hi then []
    else (if k in records then [records[k]] else []) + Rows(records, k + 1, hi)
  }

  /** `Rows` lists each record in the key range, and nothing else. */
  lemma {:induction false} RowsMembers(records: map<int, Player>, k: int, hi: int)
    requires KeyedById(records)
    ensures forall p :: p in Rows(records, k, hi) <==>
      p.id.Some? && k <= p.id.value < hi && p.id.value in records && records[p.id.value] == p
    decreases hi - k
  {
    if k < hi {
      RowsMembers(records, k + 1, hi);
    }
  }

  /** `Rows` lists the records in strictly ascending id order. */
  lemma {:induction false} RowsAscending(records: map<int, Player>, k: int, hi: int)
    requires KeyedById(records)
    ensures AscendingIds(Rows(records, k, hi)) && HasIds(Rows(records, k, hi))
    decreases hi - k
  {
    if k < hi {
      RowsAscending(records, k + 1, hi);
      RowsMembers(records, k + 1, hi);
      var rest := Rows(records, k + 1, hi);
      forall i | 0 <= i < |rest| ensures k < IdKey(rest[i]) {
        assert rest[i] in rest;
      }
    }
  }

  class PlayerRepository {
    var records: map<int, Player>
    var nextId: int

    ghost predicate Valid()
      reads this
    {
      && 1 <= nextId
      && KeyedById(records)
      && forall k :: k in records ==> 1 <= k < nextId
    }

    constructor ()
      ensures Valid()
      ensures records == map[] && nextId == 1
    {
      records := map[];
      nextId := 1;
    }

    /** `findAll`: every record once, in ascending id order. */
    function FindAll(): (s: seq<Player>)
      requires Valid()
      reads this
      ensures AscendingIds(s) && HasIds(s)
      ensures forall k :: k in records ==> records[k] in s
      ensures forall p :: p in s ==> p.id.Some? && p.id.value in records && records[p.id.value] == p
    {
      RowsMembers(records, 1, nextId);
      RowsAscending(records, 1, nextId);
      Rows(records, 1, nextId)
    }

    /** `findById`. */
    function FindById(id: int): (r: Option<Player>)
      reads this
      ensures r.Some? <==> id in records
      ensures r.Some? ==> r.value == records[id]
    {
      if id in records then Some(records[id]) else None
    }

    /** `save` of a new entity: stores it under a fresh id and sets that id
        on it. */
    method SaveNew(p: Player) returns (saved: Player)
      requires Valid()
      modifies this
      ensures Valid()
      ensures saved == p.(id := Some(old(nextId)))
      ensures records == old(records)[old(nextId) := saved]
      ensures nextId == old(nextId) + 1
      ensures old(nextId) !in old(records)
    {
      saved := p.(id := Some(nextId));
      records := records[nextId := saved];
      nextId := nextId + 1;
    }

    /** `save` of an entity the repository already holds: replaces its record. */
    method SaveExisting(p: Player)
      requires Valid()
      requires p.id.Some? && p.id.value in records
      modifies this
      ensures Valid()
      ensures records == old(records)[p.id.value := p]
      ensures nextId == old(nextId)
    {
      records := records[p.id.value := p];
    }

    /** `delete`: removes the record with that id. */
    method Delete(id: int)
      requires Valid()
      modifies this
      ensures Valid()
      ensures records == old(records) - {id}
      ensures nextId == old(nextId)
    {
      records := records - {id};
    }
  }
}

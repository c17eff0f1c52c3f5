/** repository/BaseRepository.java: the in-memory store every concrete repository
    extends. An id-keyed map with upsert; getId() of the stored type is the function
    idOf, which yields None for an entity whose id is null. */
module BaseRepository {
  import opened Common

  /** A map whose values, read through f, name their own keys has exactly as many
      distinct values as keys. */
  lemma {:induction false} ValuesOfSelfKeyedMap<T>(m: map<Id, T>, f: T -> Option<Id>)
    requires forall k | k in m :: f(m[k]) == Some(k)
    ensures |m.Values| == |m.Keys|
    decreases |m.Keys|
  {
    if m.Keys != {} {
      var k :| k in m.Keys;
      var m' := m - {k};
      ValuesOfSelfKeyedMap(m', f);
      assert m'.Values == m.Values - {m[k]} by {
        forall v | v in m.Values - {m[k]} ensures v in m'.Values {
          var j :| j in m && m[j] == v;
          assert j != k;
          assert m'[j] == v;
        }
        forall v | v in m'.Values ensures v in m.Values - {m[k]} {
          var j :| j in m' && m'[j] == v;
          assert f(v) == Some(j);
        }
      }
      assert m'.Keys == m.Keys - {k};
    }
  }

  /** Every entry of m sits under the id f gives its value. */
  ghost predicate SelfKeyed<T>(m: map<Id, T>, f: T -> Option<Id>) {
    forall k | k in m :: f(m[k]) == Some(k)
  }

  /** Storing a value under the id it names keeps a map self-keyed. */
  lemma SelfKeyedPut<T>(m: map<Id, T>, f: T -> Option<Id>, k: Id, v: T)
    requires SelfKeyed(m, f) && f(v) == Some(k)
    ensures SelfKeyed(m[k := v], f)
  {
  }

  /** What save's upsert of v does to a store m: v is found again under its id, every
      other key keeps its entry, the size grows by one exactly when the id was new, and
      a self-keyed store stays self-keyed. */
  lemma UpsertSemantics<T>(m: map<Id, T>, f: T -> Option<Id>, v: T)
    requires f(v).Some?
    ensures var m' := m[f(v).value := v];
            && f(v).value in m' && m'[f(v).value] == v
            && (forall k | k != f(v).value :: (k in m' <==> k in m) && (k in m ==> m'[k] == m[k]))
            && |m'| == |m| + (if f(v).value in m then 0 else 1)
            && (SelfKeyed(m, f) ==> SelfKeyed(m', f))
  {
  }

  class Repository<T(==,!new)> {
    /** The stored entities, keyed by id. */
    var entities: map<Id, T>
    /** getId() of the stored type. */
    const idOf: T -> Option<Id>

    /** Every stored entity sits under its own id. */
    ghost predicate Valid()
      reads this
    {
      SelfKeyed(entities, idOf)
    }

    constructor (idOf: T -> Option<Id>)
      ensures entities == map[] && this.idOf == idOf
      ensures Valid()
    {
      entities := map[];
      this.idOf := idOf;
    }

    /** findById: empty for a null id, otherwise the entity stored under it, if any. */
    function FindById(id: Option<Id>): (r: Option<T>)
      reads this
      ensures id.None? ==> r.None?
      ensures r.Some? <==> ExistsById(id)
      ensures r.Some? ==> r.value == entities[id.value] && r.value in FindAll()
    {
      if id.None? then None
      else if id.value in entities then Some(entities[id.value])
      else None
    }

    /** existsById: false for a null id; otherwise whether the id is a key of the store. */
    function ExistsById(id: Option<Id>): (r: bool)
      reads this
      ensures id.None? ==> !r
    {
      id.Some? && id.value in entities
    }

    /** In a valid store, existsById holds exactly when some entity findAll returns
        carries the id. */
    lemma ExistsByIdIff(id: Option<Id>)
      requires Valid()
      ensures ExistsById(id) <==> exists x | x in FindAll() :: idOf(x) == id
    {
      if ExistsById(id) {
        assert entities[id.value] in FindAll() && idOf(entities[id.value]) == id;
      }
    }

    /** findAll: the stored values (the list's order is the hash map's, so only its
        contents are kept). */
    function FindAll(): (r: set<T>)
      reads this
      ensures forall x :: x in r <==> exists k :: k in entities && entities[k] == x
    {
      entities.Values
    }

    /** count: the number of stored entities. */
    function Count(): (n: nat)
      reads this
      ensures n == 0 <==> FindAll() == {}
    {
      assert entities != map[] ==> exists k :: k in entities;
      |entities|
    }

    /** In a valid store findAll loses nothing: it has count() distinct elements, and
        each one is found again under its own id. */
    lemma FindAllMatchesCount()
      requires Valid()
      ensures |FindAll()| == Count()
      ensures forall x | x in FindAll() :: idOf(x).Some? && FindById(idOf(x)) == Some(x)
    {
      ValuesOfSelfKeyedMap(entities, idOf);
    }

    /** save: refuses a null entity and an entity with a null id; otherwise stores the
        entity under its id, replacing whatever was there, and returns it. */
    method Save(entity: Option<T>) returns (r: Result<T>)
      modifies this
      ensures entity.None? ==> r == Err(NullEntity) && entities == old(entities)
      ensures entity.Some? && idOf(entity.value).None? ==> r == Err(NullId) && entities == old(entities)
      ensures entity.Some? && idOf(entity.value).Some? ==>
                r == Ok(entity.value) && entities == old(entities)[idOf(entity.value).value := entity.value]
    {
      if entity.None? {
        return Err(NullEntity);
      }
      var id := idOf(entity.value);
      if id.None? {
        return Err(NullId);
      }
      entities := entities[id.value := entity.value];
      r := Ok(entity.value);
    }

    /** delete: when the entity and its id are non-null, removes that id's entry
        (whatever is stored there); otherwise does nothing. */
    method Delete(entity: Option<T>)
      modifies this
      ensures entity.Some? && idOf(entity.value).Some? ==> entities == old(entities) - {idOf(entity.value).value}
      ensures entity.None? || idOf(entity.value).None? ==> entities == old(entities)
      ensures entity.Some? ==> !ExistsById(idOf(entity.value))
      ensures old(Valid()) ==> Valid()
    {
      if entity.Some? && idOf(entity.value).Some? {
        entities := entities - {idOf(entity.value).value};
      }
    }

    /** deleteById: removes that id's entry; a null id does nothing. */
    method DeleteById(id: Option<Id>)
      modifies this
      ensures id.Some? ==> entities == old(entities) - {id.value}
      ensures id.None? ==> entities == old(entities)
      ensures !ExistsById(id)
      ensures Count() == old(Count()) - (if old(ExistsById(id)) then 1 else 0)
      ensures old(Valid()) ==> Valid()
    {
      if id.Some? {
        entities := entities - {id.value};
      }
    }
  }
}

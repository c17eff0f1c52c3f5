/** repository/TrabalhoRepository.java: work queries over the base store. */
module TrabalhoRepository {
  import opened Common
  import opened Enums
  import opened Trabalho
  import opened BaseRepository

  /** findAllByEventoId: empty for null, otherwise exactly the stored works of that event. */
  function FindAllByEventoId(repo: Repository<Trabalho>, eventoId: Option<Id>): (r: set<Trabalho>)
    reads repo
    ensures eventoId.None? ==> r == {}
    ensures forall t :: t in r <==> t in repo.FindAll() && eventoId == Some(t.evento)
  {
    if eventoId.None? then {}
    else set t | t in repo.entities.Values && t.evento == eventoId.value
  }

  /** findAllByAutorId: empty for null, otherwise exactly the stored works that list
      that author. */
  function FindAllByAutorId(repo: Repository<Trabalho>, autorId: Option<Id>): (r: set<Trabalho>)
    reads repo
    ensures autorId.None? ==> r == {}
    ensures forall t :: t in r <==> t in repo.FindAll() && autorId.Some? && autorId.value in t.autores
  {
    if autorId.None? then {}
    else set t | t in repo.entities.Values && autorId.value in t.autores
  }

  /** findAllByStatusAndEventoId: empty if either argument is null, otherwise exactly
      the stored works of that event in that status. */
  function FindAllByStatusAndEventoId(repo: Repository<Trabalho>, status: Option<StatusTrabalho>, eventoId: Option<Id>)
    : (r: set<Trabalho>)
    reads repo
    ensures status.None? || eventoId.None? ==> r == {}
    ensures forall t :: t in r <==> t in repo.FindAll() && eventoId == Some(t.evento) && status == Some(t.status)
  {
    if status.None? || eventoId.None? then {}
    else set t | t in repo.entities.Values && t.evento == eventoId.value && t.status == status.value
  }

  /** The status queries split an event's works: each work of the event is found under
      its own status and under no other. */
  lemma StatusPartitionsEvent(repo: Repository<Trabalho>, e: Id, t: Trabalho, s: StatusTrabalho)
    requires t in FindAllByEventoId(repo, Some(e))
    ensures t in FindAllByStatusAndEventoId(repo, Some(s), Some(e)) <==> s == t.status
  {
  }

  /** A status query never finds more than the event query. */
  lemma StatusQueryWithinEvent(repo: Repository<Trabalho>, e: Id, s: StatusTrabalho)
    ensures FindAllByStatusAndEventoId(repo, Some(s), Some(e)) <= FindAllByEventoId(repo, Some(e))
  {
  }
}

/** repository/EventoRepository.java: event queries over the base store. */
module EventoRepository {
  import opened Common
  import opened Evento
  import opened BaseRepository

  /** findAllDisponiveisParaInscricao: exactly the stored events that start strictly
      after hoje; an event starting on hoje itself is not included. */
  function FindAllDisponiveisParaInscricao(repo: Repository<Evento>, hoje: Day): (r: set<Evento>)
    reads repo
    ensures forall e :: e in r <==> e in repo.FindAll() && e.dataInicio > hoje
  {
    set e | e in repo.entities.Values && e.dataInicio > hoje
  }

  /** findAllByOrganizadorId: empty for null, otherwise exactly the stored events whose
      responsible organizer has that id. */
  function FindAllByOrganizadorId(repo: Repository<Evento>, organizadorId: Option<Id>): (r: set<Evento>)
    reads repo
    ensures organizadorId.None? ==> r == {}
    ensures forall e :: e in r <==> e in repo.FindAll() && organizadorId == Some(e.organizadorResponsavel)
  {
    if organizadorId.None? then {}
    else set e | e in repo.entities.Values && e.organizadorResponsavel == organizadorId.value
  }

  /** As days pass the available events can only shrink, and an event drops out on its
      start day. */
  lemma DisponiveisShrink(repo: Repository<Evento>, hoje: Day, depois: Day, e: Evento)
    requires hoje <= depois
    ensures FindAllDisponiveisParaInscricao(repo, depois) <= FindAllDisponiveisParaInscricao(repo, hoje)
    ensures e !in FindAllDisponiveisParaInscricao(repo, e.dataInicio)
  {
  }
}

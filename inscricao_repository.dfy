/** repository/InscricaoRepository.java: enrollment queries over the base store.
    Lists come from a hash map, so their order is unspecified; only contents are kept. */
module InscricaoRepository {
  import opened Common
  import opened Inscricao
  import opened BaseRepository

  /** findAllByEventoId: empty for null, otherwise exactly the stored enrollments of that event. */
  function FindAllByEventoId(repo: Repository<Inscricao>, eventoId: Option<Id>): (r: set<Inscricao>)
    reads repo
    ensures eventoId.None? ==> r == {}
    ensures forall i :: i in r <==> i in repo.FindAll() && eventoId == Some(i.evento)
  {
    if eventoId.None? then {}
    else set i | i in repo.entities.Values && i.evento == eventoId.value
  }

  /** findAllByParticipanteId: empty for null, otherwise exactly the stored enrollments
      of that participant. */
  function FindAllByParticipanteId(repo: Repository<Inscricao>, participanteId: Option<Id>): (r: set<Inscricao>)
    reads repo
    ensures participanteId.None? ==> r == {}
    ensures forall i :: i in r <==> i in repo.FindAll() && participanteId == Some(i.participante)
  {
    if participanteId.None? then {}
    else set i | i in repo.entities.Values && i.participante == participanteId.value
  }

  /** findByParticipanteIdAndEventoId: findFirst over the hash map's values, so any one
      of the enrollments matching both ids; empty iff either id is null or none matches. */
  method FindByParticipanteIdAndEventoId(repo: Repository<Inscricao>, participanteId: Option<Id>, eventoId: Option<Id>)
    returns (r: Option<Inscricao>)
    ensures r.None? <==> FindAllByParticipanteId(repo, participanteId) * FindAllByEventoId(repo, eventoId) == {}
    ensures r.None? && participanteId.Some? && eventoId.Some? ==>
              forall i | i in repo.FindAll() :: !(i.participante == participanteId.value && i.evento == eventoId.value)
    ensures r.Some? ==> r.value in repo.FindAll()
    ensures r.Some? ==> Some(r.value.participante) == participanteId && Some(r.value.evento) == eventoId
  {
    if participanteId.None? || eventoId.None? {
      return None;
    }
    var matches := set i | i in repo.entities.Values && i.participante == participanteId.value && i.evento == eventoId.value;
    assert matches == FindAllByParticipanteId(repo, participanteId) * FindAllByEventoId(repo, eventoId);
    if matches == {} {
      forall i | i in repo.FindAll() ensures !(i.participante == participanteId.value && i.evento == eventoId.value) {
        assert i !in matches;
      }
      return None;
    }
    var i :| i in matches;
    return Some(i);
  }
}

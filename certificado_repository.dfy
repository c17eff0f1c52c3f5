/** repository/CertificadoRepository.java: certificate queries over the base store. */
module CertificadoRepository {
  import opened Common
  import opened Text
  import opened Certificado
  import opened BaseRepository

  /** findAllByParticipanteId: empty for null, otherwise exactly the stored certificates
      of that recipient. */
  function FindAllByParticipanteId(repo: Repository<Certificado>, participanteId: Option<Id>): (r: set<Certificado>)
    reads repo
    ensures participanteId.None? ==> r == {}
    ensures forall c :: c in r <==> c in repo.FindAll() && participanteId == Some(c.participante)
  {
    if participanteId.None? then {}
    else set c | c in repo.entities.Values && c.participante == participanteId.value
  }

  /** findAllByEventoId: empty for null, otherwise exactly the stored certificates of that event. */
  function FindAllByEventoId(repo: Repository<Certificado>, eventoId: Option<Id>): (r: set<Certificado>)
    reads repo
    ensures eventoId.None? ==> r == {}
    ensures forall c :: c in r <==> c in repo.FindAll() && eventoId == Some(c.evento)
  {
    if eventoId.None? then {}
    else set c | c in repo.entities.Values && c.evento == eventoId.value
  }

  /** findByCodigoValidacao: empty for a null or blank code; otherwise some stored
      certificate carrying exactly that code, and empty iff there is none. */
  method FindByCodigoValidacao(repo: Repository<Certificado>, codigo: Option<string>) returns (r: Option<Certificado>)
    ensures codigo.None? || IsBlank(codigo.value) ==> r.None?
    ensures r.Some? ==> r.value in repo.FindAll() && Some(r.value.codigoValidacao) == codigo
    ensures codigo.Some? && !IsBlank(codigo.value) && r.None? ==>
              forall c | c in repo.FindAll() :: c.codigoValidacao != codigo.value
  {
    if codigo.None? || IsBlank(codigo.value) {
      return None;
    }
    var matches := set c | c in repo.entities.Values && c.codigoValidacao == codigo.value;
    if matches == {} {
      forall c | c in repo.FindAll() ensures c.codigoValidacao != codigo.value {
        assert c !in matches;
      }
      return None;
    }
    var c :| c in matches;
    return Some(c);
  }

  /** A certificate of a participant in an event is found by both list queries, and
      only such certificates are found by both. */
  lemma PorParticipanteEEvento(repo: Repository<Certificado>, p: Id, e: Id, c: Certificado)
    ensures c in FindAllByParticipanteId(repo, Some(p)) * FindAllByEventoId(repo, Some(e))
            <==> c in repo.FindAll() && c.participante == p && c.evento == e
  {
  }
}

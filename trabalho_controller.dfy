/** controller/TrabalhoController.java: submission of works to an event, assignment of
    evaluators and status changes. */
module TrabalhoController {
  import opened Common
  import opened Enums
  import opened Participante
  import Inscricao
  import opened Evento
  import opened Trabalho
  import opened BaseRepository
  import TrabalhoRepository

  /** Events and works refer to each other consistently: every work an event lists is
      stored and belongs to that event, and every stored work's event is stored. */
  predicate TrabalhosIntegros(eventos: map<Id, Evento>, trabalhos: map<Id, Trabalho>) {
    (forall e, k | e in eventos && k in eventos[e].trabalhos :: k in trabalhos && trabalhos[k].evento == e)
    && (forall k | k in trabalhos :: trabalhos[k].evento in eventos)
  }

  /** Every stored work has at least one author. */
  predicate ComAutores(trabalhos: map<Id, Trabalho>) {
    forall k | k in trabalhos :: |trabalhos[k].autores| > 0
  }

  /** Every author id names a stored participant. */
  predicate AutoresCadastrados(participantes: map<Id, Participante>, ids: seq<Id>) {
    forall k | 0 <= k < |ids| :: ids[k] in participantes
  }

  /** Some author holds an ATIVA enrollment listed by the event (anyMatch over the
      authors of isParticipanteInscritoAtivo). */
  predicate AlgumInscrito(ev: Evento, inscricoes: map<Id, Inscricao.Inscricao>, participantes: map<Id, Participante>, ids: seq<Id>) {
    exists k | 0 <= k < |ids| && ids[k] in participantes :: IsParticipanteInscritoAtivo(ev, inscricoes, participantes[ids[k]])
  }

  /** Asking each resolved author is asking AlgumInscrito of their ids. */
  lemma AlgumInscritoPelosAutores(ev: Evento, inscricoes: map<Id, Inscricao.Inscricao>, participantes: map<Id, Participante>,
                                  ids: seq<Id>, autores: seq<Participante>)
    requires |autores| == |ids|
    requires forall k | 0 <= k < |ids| :: ids[k] in participantes && autores[k] == participantes[ids[k]]
    ensures AlgumInscrito(ev, inscricoes, participantes, ids) <==>
              exists k | 0 <= k < |autores| :: IsParticipanteInscritoAtivo(ev, inscricoes, autores[k])
  {
    if exists k | 0 <= k < |autores| :: IsParticipanteInscritoAtivo(ev, inscricoes, autores[k]) {
      var k :| 0 <= k < |autores| && IsParticipanteInscritoAtivo(ev, inscricoes, autores[k]);
      assert ids[k] in participantes && autores[k] == participantes[ids[k]];
    }
  }

  /** The outcome of submeterTrabalho, decided in the source's order: an unknown event,
      then a closed submission window (checked before the authors are looked at), then
      a null or empty author list, then an unknown author, then no author enrolled.
      Otherwise a new SUBMETIDO work of those authors in that event. */
  function Submissao(eventos: map<Id, Evento>, participantes: map<Id, Participante>, inscricoes: map<Id, Inscricao.Inscricao>,
                     autoresIds: Option<seq<Id>>, eventoId: Option<Id>, titulo: string, arquivo: string,
                     hoje: Day, novoId: Id): (r: Result<Trabalho>)
    ensures eventoId.None? || eventoId.value !in eventos <==> r == Err(NotFound(Event))
    ensures r == Err(SubmissionClosed) <==>
              eventoId.Some? && eventoId.value in eventos && !IsPeriodoSubmissaoAberto(eventos[eventoId.value], hoje)
    ensures r == Err(NoAuthors) <==>
              eventoId.Some? && eventoId.value in eventos && IsPeriodoSubmissaoAberto(eventos[eventoId.value], hoje)
              && (autoresIds.None? || |autoresIds.value| == 0)
    ensures r == Err(NotFound(Author)) <==>
              eventoId.Some? && eventoId.value in eventos && IsPeriodoSubmissaoAberto(eventos[eventoId.value], hoje)
              && autoresIds.Some? && |autoresIds.value| > 0
              && exists k | 0 <= k < |autoresIds.value| :: autoresIds.value[k] !in participantes
    ensures r == Err(NoAuthorEnrolled) <==>
              eventoId.Some? && eventoId.value in eventos && IsPeriodoSubmissaoAberto(eventos[eventoId.value], hoje)
              && autoresIds.Some? && |autoresIds.value| > 0 && AutoresCadastrados(participantes, autoresIds.value)
              && !AlgumInscrito(eventos[eventoId.value], inscricoes, participantes, autoresIds.value)
    ensures r.Err? ==> r.error in {NotFound(Event), SubmissionClosed, NoAuthors, NotFound(Author), NoAuthorEnrolled}
    ensures r.Ok? <==>
              eventoId.Some? && eventoId.value in eventos && IsPeriodoSubmissaoAberto(eventos[eventoId.value], hoje)
              && autoresIds.Some? && |autoresIds.value| > 0 && AutoresCadastrados(participantes, autoresIds.value)
              && AlgumInscrito(eventos[eventoId.value], inscricoes, participantes, autoresIds.value)
    ensures r.Ok? ==> r.value.id == novoId && r.value.evento == eventoId.value && r.value.status == Submetido
                      && r.value.autores == autoresIds.value && |r.value.autores| > 0 && r.value.avaliacoes == []
                      && r.value.titulo == titulo && r.value.arquivo == arquivo && r.value.dataSubmissao == hoje
  {
    if eventoId.None? || eventoId.value !in eventos then Err(NotFound(Event))
    else if !IsPeriodoSubmissaoAberto(eventos[eventoId.value], hoje) then Err(SubmissionClosed)
    else if autoresIds.None? || |autoresIds.value| == 0 then Err(NoAuthors)
    else if !AutoresCadastrados(participantes, autoresIds.value) then Err(NotFound(Author))
    else if !AlgumInscrito(eventos[eventoId.value], inscricoes, participantes, autoresIds.value) then Err(NoAuthorEnrolled)
    else NovoTrabalho(novoId, titulo, arquivo, hoje, eventoId.value, autoresIds)
  }

  /** A submission appends a fresh work to its own event's list, so the stores stay
      integral and every stored work keeps at least one author. */
  lemma SubmissaoPreserva(eventos: map<Id, Evento>, trabalhos: map<Id, Trabalho>, t: Trabalho)
    requires TrabalhosIntegros(eventos, trabalhos) && ComAutores(trabalhos)
    requires t.evento in eventos && t.id !in trabalhos && |t.autores| > 0
    ensures var eventos' := eventos[t.evento := eventos[t.evento].(trabalhos := eventos[t.evento].trabalhos + [t.id])];
            TrabalhosIntegros(eventos', trabalhos[t.id := t]) && ComAutores(trabalhos[t.id := t])
  {
  }

  /** Replacing a stored work by one of the same event and authors keeps the stores
      integral and every work authored. */
  lemma RegravarPreserva(eventos: map<Id, Evento>, trabalhos: map<Id, Trabalho>, t: Trabalho)
    requires TrabalhosIntegros(eventos, trabalhos) && ComAutores(trabalhos)
    requires t.id in trabalhos && t.evento == trabalhos[t.id].evento && t.autores == trabalhos[t.id].autores
    ensures TrabalhosIntegros(eventos, trabalhos[t.id := t]) && ComAutores(trabalhos[t.id := t])
  {
  }

  /** The outcome of designarAvaliadorParaTrabalho: the work, the evaluator and the
      requester must be stored, in that order; the requester must be an ORGANIZADOR and
      the organizer of the work's event; the evaluator must be an AVALIADOR. Then a
      SUBMETIDO work becomes EM_AVALIACAO and any other status is left alone. */
  function Designacao(eventos: map<Id, Evento>, trabalhos: map<Id, Trabalho>, participantes: map<Id, Participante>,
                      trabalhoId: Option<Id>, avaliadorId: Option<Id>, organizadorId: Option<Id>): (r: Result<Trabalho>)
    requires TrabalhosIntegros(eventos, trabalhos)
    ensures trabalhoId.None? || trabalhoId.value !in trabalhos <==> r == Err(NotFound(Work))
    ensures r == Err(NotFound(Evaluator)) <==>
              trabalhoId.Some? && trabalhoId.value in trabalhos && (avaliadorId.None? || avaliadorId.value !in participantes)
    ensures r == Err(NotFound(Organizer)) <==>
              trabalhoId.Some? && trabalhoId.value in trabalhos && avaliadorId.Some? && avaliadorId.value in participantes
              && (organizadorId.None? || organizadorId.value !in participantes)
    ensures r == Err(NotResponsibleOrganizer) <==>
              trabalhoId.Some? && trabalhoId.value in trabalhos && avaliadorId.Some? && avaliadorId.value in participantes
              && organizadorId.Some? && organizadorId.value in participantes
              && (participantes[organizadorId.value].tipoPerfil != PerfilOrganizador
                  || eventos[trabalhos[trabalhoId.value].evento].organizadorResponsavel != organizadorId.value)
    ensures r == Err(MissingEvaluatorRole) <==>
              trabalhoId.Some? && trabalhoId.value in trabalhos && avaliadorId.Some? && avaliadorId.value in participantes
              && organizadorId.Some? && organizadorId.value in participantes
              && participantes[organizadorId.value].tipoPerfil == PerfilOrganizador
              && eventos[trabalhos[trabalhoId.value].evento].organizadorResponsavel == organizadorId.value
              && participantes[avaliadorId.value].tipoPerfil != PerfilAvaliador
    ensures r.Err? ==> r.error in {NotFound(Work), NotFound(Evaluator), NotFound(Organizer),
                                   NotResponsibleOrganizer, MissingEvaluatorRole}
    ensures r.Ok? <==>
              trabalhoId.Some? && trabalhoId.value in trabalhos && avaliadorId.Some? && avaliadorId.value in participantes
              && organizadorId.Some? && organizadorId.value in participantes
              && participantes[organizadorId.value].tipoPerfil == PerfilOrganizador
              && eventos[trabalhos[trabalhoId.value].evento].organizadorResponsavel == organizadorId.value
              && participantes[avaliadorId.value].tipoPerfil == PerfilAvaliador
    ensures r.Ok? ==> var t := trabalhos[trabalhoId.value];
                      && r.value.status == (if t.status == Submetido then EmAvaliacao else t.status)
                      && r.value == t.(status := r.value.status)
  {
    if trabalhoId.None? || trabalhoId.value !in trabalhos then Err(NotFound(Work))
    else if avaliadorId.None? || avaliadorId.value !in participantes then Err(NotFound(Evaluator))
    else if organizadorId.None? || organizadorId.value !in participantes then Err(NotFound(Organizer))
    else
      var t := trabalhos[trabalhoId.value];
      if participantes[organizadorId.value].tipoPerfil != PerfilOrganizador
         || eventos[t.evento].organizadorResponsavel != organizadorId.value then Err(NotResponsibleOrganizer)
      else if participantes[avaliadorId.value].tipoPerfil != PerfilAvaliador then Err(MissingEvaluatorRole)
      else if t.status == Submetido then Ok(SetStatus(t, EmAvaliacao))
      else Ok(t)
  }

  /** Designating again, once the first designation is stored, gives the same work:
      the operation is idempotent. */
  lemma {:induction false} DesignacaoIdempotente(eventos: map<Id, Evento>, trabalhos: map<Id, Trabalho>,
                                                 participantes: map<Id, Participante>,
                                                 trabalhoId: Option<Id>, avaliadorId: Option<Id>, organizadorId: Option<Id>)
    requires TrabalhosIntegros(eventos, trabalhos)
    requires Designacao(eventos, trabalhos, participantes, trabalhoId, avaliadorId, organizadorId).Ok?
    ensures var t := Designacao(eventos, trabalhos, participantes, trabalhoId, avaliadorId, organizadorId).value;
            && TrabalhosIntegros(eventos, trabalhos[trabalhoId.value := t])
            && Designacao(eventos, trabalhos[trabalhoId.value := t], participantes, trabalhoId, avaliadorId, organizadorId) == Ok(t)
  {
    var t := Designacao(eventos, trabalhos, participantes, trabalhoId, avaliadorId, organizadorId).value;
    assert t.evento == trabalhos[trabalhoId.value].evento;
    var trabalhos' := trabalhos[trabalhoId.value := t];
    assert TrabalhosIntegros(eventos, trabalhos');
    assert t.status != Submetido;
  }

  /** The outcome of atualizarStatusTrabalho: an unknown work is refused; any stored
      work takes any status, with no transition rule and no permission check. */
  function NovoStatus(trabalhos: map<Id, Trabalho>, trabalhoId: Option<Id>, novoStatus: StatusTrabalho): (r: Result<Trabalho>)
    ensures trabalhoId.None? || trabalhoId.value !in trabalhos <==> r.Err?
    ensures r.Err? ==> r.error == NotFound(Work)
    ensures r.Ok? ==> r.value.status == novoStatus
                      && r.value == trabalhos[trabalhoId.value].(status := novoStatus)
  {
    if trabalhoId.None? || trabalhoId.value !in trabalhos then Err(NotFound(Work))
    else Ok(SetStatus(trabalhos[trabalhoId.value], novoStatus))
  }

  /** Any status can be reached from any other: even a presented work can be sent back
      to SUBMETIDO. */
  lemma QualquerTransicao(trabalhos: map<Id, Trabalho>, k: Id, de: StatusTrabalho, para: StatusTrabalho)
    requires k in trabalhos && trabalhos[k].status == de
    ensures NovoStatus(trabalhos, Some(k), para) == Ok(trabalhos[k].(status := para))
  {
  }

  class TrabalhoController {
    const trabalhoRepository: Repository<Trabalho>
    const eventoRepository: Repository<Evento>
    const participanteRepository: Repository<Participante>
    const inscricaoRepository: Repository<Inscricao.Inscricao>

    /** The stores are keyed by their entities' ids, events and works agree, and every
        work has an author. */
    ghost predicate Valid()
      reads this, trabalhoRepository, eventoRepository, participanteRepository
    {
      trabalhoRepository.Valid() && eventoRepository.Valid() && participanteRepository.Valid()
      && (forall t :: trabalhoRepository.idOf(t) == Some(t.id))
      && (forall e :: eventoRepository.idOf(e) == Some(e.id))
      && (forall p :: participanteRepository.idOf(p) == Some(p.id))
      && TrabalhosIntegros(eventoRepository.entities, trabalhoRepository.entities)
      && ComAutores(trabalhoRepository.entities)
    }

    constructor (trabalhoRepository: Repository<Trabalho>, eventoRepository: Repository<Evento>,
                 participanteRepository: Repository<Participante>, inscricaoRepository: Repository<Inscricao.Inscricao>)
      ensures this.trabalhoRepository == trabalhoRepository && this.eventoRepository == eventoRepository
      ensures this.participanteRepository == participanteRepository && this.inscricaoRepository == inscricaoRepository
    {
      this.trabalhoRepository := trabalhoRepository;
      this.eventoRepository := eventoRepository;
      this.participanteRepository := participanteRepository;
      this.inscricaoRepository := inscricaoRepository;
    }

    /** The stream that maps each author id to its stored participant: stops with
        NotFound(Author) at an unknown id, and otherwise yields the authors in order. */
    method ResolverAutores(ids: seq<Id>) returns (r: Result<seq<Participante>>)
      ensures r.Ok? <==> AutoresCadastrados(participanteRepository.entities, ids)
      ensures r.Err? ==> r.error == NotFound(Author)
      ensures r.Ok? ==> |r.value| == |ids|
                        && forall k | 0 <= k < |ids| :: r.value[k] == participanteRepository.entities[ids[k]]
    {
      var autores: seq<Participante> := [];
      var i := 0;
      while i < |ids|
        invariant 0 <= i <= |ids| && |autores| == i
        invariant forall k | 0 <= k < i :: ids[k] in participanteRepository.entities
                                           && autores[k] == participanteRepository.entities[ids[k]]
      {
        var autor := participanteRepository.FindById(Some(ids[i]));
        if autor.None? {
          return Err(NotFound(Author));
        }
        autores := autores + [autor.value];
        i := i + 1;
      }
      return Ok(autores);
    }

    /** anyMatch of isParticipanteInscritoAtivo over the authors. */
    method AlgumAutorInscrito(ev: Evento, autores: seq<Participante>) returns (b: bool)
      ensures b <==> exists k | 0 <= k < |autores| :: IsParticipanteInscritoAtivo(ev, inscricaoRepository.entities, autores[k])
    {
      var i := 0;
      while i < |autores|
        invariant 0 <= i <= |autores|
        invariant forall k | 0 <= k < i :: !IsParticipanteInscritoAtivo(ev, inscricaoRepository.entities, autores[k])
      {
        if IsParticipanteInscritoAtivo(ev, inscricaoRepository.entities, autores[i]) {
          return true;
        }
        i := i + 1;
      }
      return false;
    }

    /** submeterTrabalho: the outcome Submissao gives; on success the new work is
        appended, in place, to the stored event's list (the event is not saved again)
        and the work is stored. */
    method SubmeterTrabalho(autoresIds: Option<seq<Id>>, eventoId: Option<Id>, titulo: string, arquivo: string,
                            hoje: Day, novoId: Id) returns (r: Result<Trabalho>)
      requires Valid()
      requires novoId !in trabalhoRepository.entities
      modifies trabalhoRepository, eventoRepository
      ensures Valid()
      ensures r == Submissao(old(eventoRepository.entities), participanteRepository.entities, inscricaoRepository.entities,
                             autoresIds, eventoId, titulo, arquivo, hoje, novoId)
      ensures r.Err? ==> trabalhoRepository.entities == old(trabalhoRepository.entities)
                         && eventoRepository.entities == old(eventoRepository.entities)
      ensures r.Ok? ==> trabalhoRepository.entities == old(trabalhoRepository.entities)[novoId := r.value]
      ensures r.Ok? ==> eventoRepository.entities == old(eventoRepository.entities)[eventoId.value :=
                          old(eventoRepository.entities[eventoId.value]).(trabalhos :=
                            old(eventoRepository.entities[eventoId.value]).trabalhos + [novoId])]
    {
      var evento := eventoRepository.FindById(eventoId);
      if evento.None? {
        return Err(NotFound(Event));
      }
      var ev := evento.value;
      if !IsPeriodoSubmissaoAberto(ev, hoje) {
        return Err(SubmissionClosed);
      }
      if autoresIds.None? || |autoresIds.value| == 0 {
        return Err(NoAuthors);
      }
      var autores := ResolverAutores(autoresIds.value);
      if autores.Err? {
        return Err(autores.error);
      }
      var algum := AlgumAutorInscrito(ev, autores.value);
      AlgumInscritoPelosAutores(ev, inscricaoRepository.entities, participanteRepository.entities,
                                autoresIds.value, autores.value);
      if !algum {
        return Err(NoAuthorEnrolled);
      }
      // The authors found are the stored participants with exactly those ids.
      var novo := NovoTrabalho(novoId, titulo, arquivo, hoje, eventoId.value, autoresIds);
      r := Anexar(ev, novo.value);
    }

    /** The success step of submeterTrabalho: the work joins its event's list in place
        and is then saved. */
    method Anexar(ev: Evento, t: Trabalho) returns (r: Result<Trabalho>)
      requires Valid()
      requires ev.id in eventoRepository.entities && eventoRepository.entities[ev.id] == ev
      requires t.id !in trabalhoRepository.entities && t.evento == ev.id && |t.autores| > 0
      modifies trabalhoRepository, eventoRepository
      ensures Valid()
      ensures r == Ok(t)
      ensures trabalhoRepository.entities == old(trabalhoRepository.entities)[t.id := t]
      ensures eventoRepository.entities == old(eventoRepository.entities)[ev.id := ev.(trabalhos := ev.trabalhos + [t.id])]
    {
      var comNovo := AdicionarTrabalhoInterno(ev, Some(t.id));
      assert comNovo == Ok(ev.(trabalhos := ev.trabalhos + [t.id]));
      SelfKeyedPut(eventoRepository.entities, eventoRepository.idOf, ev.id, comNovo.value);
      SelfKeyedPut(trabalhoRepository.entities, trabalhoRepository.idOf, t.id, t);
      SubmissaoPreserva(eventoRepository.entities, trabalhoRepository.entities, t);
      eventoRepository.entities := eventoRepository.entities[ev.id := comNovo.value];
      r := trabalhoRepository.Save(Some(t));
    }

    /** designarAvaliadorParaTrabalho: the outcome Designacao gives; on success the work
        is stored with its new status. */
    method DesignarAvaliadorParaTrabalho(trabalhoId: Option<Id>, avaliadorId: Option<Id>, organizadorId: Option<Id>)
      returns (r: Result<Trabalho>)
      requires Valid()
      modifies trabalhoRepository
      ensures Valid()
      ensures r == Designacao(eventoRepository.entities, old(trabalhoRepository.entities), participanteRepository.entities,
                              trabalhoId, avaliadorId, organizadorId)
      ensures r.Err? ==> trabalhoRepository.entities == old(trabalhoRepository.entities)
      ensures r.Ok? ==> trabalhoRepository.entities == old(trabalhoRepository.entities)[trabalhoId.value := r.value]
    {
      var trabalho := trabalhoRepository.FindById(trabalhoId);
      if trabalho.None? {
        return Err(NotFound(Work));
      }
      var avaliador := participanteRepository.FindById(avaliadorId);
      if avaliador.None? {
        return Err(NotFound(Evaluator));
      }
      var organizador := participanteRepository.FindById(organizadorId);
      if organizador.None? {
        return Err(NotFound(Organizer));
      }
      var t := trabalho.value;
      if organizador.value.tipoPerfil != PerfilOrganizador
         || eventoRepository.entities[t.evento].organizadorResponsavel != organizadorId.value {
        return Err(NotResponsibleOrganizer);
      }
      if avaliador.value.tipoPerfil != PerfilAvaliador {
        return Err(MissingEvaluatorRole);
      }
      if t.status == Submetido {
        t := SetStatus(t, EmAvaliacao);
      }
      Regravar(t);
      r := Ok(t);
    }

    /** atualizarStatusTrabalho: the outcome NovoStatus gives; on success the work is
        stored with that status. The requester's id is not used. */
    method AtualizarStatusTrabalho(trabalhoId: Option<Id>, novoStatus: StatusTrabalho, responsavelId: Option<Id>)
      returns (r: Result<Trabalho>)
      requires Valid()
      modifies trabalhoRepository
      ensures Valid()
      ensures r == NovoStatus(old(trabalhoRepository.entities), trabalhoId, novoStatus)
      ensures r.Err? ==> trabalhoRepository.entities == old(trabalhoRepository.entities)
      ensures r.Ok? ==> trabalhoRepository.entities == old(trabalhoRepository.entities)[trabalhoId.value := r.value]
    {
      var trabalho := trabalhoRepository.FindById(trabalhoId);
      if trabalho.None? {
        return Err(NotFound(Work));
      }
      var t := SetStatus(trabalho.value, novoStatus);
      Regravar(t);
      r := Ok(t);
    }

    /** Saves a changed stored work that keeps its event and its authors. */
    method Regravar(t: Trabalho)
      requires Valid()
      requires t.id in trabalhoRepository.entities
      requires t.evento == trabalhoRepository.entities[t.id].evento && t.autores == trabalhoRepository.entities[t.id].autores
      modifies trabalhoRepository
      ensures Valid()
      ensures trabalhoRepository.entities == old(trabalhoRepository.entities)[t.id := t]
    {
      SelfKeyedPut(trabalhoRepository.entities, trabalhoRepository.idOf, t.id, t);
      RegravarPreserva(eventoRepository.entities, trabalhoRepository.entities, t);
      var salvo := trabalhoRepository.Save(Some(t));
    }

    /** listarTrabalhosPorEvento: the stored works of that event (none for a null id). */
    function ListarTrabalhosPorEvento(eventoId: Option<Id>): (r: set<Trabalho>)
      reads this, trabalhoRepository
      ensures forall t :: t in r <==> t in trabalhoRepository.FindAll() && eventoId == Some(t.evento)
    {
      TrabalhoRepository.FindAllByEventoId(trabalhoRepository, eventoId)
    }

    /** listarTrabalhosPorAutor: refuses a null id; otherwise the stored works that
        list that author. */
    function ListarTrabalhosPorAutor(autorId: Option<Id>): (r: Result<set<Trabalho>>)
      reads this, trabalhoRepository
      ensures autorId.None? <==> r.Err?
      ensures r.Err? ==> r.error == NullId
      ensures r.Ok? ==> forall t :: t in r.value <==> t in trabalhoRepository.FindAll() && autorId.value in t.autores
    {
      if autorId.None? then Err(NullId)
      else Ok(TrabalhoRepository.FindAllByAutorId(trabalhoRepository, autorId))
    }
  }
}

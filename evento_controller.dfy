/** controller/EventoController.java: creation and editing of events by their organizer. */
module EventoController {
  import opened Common
  import opened Text
  import opened Enums
  import opened Participante
  import opened Inscricao
  import opened Evento
  import opened BaseRepository
  import opened EventoRepository

  /** What cadastrarEvento guarantees of every event it creates. */
  predicate EventoBemFormado(ev: Evento) {
    ev.dataInicio <= ev.dataFim && ev.capacidadeMaxima > 0 && JanelaCoerente(ev)
  }

  /** The event after atualizarDetalhesEvento's setters: name and location are taken
      only when non-blank, the capacity only when positive, description and dates
      whenever supplied; nothing else changes. */
  function DetalhesAtualizados(ev: Evento, nome: Option<string>, descricao: Option<string>, dataInicio: Option<Day>,
                               dataFim: Option<Day>, local: Option<string>, capacidade: Option<int>): (r: Evento)
    ensures r.id == ev.id && r.organizadorResponsavel == ev.organizadorResponsavel
    ensures r.inscricoes == ev.inscricoes && r.trabalhos == ev.trabalhos
    ensures r.periodoSubmissaoInicio == ev.periodoSubmissaoInicio && r.periodoSubmissaoFim == ev.periodoSubmissaoFim
    ensures r.capacidadeMaxima == ev.capacidadeMaxima || r.capacidadeMaxima > 0
    ensures nome.None? && descricao.None? && dataInicio.None? && dataFim.None? && local.None? && capacidade.None? ==> r == ev
    ensures dataInicio.Some? ==> r.dataInicio == dataInicio.value
    ensures dataFim.Some? ==> r.dataFim == dataFim.value
    ensures dataInicio.None? ==> r.dataInicio == ev.dataInicio
    ensures dataFim.None? ==> r.dataFim == ev.dataFim
    ensures descricao.Some? ==> r.descricao == descricao.value
    ensures descricao.None? ==> r.descricao == ev.descricao
    ensures capacidade.Some? && capacidade.value > 0 ==> r.capacidadeMaxima == capacidade.value
    ensures !(capacidade.Some? && capacidade.value > 0) ==> r.capacidadeMaxima == ev.capacidadeMaxima
    ensures r.nome == TextoEditado(nome, ev.nome) && r.local == TextoEditado(local, ev.local)
  {
    ev.(nome := TextoEditado(nome, ev.nome),
        descricao := if descricao.Some? then descricao.value else ev.descricao,
        dataInicio := if dataInicio.Some? then dataInicio.value else ev.dataInicio,
        dataFim := if dataFim.Some? then dataFim.value else ev.dataFim,
        local := TextoEditado(local, ev.local),
        capacidadeMaxima := if capacidade.Some? && capacidade.value > 0 then capacidade.value else ev.capacidadeMaxima)
  }

  /** The guard atualizarDetalhesEvento puts on the name and the location: a supplied
      text replaces the current one only when it is not blank. */
  function TextoEditado(novo: Option<string>, atual: string): (r: string)
    ensures r == atual || !IsBlank(r)
    ensures novo.None? ==> r == atual
    ensures novo.Some? && IsBlank(novo.value) ==> r == atual
    ensures novo.Some? && !IsBlank(novo.value) ==> r == novo.value
  {
    if novo.Some? && !IsBlank(novo.value) then novo.value else atual
  }

  /** A capacity edit is not checked against the enrollments already ATIVA: lowering it
      below their number is accepted and breaks the capacity rule for that event. */
  lemma {:induction false} ReduzirCapacidadeQuebraLimite(ev: Evento, store: map<Id, Inscricao>, c: int)
    requires 0 < c < CountAtivas(ev.inscricoes, store)
    ensures !DentroDaCapacidade(DetalhesAtualizados(ev, None, None, None, None, None, Some(c)), store)
  {
    var ev' := DetalhesAtualizados(ev, None, None, None, None, None, Some(c));
    assert ev'.inscricoes == ev.inscricoes && ev'.capacidadeMaxima == c;
  }

  /** The date check comes after the setters: moving the start past the end is refused
      with InvalidEventDates, yet the event it leaves behind, which the method keeps
      stored, is no longer well formed. */
  lemma {:induction false} AdiarInicioQuebraBemFormado(eventos: map<Id, Evento>, eventoId: Id)
    requires eventoId in eventos
    ensures var ev := eventos[eventoId];
            var org := Some(ev.organizadorResponsavel);
            && Atualizacao(eventos, Some(eventoId), org, None, None, Some(ev.dataFim + 1), None, None, None)
               == Err(InvalidEventDates)
            && !EventoBemFormado(DetalhesAtualizados(ev, None, None, Some(ev.dataFim + 1), None, None, None))
  {
    var ev := eventos[eventoId];
    var ev' := DetalhesAtualizados(ev, None, None, Some(ev.dataFim + 1), None, None, None);
    assert ev'.dataInicio == ev.dataFim + 1 && ev'.dataFim == ev.dataFim;
  }

  /** The requester is a stored participant with the ORGANIZADOR profile. */
  predicate OrganizadorValido(participantes: map<Id, Participante>, organizadorId: Option<Id>) {
    organizadorId.Some? && organizadorId.value in participantes
    && participantes[organizadorId.value].tipoPerfil == PerfilOrganizador
  }

  /** Both dates are given and the start is not after the end. */
  predicate DatasValidas(dataInicio: Option<Day>, dataFim: Option<Day>) {
    dataInicio.Some? && dataFim.Some? && dataInicio.value <= dataFim.value
  }

  /** The outcome of cadastrarEvento over the stored people: refused, in this order, for
      an unknown organizer, one without the ORGANIZADOR profile, a blank name, missing
      or inverted dates, a capacity that is not positive, and (when both bounds are
      given) an inverted submission window; otherwise a new, empty, well-formed event
      whose window is set only when both bounds were given. */
  function Cadastro(participantes: map<Id, Participante>, nome: Option<string>, descricao: string,
                    dataInicio: Option<Day>, dataFim: Option<Day>, local: string, capacidadeMaxima: int,
                    organizadorId: Option<Id>, periodoSubmissaoInicio: Option<Day>, periodoSubmissaoFim: Option<Day>,
                    novoId: Id): (r: Result<Evento>)
    ensures r.Err? ==> r.error in {NotFound(Organizer), MissingOrganizerRole, BlankName, InvalidEventDates,
                                   NonPositiveCapacity, InvalidSubmissionWindow}
    ensures organizadorId.None? || organizadorId.value !in participantes <==> r == Err(NotFound(Organizer))
    ensures r == Err(MissingOrganizerRole) <==>
              organizadorId.Some? && organizadorId.value in participantes
              && participantes[organizadorId.value].tipoPerfil != PerfilOrganizador
    ensures r == Err(BlankName) <==>
              OrganizadorValido(participantes, organizadorId) && (nome.None? || IsBlank(nome.value))
    ensures r == Err(InvalidEventDates) <==>
              OrganizadorValido(participantes, organizadorId) && nome.Some? && !IsBlank(nome.value)
              && !DatasValidas(dataInicio, dataFim)
    ensures r == Err(NonPositiveCapacity) <==>
              OrganizadorValido(participantes, organizadorId) && nome.Some? && !IsBlank(nome.value)
              && DatasValidas(dataInicio, dataFim) && capacidadeMaxima <= 0
    ensures r == Err(InvalidSubmissionWindow) <==>
              OrganizadorValido(participantes, organizadorId) && nome.Some? && !IsBlank(nome.value)
              && DatasValidas(dataInicio, dataFim) && capacidadeMaxima > 0
              && periodoSubmissaoInicio.Some? && periodoSubmissaoFim.Some?
              && periodoSubmissaoInicio.value > periodoSubmissaoFim.value
    ensures r.Ok? <==>
              OrganizadorValido(participantes, organizadorId) && nome.Some? && !IsBlank(nome.value)
              && DatasValidas(dataInicio, dataFim) && capacidadeMaxima > 0
              && !(periodoSubmissaoInicio.Some? && periodoSubmissaoFim.Some?
                   && periodoSubmissaoInicio.value > periodoSubmissaoFim.value)
    ensures r.Ok? ==> nome.Some? && !IsBlank(nome.value) && dataInicio.Some? && dataFim.Some? && organizadorId.Some?
    ensures r.Ok? ==> EventoBemFormado(r.value)
    ensures r.Ok? ==> r.value.id == novoId && r.value.nome == nome.value && r.value.organizadorResponsavel == organizadorId.value
    ensures r.Ok? ==> r.value.dataInicio == dataInicio.value && r.value.dataFim == dataFim.value
    ensures r.Ok? ==> r.value.capacidadeMaxima == capacidadeMaxima && r.value.descricao == descricao && r.value.local == local
    ensures r.Ok? ==> r.value.inscricoes == [] && r.value.trabalhos == []
    ensures r.Ok? ==> if periodoSubmissaoInicio.Some? && periodoSubmissaoFim.Some?
                      then r.value.periodoSubmissaoInicio == periodoSubmissaoInicio
                           && r.value.periodoSubmissaoFim == periodoSubmissaoFim
                      else r.value.periodoSubmissaoInicio.None? && r.value.periodoSubmissaoFim.None?
  {
    if organizadorId.None? || organizadorId.value !in participantes then Err(NotFound(Organizer))
    else if participantes[organizadorId.value].tipoPerfil != PerfilOrganizador then Err(MissingOrganizerRole)
    else if nome.None? || IsBlank(nome.value) then Err(BlankName)
    else if dataInicio.None? || dataFim.None? || dataInicio.value > dataFim.value then Err(InvalidEventDates)
    else if capacidadeMaxima <= 0 then Err(NonPositiveCapacity)
    else
      var novoEvento := NovoEvento(novoId, nome.value, descricao, dataInicio.value, dataFim.value, local,
                                   capacidadeMaxima, organizadorId.value);
      if periodoSubmissaoInicio.Some? && periodoSubmissaoFim.Some?
      then SetPeriodoSubmissao(novoEvento, periodoSubmissaoInicio, periodoSubmissaoFim)
      else Ok(novoEvento)
  }

  /** The outcome of atualizarDetalhesEvento over the stored events: refused for an
      unknown event and for a requester other than its organizer; otherwise the event
      with the supplied details, or InvalidEventDates when those details leave its start
      after its end. */
  function Atualizacao(eventos: map<Id, Evento>, eventoId: Option<Id>, organizadorIdVerificacao: Option<Id>,
                       nome: Option<string>, descricao: Option<string>, dataInicio: Option<Day>, dataFim: Option<Day>,
                       local: Option<string>, capacidade: Option<int>): (r: Result<Evento>)
    ensures eventoId.None? || eventoId.value !in eventos <==> r == Err(NotFound(Event))
    ensures r == Err(NotResponsibleOrganizer) <==>
              eventoId.Some? && eventoId.value in eventos
              && Some(eventos[eventoId.value].organizadorResponsavel) != organizadorIdVerificacao
    ensures r.Ok? || r.error == InvalidEventDates <==>
              eventoId.Some? && eventoId.value in eventos
              && Some(eventos[eventoId.value].organizadorResponsavel) == organizadorIdVerificacao
    ensures r == Err(InvalidEventDates) <==>
              eventoId.Some? && eventoId.value in eventos
              && Some(eventos[eventoId.value].organizadorResponsavel) == organizadorIdVerificacao
              && var ev := DetalhesAtualizados(eventos[eventoId.value], nome, descricao, dataInicio, dataFim, local, capacidade);
                 ev.dataInicio > ev.dataFim
    ensures r.Ok? ==> r.value == DetalhesAtualizados(eventos[eventoId.value], nome, descricao, dataInicio, dataFim, local, capacidade)
                      && r.value.dataInicio <= r.value.dataFim
  {
    if eventoId.None? || eventoId.value !in eventos then Err(NotFound(Event))
    else if Some(eventos[eventoId.value].organizadorResponsavel) != organizadorIdVerificacao then Err(NotResponsibleOrganizer)
    else
      var ev := DetalhesAtualizados(eventos[eventoId.value], nome, descricao, dataInicio, dataFim, local, capacidade);
      if ev.dataInicio > ev.dataFim then Err(InvalidEventDates) else Ok(ev)
  }

  class EventoController {
    const eventoRepository: Repository<Evento>
    const participanteRepository: Repository<Participante>

    /** Both stores are keyed by their entities' ids. */
    ghost predicate Valid()
      reads this, eventoRepository, participanteRepository
    {
      eventoRepository.Valid() && participanteRepository.Valid()
      && (forall e :: eventoRepository.idOf(e) == Some(e.id))
      && (forall p :: participanteRepository.idOf(p) == Some(p.id))
    }

    /** Every stored event satisfies EventoBemFormado. */
    ghost predicate EventosBemFormados()
      reads this, eventoRepository
    {
      forall k | k in eventoRepository.entities :: EventoBemFormado(eventoRepository.entities[k])
    }

    constructor (eventoRepository: Repository<Evento>, participanteRepository: Repository<Participante>)
      ensures this.eventoRepository == eventoRepository && this.participanteRepository == participanteRepository
    {
      this.eventoRepository := eventoRepository;
      this.participanteRepository := participanteRepository;
    }

    /** cadastrarEvento: refuses, in this order, an unknown organizer, one without the
        ORGANIZADOR profile, a blank name, missing or inverted dates, a capacity that is
        not positive, and (when both bounds are given) an inverted submission window.
        Otherwise stores a new, empty event whose window is set only when both bounds
        were given. */
    method CadastrarEvento(nome: Option<string>, descricao: string, dataInicio: Option<Day>, dataFim: Option<Day>,
                           local: string, capacidadeMaxima: int, organizadorId: Option<Id>,
                           periodoSubmissaoInicio: Option<Day>, periodoSubmissaoFim: Option<Day>, novoId: Id)
      returns (r: Result<Evento>)
      requires Valid()
      requires novoId !in eventoRepository.entities
      modifies eventoRepository
      ensures Valid()
      ensures r == Cadastro(participanteRepository.entities, nome, descricao, dataInicio, dataFim, local,
                            capacidadeMaxima, organizadorId, periodoSubmissaoInicio, periodoSubmissaoFim, novoId)
      ensures r.Err? ==> eventoRepository.entities == old(eventoRepository.entities)
      ensures r.Ok? ==> eventoRepository.entities == old(eventoRepository.entities)[novoId := r.value]
      ensures old(EventosBemFormados()) ==> EventosBemFormados()
    {
      // The checks are the pure outcome Cadastro; only a new event reaches the store.
      r := Cadastro(participanteRepository.entities, nome, descricao, dataInicio, dataFim, local,
                    capacidadeMaxima, organizadorId, periodoSubmissaoInicio, periodoSubmissaoFim, novoId);
      if r.Ok? {
        SelfKeyedPut(eventoRepository.entities, eventoRepository.idOf, novoId, r.value);
        r := eventoRepository.Save(Some(r.value));
      }
    }

    /** getEventoById: a null id is refused; otherwise the lookup's result. */
    function GetEventoById(id: Option<Id>): (r: Result<Option<Evento>>)
      reads this, eventoRepository
      ensures id.None? <==> r == Err(NullId)
      ensures id.Some? <==> r.Ok?
      ensures r.Ok? ==> (r.value.Some? <==> id.value in eventoRepository.entities)
      ensures r.Ok? && r.value.Some? ==> r.value.value in eventoRepository.FindAll()
      ensures Valid() && r.Ok? && r.value.Some? ==> r.value.value.id == id.value
    {
      if id.None? then Err(NullId)
      else Ok(eventoRepository.FindById(id))
    }

    /** definirPeriodoSubmissao: refuses an unknown event and a requester other than
        its responsible organizer; then applies setPeriodoSubmissao, whose refusal of
        an inverted window leaves the event as it was. */
    method DefinirPeriodoSubmissao(eventoId: Option<Id>, organizadorIdVerificacao: Option<Id>,
                                   inicio: Option<Day>, fim: Option<Day>) returns (r: Result<Evento>)
      requires Valid()
      modifies eventoRepository
      ensures Valid()
      ensures !old(eventoRepository.ExistsById(eventoId)) ==> r == Err(NotFound(Event))
      ensures old(eventoRepository.ExistsById(eventoId))
              && Some(old(eventoRepository.entities[eventoId.value]).organizadorResponsavel) != organizadorIdVerificacao
              ==> r == Err(NotResponsibleOrganizer)
      ensures r.Err? ==> eventoRepository.entities == old(eventoRepository.entities)
      ensures r.Ok? ==> old(eventoRepository.ExistsById(eventoId))
                        && Some(old(eventoRepository.entities[eventoId.value]).organizadorResponsavel) == organizadorIdVerificacao
      ensures r.Ok? || r.error in {NotFound(Event), NotResponsibleOrganizer, InvalidSubmissionWindow}
      ensures r.Ok? || r.error == InvalidSubmissionWindow <==>
                old(eventoRepository.ExistsById(eventoId))
                && Some(old(eventoRepository.entities[eventoId.value]).organizadorResponsavel) == organizadorIdVerificacao
      ensures r.Ok? || r.error == InvalidSubmissionWindow ==>
                r == SetPeriodoSubmissao(old(eventoRepository.entities[eventoId.value]), inicio, fim)
      ensures r.Ok? ==> eventoRepository.entities == old(eventoRepository.entities)[eventoId.value := r.value]
      ensures old(EventosBemFormados()) ==> EventosBemFormados()
    {
      var evento := eventoRepository.FindById(eventoId);
      if evento.None? {
        return Err(NotFound(Event));
      }
      if Some(evento.value.organizadorResponsavel) != organizadorIdVerificacao {
        return Err(NotResponsibleOrganizer);
      }
      var atualizado := SetPeriodoSubmissao(evento.value, inicio, fim);
      if atualizado.Err? {
        return atualizado;
      }
      r := eventoRepository.Save(Some(atualizado.value));
    }

    /** atualizarDetalhesEvento: refuses an unknown event and a requester other than
        its organizer. Otherwise the supplied fields are written into the stored event
        in place; the final check of start against end then throws, but the written
        fields stay, so an event whose start is after its end can remain stored. */
    method AtualizarDetalhesEvento(eventoId: Option<Id>, organizadorIdVerificacao: Option<Id>, nome: Option<string>,
                                   descricao: Option<string>, dataInicio: Option<Day>, dataFim: Option<Day>,
                                   local: Option<string>, capacidade: Option<int>) returns (r: Result<Evento>)
      requires Valid()
      modifies eventoRepository
      ensures Valid()
      ensures r == Atualizacao(old(eventoRepository.entities), eventoId, organizadorIdVerificacao, nome, descricao,
                               dataInicio, dataFim, local, capacidade)
      ensures r.Ok? || r == Err(InvalidEventDates) ==>
                eventoRepository.entities == old(eventoRepository.entities)[eventoId.value :=
                  DetalhesAtualizados(old(eventoRepository.entities[eventoId.value]), nome, descricao, dataInicio,
                                      dataFim, local, capacidade)]
      ensures !(r.Ok? || r == Err(InvalidEventDates)) ==> eventoRepository.entities == old(eventoRepository.entities)
    {
      var evento := eventoRepository.FindById(eventoId);
      if evento.None? {
        return Err(NotFound(Event));
      }
      if Some(evento.value.organizadorResponsavel) != organizadorIdVerificacao {
        return Err(NotResponsibleOrganizer);
      }
      r := AplicarDetalhes(evento.value, nome, descricao, dataInicio, dataFim, local, capacidade);
    }

    /** The part of atualizarDetalhesEvento after its guards: the setters, the date
        check and the final save. */
    method AplicarDetalhes(ev: Evento, nome: Option<string>, descricao: Option<string>, dataInicio: Option<Day>,
                           dataFim: Option<Day>, local: Option<string>, capacidade: Option<int>) returns (r: Result<Evento>)
      requires Valid() && ev.id in eventoRepository.entities
      modifies eventoRepository
      ensures Valid()
      ensures var novo := DetalhesAtualizados(ev, nome, descricao, dataInicio, dataFim, local, capacidade);
              && eventoRepository.entities == old(eventoRepository.entities)[ev.id := novo]
              && r == (if novo.dataInicio > novo.dataFim then Err(InvalidEventDates) else Ok(novo))
    {
      var atualizado := DetalhesAtualizados(ev, nome, descricao, dataInicio, dataFim, local, capacidade);
      // The setters act on the very object the store holds, so the edits stay even
      // when the date check below fails.
      Regravar(atualizado);
      ghost var alvo := eventoRepository.entities;
      if atualizado.dataInicio > atualizado.dataFim {
        return Err(InvalidEventDates);
      }
      assert eventoRepository.idOf(atualizado) == Some(ev.id);
      assert alvo[ev.id := atualizado] == alvo;
      r := eventoRepository.Save(Some(atualizado));
    }

    /** An in-place change to a stored event: the store holds the changed event under
        its id, and nothing else changes. */
    method Regravar(ev: Evento)
      requires Valid() && ev.id in eventoRepository.entities
      modifies eventoRepository
      ensures Valid()
      ensures eventoRepository.entities == old(eventoRepository.entities)[ev.id := ev]
    {
      SelfKeyedPut(eventoRepository.entities, eventoRepository.idOf, ev.id, ev);
      eventoRepository.entities := eventoRepository.entities[ev.id := ev];
    }

    /** listarEventosPorOrganizador: refuses a null id and an id that is unknown or not
        an ORGANIZADOR; otherwise the events that person is responsible for. */
    function ListarEventosPorOrganizador(organizadorId: Option<Id>): (r: Result<set<Evento>>)
      reads this, eventoRepository, participanteRepository
      ensures organizadorId.None? <==> r == Err(NullId)
      ensures organizadorId.Some? ==>
                (r == Err(NotFound(Organizer)) <==>
                 !participanteRepository.ExistsById(organizadorId)
                 || participanteRepository.entities[organizadorId.value].tipoPerfil != PerfilOrganizador)
      ensures r.Ok? <==> OrganizadorValido(participanteRepository.entities, organizadorId)
      ensures r.Ok? ==> forall e :: e in r.value <==> e in eventoRepository.FindAll() && e.organizadorResponsavel == organizadorId.value
    {
      if organizadorId.None? then Err(NullId)
      else
        var organizador := participanteRepository.FindById(organizadorId);
        if organizador.None? || organizador.value.tipoPerfil != PerfilOrganizador then Err(NotFound(Organizer))
        else Ok(FindAllByOrganizadorId(eventoRepository, organizadorId))
    }
  }
}

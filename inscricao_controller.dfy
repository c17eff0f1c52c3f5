/** controller/InscricaoController.java: enrolment, cancellation and attendance.
    The event's list of enrollments and the enrollment store hold the same records,
    so a status written through the store is what the event's capacity test counts. */
module InscricaoController {
  import opened Common
  import opened Enums
  import opened Participante
  import opened Inscricao
  import opened Evento
  import opened BaseRepository
  import InscricaoRepository

  /** Every enrollment an event lists is stored, and every stored enrollment's event
      is stored. */
  predicate Integra(eventos: map<Id, Evento>, inscricoes: map<Id, Inscricao>) {
    (forall e, k | e in eventos && k in eventos[e].inscricoes :: k in inscricoes)
    && (forall k | k in inscricoes :: inscricoes[k].evento in eventos)
  }

  /** The capacity rule: no event lists more ATIVA enrollments than its capacity. */
  predicate CapacidadeRespeitada(eventos: map<Id, Evento>, inscricoes: map<Id, Inscricao>) {
    forall e | e in eventos :: DentroDaCapacidade(eventos[e], inscricoes)
  }

  /** Some stored enrollment of participant p in event e is ATIVA. */
  predicate AtivaNoPar(inscricoes: map<Id, Inscricao>, p: Id, e: Id) {
    exists k | k in inscricoes :: inscricoes[k].participante == p && inscricoes[k].evento == e && inscricoes[k].status == Ativa
  }

  /** Some stored enrollment of participant p in event e is not ATIVA. */
  predicate InativaNoPar(inscricoes: map<Id, Inscricao>, p: Id, e: Id) {
    exists k | k in inscricoes :: inscricoes[k].participante == p && inscricoes[k].evento == e && inscricoes[k].status != Ativa
  }

  /** A fresh enrollment is listed by no event of an integral store. */
  lemma NovaForaDasListas(eventos: map<Id, Evento>, inscricoes: map<Id, Inscricao>, novoId: Id, e: Id)
    requires Integra(eventos, inscricoes) && novoId !in inscricoes && e in eventos
    ensures novoId !in eventos[e].inscricoes
  {
  }

  /** Storing a fresh ATIVA enrollment leaves the count of a list without it unchanged,
      and raises by one the count of that list with the enrollment appended. */
  lemma {:induction false} ContagemAoInscrever(ids: seq<Id>, inscricoes: map<Id, Inscricao>, nova: Inscricao)
    requires nova.id !in ids && nova.status == Ativa
    ensures CountAtivas(ids, inscricoes[nova.id := nova]) == CountAtivas(ids, inscricoes)
    ensures CountAtivas(ids + [nova.id], inscricoes[nova.id := nova]) == CountAtivas(ids, inscricoes) + 1
  {
    CountAtivasUnchanged(ids, inscricoes, inscricoes[nova.id := nova]);
    CountAtivasAppend(ids, nova.id, inscricoes[nova.id := nova]);
  }

  /** Replacing a stored enrollment by one of the same event keeps the stores integral. */
  lemma RegravarIntegra(eventos: map<Id, Evento>, inscricoes: map<Id, Inscricao>, v: Inscricao)
    requires Integra(eventos, inscricoes)
    requires v.id in inscricoes && v.evento == inscricoes[v.id].evento
    ensures Integra(eventos, inscricoes[v.id := v])
  {
  }

  /** Enrolling a fresh ATIVA enrollment in a stored event keeps the stores integral. */
  lemma InscreverIntegra(eventos: map<Id, Evento>, inscricoes: map<Id, Inscricao>, eid: Id, nova: Inscricao)
    requires Integra(eventos, inscricoes)
    requires eid in eventos && nova.evento == eid
    ensures Integra(eventos[eid := eventos[eid].(inscricoes := eventos[eid].inscricoes + [nova.id])],
                    inscricoes[nova.id := nova])
  {
  }

  /** Enrolling a fresh ATIVA enrollment in an event that is not full raises that
      event's ATIVA count by exactly one, leaves every other event's count alone, and
      so keeps the capacity rule. */
  lemma {:induction false} InscreverPreserva(eventos: map<Id, Evento>, inscricoes: map<Id, Inscricao>, eid: Id, nova: Inscricao)
    requires Integra(eventos, inscricoes)
    requires eid in eventos && nova.id !in inscricoes && nova.evento == eid && nova.status == Ativa
    requires !IsLotado(eventos[eid], inscricoes)
    ensures var eventos' := eventos[eid := eventos[eid].(inscricoes := eventos[eid].inscricoes + [nova.id])];
            var inscricoes' := inscricoes[nova.id := nova];
            && CountAtivas(eventos'[eid].inscricoes, inscricoes') == CountAtivas(eventos[eid].inscricoes, inscricoes) + 1
            && DentroDaCapacidade(eventos'[eid], inscricoes')
            && (forall e | e in eventos && e != eid ::
                  CountAtivas(eventos'[e].inscricoes, inscricoes') == CountAtivas(eventos[e].inscricoes, inscricoes))
            && (CapacidadeRespeitada(eventos, inscricoes) ==> CapacidadeRespeitada(eventos', inscricoes'))
  {
    var eventos' := eventos[eid := eventos[eid].(inscricoes := eventos[eid].inscricoes + [nova.id])];
    var inscricoes' := inscricoes[nova.id := nova];
    forall e | e in eventos
      ensures CountAtivas(eventos[e].inscricoes, inscricoes') == CountAtivas(eventos[e].inscricoes, inscricoes)
    {
      NovaForaDasListas(eventos, inscricoes, nova.id, e);
      ContagemAoInscrever(eventos[e].inscricoes, inscricoes, nova);
    }
    ContagemAoInscrever(eventos[eid].inscricoes, inscricoes, nova);
  }

  /** Replacing a stored enrollment by one of the same event that is ATIVA only if the
      old one was keeps the stores integral, never raises an event's ATIVA count, and
      so keeps the capacity rule. */
  lemma {:induction false} AtualizarSemNovaAtivaPreserva(eventos: map<Id, Evento>, inscricoes: map<Id, Inscricao>, k: Id, v: Inscricao)
    requires Integra(eventos, inscricoes)
    requires k in inscricoes && v.evento == inscricoes[k].evento
    requires v.status == Ativa ==> inscricoes[k].status == Ativa
    ensures Integra(eventos, inscricoes[k := v])
    ensures forall e | e in eventos :: CountAtivas(eventos[e].inscricoes, inscricoes[k := v]) <= CountAtivas(eventos[e].inscricoes, inscricoes)
    ensures CapacidadeRespeitada(eventos, inscricoes) ==> CapacidadeRespeitada(eventos, inscricoes[k := v])
  {
    forall e | e in eventos
      ensures CountAtivas(eventos[e].inscricoes, inscricoes[k := v]) <= CountAtivas(eventos[e].inscricoes, inscricoes)
    {
      CountAtivasMonotone(eventos[e].inscricoes, inscricoes, inscricoes[k := v]);
    }
  }

  /** Cancelling an ATIVA enrollment that its event lists frees exactly one place there. */
  lemma {:induction false} CancelarLiberaVaga(eventos: map<Id, Evento>, inscricoes: map<Id, Inscricao>, k: Id)
    requires k in inscricoes && inscricoes[k].status == Ativa
    requires inscricoes[k].evento in eventos && k in eventos[inscricoes[k].evento].inscricoes
    ensures var ids := eventos[inscricoes[k].evento].inscricoes;
            CountAtivas(ids, inscricoes[k := SetStatus(inscricoes[k], Cancelada)]) < CountAtivas(ids, inscricoes)
  {
    var store' := inscricoes[k := SetStatus(inscricoes[k], Cancelada)];
    var ids := eventos[inscricoes[k].evento].inscricoes;
    assert EstaAtiva(k, inscricoes) && !EstaAtiva(k, store');
    CountAtivasMonotone(ids, inscricoes, store');
  }

  /** What findByParticipanteIdAndEventoId may answer for the pair: nothing when no
      stored enrollment matches both ids, otherwise any one of the matches. */
  predicate RespostaDaConsulta(inscricoes: map<Id, Inscricao>, p: Id, e: Id, consulta: Option<Inscricao>) {
    if consulta.None? then
      forall i | i in inscricoes.Values :: !(i.participante == p && i.evento == e)
    else
      consulta.value in inscricoes.Values && consulta.value.participante == p && consulta.value.evento == e
  }

  /** realizarInscricao's outcome on the stores, given the lookup's answer: the checks
      in the source's order, then the new ATIVA, unconfirmed enrollment. */
  function Inscrever(participantes: map<Id, Participante>, eventos: map<Id, Evento>, inscricoes: map<Id, Inscricao>,
                     participanteId: Option<Id>, eventoId: Option<Id>, consulta: Option<Inscricao>,
                     hoje: Day, novoId: Id): (r: Result<Inscricao>)
    ensures r.Err? ==> r.error in {NotFound(Participant), NotFound(Event), EventFull, AlreadyEnrolled}
    ensures participanteId.None? || participanteId.value !in participantes <==> r == Err(NotFound(Participant))
    ensures r == Err(NotFound(Event)) <==>
              participanteId.Some? && participanteId.value in participantes
              && (eventoId.None? || eventoId.value !in eventos)
    ensures r == Err(EventFull) <==>
              participanteId.Some? && participanteId.value in participantes
              && eventoId.Some? && eventoId.value in eventos
              && IsLotado(eventos[eventoId.value], inscricoes)
    ensures r == Err(AlreadyEnrolled) <==>
              participanteId.Some? && participanteId.value in participantes
              && eventoId.Some? && eventoId.value in eventos
              && !IsLotado(eventos[eventoId.value], inscricoes)
              && consulta.Some? && consulta.value.status == Ativa
    ensures r.Ok? <==>
              participanteId.Some? && participanteId.value in participantes
              && eventoId.Some? && eventoId.value in eventos
              && !IsLotado(eventos[eventoId.value], inscricoes)
              && !(consulta.Some? && consulta.value.status == Ativa)
    ensures r.Ok? ==> r.value == NovaInscricao(novoId, hoje, eventoId.value, participanteId.value)
  {
    if participanteId.None? || participanteId.value !in participantes then Err(NotFound(Participant))
    else if eventoId.None? || eventoId.value !in eventos then Err(NotFound(Event))
    else if IsLotado(eventos[eventoId.value], inscricoes) then Err(EventFull)
    else if consulta.Some? && consulta.value.status == Ativa then Err(AlreadyEnrolled)
    else Ok(NovaInscricao(novoId, hoje, eventoId.value, participanteId.value))
  }

  /** The duplicate check, for every answer the lookup may give: a refusal as duplicate
      means an ATIVA enrollment of the pair exists; with none, enrolment goes through
      (event found and not full); and a success despite an ATIVA one needs a
      non-ATIVA one beside it for the lookup to have returned. */
  lemma {:induction false} DuplicataDetectada(participantes: map<Id, Participante>, eventos: map<Id, Evento>,
                                              inscricoes: map<Id, Inscricao>, p: Id, e: Id,
                                              consulta: Option<Inscricao>, hoje: Day, novoId: Id)
    requires RespostaDaConsulta(inscricoes, p, e, consulta)
    ensures var r := Inscrever(participantes, eventos, inscricoes, Some(p), Some(e), consulta, hoje, novoId);
            && (r == Err(AlreadyEnrolled) ==> AtivaNoPar(inscricoes, p, e))
            && (p in participantes && e in eventos && !IsLotado(eventos[e], inscricoes) && !AtivaNoPar(inscricoes, p, e)
                ==> r.Ok?)
            && (r.Ok? && AtivaNoPar(inscricoes, p, e) ==> InativaNoPar(inscricoes, p, e))
  {
    if consulta.Some? {
      var k :| k in inscricoes && inscricoes[k] == consulta.value;
      assert inscricoes[k].participante == p && inscricoes[k].evento == e;
    }
  }

  /** The ATIVA enrollments of participant p in event e. */
  function AtivasDoPar(inscricoes: map<Id, Inscricao>, p: Id, e: Id): set<Id> {
    set k | k in inscricoes && inscricoes[k].participante == p && inscricoes[k].evento == e && inscricoes[k].status == Ativa
  }

  /** One ATIVA enrollment per (participant, event) is not guaranteed: after a cancel
      and a re-enrolment, the lookup may return the cancelled enrollment, the
      enrolment succeeds, and the pair ends with two ATIVA enrollments. */
  lemma {:induction false} SegundaAtivaPossivel(participantes: map<Id, Participante>, eventos: map<Id, Evento>,
                                                inscricoes: map<Id, Inscricao>, ativa: Id, cancelada: Id, hoje: Day, novoId: Id)
    requires ativa in inscricoes && cancelada in inscricoes && novoId !in inscricoes
    requires inscricoes[ativa].status == Ativa && inscricoes[cancelada].status == Cancelada
    requires inscricoes[cancelada].participante == inscricoes[ativa].participante
    requires inscricoes[cancelada].evento == inscricoes[ativa].evento
    requires inscricoes[ativa].participante in participantes && inscricoes[ativa].evento in eventos
    requires !IsLotado(eventos[inscricoes[ativa].evento], inscricoes)
    ensures var p, e := inscricoes[ativa].participante, inscricoes[ativa].evento;
            var r := Inscrever(participantes, eventos, inscricoes, Some(p), Some(e), Some(inscricoes[cancelada]), hoje, novoId);
            && RespostaDaConsulta(inscricoes, p, e, Some(inscricoes[cancelada]))
            && r.Ok?
            && |AtivasDoPar(inscricoes[novoId := r.value], p, e)| >= 2
  {
    var p, e := inscricoes[ativa].participante, inscricoes[ativa].evento;
    var r := Inscrever(participantes, eventos, inscricoes, Some(p), Some(e), Some(inscricoes[cancelada]), hoje, novoId);
    assert inscricoes[cancelada] in inscricoes.Values;
    var depois := AtivasDoPar(inscricoes[novoId := r.value], p, e);
    assert {ativa, novoId} <= depois;
    assert |{ativa, novoId}| == 2;
    SubsetSize({ativa, novoId}, depois);
  }

  /** Cardinality helper for SegundaAtivaPossivel: a subset is no larger than its
      superset, so the two ATIVA enrollments found bound the pair's count from below. */
  lemma SubsetSize<T>(a: set<T>, b: set<T>)
    requires a <= b
    ensures |a| <= |b|
  {
    assert b == a + (b - a);
  }

  /** cancelarInscricao's outcome: an unknown enrollment, then one podeCancelar rejects
      against its event's start; otherwise the enrollment marked CANCELADA. */
  function Cancelar(eventos: map<Id, Evento>, inscricoes: map<Id, Inscricao>, inscricaoId: Option<Id>, hoje: Day)
    : (r: Result<Inscricao>)
    requires Integra(eventos, inscricoes)
    ensures inscricaoId.None? || inscricaoId.value !in inscricoes <==> r == Err(NotFound(Enrollment))
    ensures r.Err? ==> r.error in {NotFound(Enrollment), CancellationNotAllowed}
    ensures inscricaoId.Some? && inscricaoId.value in inscricoes ==>
              (r.Ok? <==> PodeCancelar(inscricoes[inscricaoId.value],
                                       eventos[inscricoes[inscricaoId.value].evento].dataInicio, hoje))
    ensures r.Ok? ==> inscricaoId.Some? && inscricaoId.value in inscricoes
                      && inscricoes[inscricaoId.value].status == Ativa
                      && hoje <= eventos[inscricoes[inscricaoId.value].evento].dataInicio - DiasAntecedenciaParaCancelamento
                      && r.value == inscricoes[inscricaoId.value].(status := Cancelada)
  {
    if inscricaoId.None? || inscricaoId.value !in inscricoes then Err(NotFound(Enrollment))
    else
      var i := inscricoes[inscricaoId.value];
      if !PodeCancelar(i, eventos[i.evento].dataInicio, hoje) then Err(CancellationNotAllowed)
      else Ok(SetStatus(i, Cancelada))
  }

  /** A successful cancellation keeps the stores integral and the capacity rule, and
      frees a place in the event that lists the enrollment. */
  lemma {:induction false} CancelarPreserva(eventos: map<Id, Evento>, inscricoes: map<Id, Inscricao>, inscricaoId: Option<Id>, hoje: Day)
    requires Integra(eventos, inscricoes)
    requires Cancelar(eventos, inscricoes, inscricaoId, hoje).Ok?
    ensures var k, v := inscricaoId.value, Cancelar(eventos, inscricoes, inscricaoId, hoje).value;
            && Integra(eventos, inscricoes[k := v])
            && (CapacidadeRespeitada(eventos, inscricoes) ==> CapacidadeRespeitada(eventos, inscricoes[k := v]))
            && (k in eventos[v.evento].inscricoes ==>
                  CountAtivas(eventos[v.evento].inscricoes, inscricoes[k := v]) < CountAtivas(eventos[v.evento].inscricoes, inscricoes))
  {
    var k, v := inscricaoId.value, Cancelar(eventos, inscricoes, inscricaoId, hoje).value;
    AtualizarSemNovaAtivaPreserva(eventos, inscricoes, k, v);
    if k in eventos[v.evento].inscricoes {
      CancelarLiberaVaga(eventos, inscricoes, k);
    }
  }

  /** confirmarPresenca's outcome: in this order an unknown enrollment, a requester who
      is not the event's organizer, a day before the event starts, an enrollment that is
      not ATIVA; otherwise the enrollment with its attendance confirmed. */
  function Confirmar(eventos: map<Id, Evento>, inscricoes: map<Id, Inscricao>, inscricaoId: Option<Id>,
                     organizadorId: Option<Id>, hoje: Day): (r: Result<Inscricao>)
    requires Integra(eventos, inscricoes)
    ensures inscricaoId.None? || inscricaoId.value !in inscricoes <==> r == Err(NotFound(Enrollment))
    ensures r.Err? ==> r.error in {NotFound(Enrollment), NotResponsibleOrganizer, EventNotStarted, EnrollmentNotActive}
    ensures r == Err(NotResponsibleOrganizer) <==>
              inscricaoId.Some? && inscricaoId.value in inscricoes
              && Some(eventos[inscricoes[inscricaoId.value].evento].organizadorResponsavel) != organizadorId
    ensures r == Err(EventNotStarted) <==>
              inscricaoId.Some? && inscricaoId.value in inscricoes
              && Some(eventos[inscricoes[inscricaoId.value].evento].organizadorResponsavel) == organizadorId
              && hoje < eventos[inscricoes[inscricaoId.value].evento].dataInicio
    ensures r == Err(EnrollmentNotActive) <==>
              inscricaoId.Some? && inscricaoId.value in inscricoes
              && Some(eventos[inscricoes[inscricaoId.value].evento].organizadorResponsavel) == organizadorId
              && hoje >= eventos[inscricoes[inscricaoId.value].evento].dataInicio
              && inscricoes[inscricaoId.value].status != Ativa
    ensures r.Ok? <==>
              inscricaoId.Some? && inscricaoId.value in inscricoes
              && Some(eventos[inscricoes[inscricaoId.value].evento].organizadorResponsavel) == organizadorId
              && hoje >= eventos[inscricoes[inscricaoId.value].evento].dataInicio
              && inscricoes[inscricaoId.value].status == Ativa
    ensures r.Ok? ==> inscricaoId.Some? && inscricaoId.value in inscricoes
                      && Some(eventos[inscricoes[inscricaoId.value].evento].organizadorResponsavel) == organizadorId
                      && hoje >= eventos[inscricoes[inscricaoId.value].evento].dataInicio
                      && inscricoes[inscricaoId.value].status == Ativa
                      && r.value == inscricoes[inscricaoId.value].(presencaConfirmada := true)
  {
    if inscricaoId.None? || inscricaoId.value !in inscricoes then Err(NotFound(Enrollment))
    else
      var i := inscricoes[inscricaoId.value];
      var e := eventos[i.evento];
      if Some(e.organizadorResponsavel) != organizadorId then Err(NotResponsibleOrganizer)
      else if hoje < e.dataInicio then Err(EventNotStarted)
      else if i.status != Ativa then Err(EnrollmentNotActive)
      else SetPresencaConfirmada(i, true)
  }

  /** A confirmation changes no event's ATIVA count, so it keeps the stores integral and
      the capacity rule. */
  lemma {:induction false} ConfirmarPreserva(eventos: map<Id, Evento>, inscricoes: map<Id, Inscricao>, inscricaoId: Option<Id>,
                                             organizadorId: Option<Id>, hoje: Day)
    requires Integra(eventos, inscricoes)
    requires Confirmar(eventos, inscricoes, inscricaoId, organizadorId, hoje).Ok?
    ensures var k, v := inscricaoId.value, Confirmar(eventos, inscricoes, inscricaoId, organizadorId, hoje).value;
            && Integra(eventos, inscricoes[k := v])
            && (forall e | e in eventos :: CountAtivas(eventos[e].inscricoes, inscricoes[k := v]) == CountAtivas(eventos[e].inscricoes, inscricoes))
            && (CapacidadeRespeitada(eventos, inscricoes) ==> CapacidadeRespeitada(eventos, inscricoes[k := v]))
  {
    var k, v := inscricaoId.value, Confirmar(eventos, inscricoes, inscricaoId, organizadorId, hoje).value;
    AtualizarSemNovaAtivaPreserva(eventos, inscricoes, k, v);
    forall e | e in eventos
      ensures CountAtivas(eventos[e].inscricoes, inscricoes[k := v]) == CountAtivas(eventos[e].inscricoes, inscricoes)
    {
      CountAtivasUnchanged(eventos[e].inscricoes, inscricoes, inscricoes[k := v]);
    }
  }

  class InscricaoController {
    const inscricaoRepository: Repository<Inscricao>
    const eventoRepository: Repository<Evento>
    const participanteRepository: Repository<Participante>

    /** The stores are keyed by their entities' ids and refer to each other integrally. */
    ghost predicate Valid()
      reads this, inscricaoRepository, eventoRepository, participanteRepository
    {
      inscricaoRepository.Valid() && eventoRepository.Valid() && participanteRepository.Valid()
      && (forall i :: inscricaoRepository.idOf(i) == Some(i.id))
      && (forall e :: eventoRepository.idOf(e) == Some(e.id))
      && (forall p :: participanteRepository.idOf(p) == Some(p.id))
      && Integra(eventoRepository.entities, inscricaoRepository.entities)
    }

    /** The capacity rule over the stored events and enrollments. */
    ghost predicate CapacidadeOk()
      reads this, inscricaoRepository, eventoRepository
    {
      CapacidadeRespeitada(eventoRepository.entities, inscricaoRepository.entities)
    }

    constructor (inscricaoRepository: Repository<Inscricao>, eventoRepository: Repository<Evento>,
                 participanteRepository: Repository<Participante>)
      ensures this.inscricaoRepository == inscricaoRepository && this.eventoRepository == eventoRepository
      ensures this.participanteRepository == participanteRepository
    {
      this.inscricaoRepository := inscricaoRepository;
      this.eventoRepository := eventoRepository;
      this.participanteRepository := participanteRepository;
    }

    /** realizarInscricao: the outcome Inscrever gives for the lookup's answer
        `consulta`; on success the new enrollment is stored and appended, in place, to
        the stored event's list. The capacity rule is kept. */
    method RealizarInscricao(participanteId: Option<Id>, eventoId: Option<Id>, hoje: Day, novoId: Id)
      returns (r: Result<Inscricao>, ghost consulta: Option<Inscricao>)
      requires Valid()
      requires novoId !in inscricaoRepository.entities
      modifies inscricaoRepository, eventoRepository
      ensures Valid()
      ensures r == Inscrever(participanteRepository.entities, old(eventoRepository.entities), old(inscricaoRepository.entities),
                             participanteId, eventoId, consulta, hoje, novoId)
      ensures r.Ok? || r == Err(AlreadyEnrolled) ==>
                RespostaDaConsulta(old(inscricaoRepository.entities), participanteId.value, eventoId.value, consulta)
      ensures r.Err? ==> inscricaoRepository.entities == old(inscricaoRepository.entities)
                         && eventoRepository.entities == old(eventoRepository.entities)
      ensures r.Ok? ==> inscricaoRepository.entities == old(inscricaoRepository.entities)[novoId := r.value]
      ensures r.Ok? ==> eventoRepository.entities == old(eventoRepository.entities)[eventoId.value :=
                          old(eventoRepository.entities[eventoId.value]).(inscricoes :=
                            old(eventoRepository.entities[eventoId.value]).inscricoes + [novoId])]
      ensures old(CapacidadeOk()) ==> CapacidadeOk()
    {
      consulta := None;
      var participante := participanteRepository.FindById(participanteId);
      if participante.None? {
        return Err(NotFound(Participant)), consulta;
      }
      var evento := eventoRepository.FindById(eventoId);
      if evento.None? {
        return Err(NotFound(Event)), consulta;
      }
      var ev := evento.value;
      if IsLotado(ev, inscricaoRepository.entities) {
        return Err(EventFull), consulta;
      }
      var existente := InscricaoRepository.FindByParticipanteIdAndEventoId(inscricaoRepository, participanteId, eventoId);
      consulta := existente;
      assert RespostaDaConsulta(inscricaoRepository.entities, participanteId.value, eventoId.value, consulta);
      if existente.Some? && existente.value.status == Ativa {
        return Err(AlreadyEnrolled), consulta;
      }
      var nova := NovaInscricao(novoId, hoje, eventoId.value, participanteId.value);
      r := Registrar(ev, nova);
    }

    /** The success step of realizarInscricao: the new enrollment is appended, in
        place, to the stored event's list (the event is not saved again) and then saved. */
    method Registrar(ev: Evento, nova: Inscricao) returns (r: Result<Inscricao>)
      requires Valid()
      requires ev.id in eventoRepository.entities && eventoRepository.entities[ev.id] == ev
      requires nova.id !in inscricaoRepository.entities && nova.evento == ev.id && nova.status == Ativa
      requires !IsLotado(ev, inscricaoRepository.entities)
      modifies inscricaoRepository, eventoRepository
      ensures Valid()
      ensures r == Ok(nova)
      ensures inscricaoRepository.entities == old(inscricaoRepository.entities)[nova.id := nova]
      ensures eventoRepository.entities == old(eventoRepository.entities)[ev.id := ev.(inscricoes := ev.inscricoes + [nova.id])]
      ensures old(CapacidadeOk()) ==> CapacidadeOk()
    {
      ghost var eventos0, inscricoes0 := eventoRepository.entities, inscricaoRepository.entities;
      var comNova := AdicionarInscricaoInterna(ev, Some(nova.id));
      assert comNova == Ok(ev.(inscricoes := ev.inscricoes + [nova.id]));
      SelfKeyedPut(eventos0, eventoRepository.idOf, ev.id, comNova.value);
      SelfKeyedPut(inscricoes0, inscricaoRepository.idOf, nova.id, nova);
      InscreverIntegra(eventos0, inscricoes0, ev.id, nova);
      InscreverPreserva(eventos0, inscricoes0, ev.id, nova);
      eventoRepository.entities := eventoRepository.entities[ev.id := comNova.value];
      r := inscricaoRepository.Save(Some(nova));
    }

    /** cancelarInscricao: the outcome Cancelar gives; on success the enrollment is
        stored CANCELADA and stays in its event's list. The capacity rule is kept. */
    method CancelarInscricao(inscricaoId: Option<Id>, hoje: Day) returns (r: Result<()>)
      requires Valid()
      modifies inscricaoRepository
      ensures Valid()
      ensures var c := Cancelar(eventoRepository.entities, old(inscricaoRepository.entities), inscricaoId, hoje);
              && (r.Ok? <==> c.Ok?)
              && (r.Err? ==> r.error == c.error && inscricaoRepository.entities == old(inscricaoRepository.entities))
              && (r.Ok? ==> inscricaoRepository.entities == old(inscricaoRepository.entities)[inscricaoId.value := c.value])
      ensures old(CapacidadeOk()) ==> CapacidadeOk()
    {
      var inscricao := inscricaoRepository.FindById(inscricaoId);
      if inscricao.None? {
        return Err(NotFound(Enrollment));
      }
      var i := inscricao.value;
      var evento := eventoRepository.entities[i.evento];
      if !PodeCancelar(i, evento.dataInicio, hoje) {
        return Err(CancellationNotAllowed);
      }
      var cancelada := SetStatus(i, Cancelada);
      CancelarPreserva(eventoRepository.entities, inscricaoRepository.entities, inscricaoId, hoje);
      Regravar(cancelada);
      r := Ok(());
    }

    /** confirmarPresenca: the outcome Confirmar gives; on success the confirmed
        enrollment is stored. The capacity rule is kept. */
    method ConfirmarPresenca(inscricaoId: Option<Id>, organizadorId: Option<Id>, hoje: Day) returns (r: Result<Inscricao>)
      requires Valid()
      modifies inscricaoRepository
      ensures Valid()
      ensures r == Confirmar(eventoRepository.entities, old(inscricaoRepository.entities), inscricaoId, organizadorId, hoje)
      ensures r.Err? ==> inscricaoRepository.entities == old(inscricaoRepository.entities)
      ensures r.Ok? ==> inscricaoRepository.entities == old(inscricaoRepository.entities)[inscricaoId.value := r.value]
      ensures old(CapacidadeOk()) ==> CapacidadeOk()
    {
      var inscricao := inscricaoRepository.FindById(inscricaoId);
      if inscricao.None? {
        return Err(NotFound(Enrollment));
      }
      var i := inscricao.value;
      var evento := eventoRepository.entities[i.evento];
      if Some(evento.organizadorResponsavel) != organizadorId {
        return Err(NotResponsibleOrganizer);
      }
      if hoje < evento.dataInicio {
        return Err(EventNotStarted);
      }
      if i.status != Ativa {
        return Err(EnrollmentNotActive);
      }
      var confirmada := SetPresencaConfirmada(i, true);
      ConfirmarPreserva(eventoRepository.entities, inscricaoRepository.entities, inscricaoId, organizadorId, hoje);
      Regravar(confirmada.value);
      r := confirmada;
    }

    /** Saves a changed stored enrollment that stays in its event, when the change
        keeps the capacity rule. */
    method Regravar(v: Inscricao)
      requires Valid()
      requires v.id in inscricaoRepository.entities && v.evento == inscricaoRepository.entities[v.id].evento
      requires CapacidadeRespeitada(eventoRepository.entities, inscricaoRepository.entities) ==>
                 CapacidadeRespeitada(eventoRepository.entities, inscricaoRepository.entities[v.id := v])
      modifies inscricaoRepository
      ensures Valid()
      ensures inscricaoRepository.entities == old(inscricaoRepository.entities)[v.id := v]
      ensures old(CapacidadeOk()) ==> CapacidadeOk()
    {
      SelfKeyedPut(inscricaoRepository.entities, inscricaoRepository.idOf, v.id, v);
      RegravarIntegra(eventoRepository.entities, inscricaoRepository.entities, v);
      var salvo := inscricaoRepository.Save(Some(v));
    }
  }
}

/** controller/AvaliacaoController.java: evaluators record their evaluation of a work. */
module AvaliacaoController {
  import opened Common
  import opened Enums
  import opened Participante
  import opened Avaliacao
  import opened Trabalho
  import opened BaseRepository
  import AvaliacaoRepository

  /** Works and evaluations refer to each other consistently: every evaluation a work
      lists is stored and is about that work, and every stored evaluation is listed by
      the stored work it is about. */
  predicate AvaliacoesIntegras(trabalhos: map<Id, Trabalho>, avaliacoes: map<Id, Avaliacao>) {
    (forall t, k | t in trabalhos && k in trabalhos[t].avaliacoes :: k in avaliacoes && avaliacoes[k].trabalho == t)
    && (forall k | k in avaliacoes :: avaliacoes[k].trabalho in trabalhos && k in trabalhos[avaliacoes[k].trabalho].avaliacoes)
  }

  /** The outcome of registrarAvaliacao, decided in the source's order: an unknown
      work, an unknown evaluator, an evaluator without the AVALIADOR profile, a work that
      is neither SUBMETIDO nor EM_AVALIACAO. Otherwise a new evaluation of that work by
      that evaluator, with whatever score was given: no range is checked. */
  function Registro(trabalhos: map<Id, Trabalho>, participantes: map<Id, Participante>, trabalhoId: Option<Id>,
                    avaliadorId: Option<Id>, nota: Nota, parecer: string, hoje: Day, novoId: Id): (r: Result<Avaliacao>)
    ensures trabalhoId.None? || trabalhoId.value !in trabalhos <==> r == Err(NotFound(Work))
    ensures r == Err(NotFound(Evaluator)) <==>
              trabalhoId.Some? && trabalhoId.value in trabalhos && (avaliadorId.None? || avaliadorId.value !in participantes)
    ensures r == Err(MissingEvaluatorRole) <==>
              trabalhoId.Some? && trabalhoId.value in trabalhos && avaliadorId.Some? && avaliadorId.value in participantes
              && participantes[avaliadorId.value].tipoPerfil != PerfilAvaliador
    ensures r == Err(WorkNotEvaluable) <==>
              trabalhoId.Some? && trabalhoId.value in trabalhos && avaliadorId.Some? && avaliadorId.value in participantes
              && participantes[avaliadorId.value].tipoPerfil == PerfilAvaliador && !Avaliavel(trabalhos[trabalhoId.value])
    ensures r.Ok? ==> trabalhoId.Some? && trabalhoId.value in trabalhos && Avaliavel(trabalhos[trabalhoId.value])
                      && avaliadorId.Some? && avaliadorId.value in participantes
                      && participantes[avaliadorId.value].tipoPerfil == PerfilAvaliador
    ensures r.Ok? ==> r.value.id == novoId && r.value.nota == nota && r.value.comentarios == parecer
                      && r.value.dataAvaliacao == hoje
                      && r.value.trabalho == trabalhoId.value && r.value.avaliador == avaliadorId.value
  {
    if trabalhoId.None? || trabalhoId.value !in trabalhos then Err(NotFound(Work))
    else if avaliadorId.None? || avaliadorId.value !in participantes then Err(NotFound(Evaluator))
    else if participantes[avaliadorId.value].tipoPerfil != PerfilAvaliador then Err(MissingEvaluatorRole)
    else if !Avaliavel(trabalhos[trabalhoId.value]) then Err(WorkNotEvaluable)
    else Ok(NovaAvaliacao(novoId, nota, parecer, hoje, trabalhoId.value, avaliadorId.value))
  }

  /** Every score is accepted: for an evaluable work and an AVALIADOR the outcome is an
      evaluation carrying exactly the score given, whatever it is. */
  lemma QualquerNota(trabalhos: map<Id, Trabalho>, participantes: map<Id, Participante>, tid: Id, aid: Id,
                     nota: Nota, parecer: string, hoje: Day, novoId: Id)
    requires tid in trabalhos && Avaliavel(trabalhos[tid])
    requires aid in participantes && participantes[aid].tipoPerfil == PerfilAvaliador
    ensures var r := Registro(trabalhos, participantes, Some(tid), Some(aid), nota, parecer, hoje, novoId);
            r.Ok? && r.value.nota == nota
  {
  }

  /** Recording a fresh evaluation of a stored, evaluable work appends it to that work,
      which ends EM_AVALIACAO with exactly one more evaluation; the stores stay integral. */
  lemma RegistroPreserva(trabalhos: map<Id, Trabalho>, avaliacoes: map<Id, Avaliacao>, a: Avaliacao)
    requires AvaliacoesIntegras(trabalhos, avaliacoes)
    requires a.trabalho in trabalhos && Avaliavel(trabalhos[a.trabalho]) && a.id !in avaliacoes
    ensures var t := AdicionarAvaliacaoInterna(trabalhos[a.trabalho], Some(a));
            && t.Ok? && t.value.status == EmAvaliacao
            && t.value.avaliacoes == trabalhos[a.trabalho].avaliacoes + [a.id]
            && AvaliacoesIntegras(trabalhos[a.trabalho := t.value], avaliacoes[a.id := a])
  {
    var t := AdicionarAvaliacaoInterna(trabalhos[a.trabalho], Some(a)).value;
    var trabalhos', avaliacoes' := trabalhos[a.trabalho := t], avaliacoes[a.id := a];
    forall w, k | w in trabalhos' && k in trabalhos'[w].avaliacoes
      ensures k in avaliacoes' && avaliacoes'[k].trabalho == w
    {
      if w == a.trabalho && k == a.id {
      } else if w == a.trabalho {
        assert k in trabalhos[w].avaliacoes;
      } else {
        assert k in trabalhos[w].avaliacoes;
      }
    }
  }

  class AvaliacaoController {
    const avaliacaoRepository: Repository<Avaliacao>
    const trabalhoRepository: Repository<Trabalho>
    const participanteRepository: Repository<Participante>

    /** The stores are keyed by their entities' ids and works and evaluations agree. */
    ghost predicate Valid()
      reads this, avaliacaoRepository, trabalhoRepository, participanteRepository
    {
      avaliacaoRepository.Valid() && trabalhoRepository.Valid() && participanteRepository.Valid()
      && (forall a :: avaliacaoRepository.idOf(a) == Some(a.id))
      && (forall t :: trabalhoRepository.idOf(t) == Some(t.id))
      && (forall p :: participanteRepository.idOf(p) == Some(p.id))
      && AvaliacoesIntegras(trabalhoRepository.entities, avaliacaoRepository.entities)
    }

    constructor (avaliacaoRepository: Repository<Avaliacao>, trabalhoRepository: Repository<Trabalho>,
                 participanteRepository: Repository<Participante>)
      ensures this.avaliacaoRepository == avaliacaoRepository && this.trabalhoRepository == trabalhoRepository
      ensures this.participanteRepository == participanteRepository
    {
      this.avaliacaoRepository := avaliacaoRepository;
      this.trabalhoRepository := trabalhoRepository;
      this.participanteRepository := participanteRepository;
    }

    /** registrarAvaliacao: the outcome Registro gives; on success the work, with the
        evaluation appended and its status EM_AVALIACAO, is saved, and then the
        evaluation. */
    method RegistrarAvaliacao(trabalhoId: Option<Id>, avaliadorId: Option<Id>, nota: Nota, parecer: string,
                              hoje: Day, novoId: Id) returns (r: Result<Avaliacao>)
      requires Valid()
      requires novoId !in avaliacaoRepository.entities
      modifies avaliacaoRepository, trabalhoRepository
      ensures Valid()
      ensures r == Registro(old(trabalhoRepository.entities), participanteRepository.entities, trabalhoId, avaliadorId,
                            nota, parecer, hoje, novoId)
      ensures r.Err? ==> avaliacaoRepository.entities == old(avaliacaoRepository.entities)
                         && trabalhoRepository.entities == old(trabalhoRepository.entities)
      ensures r.Ok? ==> avaliacaoRepository.entities == old(avaliacaoRepository.entities)[novoId := r.value]
      ensures r.Ok? ==> trabalhoRepository.entities == old(trabalhoRepository.entities)[trabalhoId.value :=
                          old(trabalhoRepository.entities[trabalhoId.value]).(status := EmAvaliacao,
                            avaliacoes := old(trabalhoRepository.entities[trabalhoId.value]).avaliacoes + [novoId])]
    {
      var trabalho := trabalhoRepository.FindById(trabalhoId);
      if trabalho.None? {
        return Err(NotFound(Work));
      }
      var avaliador := participanteRepository.FindById(avaliadorId);
      if avaliador.None? {
        return Err(NotFound(Evaluator));
      }
      if avaliador.value.tipoPerfil != PerfilAvaliador {
        return Err(MissingEvaluatorRole);
      }
      var t := trabalho.value;
      if t.status != EmAvaliacao && t.status != Submetido {
        return Err(WorkNotEvaluable);
      }
      var nova := NovaAvaliacao(novoId, nota, parecer, hoje, trabalhoId.value, avaliadorId.value);
      r := Gravar(nova);
    }

    /** The success step of registrarAvaliacao: the evaluation joins its work, the work
        is saved, and then the evaluation is saved. */
    method Gravar(a: Avaliacao) returns (r: Result<Avaliacao>)
      requires Valid()
      requires a.trabalho in trabalhoRepository.entities && Avaliavel(trabalhoRepository.entities[a.trabalho])
      requires a.id !in avaliacaoRepository.entities
      modifies avaliacaoRepository, trabalhoRepository
      ensures Valid()
      ensures r == Ok(a)
      ensures avaliacaoRepository.entities == old(avaliacaoRepository.entities)[a.id := a]
      ensures trabalhoRepository.entities == old(trabalhoRepository.entities)[a.trabalho :=
                old(trabalhoRepository.entities[a.trabalho]).(status := EmAvaliacao,
                  avaliacoes := old(trabalhoRepository.entities[a.trabalho]).avaliacoes + [a.id])]
    {
      var t := trabalhoRepository.entities[a.trabalho];
      var comNova := AdicionarAvaliacaoInterna(t, Some(a));
      assert comNova.value == t.(status := EmAvaliacao, avaliacoes := t.avaliacoes + [a.id]);
      assert comNova.value.id == a.trabalho;
      SelfKeyedPut(trabalhoRepository.entities, trabalhoRepository.idOf, a.trabalho, comNova.value);
      SelfKeyedPut(avaliacaoRepository.entities, avaliacaoRepository.idOf, a.id, a);
      RegistroPreserva(trabalhoRepository.entities, avaliacaoRepository.entities, a);
      var salvo := trabalhoRepository.Save(Some(comNova.value));
      r := avaliacaoRepository.Save(Some(a));
    }

    /** listarAvaliacoesPorTrabalho: the stored evaluations of that work (none for a
        null id). */
    function ListarAvaliacoesPorTrabalho(trabalhoId: Option<Id>): (r: set<Avaliacao>)
      reads this, avaliacaoRepository
      ensures forall a :: a in r <==> a in avaliacaoRepository.FindAll() && trabalhoId == Some(a.trabalho)
    {
      AvaliacaoRepository.FindAllByTrabalhoId(avaliacaoRepository, trabalhoId)
    }
  }
}

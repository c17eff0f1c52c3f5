/** domain/Trabalho.java: a work submitted to an event by one or more authors. */
module Trabalho {
  import opened Common
  import opened Enums
  import opened Avaliacao

  datatype Trabalho = Trabalho(
    id: Id,
    titulo: string,
    arquivo: string,
    status: StatusTrabalho,
    dataSubmissao: Day,
    evento: Id,
    autores: seq<Id>,        // author ids, in the order given
    avaliacoes: seq<Id>)     // evaluation ids, in the order received

  /** The constructor: refuses a null or empty author list; a new work is SUBMETIDO,
      has no evaluations yet and keeps its own copy of the authors (a sequence is a
      value, so later changes to the caller's list cannot reach it). */
  function NovoTrabalho(id: Id, titulo: string, arquivo: string, hoje: Day, evento: Id,
                        autores: Option<seq<Id>>): (r: Result<Trabalho>)
    ensures r.Err? <==> autores.None? || |autores.value| == 0
    ensures r.Err? ==> r.error == NoAuthors
    ensures r.Ok? ==> r.value.status == Submetido && r.value.avaliacoes == []
    ensures r.Ok? ==> r.value.autores == autores.value && |r.value.autores| > 0
    ensures r.Ok? ==> r.value.id == id && r.value.titulo == titulo && r.value.arquivo == arquivo
                      && r.value.dataSubmissao == hoje && r.value.evento == evento
  {
    if autores.None? || |autores.value| == 0 then Err(NoAuthors)
    else Ok(Trabalho(id, titulo, arquivo, Submetido, hoje, evento, autores.value, []))
  }

  /** setStatus: an unconditional overwrite of the status and of nothing else. */
  function SetStatus(t: Trabalho, status: StatusTrabalho): (r: Trabalho)
    ensures r.status == status
    ensures r.id == t.id && r.titulo == t.titulo && r.arquivo == t.arquivo && r.dataSubmissao == t.dataSubmissao
    ensures r.evento == t.evento && r.autores == t.autores && r.avaliacoes == t.avaliacoes
  {
    t.(status := status)
  }

  /** A work accepts evaluations only while SUBMETIDO or EM_AVALIACAO. */
  function Avaliavel(t: Trabalho): (r: bool)
    ensures r ==> !FoiAprovado(t) && t.status != Rejeitado
  {
    t.status == Submetido || t.status == EmAvaliacao
  }

  /** adicionarAvaliacaoInterna: refuses null, and refuses (changing nothing) a work
      that is not evaluable; otherwise appends exactly one evaluation and leaves the
      work EM_AVALIACAO. */
  function AdicionarAvaliacaoInterna(t: Trabalho, avaliacao: Option<Avaliacao>): (r: Result<Trabalho>)
    ensures avaliacao.None? ==> r == Err(NullArgument)
    ensures avaliacao.Some? && !Avaliavel(t) ==> r == Err(WorkNotEvaluable)
    ensures avaliacao.Some? && Avaliavel(t) ==> r.Ok?
    ensures r.Ok? ==> r.value.avaliacoes == t.avaliacoes + [avaliacao.value.id]
    ensures r.Ok? ==> r.value.status == EmAvaliacao
    ensures r.Ok? ==> r.value.id == t.id && r.value.titulo == t.titulo && r.value.arquivo == t.arquivo
                      && r.value.dataSubmissao == t.dataSubmissao && r.value.evento == t.evento
                      && r.value.autores == t.autores
  {
    if avaliacao.None? then Err(NullArgument)
    else if t.status != Submetido && t.status != EmAvaliacao then Err(WorkNotEvaluable)
    else
      var comAvaliacao := t.(avaliacoes := t.avaliacoes + [avaliacao.value.id]);
      Ok(if comAvaliacao.status == Submetido then comAvaliacao.(status := EmAvaliacao) else comAvaliacao)
  }

  /** Evaluations are status-idempotent: a second evaluation is accepted after the
      first and leaves the work EM_AVALIACAO, with both evaluations kept in order. */
  lemma AvaliacoesSucessivas(t: Trabalho, a: Avaliacao, b: Avaliacao)
    requires Avaliavel(t)
    ensures var r1 := AdicionarAvaliacaoInterna(t, Some(a));
            r1.Ok? && var r2 := AdicionarAvaliacaoInterna(r1.value, Some(b));
            r2.Ok? && r2.value.status == r1.value.status == EmAvaliacao
            && r2.value.avaliacoes == t.avaliacoes + [a.id, b.id]
  {
  }

  /** foiAprovado: APROVADO, APROVADO_COM_RESSALVAS or APRESENTADO. */
  function FoiAprovado(t: Trabalho): (r: bool)
    ensures t.status == Submetido || t.status == EmAvaliacao || t.status == Rejeitado ==> !r
  {
    t.status == Aprovado || t.status == AprovadoComRessalvas || t.status == Apresentado
  }

  /** foiApresentado: APRESENTADO. */
  function FoiApresentado(t: Trabalho): (r: bool)
    ensures r ==> !Avaliavel(t) && t.status != Rejeitado
  {
    t.status == Apresentado
  }

  /** A presented work counts as approved, and the two predicates are exactly the
      status sets they name. */
  lemma ApresentadoImplicaAprovado(t: Trabalho)
    ensures FoiApresentado(t) ==> FoiAprovado(t)
    ensures FoiAprovado(t) <==> t.status in {Aprovado, AprovadoComRessalvas, Apresentado}
    ensures FoiApresentado(t) && FoiAprovado(t) <==> t.status == Apresentado
  {
  }

  /** equals/hashCode compare ids only. */
  predicate MesmoTrabalho(a: Trabalho, b: Trabalho) {
    a.id == b.id
  }

  /** Equality ignores every field but the id: a status change or a new evaluation
      leaves a work the same one. */
  lemma MesmoTrabalhoOnlyById(a: Trabalho, b: Trabalho, s: StatusTrabalho, av: Option<Avaliacao>)
    ensures MesmoTrabalho(a, b) <==> a.id == b.id
    ensures MesmoTrabalho(SetStatus(a, s), a)
    ensures AdicionarAvaliacaoInterna(a, av).Ok? ==> MesmoTrabalho(AdicionarAvaliacaoInterna(a, av).value, a)
    ensures a.id == b.id ==> MesmoTrabalho(a, b) && MesmoTrabalho(b, a)
    ensures a.id != b.id && a.titulo == b.titulo && a.arquivo == b.arquivo && a.status == b.status
            && a.dataSubmissao == b.dataSubmissao && a.evento == b.evento
            && a.autores == b.autores && a.avaliacoes == b.avaliacoes
            ==> !MesmoTrabalho(a, b) && a != b
  {
  }
}

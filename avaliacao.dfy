/** domain/Avaliacao.java: an evaluation of a work, immutable once created (there are no
    setters; in the model a record is a value). */
module Avaliacao {
  import opened Common

  /** The score is a Java double that nothing compares or computes with; it is carried as a real. */
  type Nota = real

  datatype Avaliacao = Avaliacao(
    id: Id,
    nota: Nota,
    comentarios: string,
    dataAvaliacao: Day,
    trabalho: Id,      // the evaluated work
    avaliador: Id)     // the evaluator who wrote it

  /** The constructor: a fresh id, the given score, opinion, work and evaluator,
      and today as the evaluation day. */
  function NovaAvaliacao(id: Id, nota: Nota, comentarios: string, hoje: Day, trabalho: Id, avaliador: Id)
    : (a: Avaliacao)
    ensures a.id == id && a.dataAvaliacao == hoje
    ensures a.nota == nota && a.comentarios == comentarios
    ensures a.trabalho == trabalho && a.avaliador == avaliador
  {
    Avaliacao(id, nota, comentarios, hoje, trabalho, avaliador)
  }

  /** equals/hashCode compare ids only. */
  predicate MesmaAvaliacao(a: Avaliacao, b: Avaliacao) {
    a.id == b.id
  }

  /** Equality ignores every field but the id: two evaluations with the same score,
      opinion, day, work and evaluator are still distinct under different ids. */
  lemma MesmaAvaliacaoOnlyById(a: Avaliacao, b: Avaliacao)
    ensures MesmaAvaliacao(a, b) <==> a.id == b.id
    ensures a.id == b.id ==> MesmaAvaliacao(a, b) && MesmaAvaliacao(b, a)
    ensures a.id != b.id && a.nota == b.nota && a.comentarios == b.comentarios
            && a.dataAvaliacao == b.dataAvaliacao && a.trabalho == b.trabalho
            && a.avaliador == b.avaliador
            ==> !MesmaAvaliacao(a, b) && a != b
  {
  }
}

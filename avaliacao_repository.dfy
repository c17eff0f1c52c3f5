/** repository/AvaliacaoRepository.java: evaluation queries over the base store. */
module AvaliacaoRepository {
  import opened Common
  import opened Avaliacao
  import opened BaseRepository

  /** findAllByTrabalhoId: empty for null, otherwise exactly the stored evaluations of that work. */
  function FindAllByTrabalhoId(repo: Repository<Avaliacao>, trabalhoId: Option<Id>): (r: set<Avaliacao>)
    reads repo
    ensures trabalhoId.None? ==> r == {}
    ensures forall a :: a in r <==> a in repo.FindAll() && trabalhoId == Some(a.trabalho)
  {
    if trabalhoId.None? then {}
    else set a | a in repo.entities.Values && a.trabalho == trabalhoId.value
  }

  /** findAllByAvaliadorId: empty for null, otherwise exactly the stored evaluations
      written by that evaluator. */
  function FindAllByAvaliadorId(repo: Repository<Avaliacao>, avaliadorId: Option<Id>): (r: set<Avaliacao>)
    reads repo
    ensures avaliadorId.None? ==> r == {}
    ensures forall a :: a in r <==> a in repo.FindAll() && avaliadorId == Some(a.avaliador)
  {
    if avaliadorId.None? then {}
    else set a | a in repo.entities.Values && a.avaliador == avaliadorId.value
  }
}

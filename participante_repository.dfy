/** repository/ParticipanteRepository.java: the name search over the base store. */
module ParticipanteRepository {
  import opened Common
  import opened Text
  import opened Participante
  import opened BaseRepository

  /** The lower-cased name contains the lower-cased query. */
  predicate NomeContem(p: Participante, nome: string) {
    Contains(Lower(p.nomeCompleto), Lower(nome))
  }

  /** findByNomeContendo: a null or blank query returns every stored participant;
      otherwise exactly those whose lower-cased name contains the lower-cased query. */
  function FindByNomeContendo(repo: Repository<Participante>, nome: Option<string>): (r: set<Participante>)
    reads repo
    ensures r <= repo.FindAll()
    ensures nome.None? || IsBlank(nome.value) ==> r == repo.FindAll()
    ensures nome.Some? && !IsBlank(nome.value) ==>
              forall p :: p in r <==> p in repo.FindAll() && NomeContem(p, nome.value)
  {
    if nome.None? || IsBlank(nome.value) then repo.FindAll()
    else set p | p in repo.entities.Values && NomeContem(p, nome.value)
  }

  /** A name that contains a query contains every part of it. */
  lemma NomeContemParte(p: Participante, q1: string, q2: string)
    requires Contains(q2, q1) && NomeContem(p, q2)
    ensures NomeContem(p, q1)
  {
    LowerKeepsContains(q2, q1);
    ContainsTransitive(Lower(p.nomeCompleto), Lower(q2), Lower(q1));
  }

  /** A longer query narrows the search: when q2 contains q1 (both non-blank), every
      participant found for q2 is also found for q1. */
  lemma NarrowerQuery(repo: Repository<Participante>, q1: string, q2: string)
    requires !IsBlank(q1) && !IsBlank(q2) && Contains(q2, q1)
    ensures FindByNomeContendo(repo, Some(q2)) <= FindByNomeContendo(repo, Some(q1))
  {
    var longa, curta := FindByNomeContendo(repo, Some(q2)), FindByNomeContendo(repo, Some(q1));
    forall p | p in longa ensures p in curta {
      NomeContemParte(p, q1, q2);
    }
  }
}

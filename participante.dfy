/** domain/Participante.java: a person with a profile. The record's constructor stores
    name, email, institution and profile as given, under a fresh id. */
module Participante {
  import opened Common
  import opened Enums

  datatype Participante = Participante(
    id: Id,
    nomeCompleto: string,
    email: string,
    instituicao: string,
    tipoPerfil: TipoPerfil)

  /** equals/hashCode: two participants are the same one exactly when their ids agree. */
  predicate MesmoParticipante(a: Participante, b: Participante) {
    a.id == b.id
  }

  /** Equality ignores every field but the id. */
  lemma MesmoParticipanteOnlyById(a: Participante, b: Participante)
    ensures MesmoParticipante(a, b) <==> a.id == b.id
    ensures a.id != b.id && a.nomeCompleto == b.nomeCompleto && a.email == b.email
            && a.instituicao == b.instituicao && a.tipoPerfil == b.tipoPerfil
            ==> !MesmoParticipante(a, b) && a != b
  {
  }

  function SetNomeCompleto(p: Participante, nome: string): (r: Participante)
    ensures r.nomeCompleto == nome && MesmoParticipante(r, p)
    ensures r.email == p.email && r.instituicao == p.instituicao && r.tipoPerfil == p.tipoPerfil
  {
    p.(nomeCompleto := nome)
  }

  function SetEmail(p: Participante, email: string): (r: Participante)
    ensures r.email == email && MesmoParticipante(r, p)
    ensures r.nomeCompleto == p.nomeCompleto && r.instituicao == p.instituicao && r.tipoPerfil == p.tipoPerfil
  {
    p.(email := email)
  }

  function SetInstituicao(p: Participante, instituicao: string): (r: Participante)
    ensures r.instituicao == instituicao && MesmoParticipante(r, p)
    ensures r.nomeCompleto == p.nomeCompleto && r.email == p.email && r.tipoPerfil == p.tipoPerfil
  {
    p.(instituicao := instituicao)
  }

  /** The profile is mutable like every other field. */
  function SetTipoPerfil(p: Participante, perfil: TipoPerfil): (r: Participante)
    ensures r.tipoPerfil == perfil && MesmoParticipante(r, p)
    ensures r.nomeCompleto == p.nomeCompleto && r.email == p.email && r.instituicao == p.instituicao
  {
    p.(tipoPerfil := perfil)
  }
}

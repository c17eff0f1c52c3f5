/** controller/ParticipanteController.java: registration, lookup and editing of people. */
module ParticipanteController {
  import opened Common
  import opened Text
  import opened Enums
  import opened Participante
  import opened BaseRepository

  /** The email check of the controller: non-null and containing '@'. */
  function EmailValido(email: Option<string>): (r: bool)
    ensures email.None? || email.value == [] ==> !r
    ensures email.Some? && '@' in email.value ==> r
    ensures r ==> email.Some? && '@' in email.value
  {
    email.Some? && Contains(email.value, "@")
  }

  /** No two stored people share an email, ignoring case. */
  function EmailsUnicos(m: map<Id, Participante>): (r: bool)
    ensures m == map[] ==> r
    ensures r ==> forall a, b | a in m && b in m && a != b :: m[a].email != m[b].email
  {
    forall a, b | a in m && b in m :: EqualsIgnoreCase(m[a].email, m[b].email) ==> a == b
  }

  /** The record after atualizarParticipante's setters: a name is taken only when
      non-blank, an email only when it contains '@', an institution and a profile
      whenever supplied; the id never changes. */
  function Atualizado(p: Participante, nome: Option<string>, email: Option<string>,
                      instituicao: Option<string>, perfil: Option<TipoPerfil>): (r: Participante)
    ensures MesmoParticipante(r, p)
    ensures r.nomeCompleto == if nome.Some? && !IsBlank(nome.value) then nome.value else p.nomeCompleto
    ensures r.email == if EmailValido(email) then email.value else p.email
    ensures r.instituicao == if instituicao.Some? then instituicao.value else p.instituicao
    ensures r.tipoPerfil == if perfil.Some? then perfil.value else p.tipoPerfil
  {
    var p1 := if nome.Some? && !IsBlank(nome.value) then SetNomeCompleto(p, nome.value) else p;
    var p2 := if EmailValido(email) then SetEmail(p1, email.value) else p1;
    var p3 := if instituicao.Some? then SetInstituicao(p2, instituicao.value) else p2;
    if perfil.Some? then SetTipoPerfil(p3, perfil.value) else p3
  }

  /** atualizarParticipante does not re-check uniqueness: giving one person another
      person's email is accepted and breaks EmailsUnicos, whenever that email
      contains '@'. */
  lemma {:induction false} AtualizarQuebraEmailsUnicos(m: map<Id, Participante>, a: Id, b: Id)
    requires a in m && b in m && a != b
    requires Contains(m[b].email, "@")
    ensures !EmailsUnicos(m[a := Atualizado(m[a], None, Some(m[b].email), None, None)])
  {
    var m' := m[a := Atualizado(m[a], None, Some(m[b].email), None, None)];
    assert m'[a].email == m'[b].email;
    assert EqualsIgnoreCase(m'[a].email, m'[b].email);
  }

  /** Adding a participant whose email matches nobody's keeps emails unique. */
  lemma EmailNovoPreservaUnicidade(m: map<Id, Participante>, novo: Participante)
    requires EmailsUnicos(m) && novo.id !in m
    requires !exists p | p in m.Values :: EqualsIgnoreCase(p.email, novo.email)
    ensures EmailsUnicos(m[novo.id := novo])
  {
    var m' := m[novo.id := novo];
    forall a, b | a in m' && b in m' && EqualsIgnoreCase(m'[a].email, m'[b].email) ensures a == b {
      assert a in m ==> m[a] in m.Values;
      assert b in m ==> m[b] in m.Values;
    }
  }

  /** Some stored participant has this email, ignoring case (the anyMatch over findAll). */
  predicate EmailJaExiste(participantes: map<Id, Participante>, email: string) {
    exists p | p in participantes.Values :: EqualsIgnoreCase(p.email, email)
  }

  /** The outcome of cadastrarParticipante: refuses, in this order, a blank name, an
      email without '@', and an email some stored participant already has, ignoring
      case; otherwise the new participant with the given fields under the fresh id. */
  function Cadastro(participantes: map<Id, Participante>, nomeCompleto: Option<string>, email: Option<string>,
                    instituicao: string, tipoPerfil: TipoPerfil, novoId: Id): (r: Result<Participante>)
    ensures nomeCompleto.None? || IsBlank(nomeCompleto.value) <==> r == Err(BlankName)
    ensures nomeCompleto.Some? && !IsBlank(nomeCompleto.value) && !EmailValido(email) <==> r == Err(InvalidEmail)
    ensures r == Err(DuplicateEmail) <==>
              nomeCompleto.Some? && !IsBlank(nomeCompleto.value) && EmailValido(email)
              && EmailJaExiste(participantes, email.value)
    ensures r.Err? ==> r.error in {BlankName, InvalidEmail, DuplicateEmail}
    ensures r.Ok? <==>
              nomeCompleto.Some? && !IsBlank(nomeCompleto.value) && EmailValido(email)
              && !EmailJaExiste(participantes, email.value)
    ensures r.Ok? ==> r.value == Participante(novoId, nomeCompleto.value, email.value, instituicao, tipoPerfil)
  {
    if nomeCompleto.None? || IsBlank(nomeCompleto.value) then Err(BlankName)
    else if !EmailValido(email) then Err(InvalidEmail)
    else if EmailJaExiste(participantes, email.value) then Err(DuplicateEmail)
    else Ok(Participante(novoId, nomeCompleto.value, email.value, instituicao, tipoPerfil))
  }

  class ParticipanteController {
    const participanteRepository: Repository<Participante>

    /** The store is keyed by the participants' ids. */
    ghost predicate Valid()
      reads this, participanteRepository
    {
      participanteRepository.Valid()
      && forall p :: participanteRepository.idOf(p) == Some(p.id)
    }

    constructor (participanteRepository: Repository<Participante>)
      ensures this.participanteRepository == participanteRepository
    {
      this.participanteRepository := participanteRepository;
    }

    /** cadastrarParticipante: the outcome Cadastro gives over the stored participants;
        on success the new participant is stored under the fresh id. Emails stay unique. */
    method CadastrarParticipante(nomeCompleto: Option<string>, email: Option<string>, instituicao: string,
                                 tipoPerfil: TipoPerfil, novoId: Id) returns (r: Result<Participante>)
      requires Valid()
      requires novoId !in participanteRepository.entities
      modifies participanteRepository
      ensures Valid()
      ensures r == Cadastro(old(participanteRepository.entities), nomeCompleto, email, instituicao, tipoPerfil, novoId)
      ensures r.Err? ==> participanteRepository.entities == old(participanteRepository.entities)
      ensures r.Ok? ==> participanteRepository.entities == old(participanteRepository.entities)[novoId := r.value]
      ensures EmailsUnicos(old(participanteRepository.entities)) ==> EmailsUnicos(participanteRepository.entities)
    {
      ghost var antes := participanteRepository.entities;
      ghost var esperado := Cadastro(antes, nomeCompleto, email, instituicao, tipoPerfil, novoId);
      if nomeCompleto.None? || IsBlank(nomeCompleto.value) {
        return Err(BlankName);
      }
      if !EmailValido(email) {
        return Err(InvalidEmail);
      }
      var todos := participanteRepository.FindAll();
      var emailJaExiste := exists p | p in todos :: EqualsIgnoreCase(p.email, email.value);
      assert emailJaExiste == EmailJaExiste(antes, email.value);
      if emailJaExiste {
        assert esperado == Err(DuplicateEmail);
        return Err(DuplicateEmail);
      }
      var novo := Participante(novoId, nomeCompleto.value, email.value, instituicao, tipoPerfil);
      assert esperado == Ok(novo);
      r := Inserir(novo);
    }

    /** The success step of cadastrarParticipante: saves a participant whose email
        nobody has yet, ignoring case, so emails stay unique. */
    method Inserir(novo: Participante) returns (r: Result<Participante>)
      requires Valid() && novo.id !in participanteRepository.entities
      requires !EmailJaExiste(participanteRepository.entities, novo.email)
      modifies participanteRepository
      ensures Valid()
      ensures r == Ok(novo)
      ensures participanteRepository.entities == old(participanteRepository.entities)[novo.id := novo]
      ensures old(EmailsUnicos(participanteRepository.entities)) ==> EmailsUnicos(participanteRepository.entities)
    {
      if EmailsUnicos(participanteRepository.entities) {
        EmailNovoPreservaUnicidade(participanteRepository.entities, novo);
      }
      r := participanteRepository.Save(Some(novo));
    }

    /** getParticipanteById: a null id is refused; otherwise the lookup's result. */
    function GetParticipanteById(id: Option<Id>): (r: Result<Option<Participante>>)
      reads this, participanteRepository
      ensures id.None? <==> r == Err(NullId)
      ensures id.Some? <==> r.Ok?
      ensures r.Ok? ==> (r.value.Some? <==> id.value in participanteRepository.entities)
      ensures r.Ok? && r.value.Some? ==> r.value.value in participanteRepository.FindAll()
      ensures Valid() && r.Ok? && r.value.Some? ==> r.value.value.id == id.value
    {
      if id.None? then Err(NullId)
      else Ok(participanteRepository.FindById(id))
    }

    /** atualizarParticipante: fails on an unknown id; otherwise applies only the valid
        supplied fields to the stored participant and saves it under the same id. */
    method AtualizarParticipante(id: Option<Id>, nome: Option<string>, email: Option<string>,
                                 instituicao: Option<string>, perfil: Option<TipoPerfil>) returns (r: Result<Participante>)
      requires Valid()
      modifies participanteRepository
      ensures Valid()
      ensures !old(participanteRepository.ExistsById(id)) <==> r == Err(NotFound(Participant))
      ensures r.Err? ==> participanteRepository.entities == old(participanteRepository.entities)
      ensures r.Ok? ==> r.value == Atualizado(old(participanteRepository.entities)[id.value], nome, email, instituicao, perfil)
      ensures r.Ok? ==> participanteRepository.entities == old(participanteRepository.entities)[id.value := r.value]
    {
      var encontrado := participanteRepository.FindById(id);
      if encontrado.None? {
        return Err(NotFound(Participant));
      }
      var atualizado := Atualizado(encontrado.value, nome, email, instituicao, perfil);
      r := participanteRepository.Save(Some(atualizado));
    }
  }
}

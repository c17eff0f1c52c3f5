/** domain/Inscricao.java: a participant's enrollment in an event. */
module Inscricao {
  import opened Common
  import opened Enums

  datatype Inscricao = Inscricao(
    id: Id,
    dataInscricao: Day,
    status: StatusInscricao,
    presencaConfirmada: bool,
    evento: Id,
    participante: Id)

  /** Cancellation is allowed until this many days before the event starts. */
  const DiasAntecedenciaParaCancelamento: int := 2

  /** The constructor: a new enrollment is active and its attendance is unconfirmed. */
  function NovaInscricao(id: Id, dataInscricao: Day, evento: Id, participante: Id): (i: Inscricao)
    ensures i.status == Ativa && !i.presencaConfirmada
    ensures i.id == id && i.dataInscricao == dataInscricao
    ensures i.evento == evento && i.participante == participante
  {
    Inscricao(id, dataInscricao, Ativa, false, evento, participante)
  }

  /** setStatus: an unconditional overwrite of the status and of nothing else. */
  function SetStatus(i: Inscricao, status: StatusInscricao): (r: Inscricao)
    ensures r.status == status
    ensures r.id == i.id && r.dataInscricao == i.dataInscricao && r.presencaConfirmada == i.presencaConfirmada
    ensures r.evento == i.evento && r.participante == i.participante
  {
    i.(status := status)
  }

  /** setPresencaConfirmada: only an active enrollment accepts the flag; otherwise it
      throws and the enrollment keeps its flag. */
  function SetPresencaConfirmada(i: Inscricao, confirmada: bool): (r: Result<Inscricao>)
    ensures r.Ok? <==> i.status == Ativa
    ensures r.Err? ==> r.error == EnrollmentNotActive
    ensures r.Ok? ==> r.value.presencaConfirmada == confirmada && r.value.status == i.status
    ensures r.Ok? ==> r.value.id == i.id && r.value.dataInscricao == i.dataInscricao
                      && r.value.evento == i.evento && r.value.participante == i.participante
  {
    if i.status == Ativa then Ok(i.(presencaConfirmada := confirmada))
    else Err(EnrollmentNotActive)
  }

  /** podeCancelar(dataAtual), given the start day of the enrollment's event: false for
      a non-active enrollment, otherwise whether dataAtual is not after start - 2 days. */
  function PodeCancelar(i: Inscricao, inicioEvento: Day, dataAtual: Day): (r: bool)
    ensures i.status != Ativa ==> !r
    ensures i.status == Ativa ==> (r <==> dataAtual <= inicioEvento - DiasAntecedenciaParaCancelamento)
  {
    if i.status != Ativa then false
    else
      var dataLimiteCancelamento := inicioEvento - DiasAntecedenciaParaCancelamento;
      !(dataAtual > dataLimiteCancelamento)
  }

  /** The deadline only closes: cancellable today means cancellable on every earlier
      day, and never on the event's first day or later. */
  lemma PodeCancelarDeadline(i: Inscricao, inicioEvento: Day, antes: Day, depois: Day)
    requires antes <= depois
    ensures PodeCancelar(i, inicioEvento, depois) ==> PodeCancelar(i, inicioEvento, antes)
    ensures PodeCancelar(i, inicioEvento, depois) ==> depois < inicioEvento
  {
  }
}

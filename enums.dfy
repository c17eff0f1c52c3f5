/** The enumerations of package domain.enums. Their declarations are not part of this
    model; every constant the code names is here, plus the rejected work status the
    organizers' override is documented to set and the evaluator certificate the
    Certificado constructor's comment mentions. */
module Enums {

  /** TipoPerfil: PARTICIPANTE, ORGANIZADOR, AVALIADOR. */
  datatype TipoPerfil = PerfilParticipante | PerfilOrganizador | PerfilAvaliador

  /** StatusInscricao: ATIVA, CANCELADA. */
  datatype StatusInscricao = Ativa | Cancelada

  /** StatusTrabalho: SUBMETIDO, EM_AVALIACAO, APROVADO, APROVADO_COM_RESSALVAS, REJEITADO, APRESENTADO. */
  datatype StatusTrabalho = Submetido | EmAvaliacao | Aprovado | AprovadoComRessalvas | Rejeitado | Apresentado

  /** TipoCertificado: PARTICIPACAO, APRESENTACAO_TRABALHO, ORGANIZACAO, and one for evaluators. */
  datatype TipoCertificado = Participacao | ApresentacaoTrabalho | Organizacao | AvaliacaoDeTrabalhos
}

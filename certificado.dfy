/** domain/Certificado.java: an issued certificate. There are no setters, so each record
    is fixed at construction; equality compares ids only. */
module Certificado {
  import opened Common
  import opened Enums

  datatype Certificado = Certificado(
    id: Id,
    codigoValidacao: string,
    dataEmissao: Day,
    tipo: TipoCertificado,
    participante: Id,          // the recipient
    evento: Id,
    trabalho: Option<Id>)      // null except on presentation certificates

  /** The type/work invariant both constructors establish. */
  predicate BemFormado(c: Certificado) {
    c.trabalho.Some? <==> c.tipo == ApresentacaoTrabalho
  }

  /** equals/hashCode compare ids only. */
  predicate MesmoCertificado(a: Certificado, b: Certificado) {
    a.id == b.id
  }

  /** Equality ignores every field but the id, the validation code included. */
  lemma MesmoCertificadoOnlyById(a: Certificado, b: Certificado)
    ensures MesmoCertificado(a, b) <==> a.id == b.id
    ensures a.id == b.id ==> MesmoCertificado(a, b) && MesmoCertificado(b, a)
    ensures a.id != b.id && a.codigoValidacao == b.codigoValidacao && a.dataEmissao == b.dataEmissao
            && a.tipo == b.tipo && a.participante == b.participante && a.evento == b.evento
            && a.trabalho == b.trabalho
            ==> !MesmoCertificado(a, b) && a != b
  {
  }

  /** Certificado(tipo, participante, evento): refuses the presentation type and leaves
      the work reference null. The id and the 8-character code come from UUIDs. */
  function NovoCertificado(id: Id, codigo: string, hoje: Day, tipo: TipoCertificado,
                           participante: Id, evento: Id): (r: Result<Certificado>)
    ensures r.Err? <==> tipo == ApresentacaoTrabalho
    ensures r.Err? ==> r.error == WrongCertificateConstructor
    ensures r.Ok? ==> BemFormado(r.value) && r.value.trabalho == None
    ensures r.Ok? ==> r.value.id == id && r.value.codigoValidacao == codigo && r.value.dataEmissao == hoje
    ensures r.Ok? ==> r.value.tipo == tipo && r.value.participante == participante && r.value.evento == evento
  {
    if tipo == ApresentacaoTrabalho then Err(WrongCertificateConstructor)
    else Ok(Certificado(id, codigo, hoje, tipo, participante, evento, None))
  }

  /** Certificado(participante, evento, trabalho): always a presentation certificate,
      and the work must not be null. */
  function NovoCertificadoApresentacao(id: Id, codigo: string, hoje: Day,
                                       participante: Id, evento: Id, trabalho: Option<Id>)
    : (r: Result<Certificado>)
    ensures r.Err? <==> trabalho.None?
    ensures r.Err? ==> r.error == NullArgument
    ensures r.Ok? ==> BemFormado(r.value) && r.value.tipo == ApresentacaoTrabalho
    ensures r.Ok? ==> r.value.id == id && r.value.codigoValidacao == codigo && r.value.dataEmissao == hoje
    ensures r.Ok? ==> r.value.participante == participante && r.value.evento == evento
                      && r.value.trabalho == trabalho
  {
    if trabalho.None? then Err(NullArgument)
    else Ok(Certificado(id, codigo, hoje, ApresentacaoTrabalho, participante, evento, trabalho))
  }

  /** Whatever a constructor produces is well formed, and no other combination is
      reachable: a well-formed certificate is what one of the two constructors yields. */
  lemma BemFormadoIffConstructible(c: Certificado)
    ensures BemFormado(c) <==>
      (NovoCertificado(c.id, c.codigoValidacao, c.dataEmissao, c.tipo, c.participante, c.evento) == Ok(c)
       || NovoCertificadoApresentacao(c.id, c.codigoValidacao, c.dataEmissao, c.participante, c.evento, c.trabalho) == Ok(c))
  {
  }
}

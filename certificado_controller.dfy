/** controller/CertificadoController.java: issuing participation, presentation and
    organization certificates once an event is over. */
module CertificadoController {
  import opened Common
  import opened Enums
  import opened Participante
  import Inscricao
  import opened Evento
  import opened Trabalho
  import opened Certificado
  import opened BaseRepository
  import CertificadoRepository
  import TrabalhoRepository

  // ---------------------------------------------------------------- the gate

  /** The end-date gate: today is not before the day after the event's last day. */
  predicate Encerrado(ev: Evento, hoje: Day) {
    !(hoje < ev.dataFim + 1)
  }

  // ---------------------------------------------------------------- who already holds one

  /** The anyMatch test of the duplicate checks: c is a certificate of type tipo about
      that work when a work is given, and about that event otherwise. */
  predicate Cobre(c: Certificado, tipo: TipoCertificado, evento: Id, trabalho: Option<Id>) {
    c.tipo == tipo && (if trabalho.Some? then c.trabalho == trabalho else c.evento == evento)
  }

  /** The people who already hold such a certificate. */
  function Titulares(certs: map<Id, Certificado>, tipo: TipoCertificado, evento: Id, trabalho: Option<Id>): set<Id> {
    set k | k in certs && Cobre(certs[k], tipo, evento, trabalho) :: certs[k].participante
  }

  /** Two distinct certificates that give the same person the same recognition: the
      same presentation, or the same kind of certificate for the same event. */
  predicate Duplicados(a: Certificado, b: Certificado) {
    a.tipo == b.tipo && a.participante == b.participante
    && (if a.tipo == ApresentacaoTrabalho then a.trabalho == b.trabalho else a.evento == b.evento)
  }

  /** No two stored certificates are duplicates of each other. */
  predicate Unicos(certs: map<Id, Certificado>) {
    forall k1, k2 | k1 in certs && k2 in certs && k1 != k2 :: !Duplicados(certs[k1], certs[k2])
  }

  // ---------------------------------------------------------------- issuing in a loop

  /** Whom a loop over ps issues to, in order: each person who does not hold the
      certificate yet, once (the check is made against the store, which already holds
      the certificates issued earlier in the same loop). */
  function Novos(ps: seq<Id>, titulares: set<Id>): seq<Id> {
    if |ps| == 0 then []
    else
      var anteriores := Novos(ps[..|ps| - 1], titulares);
      var p := ps[|ps| - 1];
      if p in titulares || p in anteriores then anteriores else anteriores + [p]
  }

  /** The loop issues to exactly the people of ps who held no such certificate, and
      to each of them once. */
  lemma {:induction false} NovosExatos(ps: seq<Id>, titulares: set<Id>)
    ensures forall x :: x in Novos(ps, titulares) <==> x in ps && x !in titulares
    ensures forall i, j | 0 <= i < j < |Novos(ps, titulares)| :: Novos(ps, titulares)[i] != Novos(ps, titulares)[j]
    decreases |ps|
  {
    if |ps| > 0 {
      var ini := ps[..|ps| - 1];
      NovosExatos(ini, titulares);
      assert ps == ini + [ps[|ps| - 1]];
      forall x ensures x in ps <==> x in ini || x == ps[|ps| - 1] {
        assert x in ini ==> x in ps;
      }
    }
  }

  /** Once everyone in ps holds the certificate, the loop issues nothing. */
  lemma {:induction false} NovosVazio(ps: seq<Id>, titulares: set<Id>)
    requires forall x | x in ps :: x in titulares
    ensures Novos(ps, titulares) == []
    decreases |ps|
  {
    if |ps| > 0 {
      NovosVazio(ps[..|ps| - 1], titulares);
      assert ps[|ps| - 1] in ps;
    }
  }

  /** Running the loop a second time, with the certificates of the first run stored,
      issues nothing. */
  lemma SegundaVezNada(ps: seq<Id>, titulares: set<Id>)
    ensures Novos(ps, titulares + set x | x in Novos(ps, titulares)) == []
    ensures Novos(ps, titulares + set x | x in ps) == []
  {
    NovosExatos(ps, titulares);
    NovosVazio(ps, titulares + set x | x in Novos(ps, titulares));
    NovosVazio(ps, titulares + set x | x in ps);
  }

  /** The certificates a loop creates for the people ps, numbering the fresh ids and
      codes from n0 on. */
  function Emissoes(ps: seq<Id>, n0: nat, novosIds: nat -> Id, codigos: nat -> string, hoje: Day,
                    tipo: TipoCertificado, evento: Id, trabalho: Option<Id>): seq<Certificado>
  {
    seq(|ps|, j requires 0 <= j < |ps| => Certificado(novosIds(n0 + j), codigos(n0 + j), hoje, tipo, ps[j], evento, trabalho))
  }

  /** The store after the certificates cs are saved one after the other. */
  function Acrescentar(certs: map<Id, Certificado>, cs: seq<Certificado>): map<Id, Certificado> {
    if |cs| == 0 then certs
    else Acrescentar(certs, cs[..|cs| - 1])[cs[|cs| - 1].id := cs[|cs| - 1]]
  }

  /** Saving a sequence in two parts is saving the first, then the second. */
  lemma {:induction false} AcrescentarConcat(certs: map<Id, Certificado>, a: seq<Certificado>, b: seq<Certificado>)
    ensures Acrescentar(certs, a + b) == Acrescentar(Acrescentar(certs, a), b)
    decreases |b|
  {
    if |b| == 0 {
      assert a + b == a;
    } else {
      assert (a + b)[..|a + b| - 1] == a + b[..|b| - 1];
      AcrescentarConcat(certs, a, b[..|b| - 1]);
    }
  }

  /** The ids novosIds(n) for n from n0 on are distinct and not yet in the store:
      what the UUIDs of the source are taken to be. */
  ghost predicate IdsFrescos(certs: map<Id, Certificado>, novosIds: nat -> Id, n0: nat) {
    (forall n: nat | n0 <= n :: novosIds(n) !in certs)
    && (forall m: nat, n: nat | m != n :: novosIds(m) != novosIds(n))
  }

  // ---------------------------------------------------------------- one step of the loop

  /** One more person: the loop issues to ps[i] exactly when ps[i] neither held the
      certificate nor was issued one earlier in the loop. */
  lemma NovosPasso(ps: seq<Id>, i: nat, titulares: set<Id>)
    requires i < |ps|
    ensures Novos(ps[..i + 1], titulares) ==
              if ps[i] in titulares || ps[i] in Novos(ps[..i], titulares) then Novos(ps[..i], titulares)
              else Novos(ps[..i], titulares) + [ps[i]]
  {
    assert ps[..i + 1][..i] == ps[..i];
  }

  /** Issuing to one more person adds exactly one certificate, numbered next. */
  lemma EmissoesPasso(ps: seq<Id>, p: Id, n0: nat, novosIds: nat -> Id, codigos: nat -> string, hoje: Day,
                      tipo: TipoCertificado, evento: Id, trabalho: Option<Id>)
    ensures Emissoes(ps + [p], n0, novosIds, codigos, hoje, tipo, evento, trabalho) ==
              Emissoes(ps, n0, novosIds, codigos, hoje, tipo, evento, trabalho)
              + [Certificado(novosIds(n0 + |ps|), codigos(n0 + |ps|), hoje, tipo, p, evento, trabalho)]
  {
  }

  /** Saving one more certificate. */
  lemma AcrescentarUltimo(certs: map<Id, Certificado>, cs: seq<Certificado>, x: Certificado)
    ensures Acrescentar(certs, cs + [x]) == Acrescentar(certs, cs)[x.id := x]
  {
    assert (cs + [x])[..|cs|] == cs;
  }

  /** Storing a certificate under a fresh id adds its holder to the holders of the kind
      it covers, and changes nobody else's. */
  lemma TitularesNovo(certs: map<Id, Certificado>, x: Certificado, tipo: TipoCertificado, evento: Id, trabalho: Option<Id>)
    requires x.id !in certs
    ensures Titulares(certs[x.id := x], tipo, evento, trabalho) ==
              Titulares(certs, tipo, evento, trabalho) + (if Cobre(x, tipo, evento, trabalho) then {x.participante} else {})
  {
    var antes, depois := Titulares(certs, tipo, evento, trabalho), Titulares(certs[x.id := x], tipo, evento, trabalho);
    forall p | p in antes ensures p in depois {
      var k :| k in certs && Cobre(certs[k], tipo, evento, trabalho) && certs[k].participante == p;
      assert certs[x.id := x][k] == certs[k];
    }
    if Cobre(x, tipo, evento, trabalho) {
      assert certs[x.id := x][x.id] == x;
    }
  }

  /** A certificate for someone who holds none of its kind duplicates nothing stored. */
  lemma UnicosNovo(certs: map<Id, Certificado>, x: Certificado, tipo: TipoCertificado, evento: Id, trabalho: Option<Id>)
    requires Unicos(certs) && x.id !in certs
    requires x.tipo == tipo && x.evento == evento && x.trabalho == trabalho
    requires trabalho.Some? <==> tipo == ApresentacaoTrabalho
    requires x.participante !in Titulares(certs, tipo, evento, trabalho)
    ensures Unicos(certs[x.id := x])
  {
    forall k | k in certs ensures !Duplicados(certs[k], x) {
      if Duplicados(certs[k], x) {
        assert Cobre(certs[k], tipo, evento, trabalho);
      }
    }
  }

  // ---------------------------------------------------------------- several works

  /** The (recipient, work) pair a presentation certificate stands for. */
  function Par(c: Certificado): (Id, Option<Id>) {
    (c.participante, c.trabalho)
  }

  /** The pairs of a sequence of certificates. */
  function Pares(cs: seq<Certificado>): set<(Id, Option<Id>)> {
    set j | 0 <= j < |cs| :: Par(cs[j])
  }

  /** What presentation certificates are owed for the works ws, given the store certs:
      one per author of an approved and presented work who does not hold one for it. */
  function Devidos(ws: set<Trabalho>, certs: map<Id, Certificado>, evento: Id): set<(Id, Option<Id>)> {
    set t, a | t in ws && FoiAprovado(t) && FoiApresentado(t) && a in t.autores
                 && a !in Titulares(certs, ApresentacaoTrabalho, evento, Some(t.id)) :: (a, Some(t.id))
  }

  /** The pairs of the certificates issued for one work are its authors who held none. */
  lemma ParesDeUmTrabalho(t: Trabalho, titulares: set<Id>, n0: nat, novosIds: nat -> Id, codigos: nat -> string,
                          hoje: Day, evento: Id)
    ensures var cs := Emissoes(Novos(t.autores, titulares), n0, novosIds, codigos, hoje, ApresentacaoTrabalho, evento, Some(t.id));
            (Pares(cs) == set a | a in t.autores && a !in titulares :: (a, Some(t.id)))
            && (forall i, j | 0 <= i < j < |cs| :: Par(cs[i]) != Par(cs[j]))
  {
    var ns := Novos(t.autores, titulares);
    var cs := Emissoes(ns, n0, novosIds, codigos, hoje, ApresentacaoTrabalho, evento, Some(t.id));
    NovosExatos(t.autores, titulares);
    forall a | a in t.autores && a !in titulares ensures (a, Some(t.id)) in Pares(cs) {
      var j :| 0 <= j < |ns| && ns[j] == a;
      assert Par(cs[j]) == (a, Some(t.id));
    }
  }

  /** Taking one more work into account adds its owed pairs. */
  lemma DevidosMaisUm(ws: set<Trabalho>, t: Trabalho, certs: map<Id, Certificado>, evento: Id)
    ensures Devidos(ws + {t}, certs, evento) ==
              Devidos(ws, certs, evento)
              + (if FoiAprovado(t) && FoiApresentado(t)
                 then set a | a in t.autores && a !in Titulares(certs, ApresentacaoTrabalho, evento, Some(t.id)) :: (a, Some(t.id))
                 else {})
  {
  }

  /** Pairs of a concatenation. */
  lemma ParesConcat(a: seq<Certificado>, b: seq<Certificado>)
    ensures Pares(a + b) == Pares(a) + Pares(b)
  {
    forall x | x in Pares(b) ensures x in Pares(a + b) {
      var j :| 0 <= j < |b| && Par(b[j]) == x;
      assert (a + b)[|a| + j] == b[j];
    }
    forall x | x in Pares(a) ensures x in Pares(a + b) {
      var j :| 0 <= j < |a| && Par(a[j]) == x;
      assert (a + b)[j] == a[j];
    }
  }

  /** In a store keyed by id, two stored works with the same id are the same work. */
  lemma IdentificaTrabalho(trabalhos: map<Id, Trabalho>, t: Trabalho, w: Trabalho)
    requires forall k | k in trabalhos :: trabalhos[k].id == k
    requires t in trabalhos.Values && w in trabalhos.Values && t.id == w.id
    ensures t == w
  {
    var kt :| kt in trabalhos && trabalhos[kt] == t;
    var kw :| kw in trabalhos && trabalhos[kw] == w;
  }

  // ---------------------------------------------------------------- the organizer

  /** The outcome of emitirCertificadoOrganizador, decided in the source's order: an
      unknown event, an unknown person, a person who is not the event's organizer, an
      event not over yet, and a certificate of organization already held. Otherwise a
      new organization certificate for that person and event. */
  function EmissaoOrganizador(eventos: map<Id, Evento>, participantes: map<Id, Participante>,
                              certs: map<Id, Certificado>, eventoId: Option<Id>, organizadorId: Option<Id>,
                              hoje: Day, novoId: Id, codigo: string): (r: Result<Certificado>)
    ensures eventoId.None? || eventoId.value !in eventos <==> r == Err(NotFound(Event))
    ensures r == Err(NotFound(Organizer)) <==>
              eventoId.Some? && eventoId.value in eventos && (organizadorId.None? || organizadorId.value !in participantes)
    ensures r == Err(NotResponsibleOrganizer) <==>
              eventoId.Some? && eventoId.value in eventos && organizadorId.Some? && organizadorId.value in participantes
              && eventos[eventoId.value].organizadorResponsavel != organizadorId.value
    ensures r == Err(EventNotFinished) <==>
              eventoId.Some? && eventoId.value in eventos && organizadorId.Some? && organizadorId.value in participantes
              && eventos[eventoId.value].organizadorResponsavel == organizadorId.value
              && !Encerrado(eventos[eventoId.value], hoje)
    ensures r == Err(AlreadyIssued) <==>
              eventoId.Some? && eventoId.value in eventos && organizadorId.Some? && organizadorId.value in participantes
              && eventos[eventoId.value].organizadorResponsavel == organizadorId.value
              && Encerrado(eventos[eventoId.value], hoje)
              && organizadorId.value in Titulares(certs, Organizacao, eventoId.value, None)
    ensures r.Err? ==> r.error in {NotFound(Event), NotFound(Organizer), NotResponsibleOrganizer, EventNotFinished, AlreadyIssued}
    ensures r.Ok? <==>
              eventoId.Some? && eventoId.value in eventos && organizadorId.Some? && organizadorId.value in participantes
              && eventos[eventoId.value].organizadorResponsavel == organizadorId.value
              && Encerrado(eventos[eventoId.value], hoje)
              && organizadorId.value !in Titulares(certs, Organizacao, eventoId.value, None)
    ensures r.Ok? ==> eventoId.Some? && organizadorId.Some?
                      && r.value == Certificado(novoId, codigo, hoje, Organizacao, organizadorId.value, eventoId.value, None)
  {
    if eventoId.None? || eventoId.value !in eventos then Err(NotFound(Event))
    else if organizadorId.None? || organizadorId.value !in participantes then Err(NotFound(Organizer))
    else if eventos[eventoId.value].organizadorResponsavel != organizadorId.value then Err(NotResponsibleOrganizer)
    else if !Encerrado(eventos[eventoId.value], hoje) then Err(EventNotFinished)
    else if organizadorId.value in Titulares(certs, Organizacao, eventoId.value, None) then Err(AlreadyIssued)
    else NovoCertificado(novoId, codigo, hoje, Organizacao, organizadorId.value, eventoId.value)
  }

  /** Once the organization certificate is stored, asking again is refused as a
      duplicate, whatever new id and code are offered. */
  lemma {:induction false} OrganizadorUmaVez(eventos: map<Id, Evento>, participantes: map<Id, Participante>,
                                             certs: map<Id, Certificado>, eventoId: Option<Id>, organizadorId: Option<Id>,
                                             hoje: Day, novoId: Id, codigo: string, outroId: Id, outroCodigo: string)
    requires EmissaoOrganizador(eventos, participantes, certs, eventoId, organizadorId, hoje, novoId, codigo).Ok?
    ensures var c := EmissaoOrganizador(eventos, participantes, certs, eventoId, organizadorId, hoje, novoId, codigo).value;
            EmissaoOrganizador(eventos, participantes, certs[novoId := c], eventoId, organizadorId, hoje, outroId, outroCodigo)
              == Err(AlreadyIssued)
  {
    var c := EmissaoOrganizador(eventos, participantes, certs, eventoId, organizadorId, hoje, novoId, codigo).value;
    assert certs[novoId := c][novoId] == c;
    assert Cobre(c, Organizacao, eventoId.value, None);
    assert organizadorId.value in Titulares(certs[novoId := c], Organizacao, eventoId.value, None);
  }

  // ---------------------------------------------------------------- loop steps, in full

  /** The duplicate check of the loops: some stored certificate of p is of the kind
      looked for exactly when p is among its holders. */
  lemma JaEmitidoSeTitular(certs: map<Id, Certificado>, p: Id, tipo: TipoCertificado, evento: Id, trabalho: Option<Id>)
    ensures (exists c | c in certs.Values && c.participante == p :: Cobre(c, tipo, evento, trabalho))
            <==> p in Titulares(certs, tipo, evento, trabalho)
  {
    if p in Titulares(certs, tipo, evento, trabalho) {
      var k :| k in certs && Cobre(certs[k], tipo, evento, trabalho) && certs[k].participante == p;
      assert certs[k] in certs.Values;
    }
  }

  /** The people of a sequence. */
  function Conjunto(s: seq<Id>): set<Id> {
    set y | y in s
  }

  /** After the loop, the holders are the earlier ones and everybody in ps. */
  lemma NovosCobrem(ps: seq<Id>, titulares: set<Id>)
    ensures titulares + Conjunto(Novos(ps, titulares)) == titulares + Conjunto(ps)
  {
    NovosExatos(ps, titulares);
  }

  /** A person the loop reaches who holds no such certificate gets the next one, and
      everything the loop keeps track of moves one step on. */
  lemma PassoComEmissao(certs0: map<Id, Certificado>, certs: map<Id, Certificado>, emitidos: seq<Certificado>,
                        ns: seq<Id>, t0: set<Id>, n0: nat, novosIds: nat -> Id, codigos: nat -> string,
                        hoje: Day, tipo: TipoCertificado, evento: Id, trabalho: Option<Id>, x: Certificado)
    requires trabalho.Some? <==> tipo == ApresentacaoTrabalho
    requires emitidos == Emissoes(ns, n0, novosIds, codigos, hoje, tipo, evento, trabalho)
    requires certs == Acrescentar(certs0, emitidos)
    requires Titulares(certs, tipo, evento, trabalho) == t0 + Conjunto(ns)
    requires IdsFrescos(certs, novosIds, n0 + |emitidos|)
    requires x.participante !in Titulares(certs, tipo, evento, trabalho)
    requires x == Certificado(novosIds(n0 + |emitidos|), codigos(n0 + |emitidos|), hoje, tipo, x.participante, evento, trabalho)
    ensures x.id !in certs
    ensures emitidos + [x] == Emissoes(ns + [x.participante], n0, novosIds, codigos, hoje, tipo, evento, trabalho)
    ensures certs[x.id := x] == Acrescentar(certs0, emitidos + [x])
    ensures Titulares(certs[x.id := x], tipo, evento, trabalho) == t0 + Conjunto(ns + [x.participante])
    ensures IdsFrescos(certs[x.id := x], novosIds, n0 + |emitidos| + 1)
    ensures Unicos(certs) ==> Unicos(certs[x.id := x])
    ensures forall w: Option<Id> | w.Some? && w != trabalho ::
              Titulares(certs[x.id := x], tipo, evento, w) == Titulares(certs, tipo, evento, w)
  {
    EmissoesPasso(ns, x.participante, n0, novosIds, codigos, hoje, tipo, evento, trabalho);
    AcrescentarUltimo(certs0, emitidos, x);
    TitularesNovo(certs, x, tipo, evento, trabalho);
    assert Conjunto(ns + [x.participante]) == Conjunto(ns) + {x.participante};
    forall w: Option<Id> | w.Some? && w != trabalho
      ensures Titulares(certs[x.id := x], tipo, evento, w) == Titulares(certs, tipo, evento, w)
    {
      TitularesNovo(certs, x, tipo, evento, w);
    }
    if Unicos(certs) {
      UnicosNovo(certs, x, tipo, evento, trabalho);
    }
    forall n: nat | n0 + |emitidos| + 1 <= n ensures novosIds(n) !in certs[x.id := x] {
      assert novosIds(n) != novosIds(n0 + |emitidos|);
    }
  }

  /** The certificates of a sequence, pairwise for different (recipient, work) pairs. */
  predicate Distintos(cs: seq<Certificado>) {
    forall i, j | 0 <= i < j < |cs| :: Par(cs[i]) != Par(cs[j])
  }

  /** The work references of a set of works. */
  function IdsDe(ws: set<Trabalho>): set<Option<Id>> {
    set w | w in ws :: Some(w.id)
  }

  /** Certificate j of cs is a presentation certificate of event e issued today under
      the j-th fresh id and code. */
  predicate Numerados(cs: seq<Certificado>, hoje: Day, novosIds: nat -> Id, codigos: nat -> string, evento: Id) {
    forall j | 0 <= j < |cs| ::
      cs[j].id == novosIds(j) && cs[j].codigoValidacao == codigos(j) && cs[j].dataEmissao == hoje
      && cs[j].tipo == ApresentacaoTrabalho && cs[j].evento == evento
  }

  /** For each work of ws, its presentation certificates in certs are held by those who
      held one in certs0 and, when the work is approved and presented, by all its authors. */
  ghost predicate ApresentacoesEmitidas(certs0: map<Id, Certificado>, certs: map<Id, Certificado>, e: Id,
                                        ws: set<Trabalho>) {
    forall t | t in ws ::
      Titulares(certs, ApresentacaoTrabalho, e, Some(t.id))
      == Titulares(certs0, ApresentacaoTrabalho, e, Some(t.id))
         + (if FoiAprovado(t) && FoiApresentado(t) then Conjunto(t.autores) else {})
  }

  /** One more work visited: the works visited before keep their holders, and the new
      one has gained its authors. */
  lemma EmitidasPasso(certs0: map<Id, Certificado>, antes: map<Id, Certificado>, depois: map<Id, Certificado>,
                      e: Id, feitos: set<Trabalho>, t: Trabalho)
    requires ApresentacoesEmitidas(certs0, antes, e, feitos)
    requires Some(t.id) !in IdsDe(feitos)
    requires forall w: Option<Id> | w.Some? && w != Some(t.id) ::
               Titulares(depois, ApresentacaoTrabalho, e, w) == Titulares(antes, ApresentacaoTrabalho, e, w)
    requires Titulares(depois, ApresentacaoTrabalho, e, Some(t.id))
             == Titulares(certs0, ApresentacaoTrabalho, e, Some(t.id))
                + (if FoiAprovado(t) && FoiApresentado(t) then Conjunto(t.autores) else {})
    ensures ApresentacoesEmitidas(certs0, depois, e, feitos + {t})
  {
    forall w | w in feitos
      ensures Titulares(depois, ApresentacaoTrabalho, e, Some(w.id)) == Titulares(antes, ApresentacaoTrabalho, e, Some(w.id))
    {
      assert Some(w.id) in IdsDe(feitos);
    }
  }

  /** One more approved and presented work: the outer loop's invariants move on. */
  lemma PassoTrabalho(emitidos: seq<Certificado>, feitos: set<Trabalho>, t: Trabalho, certs0: map<Id, Certificado>,
                      evento: Id, hoje: Day, novosIds: nat -> Id, codigos: nat -> string, novos: seq<Certificado>)
    requires Pares(emitidos) == Devidos(feitos, certs0, evento) && Distintos(emitidos)
    requires Numerados(emitidos, hoje, novosIds, codigos, evento)
    requires forall j | 0 <= j < |emitidos| :: emitidos[j].trabalho in IdsDe(feitos)
    requires Some(t.id) !in IdsDe(feitos)
    requires FoiAprovado(t) && FoiApresentado(t)
    requires novos == Emissoes(Novos(t.autores, Titulares(certs0, ApresentacaoTrabalho, evento, Some(t.id))), |emitidos|,
                               novosIds, codigos, hoje, ApresentacaoTrabalho, evento, Some(t.id))
    ensures Pares(emitidos + novos) == Devidos(feitos + {t}, certs0, evento)
    ensures Distintos(emitidos + novos)
    ensures Numerados(emitidos + novos, hoje, novosIds, codigos, evento)
    ensures forall j | 0 <= j < |emitidos + novos| :: (emitidos + novos)[j].trabalho in IdsDe(feitos + {t})
  {
    var todos := emitidos + novos;
    ParesDeUmTrabalho(t, Titulares(certs0, ApresentacaoTrabalho, evento, Some(t.id)), |emitidos|, novosIds, codigos, hoje, evento);
    ParesConcat(emitidos, novos);
    DevidosMaisUm(feitos, t, certs0, evento);
    forall i, j | 0 <= i < j < |todos| ensures Par(todos[i]) != Par(todos[j]) {
      if j < |emitidos| {
        assert todos[i] == emitidos[i] && todos[j] == emitidos[j];
      } else if i < |emitidos| {
        assert todos[i] == emitidos[i] && todos[j] == novos[j - |emitidos|];
      } else {
        assert todos[i] == novos[i - |emitidos|] && todos[j] == novos[j - |emitidos|];
      }
    }
    forall j | 0 <= j < |todos| ensures todos[j].trabalho in IdsDe(feitos + {t}) {
      if j >= |emitidos| {
        assert todos[j] == novos[j - |emitidos|];
      }
    }
  }

  /** The participants of a list of enrollments, in list order. */
  function Participantes(inscricoes: seq<Inscricao.Inscricao>): seq<Id>
  {
    seq(|inscricoes|, j requires 0 <= j < |inscricoes| => inscricoes[j].participante)
  }

  /** The work picked next in the outer loop has an id of its own: no work visited
      before and no other work still to visit has it. */
  lemma Separados(todos: set<Trabalho>, feitos: set<Trabalho>, restantes: set<Trabalho>, t: Trabalho)
    requires forall a, b | a in todos && b in todos && a.id == b.id :: a == b
    requires restantes + feitos == todos && restantes !! feitos && t in restantes
    ensures Some(t.id) !in IdsDe(feitos)
    ensures forall w | w in restantes - {t} :: w.id != t.id
  {
  }

  /** Moving the visited work from the works still to visit to those visited. */
  lemma Avanca(todos: set<Trabalho>, restantes: set<Trabalho>, feitos: set<Trabalho>, t: Trabalho)
    requires restantes + feitos == todos && restantes !! feitos && t in restantes
    ensures (restantes - {t}) + (feitos + {t}) == todos && (restantes - {t}) !! (feitos + {t})
  {
  }

  // ---------------------------------------------------------------- the controller

  class CertificadoController {
    const certificadoRepository: Repository<Certificado>
    const eventoRepository: Repository<Evento>
    const inscricaoRepository: Repository<Inscricao.Inscricao>
    const trabalhoRepository: Repository<Trabalho>
    const participanteRepository: Repository<Participante>

    /** The stores are keyed by their entities' ids. */
    ghost predicate Valid()
      reads this, certificadoRepository, eventoRepository, inscricaoRepository, trabalhoRepository, participanteRepository
    {
      certificadoRepository.Valid() && eventoRepository.Valid() && inscricaoRepository.Valid()
      && trabalhoRepository.Valid() && participanteRepository.Valid()
      && (forall c :: certificadoRepository.idOf(c) == Some(c.id))
      && (forall e :: eventoRepository.idOf(e) == Some(e.id))
      && (forall i :: inscricaoRepository.idOf(i) == Some(i.id))
      && (forall t :: trabalhoRepository.idOf(t) == Some(t.id))
      && (forall p :: participanteRepository.idOf(p) == Some(p.id))
    }

    constructor (certificadoRepository: Repository<Certificado>, eventoRepository: Repository<Evento>,
                 inscricaoRepository: Repository<Inscricao.Inscricao>, trabalhoRepository: Repository<Trabalho>,
                 participanteRepository: Repository<Participante>)
      ensures this.certificadoRepository == certificadoRepository && this.eventoRepository == eventoRepository
      ensures this.inscricaoRepository == inscricaoRepository && this.trabalhoRepository == trabalhoRepository
      ensures this.participanteRepository == participanteRepository
    {
      this.certificadoRepository := certificadoRepository;
      this.eventoRepository := eventoRepository;
      this.inscricaoRepository := inscricaoRepository;
      this.trabalhoRepository := trabalhoRepository;
      this.participanteRepository := participanteRepository;
    }

    /** The duplicate check of all three operations: whether some stored certificate
        of p is of the kind looked for; that is, whether p already holds one. */
    function JaEmitido(p: Id, tipo: TipoCertificado, evento: Id, trabalho: Option<Id>): (r: bool)
      reads this, certificadoRepository
      ensures r <==> p in Titulares(certificadoRepository.entities, tipo, evento, trabalho)
    {
      JaEmitidoSeTitular(certificadoRepository.entities, p, tipo, evento, trabalho);
      exists c | c in CertificadoRepository.FindAllByParticipanteId(certificadoRepository, Some(p)) ::
        Cobre(c, tipo, evento, trabalho)
    }

    /** Saves one new certificate under its fresh id. */
    method Salvar(x: Certificado) returns (r: Result<Certificado>)
      requires Valid() && x.id !in certificadoRepository.entities
      modifies certificadoRepository
      ensures Valid()
      ensures r == Ok(x)
      ensures certificadoRepository.entities == old(certificadoRepository.entities)[x.id := x]
    {
      SelfKeyedPut(certificadoRepository.entities, certificadoRepository.idOf, x.id, x);
      r := certificadoRepository.Save(Some(x));
    }

    /** The inner loop both issuing operations share: for each person of ps in order,
        unless some stored certificate of that person is already of the kind looked
        for, a new one is created with the next fresh id and code and saved. */
    method EmitirPara(ps: seq<Id>, tipo: TipoCertificado, evento: Id, trabalho: Option<Id>, hoje: Day,
                      novosIds: nat -> Id, codigos: nat -> string, n0: nat) returns (emitidos: seq<Certificado>)
      requires Valid()
      requires trabalho.Some? <==> tipo == ApresentacaoTrabalho
      requires IdsFrescos(certificadoRepository.entities, novosIds, n0)
      modifies certificadoRepository
      ensures Valid()
      ensures emitidos == Emissoes(Novos(ps, old(Titulares(certificadoRepository.entities, tipo, evento, trabalho))),
                                   n0, novosIds, codigos, hoje, tipo, evento, trabalho)
      ensures certificadoRepository.entities == Acrescentar(old(certificadoRepository.entities), emitidos)
      ensures IdsFrescos(certificadoRepository.entities, novosIds, n0 + |emitidos|)
      ensures Titulares(certificadoRepository.entities, tipo, evento, trabalho)
              == old(Titulares(certificadoRepository.entities, tipo, evento, trabalho)) + Conjunto(ps)
      ensures old(Unicos(certificadoRepository.entities)) ==> Unicos(certificadoRepository.entities)
      ensures forall w: Option<Id> | w.Some? && w != trabalho ::
                Titulares(certificadoRepository.entities, tipo, evento, w)
                == old(Titulares(certificadoRepository.entities, tipo, evento, w))
    {
      ghost var certs0 := certificadoRepository.entities;
      ghost var t0 := Titulares(certs0, tipo, evento, trabalho);
      ghost var ns: seq<Id> := [];
      emitidos := [];
      var i := 0;
      while i < |ps|
        invariant 0 <= i <= |ps|
        invariant Valid()
        invariant ns == Novos(ps[..i], t0)
        invariant emitidos == Emissoes(ns, n0, novosIds, codigos, hoje, tipo, evento, trabalho)
        invariant certificadoRepository.entities == Acrescentar(certs0, emitidos)
        invariant Titulares(certificadoRepository.entities, tipo, evento, trabalho) == t0 + Conjunto(ns)
        invariant IdsFrescos(certificadoRepository.entities, novosIds, n0 + |emitidos|)
        invariant Unicos(certs0) ==> Unicos(certificadoRepository.entities)
        invariant forall w: Option<Id> | w.Some? && w != trabalho ::
                    Titulares(certificadoRepository.entities, tipo, evento, w) == Titulares(certs0, tipo, evento, w)
      {
        NovosPasso(ps, i, t0);
        emitidos, ns := Atender(ps[i], tipo, evento, trabalho, hoje, novosIds, codigos, n0, certs0, t0, ns, emitidos);
        assert ns == Novos(ps[..i + 1], t0);
        i := i + 1;
        assert ns == Novos(ps[..i], t0);
      }
      assert ps[..i] == ps;
      NovosCobrem(ps, t0);
    }

    /** One person of the inner loop: unless p already holds the certificate, the
        next one is created and saved for p. */
    method Atender(p: Id, tipo: TipoCertificado, evento: Id, trabalho: Option<Id>, hoje: Day,
                   novosIds: nat -> Id, codigos: nat -> string, n0: nat, ghost certs0: map<Id, Certificado>,
                   ghost t0: set<Id>, ghost ns: seq<Id>, emitidos: seq<Certificado>)
      returns (emitidos': seq<Certificado>, ghost ns': seq<Id>)
      requires Valid()
      requires trabalho.Some? <==> tipo == ApresentacaoTrabalho
      requires emitidos == Emissoes(ns, n0, novosIds, codigos, hoje, tipo, evento, trabalho)
      requires certificadoRepository.entities == Acrescentar(certs0, emitidos)
      requires Titulares(certificadoRepository.entities, tipo, evento, trabalho) == t0 + Conjunto(ns)
      requires IdsFrescos(certificadoRepository.entities, novosIds, n0 + |emitidos|)
      modifies certificadoRepository
      ensures Valid()
      ensures ns' == if p in t0 || p in ns then ns else ns + [p]
      ensures emitidos' == Emissoes(ns', n0, novosIds, codigos, hoje, tipo, evento, trabalho)
      ensures certificadoRepository.entities == Acrescentar(certs0, emitidos')
      ensures Titulares(certificadoRepository.entities, tipo, evento, trabalho) == t0 + Conjunto(ns')
      ensures IdsFrescos(certificadoRepository.entities, novosIds, n0 + |emitidos'|)
      ensures old(Unicos(certificadoRepository.entities)) ==> Unicos(certificadoRepository.entities)
      ensures forall w: Option<Id> | w.Some? && w != trabalho ::
                Titulares(certificadoRepository.entities, tipo, evento, w)
                == old(Titulares(certificadoRepository.entities, tipo, evento, w))
    {
      var jaEmitido := JaEmitido(p, tipo, evento, trabalho);
      assert p in Conjunto(ns) <==> p in ns;
      if jaEmitido {
        emitidos', ns' := emitidos, ns;
      } else {
        var n := n0 + |emitidos|;
        var cert := if trabalho.Some? then NovoCertificadoApresentacao(novosIds(n), codigos(n), hoje, p, evento, trabalho)
                    else NovoCertificado(novosIds(n), codigos(n), hoje, tipo, p, evento);
        PassoComEmissao(certs0, certificadoRepository.entities, emitidos, ns, t0, n0, novosIds, codigos,
                        hoje, tipo, evento, trabalho, cert.value);
        var salvo := Salvar(cert.value);
        emitidos', ns' := emitidos + [salvo.value], ns + [p];
      }
    }

    /** emitirCertificadosParticipacaoEvento: after the event is over, a participation
        certificate for the participant of each ATIVA, attendance-confirmed enrollment,
        in list order, skipping whoever already holds one for the event. */
    method EmitirCertificadosParticipacaoEvento(eventoId: Option<Id>, hoje: Day, novosIds: nat -> Id,
                                                codigos: nat -> string) returns (r: Result<seq<Certificado>>)
      requires Valid()
      requires IdsFrescos(certificadoRepository.entities, novosIds, 0)
      modifies certificadoRepository
      ensures Valid()
      ensures r == Err(NotFound(Event)) <==> eventoId.None? || eventoId.value !in eventoRepository.entities
      ensures r == Err(EventNotFinished) <==>
                eventoId.Some? && eventoId.value in eventoRepository.entities
                && !Encerrado(eventoRepository.entities[eventoId.value], hoje)
      ensures r.Err? ==> r.error in {NotFound(Event), EventNotFinished}
      ensures r.Ok? <==>
                eventoId.Some? && eventoId.value in eventoRepository.entities
                && Encerrado(eventoRepository.entities[eventoId.value], hoje)
      ensures r.Err? ==> certificadoRepository.entities == old(certificadoRepository.entities)
      ensures r.Ok? ==>
                eventoId.Some? && eventoId.value in eventoRepository.entities
                && r.value == Emissoes(Novos(Participantes(GetInscritosComPresencaConfirmada(
                                               eventoRepository.entities[eventoId.value], inscricaoRepository.entities)),
                                             old(Titulares(certificadoRepository.entities, Participacao, eventoId.value, None))),
                                       0, novosIds, codigos, hoje, Participacao, eventoId.value, None)
      ensures r.Ok? ==> certificadoRepository.entities == Acrescentar(old(certificadoRepository.entities), r.value)
      ensures r.Ok? ==> IdsFrescos(certificadoRepository.entities, novosIds, |r.value|)
      ensures r.Ok? ==>
                eventoId.Some? && eventoId.value in eventoRepository.entities
                && Titulares(certificadoRepository.entities, Participacao, eventoId.value, None)
                   == old(Titulares(certificadoRepository.entities, Participacao, eventoId.value, None))
                      + Conjunto(Participantes(GetInscritosComPresencaConfirmada(
                                   eventoRepository.entities[eventoId.value], inscricaoRepository.entities)))
      ensures old(Unicos(certificadoRepository.entities)) ==> Unicos(certificadoRepository.entities)
    {
      var evento := eventoRepository.FindById(eventoId);
      if evento.None? {
        return Err(NotFound(Event));
      }
      if hoje < evento.value.dataFim + 1 {
        return Err(EventNotFinished);
      }
      var inscricoesComPresenca := GetInscritosComPresencaConfirmada(evento.value, inscricaoRepository.entities);
      var emitidos := EmitirPara(Participantes(inscricoesComPresenca), Participacao, eventoId.value, None, hoje,
                                 novosIds, codigos, 0);
      r := Ok(emitidos);
    }

    /** emitirCertificadosApresentacaoTrabalhoEvento: after the event is over, for each
        stored work of the event that is approved and presented, a presentation
        certificate for each of its authors who holds none for that work. The works are
        visited in the store's own order, which is not modelled: the result is stated
        as the set of (author, work) pairs it covers, one certificate per pair. */
    method EmitirCertificadosApresentacaoTrabalhoEvento(eventoId: Option<Id>, hoje: Day, novosIds: nat -> Id,
                                                        codigos: nat -> string) returns (r: Result<seq<Certificado>>)
      requires Valid()
      requires IdsFrescos(certificadoRepository.entities, novosIds, 0)
      modifies certificadoRepository
      ensures Valid()
      ensures r == Err(NotFound(Event)) <==> eventoId.None? || eventoId.value !in eventoRepository.entities
      ensures r == Err(EventNotFinished) <==>
                eventoId.Some? && eventoId.value in eventoRepository.entities
                && !Encerrado(eventoRepository.entities[eventoId.value], hoje)
      ensures r.Err? ==> r.error in {NotFound(Event), EventNotFinished}
      ensures r.Ok? <==>
                eventoId.Some? && eventoId.value in eventoRepository.entities
                && Encerrado(eventoRepository.entities[eventoId.value], hoje)
      ensures r.Err? ==> certificadoRepository.entities == old(certificadoRepository.entities)
      ensures r.Ok? ==>
                eventoId.Some? &&
                Pares(r.value) == Devidos(TrabalhoRepository.FindAllByEventoId(trabalhoRepository, eventoId),
                                          old(certificadoRepository.entities), eventoId.value)
      ensures r.Ok? ==> Distintos(r.value) && Numerados(r.value, hoje, novosIds, codigos, eventoId.value)
      ensures r.Ok? ==> certificadoRepository.entities == Acrescentar(old(certificadoRepository.entities), r.value)
      ensures r.Ok? ==> IdsFrescos(certificadoRepository.entities, novosIds, |r.value|)
      ensures r.Ok? ==>
                eventoId.Some?
                && ApresentacoesEmitidas(old(certificadoRepository.entities), certificadoRepository.entities,
                                         eventoId.value, TrabalhoRepository.FindAllByEventoId(trabalhoRepository, eventoId))
      ensures old(Unicos(certificadoRepository.entities)) ==> Unicos(certificadoRepository.entities)
    {
      var evento := eventoRepository.FindById(eventoId);
      if evento.None? {
        return Err(NotFound(Event));
      }
      if hoje < evento.value.dataFim + 1 {
        return Err(EventNotFinished);
      }
      var trabalhosNoEvento := TrabalhoRepository.FindAllByEventoId(trabalhoRepository, eventoId);
      forall a, b | a in trabalhosNoEvento && b in trabalhosNoEvento && a.id == b.id ensures a == b {
        IdentificaTrabalho(trabalhoRepository.entities, a, b);
      }
      var emitidos := EmitirPorTrabalhos(trabalhosNoEvento, eventoId.value, hoje, novosIds, codigos);
      r := Ok(emitidos);
    }

    /** The outer loop of emitirCertificadosApresentacaoTrabalhoEvento, over the works
        of the event in some order. */
    method EmitirPorTrabalhos(trabalhos: set<Trabalho>, e: Id, hoje: Day, novosIds: nat -> Id, codigos: nat -> string)
      returns (emitidos: seq<Certificado>)
      requires Valid()
      requires IdsFrescos(certificadoRepository.entities, novosIds, 0)
      requires forall a, b | a in trabalhos && b in trabalhos && a.id == b.id :: a == b
      modifies certificadoRepository
      ensures Valid()
      ensures Pares(emitidos) == Devidos(trabalhos, old(certificadoRepository.entities), e)
      ensures Distintos(emitidos) && Numerados(emitidos, hoje, novosIds, codigos, e)
      ensures certificadoRepository.entities == Acrescentar(old(certificadoRepository.entities), emitidos)
      ensures IdsFrescos(certificadoRepository.entities, novosIds, |emitidos|)
      ensures ApresentacoesEmitidas(old(certificadoRepository.entities), certificadoRepository.entities, e, trabalhos)
      ensures old(Unicos(certificadoRepository.entities)) ==> Unicos(certificadoRepository.entities)
    {
      ghost var certs0 := certificadoRepository.entities;
      ghost var feitos: set<Trabalho> := {};
      var restantes := trabalhos;
      emitidos := [];
      while restantes != {}
        invariant Valid()
        invariant restantes + feitos == trabalhos && restantes !! feitos
        invariant certificadoRepository.entities == Acrescentar(certs0, emitidos)
        invariant IdsFrescos(certificadoRepository.entities, novosIds, |emitidos|)
        invariant Unicos(certs0) ==> Unicos(certificadoRepository.entities)
        invariant Pares(emitidos) == Devidos(feitos, certs0, e) && Distintos(emitidos)
        invariant Numerados(emitidos, hoje, novosIds, codigos, e)
        invariant forall j | 0 <= j < |emitidos| :: emitidos[j].trabalho in IdsDe(feitos)
        invariant ApresentacoesEmitidas(certs0, certificadoRepository.entities, e, feitos)
        invariant forall t | t in restantes ::
                    Titulares(certificadoRepository.entities, ApresentacaoTrabalho, e, Some(t.id))
                    == Titulares(certs0, ApresentacaoTrabalho, e, Some(t.id))
        decreases restantes
      {
        var trabalho :| trabalho in restantes;
        Separados(trabalhos, feitos, restantes, trabalho);
        ghost var antes := certificadoRepository.entities;
        var novos := EmitirDoTrabalho(trabalho, e, hoje, novosIds, codigos, |emitidos|, certs0, emitidos, feitos,
                                      restantes - {trabalho});
        emitidos := emitidos + novos;
        EmitidasPasso(certs0, antes, certificadoRepository.entities, e, feitos, trabalho);
        Avanca(trabalhos, restantes, feitos, trabalho);
        restantes := restantes - {trabalho};
        feitos := feitos + {trabalho};
      }
      assert feitos == trabalhos;
    }

    /** One work of the outer loop: for an approved and presented work, the inner loop
        over its authors; any other work is passed over. */
    method EmitirDoTrabalho(t: Trabalho, e: Id, hoje: Day, novosIds: nat -> Id, codigos: nat -> string, n0: nat,
                            ghost certs0: map<Id, Certificado>, ghost emitidos: seq<Certificado>,
                            ghost feitos: set<Trabalho>, ghost resto: set<Trabalho>) returns (novos: seq<Certificado>)
      requires Valid()
      requires n0 == |emitidos|
      requires certificadoRepository.entities == Acrescentar(certs0, emitidos)
      requires IdsFrescos(certificadoRepository.entities, novosIds, n0)
      requires Pares(emitidos) == Devidos(feitos, certs0, e) && Distintos(emitidos)
      requires Numerados(emitidos, hoje, novosIds, codigos, e)
      requires forall j | 0 <= j < |emitidos| :: emitidos[j].trabalho in IdsDe(feitos)
      requires Some(t.id) !in IdsDe(feitos)
      requires forall w | w in resto + {t} ::
                 Titulares(certificadoRepository.entities, ApresentacaoTrabalho, e, Some(w.id))
                 == Titulares(certs0, ApresentacaoTrabalho, e, Some(w.id))
      requires forall w | w in resto :: w.id != t.id
      modifies certificadoRepository
      ensures Valid()
      ensures certificadoRepository.entities == Acrescentar(certs0, emitidos + novos)
      ensures IdsFrescos(certificadoRepository.entities, novosIds, n0 + |novos|)
      ensures old(Unicos(certificadoRepository.entities)) ==> Unicos(certificadoRepository.entities)
      ensures Pares(emitidos + novos) == Devidos(feitos + {t}, certs0, e) && Distintos(emitidos + novos)
      ensures Numerados(emitidos + novos, hoje, novosIds, codigos, e)
      ensures forall j | 0 <= j < |emitidos + novos| :: (emitidos + novos)[j].trabalho in IdsDe(feitos + {t})
      ensures Titulares(certificadoRepository.entities, ApresentacaoTrabalho, e, Some(t.id))
              == Titulares(certs0, ApresentacaoTrabalho, e, Some(t.id))
                 + (if FoiAprovado(t) && FoiApresentado(t) then Conjunto(t.autores) else {})
      ensures forall w: Option<Id> | w.Some? && w != Some(t.id) ::
                Titulares(certificadoRepository.entities, ApresentacaoTrabalho, e, w)
                == old(Titulares(certificadoRepository.entities, ApresentacaoTrabalho, e, w))
      ensures forall w | w in resto ::
                Titulares(certificadoRepository.entities, ApresentacaoTrabalho, e, Some(w.id))
                == Titulares(certs0, ApresentacaoTrabalho, e, Some(w.id))
    {
      if FoiAprovado(t) && FoiApresentado(t) {
        assert t in resto + {t};
        ghost var antes := certificadoRepository.entities;
        novos := EmitirPara(t.autores, ApresentacaoTrabalho, e, Some(t.id), hoje, novosIds, codigos, n0);
        forall w | w in resto
          ensures Titulares(certificadoRepository.entities, ApresentacaoTrabalho, e, Some(w.id))
                  == Titulares(certs0, ApresentacaoTrabalho, e, Some(w.id))
        {
          assert w in resto + {t};
          assert Titulares(certificadoRepository.entities, ApresentacaoTrabalho, e, Some(w.id))
                 == Titulares(antes, ApresentacaoTrabalho, e, Some(w.id));
        }
        PassoTrabalho(emitidos, feitos, t, certs0, e, hoje, novosIds, codigos, novos);
        AcrescentarConcat(certs0, emitidos, novos);
      } else {
        novos := [];
        DevidosMaisUm(feitos, t, certs0, e);
        assert emitidos + novos == emitidos;
      }
    }

    /** emitirCertificadoOrganizador: the outcome EmissaoOrganizador gives; on success
        the new organization certificate is saved. */
    method EmitirCertificadoOrganizador(eventoId: Option<Id>, organizadorId: Option<Id>, hoje: Day, novoId: Id,
                                        codigo: string) returns (r: Result<Certificado>)
      requires Valid()
      requires novoId !in certificadoRepository.entities
      modifies certificadoRepository
      ensures Valid()
      ensures r == EmissaoOrganizador(eventoRepository.entities, participanteRepository.entities,
                                      old(certificadoRepository.entities), eventoId, organizadorId, hoje, novoId, codigo)
      ensures r.Err? ==> certificadoRepository.entities == old(certificadoRepository.entities)
      ensures r.Ok? ==> certificadoRepository.entities == old(certificadoRepository.entities)[novoId := r.value]
      ensures old(Unicos(certificadoRepository.entities)) ==> Unicos(certificadoRepository.entities)
    {
      var evento := eventoRepository.FindById(eventoId);
      if evento.None? {
        return Err(NotFound(Event));
      }
      var organizador := participanteRepository.FindById(organizadorId);
      if organizador.None? {
        return Err(NotFound(Organizer));
      }
      if evento.value.organizadorResponsavel != organizadorId.value {
        return Err(NotResponsibleOrganizer);
      }
      if hoje < evento.value.dataFim + 1 {
        return Err(EventNotFinished);
      }
      var jaEmitido := JaEmitido(organizador.value.id, Organizacao, eventoId.value, None);
      if jaEmitido {
        return Err(AlreadyIssued);
      }
      var cert := NovoCertificado(novoId, codigo, hoje, Organizacao, organizador.value.id, eventoId.value);
      if Unicos(certificadoRepository.entities) {
        UnicosNovo(certificadoRepository.entities, cert.value, Organizacao, eventoId.value, None);
      }
      r := Salvar(cert.value);
    }
  }
}

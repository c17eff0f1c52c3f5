/** domain/Evento.java: an event with its dates, capacity, optional submission window,
    responsible organizer, and the lists of its enrollments and works. The lists hold
    ids; the enrollment records (and so their status) live in the enrollment store,
    which is the one copy every reader sees. */
module Evento {
  import opened Common
  import opened Enums
  import opened Inscricao
  import opened Participante

  datatype Evento = Evento(
    id: Id,
    nome: string,
    descricao: string,
    dataInicio: Day,
    dataFim: Day,
    local: string,
    capacidadeMaxima: int,
    periodoSubmissaoInicio: Option<Day>,
    periodoSubmissaoFim: Option<Day>,
    organizadorResponsavel: Id,
    inscricoes: seq<Id>,     // enrollment ids, in the order they were added
    trabalhos: seq<Id>)      // work ids, in the order they were added

  /** The constructor: no submission window and no enrollments or works yet. */
  function NovoEvento(id: Id, nome: string, descricao: string, dataInicio: Day, dataFim: Day,
                      local: string, capacidadeMaxima: int, organizador: Id): (e: Evento)
    ensures e.periodoSubmissaoInicio == None && e.periodoSubmissaoFim == None
    ensures e.inscricoes == [] && e.trabalhos == []
    ensures e.id == id && e.nome == nome && e.descricao == descricao && e.local == local
    ensures e.dataInicio == dataInicio && e.dataFim == dataFim
    ensures e.capacidadeMaxima == capacidadeMaxima && e.organizadorResponsavel == organizador
  {
    Evento(id, nome, descricao, dataInicio, dataFim, local, capacidadeMaxima, None, None, organizador, [], [])
  }

  // ---------------------------------------------------------------- capacity

  /** The enrollment with id k is stored and ATIVA. */
  predicate EstaAtiva(k: Id, store: map<Id, Inscricao>) {
    k in store && store[k].status == Ativa
  }

  /** The number of ATIVA enrollments in a list of enrollment ids. */
  function CountAtivas(ids: seq<Id>, store: map<Id, Inscricao>): (n: nat)
    ensures n <= |ids|
  {
    if |ids| == 0 then 0
    else CountAtivas(ids[..|ids| - 1], store) + (if EstaAtiva(ids[|ids| - 1], store) then 1 else 0)
  }

  /** The positions of the list that hold an ATIVA enrollment. */
  function PosicoesAtivas(ids: seq<Id>, store: map<Id, Inscricao>): set<int> {
    set k | 0 <= k < |ids| && EstaAtiva(ids[k], store)
  }

  /** CountAtivas counts exactly the positions that hold an ATIVA enrollment. */
  lemma {:induction false} CountAtivasIsCardinality(ids: seq<Id>, store: map<Id, Inscricao>)
    ensures CountAtivas(ids, store) == |PosicoesAtivas(ids, store)|
  {
    if |ids| > 0 {
      var n := |ids| - 1;
      var pre := ids[..n];
      CountAtivasIsCardinality(pre, store);
      var before := PosicoesAtivas(pre, store);
      if EstaAtiva(ids[n], store) {
        assert PosicoesAtivas(ids, store) == before + {n};
        assert n !in before;
      } else {
        assert PosicoesAtivas(ids, store) == before;
      }
    }
  }

  /** isLotado: the ATIVA enrollments in the event's list reach the capacity. */
  function IsLotado(ev: Evento, store: map<Id, Inscricao>): (r: bool)
    ensures ev.capacidadeMaxima <= 0 ==> r
    ensures r ==> ev.capacidadeMaxima <= |ev.inscricoes|
    ensures ev.inscricoes == [] ==> (r <==> ev.capacidadeMaxima <= 0)
  {
    CountAtivas(ev.inscricoes, store) >= ev.capacidadeMaxima
  }

  /** isLotado holds exactly when the positions of the event's list holding an ATIVA
      enrollment are at least as many as the capacity. */
  lemma IsLotadoIff(ev: Evento, store: map<Id, Inscricao>)
    ensures IsLotado(ev, store) <==> |PosicoesAtivas(ev.inscricoes, store)| >= ev.capacidadeMaxima
  {
    CountAtivasIsCardinality(ev.inscricoes, store);
  }

  /** The invariant the enrollment rules are meant to keep: active <= capacity. */
  predicate DentroDaCapacidade(ev: Evento, store: map<Id, Inscricao>) {
    CountAtivas(ev.inscricoes, store) <= ev.capacidadeMaxima
  }

  /** Appending one id adds one to the count exactly when that enrollment is ATIVA. */
  lemma {:induction false} CountAtivasAppend(ids: seq<Id>, k: Id, store: map<Id, Inscricao>)
    ensures CountAtivas(ids + [k], store) == CountAtivas(ids, store) + (if EstaAtiva(k, store) then 1 else 0)
  {
    assert (ids + [k])[..|ids|] == ids;
  }

  /** The count depends only on whether each listed enrollment is ATIVA. */
  lemma {:induction false} CountAtivasUnchanged(ids: seq<Id>, store: map<Id, Inscricao>, store': map<Id, Inscricao>)
    requires forall j :: j in ids ==> (EstaAtiva(j, store) <==> EstaAtiva(j, store'))
    ensures CountAtivas(ids, store') == CountAtivas(ids, store)
  {
    if |ids| > 0 {
      CountAtivasUnchanged(ids[..|ids| - 1], store, store');
    }
  }

  /** When no listed enrollment becomes ATIVA, the count cannot grow; it shrinks when
      some listed enrollment stops being ATIVA. */
  lemma {:induction false} CountAtivasMonotone(ids: seq<Id>, store: map<Id, Inscricao>, store': map<Id, Inscricao>)
    requires forall j :: j in ids ==> EstaAtiva(j, store') ==> EstaAtiva(j, store)
    ensures CountAtivas(ids, store') <= CountAtivas(ids, store)
    ensures (exists j :: j in ids && EstaAtiva(j, store) && !EstaAtiva(j, store'))
            ==> CountAtivas(ids, store') < CountAtivas(ids, store)
  {
    if |ids| > 0 {
      var n := |ids| - 1;
      CountAtivasMonotone(ids[..n], store, store');
      if exists j :: j in ids && EstaAtiva(j, store) && !EstaAtiva(j, store') {
        var j :| j in ids && EstaAtiva(j, store) && !EstaAtiva(j, store');
        if j != ids[n] {
          var p :| 0 <= p < |ids| && ids[p] == j;
          assert ids[..n][p] == j;
        }
      }
    }
  }

  // ---------------------------------------------------------------- submission window

  /** isPeriodoSubmissaoAberto: false while either bound is unset, otherwise whether
      dataAtual lies in the window, both ends included. */
  function IsPeriodoSubmissaoAberto(ev: Evento, dataAtual: Day): (r: bool)
    ensures r <==> ev.periodoSubmissaoInicio.Some? && ev.periodoSubmissaoFim.Some?
                   && ev.periodoSubmissaoInicio.value <= dataAtual <= ev.periodoSubmissaoFim.value
  {
    match (ev.periodoSubmissaoInicio, ev.periodoSubmissaoFim)
    case (Some(inicio), Some(fim)) => !(dataAtual < inicio) && !(dataAtual > fim)
    case _ => false
  }

  /** The window, when both bounds are set, does not end before it starts. */
  predicate JanelaCoerente(ev: Evento) {
    ev.periodoSubmissaoInicio.Some? && ev.periodoSubmissaoFim.Some?
    ==> ev.periodoSubmissaoInicio.value <= ev.periodoSubmissaoFim.value
  }

  /** setPeriodoSubmissao: refuses a window whose start is after its end (both set),
      leaving the event as it was; otherwise stores both bounds, null or not. */
  function SetPeriodoSubmissao(ev: Evento, inicio: Option<Day>, fim: Option<Day>): (r: Result<Evento>)
    ensures r.Err? <==> inicio.Some? && fim.Some? && inicio.value > fim.value
    ensures r.Err? ==> r.error == InvalidSubmissionWindow
    ensures r.Ok? ==> JanelaCoerente(r.value)
    ensures r.Ok? ==> r.value.periodoSubmissaoInicio == inicio && r.value.periodoSubmissaoFim == fim
    ensures r.Ok? ==> r.value == ev.(periodoSubmissaoInicio := r.value.periodoSubmissaoInicio,
                                     periodoSubmissaoFim := r.value.periodoSubmissaoFim)
  {
    if inicio.Some? && fim.Some? && inicio.value > fim.value then Err(InvalidSubmissionWindow)
    else Ok(ev.(periodoSubmissaoInicio := inicio, periodoSubmissaoFim := fim))
  }

  /** After a successful setPeriodoSubmissao the window is open on a day exactly when
      both bounds were given and the day lies between them. */
  lemma JanelaDefinida(ev: Evento, inicio: Option<Day>, fim: Option<Day>, d: Day)
    requires SetPeriodoSubmissao(ev, inicio, fim).Ok?
    ensures IsPeriodoSubmissaoAberto(SetPeriodoSubmissao(ev, inicio, fim).value, d)
            <==> inicio.Some? && fim.Some? && inicio.value <= d <= fim.value
  {
  }

  // ---------------------------------------------------------------- enrollment queries

  /** The enrollment with id k is stored, ATIVA, and belongs to the participant pid. */
  predicate AtivaDe(k: Id, store: map<Id, Inscricao>, pid: Id) {
    k in store && store[k].participante == pid && store[k].status == Ativa
  }

  /** anyMatch over a list of enrollment ids. */
  function AlgumaAtivaDe(ids: seq<Id>, store: map<Id, Inscricao>, pid: Id): (r: bool)
    ensures r <==> exists k :: 0 <= k < |ids| && AtivaDe(ids[k], store, pid)
  {
    if |ids| == 0 then false
    else if AtivaDe(ids[0], store, pid) then true
    else
      var rest := AlgumaAtivaDe(ids[1..], store, pid);
      assert rest <==> exists k :: 1 <= k < |ids| && AtivaDe(ids[k], store, pid) by {
        if rest {
          var k :| 0 <= k < |ids[1..]| && AtivaDe(ids[1..][k], store, pid);
          assert AtivaDe(ids[k + 1], store, pid);
        }
        if exists k :: 1 <= k < |ids| && AtivaDe(ids[k], store, pid) {
          var k :| 1 <= k < |ids| && AtivaDe(ids[k], store, pid);
          assert AtivaDe(ids[1..][k - 1], store, pid);
        }
      }
      rest
  }

  /** isParticipanteInscritoAtivo: some enrollment in the event's list belongs to the
      participant (compared by id, as Participante.equals does) and is ATIVA. */
  function IsParticipanteInscritoAtivo(ev: Evento, store: map<Id, Inscricao>, p: Participante): (r: bool)
    ensures r <==> exists k :: 0 <= k < |ev.inscricoes| && EstaAtiva(ev.inscricoes[k], store)
                              && store[ev.inscricoes[k]].participante == p.id
  {
    var r := AlgumaAtivaDe(ev.inscricoes, store, p.id);
    assert r ==> exists k :: 0 <= k < |ev.inscricoes| && EstaAtiva(ev.inscricoes[k], store)
                             && store[ev.inscricoes[k]].participante == p.id by {
      if r {
        var k :| 0 <= k < |ev.inscricoes| && AtivaDe(ev.inscricoes[k], store, p.id);
        assert EstaAtiva(ev.inscricoes[k], store);
      }
    }
    assert (exists k :: 0 <= k < |ev.inscricoes| && EstaAtiva(ev.inscricoes[k], store)
                        && store[ev.inscricoes[k]].participante == p.id) ==> r by {
      if exists k :: 0 <= k < |ev.inscricoes| && EstaAtiva(ev.inscricoes[k], store)
                     && store[ev.inscricoes[k]].participante == p.id {
        var k :| 0 <= k < |ev.inscricoes| && EstaAtiva(ev.inscricoes[k], store)
                 && store[ev.inscricoes[k]].participante == p.id;
        assert AtivaDe(ev.inscricoes[k], store, p.id);
      }
    }
    r
  }

  /** The enrollment with id k is stored, ATIVA and attendance-confirmed. */
  predicate Confirmada(k: Id, store: map<Id, Inscricao>) {
    k in store && store[k].presencaConfirmada && store[k].status == Ativa
  }

  /** The stream filter of getInscritosComPresencaConfirmada over a list of ids. */
  function Confirmadas(ids: seq<Id>, store: map<Id, Inscricao>): (r: seq<Inscricao>)
    ensures |r| <= |ids|
    ensures forall x :: x in r ==> x.presencaConfirmada && x.status == Ativa
    ensures forall k :: 0 <= k < |ids| && Confirmada(ids[k], store) ==> store[ids[k]] in r
    ensures forall x :: x in r ==> exists k :: 0 <= k < |ids| && Confirmada(ids[k], store) && store[ids[k]] == x
  {
    if |ids| == 0 then []
    else
      var rest := Confirmadas(ids[1..], store);
      assert forall x :: x in rest ==> exists k :: 0 <= k < |ids| && Confirmada(ids[k], store) && store[ids[k]] == x by {
        forall x | x in rest ensures exists k :: 0 <= k < |ids| && Confirmada(ids[k], store) && store[ids[k]] == x {
          var k :| 0 <= k < |ids[1..]| && Confirmada(ids[1..][k], store) && store[ids[1..][k]] == x;
          assert ids[1..][k] == ids[k + 1];
        }
      }
      assert forall k :: 1 <= k < |ids| && Confirmada(ids[k], store) ==> store[ids[k]] in rest by {
        forall k | 1 <= k < |ids| && Confirmada(ids[k], store) ensures store[ids[k]] in rest {
          assert ids[1..][k - 1] == ids[k];
        }
      }
      if Confirmada(ids[0], store) then [store[ids[0]]] + rest else rest
  }

  /** The filter keeps list order: filtering a concatenation concatenates the filtered parts. */
  lemma {:induction false} ConfirmadasAppend(a: seq<Id>, b: seq<Id>, store: map<Id, Inscricao>)
    ensures Confirmadas(a + b, store) == Confirmadas(a, store) + Confirmadas(b, store)
  {
    if |a| > 0 {
      assert (a + b)[1..] == a[1..] + b;
      ConfirmadasAppend(a[1..], b, store);
    } else {
      assert a + b == b;
    }
  }

  /** getInscritosComPresencaConfirmada: in list order, exactly the listed enrollments
      that are attendance-confirmed and ATIVA. */
  function GetInscritosComPresencaConfirmada(ev: Evento, store: map<Id, Inscricao>): (r: seq<Inscricao>)
    ensures forall x :: x in r ==> x.presencaConfirmada && x.status == Ativa
    ensures forall k :: 0 <= k < |ev.inscricoes| && Confirmada(ev.inscricoes[k], store)
                        ==> store[ev.inscricoes[k]] in r
    ensures forall x :: x in r ==> exists k :: 0 <= k < |ev.inscricoes| && Confirmada(ev.inscricoes[k], store)
                                              && store[ev.inscricoes[k]] == x
  {
    Confirmadas(ev.inscricoes, store)
  }

  // ---------------------------------------------------------------- list updates

  /** adicionarInscricaoInterna: refuses null; otherwise appends the enrollment at the
      end and changes nothing else. */
  function AdicionarInscricaoInterna(ev: Evento, inscricao: Option<Id>): (r: Result<Evento>)
    ensures inscricao.None? <==> r.Err?
    ensures r.Err? ==> r.error == NullArgument
    ensures r.Ok? ==> r.value.inscricoes == ev.inscricoes + [inscricao.value]
    ensures r.Ok? ==> r.value == ev.(inscricoes := r.value.inscricoes)
  {
    if inscricao.None? then Err(NullArgument)
    else Ok(ev.(inscricoes := ev.inscricoes + [inscricao.value]))
  }

  /** adicionarTrabalhoInterno: refuses null; otherwise appends the work at the end and
      changes nothing else. */
  function AdicionarTrabalhoInterno(ev: Evento, trabalho: Option<Id>): (r: Result<Evento>)
    ensures trabalho.None? <==> r.Err?
    ensures r.Err? ==> r.error == NullArgument
    ensures r.Ok? ==> r.value.trabalhos == ev.trabalhos + [trabalho.value]
    ensures r.Ok? ==> r.value == ev.(trabalhos := r.value.trabalhos)
  {
    if trabalho.None? then Err(NullArgument)
    else Ok(ev.(trabalhos := ev.trabalhos + [trabalho.value]))
  }

  /** The position of the first occurrence of x. */
  function IndexOf(s: seq<Id>, x: Id): (k: nat)
    requires x in s
    ensures k < |s| && s[k] == x && x !in s[..k]
  {
    if s[0] == x then 0
    else
      var k := 1 + IndexOf(s[1..], x);
      assert s[..k] == [s[0]] + s[1..][..k - 1];
      k
  }

  /** List.remove(Object): drops the first element equal to x, if any. */
  function RemoveFirst(s: seq<Id>, x: Id): (r: seq<Id>)
    ensures x !in s ==> r == s
    ensures x in s ==> |r| == |s| - 1
  {
    if |s| == 0 then []
    else if s[0] == x then s[1..]
    else [s[0]] + RemoveFirst(s[1..], x)
  }

  /** RemoveFirst removes exactly the first occurrence and keeps the rest in order. */
  lemma {:induction false} RemoveFirstSplits(s: seq<Id>, x: Id)
    requires x in s
    ensures RemoveFirst(s, x) == s[..IndexOf(s, x)] + s[IndexOf(s, x) + 1..]
  {
    if s[0] != x {
      RemoveFirstSplits(s[1..], x);
      var k := IndexOf(s[1..], x);
      assert s[..k + 1] == [s[0]] + s[1..][..k];
      assert s[k + 2..] == s[1..][k + 1..];
    }
  }

  /** RemoveFirst takes away one occurrence of x, when there is one, and nothing else. */
  lemma {:induction false} RemoveFirstMultiset(s: seq<Id>, x: Id)
    ensures multiset(RemoveFirst(s, x)) == multiset(s) - multiset{x}
  {
    if |s| > 0 {
      assert s == [s[0]] + s[1..];
      if s[0] != x {
        RemoveFirstMultiset(s[1..], x);
      }
    }
  }

  /** removerInscricaoInterna: refuses null; otherwise removes the first listed
      enrollment equal (by id) to the argument, and nothing else. */
  function RemoverInscricaoInterna(ev: Evento, inscricao: Option<Id>): (r: Result<Evento>)
    ensures inscricao.None? <==> r.Err?
    ensures r.Err? ==> r.error == NullArgument
    ensures r.Ok? && inscricao.value !in ev.inscricoes ==> r.value == ev
    ensures r.Ok? && inscricao.value in ev.inscricoes ==>
              var k := IndexOf(ev.inscricoes, inscricao.value);
              r.value.inscricoes == ev.inscricoes[..k] + ev.inscricoes[k + 1..]
    ensures r.Ok? ==> r.value == ev.(inscricoes := r.value.inscricoes)
  {
    if inscricao.None? then Err(NullArgument)
    else
      assert inscricao.value in ev.inscricoes ==>
               RemoveFirst(ev.inscricoes, inscricao.value)
               == ev.inscricoes[..IndexOf(ev.inscricoes, inscricao.value)]
                  + ev.inscricoes[IndexOf(ev.inscricoes, inscricao.value) + 1..] by {
        if inscricao.value in ev.inscricoes { RemoveFirstSplits(ev.inscricoes, inscricao.value); }
      }
      Ok(ev.(inscricoes := RemoveFirst(ev.inscricoes, inscricao.value)))
  }
}

# SGEA event management core, modelled in Dafny

SGEA (Sistema de Gestão de Eventos Acadêmicos) manages academic events. Its core has
four parts:

- **Participants** (`Participante`) register, each with a profile: PARTICIPANTE,
  ORGANIZADOR or AVALIADOR.
- **Organizers** create events (`Evento`). An event has a capacity and an optional
  submission window.
- **Participants enroll** (`Inscricao`). An enrollment may be cancelled up to a
  deadline before the event starts. Once the event has begun, the organizer confirms
  attendance.
- **Works** (`Trabalho`) are submitted by authors, at least one of whom is enrolled.
  The organizer assigns an evaluator, and evaluators record evaluations (`Avaliacao`). After the
  event ends, certificates (`Certificado`) are issued for participation, for presenting
  a work and for organizing.

All entities live in in-memory repositories keyed by id. `BaseRepository` provides
save, find, delete and count, and six repositories add the queries the controllers
use.

How the model is built:

- **Entities are datatypes.** An object reference becomes the referenced entity's id.
  Enrollments and works are listed by their event as sequences of ids.
- **`BaseRepository.Repository<T>` is a class.** Its field `entities: map<Id, T>` is
  the `ConcurrentHashMap`. Its invariant `Valid()` says that every entry is stored under its
  own id.
- **Each controller is a class** holding its repositories. Each operation is a
  `method` that changes those repositories (`modifies`).
  - The method's `ensures` ties its result to a pure outcome function of the old
    stores, and states the new stores exactly.
  - Where Java mutates a shared entity in place without saving it, the method writes
    the changed entity straight into the store. Examples: appending an enrollment to
    its event, or a work to its event.
  - The controller invariants are stated over the stores:
    - the stores agree (`Integra`, `TrabalhosIntegros`, `AvaliacoesIntegras`); every
      method of the controller that holds them keeps them;
    - the capacity rule holds (`CapacidadeRespeitada`); the enrollment methods keep it,
      but atualizarDetalhesEvento can break it by lowering a capacity
      (`EventoController.ReduzirCapacidadeQuebraLimite`);
    - events are well formed (`EventosBemFormados`); cadastrarEvento and
      definirPeriodoSubmissao keep it, but atualizarDetalhesEvento does not, since it
      stores an edited start after the end before it raises the date error
      (`EventoController.AdiarInicioQuebraBemFormado`);
    - emails are unique ignoring case (`EmailsUnicos`); cadastrarParticipante keeps
      it, but atualizarParticipante can break it
      (`ParticipanteController.AtualizarQuebraEmailsUnicos`);
    - no certificate is issued twice for the same participant, type, event and work
      (`Unicos`); every issuing method keeps it.
- **Failures are values.** The exceptions the Java code throws become `Err` values of
  a `Result`, one error per guard, kept in the order of the guards.
- **Inputs from outside become parameters.** The current day, freshly generated ids
  and validation codes are parameters. A fresh id is required not to be a key of its
  store.

## Model

| member | source | states |
|---|---|---|
| Text.TrimStart | SGEA/src/main/java/controller/ParticipanteController.java:20 | the result is a suffix of the input that starts with no blank, and everything dropped is blank |
| Text.TrimEnd | SGEA/src/main/java/controller/ParticipanteController.java:20 | the result is a prefix of the input that ends with no blank, and everything dropped is blank |
| Text.Trim | SGEA/src/main/java/controller/ParticipanteController.java:20 | trim gives a contiguous part of the input that neither starts nor ends with a blank; an input that already does neither comes back unchanged |
| Text.IsBlank | SGEA/src/main/java/controller/ParticipanteController.java:20 | the empty string is blank; a string that starts or ends with a visible character is not |
| Text.BlankIffAllTrimmable | SGEA/src/main/java/controller/ParticipanteController.java:20 | `trim().isEmpty()` holds exactly when every character is a blank |
| Text.LowerChar | SGEA/src/main/java/repository/ParticipanteRepository.java:22 | upper-case letters map to a different lower-case letter; every other character is unchanged |
| Text.Lower | SGEA/src/main/java/repository/ParticipanteRepository.java:22-24 | lowering keeps the length and lowers each character in place |
| Text.EqualsIgnoreCase | SGEA/src/main/java/controller/ParticipanteController.java:27 | equal strings match; matching strings have the same length; on text without capital letters it is plain equality |
| Text.EqualsIgnoreCaseIsEquivalence | SGEA/src/main/java/controller/ParticipanteController.java:26-27 | equalsIgnoreCase is reflexive, symmetric and transitive, and relates only strings of equal length |
| Text.Contains | SGEA/src/main/java/controller/ParticipanteController.java:23 | the empty string and the string itself are contained; a contained string is never longer; a one-character string is contained exactly when that character occurs |
| Text.ContainsTransitive | SGEA/src/main/java/repository/ParticipanteRepository.java:24 | if a contains b and b contains c, then a contains c |
| Text.LowerKeepsContains | SGEA/src/main/java/repository/ParticipanteRepository.java:22-24 | if s contains sub, the lowered s contains the lowered sub |
| Participante.MesmoParticipanteOnlyById | SGEA/src/main/java/domain/Participante.java:77-82 | equals compares ids only: two different ids with the same name and email are different participants |
| Participante.SetNomeCompleto | SGEA/src/main/java/domain/Participante.java:51-53 | sets the name; the id and every other field stay the same |
| Participante.SetEmail | SGEA/src/main/java/domain/Participante.java:55-57 | sets the email; the id and every other field stay the same |
| Participante.SetInstituicao | SGEA/src/main/java/domain/Participante.java:59-61 | sets the institution; the id and every other field stay the same |
| Participante.SetTipoPerfil | SGEA/src/main/java/domain/Participante.java:63-65 | sets the profile; the id and every other field stay the same |
| Inscricao.NovaInscricao | SGEA/src/main/java/domain/Inscricao.java:28-35 | a new enrollment is ATIVA, attendance is unconfirmed, and it carries the given day, event and participant |
| Inscricao.SetStatus | SGEA/src/main/java/domain/Inscricao.java:46-48 | sets the status; nothing else changes |
| Inscricao.SetPresencaConfirmada | SGEA/src/main/java/domain/Inscricao.java:50-58 | succeeds exactly for an ATIVA enrollment and sets the flag; otherwise fails with EnrollmentNotActive |
| Inscricao.PodeCancelar | SGEA/src/main/java/domain/Inscricao.java:61-68 | true exactly for an ATIVA enrollment on a day no later than the event start minus the cancellation notice |
| Inscricao.PodeCancelarDeadline | SGEA/src/main/java/domain/Inscricao.java:61-68 | if cancelling is allowed on a day, it is allowed on every earlier day, and only before the event starts |
| Evento.NovoEvento | SGEA/src/main/java/domain/Evento.java:36-48 | a new event has no enrollments, no works and no submission window, and carries the given fields |
| Evento.CountAtivas | SGEA/src/main/java/domain/Evento.java:88-90 | the number of ATIVA enrollments counted never exceeds the number of enrollments listed |
| Evento.CountAtivasIsCardinality | SGEA/src/main/java/domain/Evento.java:88-90 | the count equals the number of list positions that hold a stored ATIVA enrollment |
| Evento.IsLotado | SGEA/src/main/java/domain/Evento.java:88-90 | a capacity of zero or less makes the event full; a full event lists at least as many enrollments as its capacity; an event listing none is full exactly when its capacity is not positive |
| Evento.IsLotadoIff | SGEA/src/main/java/domain/Evento.java:88-90 | isLotado holds exactly when the ATIVA positions number at least the capacity |
| Evento.CountAtivasAppend | SGEA/src/main/java/domain/Evento.java:104-108 | appending an id raises the count by one exactly when that enrollment is ATIVA |
| Evento.CountAtivasUnchanged | SGEA/src/main/java/domain/Evento.java:88-90 | the count depends only on which listed enrollments are ATIVA |
| Evento.CountAtivasMonotone | SGEA/src/main/java/domain/Evento.java:88-90 | the count does not grow when no listed enrollment becomes ATIVA, and shrinks when one stops being ATIVA |
| Evento.IsPeriodoSubmissaoAberto | SGEA/src/main/java/domain/Evento.java:92-97 | open exactly when both bounds are set and the day lies between them, both ends included |
| Evento.SetPeriodoSubmissao | SGEA/src/main/java/domain/Evento.java:79-85 | refuses exactly a window whose start is after its end; otherwise stores both bounds and changes nothing else |
| Evento.JanelaDefinida | SGEA/src/main/java/domain/Evento.java:79-97 | after a successful set, the window is open on a day exactly when both bounds were given and enclose that day |
| Evento.AlgumaAtivaDe | SGEA/src/main/java/domain/Evento.java:99-102 | true exactly when some listed enrollment is stored, ATIVA and belongs to that participant |
| Evento.IsParticipanteInscritoAtivo | SGEA/src/main/java/domain/Evento.java:99-102 | true exactly when the event lists an ATIVA enrollment of that participant |
| Evento.Confirmadas | SGEA/src/main/java/domain/Evento.java:121-126 | holds exactly the listed enrollments that are ATIVA with attendance confirmed |
| Evento.ConfirmadasAppend | SGEA/src/main/java/domain/Evento.java:121-126 | the filter distributes over concatenation, so list order is kept |
| Evento.GetInscritosComPresencaConfirmada | SGEA/src/main/java/domain/Evento.java:121-126 | the event's confirmed ATIVA enrollments, all of them and only them |
| Evento.AdicionarInscricaoInterna | SGEA/src/main/java/domain/Evento.java:104-108 | a null enrollment is refused; otherwise its id is appended and nothing else changes |
| Evento.AdicionarTrabalhoInterno | SGEA/src/main/java/domain/Evento.java:115-119 | a null work is refused; otherwise its id is appended and nothing else changes |
| Evento.IndexOf | SGEA/src/main/java/domain/Evento.java:110-113 | the position of the first occurrence of an element that is present |
| Evento.RemoveFirst | SGEA/src/main/java/domain/Evento.java:110-113 | List.remove: the list is unchanged when the element is absent, and one shorter when it is present |
| Evento.RemoveFirstSplits | SGEA/src/main/java/domain/Evento.java:110-113 | exactly the first occurrence is removed, and the rest keeps its order |
| Evento.RemoveFirstMultiset | SGEA/src/main/java/domain/Evento.java:110-113 | the removal takes one copy of the element out of the list's multiset |
| Evento.RemoverInscricaoInterna | SGEA/src/main/java/domain/Evento.java:110-113 | a null enrollment is refused; otherwise its first occurrence is removed and nothing else changes |
| Trabalho.NovoTrabalho | SGEA/src/main/java/domain/Trabalho.java:31-43 | a null or empty author list is refused with NoAuthors; otherwise a SUBMETIDO work with no evaluations and the given fields |
| Trabalho.SetStatus | SGEA/src/main/java/domain/Trabalho.java:58 | sets the status; nothing else changes |
| Trabalho.AdicionarAvaliacaoInterna | SGEA/src/main/java/domain/Trabalho.java:63-74 | refuses a null evaluation and a work that is not SUBMETIDO or EM_AVALIACAO; otherwise appends the evaluation and the work ends EM_AVALIACAO |
| Trabalho.AvaliacoesSucessivas | SGEA/src/main/java/domain/Trabalho.java:63-74 | a second evaluation is accepted after the first; both are kept in order and the status stays EM_AVALIACAO |
| Trabalho.Avaliavel | SGEA/src/main/java/domain/Trabalho.java:66 | a work that still accepts evaluations is neither approved, presented nor rejected |
| Trabalho.FoiAprovado | SGEA/src/main/java/domain/Trabalho.java:76-82 | a SUBMETIDO, EM_AVALIACAO or REJEITADO work is not approved |
| Trabalho.FoiApresentado | SGEA/src/main/java/domain/Trabalho.java:84-86 | a presented work no longer accepts evaluations and is not rejected |
| Trabalho.ApresentadoImplicaAprovado | SGEA/src/main/java/domain/Trabalho.java:76-86 | a presented work counts as approved; foiAprovado and foiApresentado are exactly their status sets |
| Trabalho.MesmoTrabalhoOnlyById | SGEA/src/main/java/domain/Trabalho.java:104-109 | equals compares ids only: the same id is the same work whatever its status, and two different ids are different works even with every other field equal; a status change or an added evaluation leaves the same work |
| Avaliacao.NovaAvaliacao | SGEA/src/main/java/domain/Avaliacao.java:24-31 | carries the given score, comment, day, work and evaluator |
| Avaliacao.MesmaAvaliacaoOnlyById | SGEA/src/main/java/domain/Avaliacao.java:57-62 | equals compares ids only: two different ids are different evaluations even with every other field equal |
| Certificado.NovoCertificado | SGEA/src/main/java/domain/Certificado.java:26-37 | refuses the APRESENTACAO_TRABALHO type; otherwise a well-formed certificate with no work |
| Certificado.NovoCertificadoApresentacao | SGEA/src/main/java/domain/Certificado.java:40-48 | refuses a null work; otherwise a well-formed APRESENTACAO_TRABALHO certificate of that work |
| Certificado.BemFormadoIffConstructible | SGEA/src/main/java/domain/Certificado.java:26-48 | a certificate is well formed exactly when one of the two constructors builds it |
| Certificado.MesmoCertificadoOnlyById | SGEA/src/main/java/domain/Certificado.java:75-80 | equals compares ids only: two different ids are different certificates even with the same validation code and every other field equal |
| BaseRepository.ValuesOfSelfKeyedMap | SGEA/src/main/java/repository/BaseRepository.java:63-65 | in a store keyed by its entities' own ids, there are as many entities as keys |
| BaseRepository.SelfKeyedPut | SGEA/src/main/java/repository/BaseRepository.java:33-45 | putting an entity under its own id keeps the store keyed by ids |
| BaseRepository.UpsertSemantics | SGEA/src/main/java/repository/BaseRepository.java:33-45 | after save's upsert the entity is found under its id; every other key is untouched; the size grows by one exactly when the id was new |
| BaseRepository.Repository.constructor | SGEA/src/main/java/repository/BaseRepository.java:15-25 | a new repository is empty and valid |
| BaseRepository.Repository.FindById | SGEA/src/main/java/repository/BaseRepository.java:52-57 | a null id finds nothing; otherwise finds exactly the entity stored under that id |
| BaseRepository.Repository.FindAll | SGEA/src/main/java/repository/BaseRepository.java:63-65 | exactly the stored entities |
| BaseRepository.Repository.ExistsById | SGEA/src/main/java/repository/BaseRepository.java:72-74 | false for a null id |
| BaseRepository.Repository.ExistsByIdIff | SGEA/src/main/java/repository/BaseRepository.java:72-74 | in a store keyed by the entities' own ids, existsById is true exactly when some stored entity carries that id |
| BaseRepository.Repository.Count | SGEA/src/main/java/repository/BaseRepository.java:100-102 | zero exactly when the store holds nothing |
| BaseRepository.Repository.FindAllMatchesCount | SGEA/src/main/java/repository/BaseRepository.java:63-102 | findAll has count elements, and each of them is found again by its id |
| BaseRepository.Repository.Save | SGEA/src/main/java/repository/BaseRepository.java:33-45 | refuses a null entity and a null id, leaving the store unchanged; otherwise stores the entity under its id and returns it |
| BaseRepository.Repository.Delete | SGEA/src/main/java/repository/BaseRepository.java:80-84 | removes the entry under the entity's id, or does nothing for a null entity or id; validity is kept |
| BaseRepository.Repository.DeleteById | SGEA/src/main/java/repository/BaseRepository.java:90-94 | removes the entry under the id; afterwards the id is absent and the count drops by one exactly when it was present |
| ParticipanteRepository.FindByNomeContendo | SGEA/src/main/java/repository/ParticipanteRepository.java:18-26 | a null or blank query returns everyone; otherwise exactly the participants whose lowered name contains the lowered query |
| ParticipanteRepository.NomeContemParte | SGEA/src/main/java/repository/ParticipanteRepository.java:22-24 | a name that matches a query also matches every part of that query |
| ParticipanteRepository.NarrowerQuery | SGEA/src/main/java/repository/ParticipanteRepository.java:18-26 | a longer query that contains a shorter one finds a subset of what the shorter one finds |
| EventoRepository.FindAllDisponiveisParaInscricao | SGEA/src/main/java/repository/EventoRepository.java:18-24 | exactly the stored events that start after today |
| EventoRepository.FindAllByOrganizadorId | SGEA/src/main/java/repository/EventoRepository.java:26-31 | exactly the stored events of that organizer; none for a null id |
| EventoRepository.DisponiveisShrink | SGEA/src/main/java/repository/EventoRepository.java:18-24 | the available events only shrink as days pass, and an event is not available on its own start day |
| InscricaoRepository.FindAllByEventoId | SGEA/src/main/java/repository/InscricaoRepository.java:15-20 | exactly the stored enrollments of that event; none for a null id |
| InscricaoRepository.FindAllByParticipanteId | SGEA/src/main/java/repository/InscricaoRepository.java:22-27 | exactly the stored enrollments of that participant; none for a null id |
| InscricaoRepository.FindByParticipanteIdAndEventoId | SGEA/src/main/java/repository/InscricaoRepository.java:29-35 | finds nothing exactly when no stored enrollment has that pair; otherwise some stored enrollment of that pair, in any status |
| TrabalhoRepository.FindAllByEventoId | SGEA/src/main/java/repository/TrabalhoRepository.java:19-24 | exactly the stored works of that event; none for a null id |
| TrabalhoRepository.FindAllByAutorId | SGEA/src/main/java/repository/TrabalhoRepository.java:26-31 | exactly the stored works that list that author; none for a null id |
| TrabalhoRepository.FindAllByStatusAndEventoId | SGEA/src/main/java/repository/TrabalhoRepository.java:33-38 | exactly the stored works of that event with that status; none when either argument is null |
| TrabalhoRepository.StatusPartitionsEvent | SGEA/src/main/java/repository/TrabalhoRepository.java:33-38 | a work of the event is found for a status exactly when it has that status, so the statuses partition the event's works |
| TrabalhoRepository.StatusQueryWithinEvent | SGEA/src/main/java/repository/TrabalhoRepository.java:19-38 | the status query finds only works that the event query also finds |
| AvaliacaoRepository.FindAllByTrabalhoId | SGEA/src/main/java/repository/AvaliacaoRepository.java:18-23 | exactly the stored evaluations of that work; none for a null id |
| AvaliacaoRepository.FindAllByAvaliadorId | SGEA/src/main/java/repository/AvaliacaoRepository.java:25-30 | exactly the stored evaluations by that evaluator; none for a null id |
| CertificadoRepository.FindByCodigoValidacao | SGEA/src/main/java/repository/CertificadoRepository.java:15-20 | a null or blank code finds nothing; otherwise a stored certificate with that code, and nothing only when no stored certificate has it |
| CertificadoRepository.FindAllByParticipanteId | SGEA/src/main/java/repository/CertificadoRepository.java:22-27 | exactly the stored certificates of that participant; none for a null id |
| CertificadoRepository.FindAllByEventoId | SGEA/src/main/java/repository/CertificadoRepository.java:29-34 | exactly the stored certificates of that event; none for a null id |
| CertificadoRepository.PorParticipanteEEvento | SGEA/src/main/java/repository/CertificadoRepository.java:22-34 | the two queries together find exactly the stored certificates of that participant in that event |
| ParticipanteController.Atualizado | SGEA/src/main/java/controller/ParticipanteController.java:48-58 | the record after the update: the name only if non-blank, the email only if it contains '@', institution and profile whenever given; same id |
| ParticipanteController.EmailValido | SGEA/src/main/java/controller/ParticipanteController.java:23 | a null or empty email is invalid; an email is valid exactly when it contains '@' |
| ParticipanteController.EmailsUnicos | SGEA/src/main/java/controller/ParticipanteController.java:26-31 | the empty store satisfies the rule; under it, two different people never have the same email |
| ParticipanteController.AtualizarQuebraEmailsUnicos | SGEA/src/main/java/controller/ParticipanteController.java:48-58 | the update does not re-check uniqueness: giving one person another person's email breaks the unique-email rule |
| ParticipanteController.EmailNovoPreservaUnicidade | SGEA/src/main/java/controller/ParticipanteController.java:26-34 | adding a participant whose email matches nobody's, ignoring case, keeps emails unique |
| ParticipanteController.ParticipanteController.constructor | SGEA/src/main/java/controller/ParticipanteController.java:15-17 | the controller works on the repository it is given |
| ParticipanteController.Cadastro | SGEA/src/main/java/controller/ParticipanteController.java:19-35 | refuses a blank name, then an email without '@', then an email already registered ignoring case, each exactly under its guard, and no other error occurs; succeeds exactly when all three checks pass, yielding the new participant with the given fields |
| ParticipanteController.ParticipanteController.CadastrarParticipante | SGEA/src/main/java/controller/ParticipanteController.java:19-35 | the outcome Cadastro gives against the stored participants; on success the new participant is stored under its id and nothing else changes; on a refusal nothing changes; emails stay unique |
| ParticipanteController.ParticipanteController.Inserir | SGEA/src/main/java/controller/ParticipanteController.java:33-34 | storing a participant whose email matches nobody's succeeds with that participant, adds exactly its entry, and keeps emails unique |
| ParticipanteController.ParticipanteController.GetParticipanteById | SGEA/src/main/java/controller/ParticipanteController.java:37-42 | refuses exactly a null id; every other id succeeds and finds exactly the participant stored under it, if any |
| ParticipanteController.ParticipanteController.AtualizarParticipante | SGEA/src/main/java/controller/ParticipanteController.java:48-58 | fails exactly for an unknown id; otherwise stores the updated record under the same id |
| InscricaoController.NovaForaDasListas | SGEA/src/main/java/controller/InscricaoController.java:54-59 | in consistent stores, no event lists a fresh enrollment id |
| InscricaoController.ContagemAoInscrever | SGEA/src/main/java/controller/InscricaoController.java:54-62 | storing a fresh ATIVA enrollment changes no count except that of the list it is appended to, which grows by one |
| InscricaoController.RegravarIntegra | SGEA/src/main/java/controller/InscricaoController.java:74-77 | re-saving an enrollment under the same event keeps the stores consistent |
| InscricaoController.InscreverIntegra | SGEA/src/main/java/controller/InscricaoController.java:54-62 | appending a new enrollment to its event and storing it keeps the stores consistent |
| InscricaoController.InscreverPreserva | SGEA/src/main/java/controller/InscricaoController.java:38-62 | enrolling into an event that is not full raises its ATIVA count by one, leaves the other events' counts alone, and keeps the capacity rule |
| InscricaoController.AtualizarSemNovaAtivaPreserva | SGEA/src/main/java/controller/InscricaoController.java:74-77 | a change that makes no enrollment ATIVA never raises a count, and so keeps the capacity rule |
| InscricaoController.CancelarLiberaVaga | SGEA/src/main/java/controller/InscricaoController.java:74-77 | cancelling a listed ATIVA enrollment frees a place in its event |
| InscricaoController.Inscrever | SGEA/src/main/java/controller/InscricaoController.java:31-63 | each refusal (unknown participant, unknown event, full event, an ATIVA enrollment returned by the lookup) happens exactly under its guard, in the source's order; success exactly when all pass, yielding a new ATIVA enrollment |
| InscricaoController.DuplicataDetectada | SGEA/src/main/java/controller/InscricaoController.java:43-46 | a duplicate refusal means an ATIVA enrollment of the pair exists; with none, enrollment succeeds; success despite an ATIVA one needs a non-ATIVA one beside it |
| InscricaoController.SegundaAtivaPossivel | SGEA/src/main/java/controller/InscricaoController.java:43-46 | when the lookup returns a cancelled enrollment, a second ATIVA enrollment of the same pair is accepted |
| InscricaoController.Cancelar | SGEA/src/main/java/controller/InscricaoController.java:65-78 | refuses exactly an unknown enrollment with NotFound; otherwise succeeds exactly when podeCancelar allows it, giving the enrollment marked CANCELADA |
| InscricaoController.CancelarPreserva | SGEA/src/main/java/controller/InscricaoController.java:65-78 | a cancellation keeps the stores consistent and the capacity rule, and frees a place in the event that lists it |
| InscricaoController.Confirmar | SGEA/src/main/java/controller/InscricaoController.java:80-101 | each refusal (unknown enrollment, requester not the organizer, day before the start, non-ATIVA enrollment) happens exactly under its guard, in the source's order; success exactly when all pass, yielding the enrollment confirmed |
| InscricaoController.ConfirmarPreserva | SGEA/src/main/java/controller/InscricaoController.java:80-101 | a confirmation changes no ATIVA count and keeps the capacity rule |
| InscricaoController.InscricaoController.constructor | SGEA/src/main/java/controller/InscricaoController.java:25-29 | the controller works on the repositories it is given |
| InscricaoController.InscricaoController.RealizarInscricao | SGEA/src/main/java/controller/InscricaoController.java:31-63 | the outcome Inscrever gives for the lookup's real answer; on success the enrollment is stored and appended to its stored event; the capacity rule is kept |
| InscricaoController.InscricaoController.Registrar | SGEA/src/main/java/controller/InscricaoController.java:54-62 | the success step: the event gains the enrollment in place, the enrollment is stored, and the capacity rule is kept |
| InscricaoController.InscricaoController.CancelarInscricao | SGEA/src/main/java/controller/InscricaoController.java:65-78 | the outcome Cancelar gives; on success the enrollment is stored CANCELADA; the capacity rule is kept |
| InscricaoController.InscricaoController.ConfirmarPresenca | SGEA/src/main/java/controller/InscricaoController.java:80-101 | the outcome Confirmar gives; on success the confirmed enrollment is stored; the capacity rule is kept |
| InscricaoController.InscricaoController.Regravar | SGEA/src/main/java/controller/InscricaoController.java:77 | re-saving an enrollment under its own event changes only that entry and keeps the invariant |
| EventoController.ReduzirCapacidadeQuebraLimite | SGEA/src/main/java/controller/EventoController.java:110-112 | lowering the capacity below the number of ATIVA enrollments is accepted and breaks the capacity rule |
| EventoController.DetalhesAtualizados | SGEA/src/main/java/controller/EventoController.java:95-112 | only the fields supplied change: a given description and given dates are taken, and missing ones stay as they were; a positive capacity given is taken, and a missing or non-positive one leaves the capacity as it was; the name and location are TextoEditado of the supplied and current text; the id, organizer, lists and window never change |
| EventoController.TextoEditado | SGEA/src/main/java/controller/EventoController.java:95-97 | a supplied name or location that is not blank replaces the current one; a missing or blank one leaves it as it was |
| EventoController.AdiarInicioQuebraBemFormado | SGEA/src/main/java/controller/EventoController.java:101-117 | moving the start past the end is refused with InvalidEventDates, and the event the setters leave behind is not well formed |
| EventoController.Cadastro | SGEA/src/main/java/controller/EventoController.java:30-55 | each refusal (unknown organizer, missing ORGANIZADOR profile, blank name, bad dates, non-positive capacity, inverted window) happens exactly under its guard, in the source's order; success exactly when all pass, yielding an empty, well-formed event with a window only when both bounds were given |
| EventoController.Atualizacao | SGEA/src/main/java/controller/EventoController.java:86-120 | refuses exactly an unknown event and a requester who is not its organizer; otherwise the event with the valid supplied fields, or InvalidEventDates exactly when its start ends up after its end |
| EventoController.EventoController.constructor | SGEA/src/main/java/controller/EventoController.java:25-28 | the controller works on the repositories it is given |
| EventoController.EventoController.CadastrarEvento | SGEA/src/main/java/controller/EventoController.java:30-55 | for an id not yet stored: the outcome Cadastro gives; on success the event is stored under that id and nothing else changes; on a refusal nothing changes; stored events stay well formed |
| EventoController.EventoController.GetEventoById | SGEA/src/main/java/controller/EventoController.java:56-61 | refuses exactly a null id; every other id succeeds and finds exactly the event stored under it, if any |
| EventoController.EventoController.DefinirPeriodoSubmissao | SGEA/src/main/java/controller/EventoController.java:73-84 | refuses an unknown event and a requester who is not its organizer; otherwise applies setPeriodoSubmissao and stores the event only on success; stored events stay well formed |
| EventoController.EventoController.AtualizarDetalhesEvento | SGEA/src/main/java/controller/EventoController.java:86-120 | the outcome Atualizacao gives; the edited fields stay stored even when the date check then fails; after a refusal for an unknown event or a foreign requester nothing changes |
| EventoController.EventoController.AplicarDetalhes | SGEA/src/main/java/controller/EventoController.java:95-119 | the setters' result replaces the stored event in place; InvalidEventDates exactly when its start ends up after its end, otherwise success with that event |
| EventoController.EventoController.Regravar | SGEA/src/main/java/controller/EventoController.java:95-112 | an edit of the stored object changes only that event's entry and keeps the store keyed by id |
| EventoController.EventoController.ListarEventosPorOrganizador | SGEA/src/main/java/controller/EventoController.java:122-130 | refuses a null id, then an unknown person or one who is not an ORGANIZADOR; succeeds exactly for a stored ORGANIZADOR, with exactly that organizer's events |
| TrabalhoController.AlgumInscritoPelosAutores | SGEA/src/main/java/controller/TrabalhoController.java:51-59 | asking each resolved author whether they are enrolled is the same as asking about their ids |
| TrabalhoController.Submissao | SGEA/src/main/java/controller/TrabalhoController.java:38-69 | each refusal (unknown event, closed window, no authors, unknown author, no author enrolled) happens exactly under its guard, in the source's order, and no other error occurs; success exactly when all pass, yielding a new SUBMETIDO work of those authors |
| TrabalhoController.SubmissaoPreserva | SGEA/src/main/java/controller/TrabalhoController.java:64-68 | appending a fresh work to its event and storing it keeps the stores consistent and every work authored |
| TrabalhoController.RegravarPreserva | SGEA/src/main/java/controller/TrabalhoController.java:97 | re-saving a work with the same event and authors keeps the stores consistent |
| TrabalhoController.Designacao | SGEA/src/main/java/controller/TrabalhoController.java:71-98 | each refusal (unknown work, evaluator or organizer; requester not the event's ORGANIZADOR; evaluator without the AVALIADOR profile) happens exactly under its guard, in the source's order; success exactly when all pass, turning a SUBMETIDO work into EM_AVALIACAO and leaving any other status |
| TrabalhoController.DesignacaoIdempotente | SGEA/src/main/java/controller/TrabalhoController.java:91-97 | designating again after the first designation is stored gives the same work |
| TrabalhoController.NovoStatus | SGEA/src/main/java/controller/TrabalhoController.java:100-110 | fails exactly for an unknown work; otherwise the work with the new status and nothing else changed |
| TrabalhoController.QualquerTransicao | SGEA/src/main/java/controller/TrabalhoController.java:100-110 | every status can be reached from every status, with no permission check |
| TrabalhoController.TrabalhoController.constructor | SGEA/src/main/java/controller/TrabalhoController.java:30-36 | the controller works on the repositories it is given |
| TrabalhoController.TrabalhoController.ResolverAutores | SGEA/src/main/java/controller/TrabalhoController.java:51-54 | succeeds exactly when every author id is stored, and then gives the authors in order |
| TrabalhoController.TrabalhoController.AlgumAutorInscrito | SGEA/src/main/java/controller/TrabalhoController.java:58-59 | true exactly when some author has an ATIVA enrollment in the event |
| TrabalhoController.TrabalhoController.SubmeterTrabalho | SGEA/src/main/java/controller/TrabalhoController.java:38-69 | the outcome Submissao gives; on success the work is stored and appended to its stored event |
| TrabalhoController.TrabalhoController.Anexar | SGEA/src/main/java/controller/TrabalhoController.java:64-68 | the success step: the event gains the work in place, the work is stored, and the invariant is kept |
| TrabalhoController.TrabalhoController.DesignarAvaliadorParaTrabalho | SGEA/src/main/java/controller/TrabalhoController.java:71-98 | the outcome Designacao gives; on success the work is stored with its new status |
| TrabalhoController.TrabalhoController.AtualizarStatusTrabalho | SGEA/src/main/java/controller/TrabalhoController.java:100-110 | the outcome NovoStatus gives; on success the work is stored with that status |
| TrabalhoController.TrabalhoController.Regravar | SGEA/src/main/java/controller/TrabalhoController.java:97 | re-saving a work with the same event and authors changes only that entry and keeps the invariant |
| TrabalhoController.TrabalhoController.ListarTrabalhosPorEvento | SGEA/src/main/java/controller/TrabalhoController.java:112-114 | exactly the stored works of that event |
| TrabalhoController.TrabalhoController.ListarTrabalhosPorAutor | SGEA/src/main/java/controller/TrabalhoController.java:125-132 | refuses exactly a null id; otherwise exactly the stored works that list that author |
| AvaliacaoController.Registro | SGEA/src/main/java/controller/AvaliacaoController.java:30-55 | each refusal happens exactly under its guard, in the source's order; success yields an evaluation of that work by that evaluator with the given score |
| AvaliacaoController.QualquerNota | SGEA/src/main/java/controller/AvaliacaoController.java:30-50 | every score is accepted unchanged; no range is checked |
| AvaliacaoController.RegistroPreserva | SGEA/src/main/java/controller/AvaliacaoController.java:50-54 | recording an evaluation appends it to its work, which ends EM_AVALIACAO, and keeps works and evaluations consistent |
| AvaliacaoController.AvaliacaoController.constructor | SGEA/src/main/java/controller/AvaliacaoController.java:24-28 | the controller works on the repositories it is given |
| AvaliacaoController.AvaliacaoController.RegistrarAvaliacao | SGEA/src/main/java/controller/AvaliacaoController.java:30-55 | the outcome Registro gives; on success the work is stored with the evaluation appended and status EM_AVALIACAO, and the evaluation is stored |
| AvaliacaoController.AvaliacaoController.Gravar | SGEA/src/main/java/controller/AvaliacaoController.java:50-54 | the success step: the work is saved with the evaluation, then the evaluation is saved; the invariant is kept |
| AvaliacaoController.AvaliacaoController.ListarAvaliacoesPorTrabalho | SGEA/src/main/java/controller/AvaliacaoController.java:57-59 | exactly the stored evaluations of that work |
| CertificadoController.NovosExatos | SGEA/src/main/java/controller/CertificadoController.java:56-65 | the participants served are exactly those listed and not already certified, each served once |
| CertificadoController.NovosVazio | SGEA/src/main/java/controller/CertificadoController.java:56-65 | when everyone listed already holds a certificate, nobody is served |
| CertificadoController.SegundaVezNada | SGEA/src/main/java/controller/CertificadoController.java:56-65 | issuing a second time for the same list issues nothing, whether the holders are taken as the first run's issues or as everyone on the list |
| CertificadoController.AcrescentarConcat | SGEA/src/main/java/controller/CertificadoController.java:63 | saving two batches one after the other is the same as saving their concatenation |
| CertificadoController.EmissaoOrganizador | SGEA/src/main/java/controller/CertificadoController.java:98-119 | each refusal (unknown event, unknown organizer, not the responsible organizer, event not over, already issued) happens exactly under its guard, in the source's order; success exactly when all pass, yielding a new ORGANIZACAO certificate for that organizer and event |
| CertificadoController.OrganizadorUmaVez | SGEA/src/main/java/controller/CertificadoController.java:111-115 | once the organizer's certificate is stored, a second request is refused as already issued |
| CertificadoController.CertificadoController.constructor | SGEA/src/main/java/controller/CertificadoController.java:34-42 | the controller works on the repositories it is given |
| CertificadoController.CertificadoController.JaEmitido | SGEA/src/main/java/controller/CertificadoController.java:58-59 | true exactly when the participant already holds a stored certificate of that type, event and work |
| CertificadoController.CertificadoController.EmitirPara | SGEA/src/main/java/controller/CertificadoController.java:56-65 | issues, in order, exactly for the participants not yet certified, and appends them to the store; afterwards the holders are the earlier ones plus everyone on the list; the id source stays fresh; no duplicate appears and other works' holders are untouched |
| CertificadoController.NovosCobrem | SGEA/src/main/java/controller/CertificadoController.java:56-65 | after the loop, the holders are the earlier ones plus everyone on the list |
| CertificadoController.CertificadoController.Atender | SGEA/src/main/java/controller/CertificadoController.java:58-64 | one person of the loop: a person who holds none gets the next certificate, saved; a holder is skipped; the holders grow by exactly that person, the id source stays fresh, no duplicate appears |
| CertificadoController.CertificadoController.Salvar | SGEA/src/main/java/controller/CertificadoController.java:63 | saving a certificate under a fresh id returns it and adds exactly that entry |
| CertificadoController.CertificadoController.EmitirCertificadosParticipacaoEvento | SGEA/src/main/java/controller/CertificadoController.java:44-67 | refuses an unknown event, then one not yet finished, and nothing else; succeeds exactly for a stored finished event, issuing PARTICIPACAO exactly to the confirmed participants not yet certified; afterwards every confirmed participant holds one, so a second run issues nothing; the id source stays fresh; no duplicate appears |
| CertificadoController.CertificadoController.EmitirCertificadosApresentacaoTrabalhoEvento | SGEA/src/main/java/controller/CertificadoController.java:69-96 | refuses an unknown event, then one not yet finished, and nothing else; succeeds exactly for a stored finished event, and the issued pairs are exactly the authors of approved and presented works not yet certified for that work; afterwards every author of such a work holds one for it and other works' holders are unchanged; the id source stays fresh; no duplicate appears |
| CertificadoController.CertificadoController.EmitirPorTrabalhos | SGEA/src/main/java/controller/CertificadoController.java:81-94 | over all the event's works, issues exactly the certificates due, each once, with fresh ids; afterwards each approved and presented work has gained all its authors as holders, and every other work keeps its holders |
| CertificadoController.EmitidasPasso | SGEA/src/main/java/controller/CertificadoController.java:81-94 | visiting one more work keeps the holders of the works visited before and adds the new work's |
| CertificadoController.CertificadoController.EmitirDoTrabalho | SGEA/src/main/java/controller/CertificadoController.java:82-93 | for one work, issues exactly the certificates due to its authors, who all hold one afterwards when the work is approved and presented, and leaves the other works' holders untouched |
| CertificadoController.CertificadoController.EmitirCertificadoOrganizador | SGEA/src/main/java/controller/CertificadoController.java:98-119 | the outcome EmissaoOrganizador gives; on success the certificate is stored; no duplicate appears |

## Left out

- The clock is not modelled. `LocalDate.now()` becomes a `hoje` parameter, and dates are whole day numbers.
- UUID generation is not modelled. Each new id is a parameter, and the contracts require it not to be stored yet. Bulk certificate issue takes an id source and a code source instead.
- The uniqueness of validation codes is not modelled. Codes are parameters, and nothing is claimed about them being unique.
- Object identity and aliasing are not modelled. References become ids into the stores. Where Java changes a shared object in place without saving it, the model writes the change into the store.
- Iteration order is not modelled, because the order of a `ConcurrentHashMap` is unspecified.
  - Queries return sets instead of lists.
  - Bulk issue of presentation certificates visits the works in any order.
  - Its result is therefore stated as the set of (author, work) pairs issued, not as an ordered list.
- The unmodifiable list wrappers, `toString` and `hashCode` are not modelled.
- Null elements inside author lists are not modelled. A null status passed to atualizarStatusTrabalho is not modelled either.
- Case folding covers ASCII letters only. `toLowerCase` and `equalsIgnoreCase` on other scripts are not modelled.
- The evaluation score is a Dafny `real`, not a `double`: rounding is not modelled. As in the source, no range is checked.
- 32-bit `int` wrap-around is not modelled for capacities and counts. They are unbounded integers; real values stay far below the limit.
- Deletion is modelled at repository level only (`Delete`, `DeleteById`). In Java an event keeps the deleted Inscricao object in its own list, so isLotado and getInscritosComPresencaConfirmada still count it. The model lists ids and counts only enrollments that are still stored, so a deleted enrollment would drop out of both. The enrollment controller's invariant `Integra` requires every listed id to be stored, so no controller state of the model contains a listed id without its enrollment.
- listarTrabalhosPorAvaliadorDesignado only throws UnsupportedOperationException, so it has no model.
- Certificates for evaluators are announced in a comment of CertificadoController.java but not implemented in the source, so they have no model.
- The following are pure one-line delegations to a repository query and have no controller member of their own. Each is covered by the query it calls:
  - listarTodosEventos;
  - listarEventosDisponiveisParaInscricao;
  - listarTodosParticipantes;
  - listarInscricoesPorEvento;
  - listarInscricoesPorParticipante;
  - the deleteById override of InscricaoRepository.
- The `responsavelId` argument of atualizarStatusTrabalho is unused by the source, and the model ignores it too.
- The console menu (Main.java) and the facade are not part of this model.
- BaseRepository.Repository.Save: its contract states only the outcome and the new store. The derived facts (the entity is found again, other keys are untouched, the size change, keying by id is kept) are stated in BaseRepository.UpsertSemantics.
- Evento.RemoveFirst: its contract states only the length. That the removal takes one copy out of the multiset is stated in Evento.RemoveFirstMultiset, and that it removes exactly the first occurrence is stated in Evento.RemoveFirstSplits.
- BaseRepository.Repository.ExistsById: its contract states only that a null id is never found. The link to the stored entities is stated in BaseRepository.Repository.ExistsByIdIff.

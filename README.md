# Event enrollment and certificate engine — a Dafny model

This project models the core of an events API for a university: who may enrol in an
event, how seats are counted, how enrollments are registered, marked and removed, and how
certificates of attendance are issued, looked up and stamped with a validation hash. It
models the entity `Evento` (two copies: `com.model.domain.Evento` and `com.model.Evento`
have the same eight methods with the same bodies), the service `InscricaoService` and the
service `CertificadoService`.

Modules, in dependency order:

- `Wrappers` (`wrappers.dfy`): `Option`, `Result`, the HTTP statuses the services raise
  (`Falha(status, motivo)` stands for a `ResponseStatusException`), and Java's 32-bit `int`.
- `Eventos` (`evento.dfy`): courses, students, and `class Evento` with the eligibility
  predicates, the seat count and the in-place edits of the course list.
- `Catalogo` (`catalogo.dfy`): the repositories as one object, `class Catalogo`, with its
  tables as fields, its derived queries as functions, and its consistency invariant.
- `Inscricoes` (`inscricao_service.dfy`): `class InscricaoService`.
- `HashValidador` (`hash_validador.dfy`): the preimage, the byte-to-hex loop and the
  upper-casing of `gerarHashValidador`, with the digest as a parameter.
- `Certificados` (`certificado_service.dfy`): `class CertificadoService`, and `Novos`, the
  pure specification of bulk issuance.

The services are imperative: each is a class whose methods change the catalogue's fields
and are proved against functions of the old state. `Catalogo.Valid` is the store's
invariant. It says:
- every record is filed under its own id;
- ids only grow;
- each enrollment refers to a stored student and event;
- no (student, event) pair is enrolled twice;
- each event's `inscricoes` list is exactly the ids of the enrollment rows that refer to it.

Every service method preserves it. `Catalogo.LotacaoRespeitada` (no event over capacity)
is preserved by registration, attendance updates and removals.

## Model

| member | source | states |
|---|---|---|
| Eventos.PossuiId | src/main/java/com/model/domain/Evento.java:91-92 | the inner `anyMatch` is true exactly when some course of the event carries the id |
| Eventos.AlgumEmComum | src/main/java/com/model/domain/Evento.java:90-92 | the nested `anyMatch` is true exactly when a student course and an event course share an id |
| Eventos.Evento.IsAbertoATodos | src/main/java/com/model/domain/Evento.java:74-76 | open exactly when the course list is null or holds no course at all |
| Eventos.Evento.IsRestrito | src/main/java/com/model/domain/Evento.java:111-113 | restricted exactly when the course list is set and non-empty |
| Eventos.Evento.PodeSeInscrever | src/main/java/com/model/domain/Evento.java:78-93 | admitted exactly when the event is open, or the student has courses and one shares its id with an event course |
| Eventos.ClassificacaoAbertoRestrito | src/main/java/com/model/domain/Evento.java:74-76 | open exactly when the list is null or empty; restricted exactly when not open |
| Eventos.AbertoAdmiteTodos | src/main/java/com/model/domain/Evento.java:80-82 | an open event admits every student |
| Eventos.RestritoRejeitaSemCursos | src/main/java/com/model/domain/Evento.java:84-87 | a restricted event rejects a student whose course list is null or empty |
| Eventos.ElegivelSseIntersecao | src/main/java/com/model/domain/Evento.java:89-92 | for a restricted event, eligible exactly when the two sets of course ids intersect |
| Eventos.ExemploElegibilidade | src/main/java/com/model/domain/Evento.java:89-92 | a student in {A,B} is eligible for {B,C} and not for {C,D} |
| Eventos.ComCurso | src/main/java/com/model/domain/Evento.java:95-99 | a course already listed leaves the list exactly as it was, repeats included; otherwise it is appended at the end; a list without repeats stays without repeats |
| Eventos.AdicionarCursoIdempotente | src/main/java/com/model/domain/Evento.java:95-99 | adding a course twice is the same as adding it once |
| Eventos.Evento.AdicionarCurso | src/main/java/com/model/domain/Evento.java:95-99 | a null course changes nothing; otherwise the course list becomes `ComCurso` of the old list |
| Eventos.PrimeiraPosicao | src/main/java/com/model/domain/Evento.java:101-105 | the position `List.remove(Object)` deletes: it holds the course and no earlier position does |
| Eventos.SemCurso | src/main/java/com/model/domain/Evento.java:101-105 | an absent course changes nothing; otherwise the first occurrence is removed and the courses before and after it keep their order, so the multiset loses exactly one copy |
| Eventos.ExemploRemocao | src/main/java/com/model/domain/Evento.java:95-105 | removing a from [a, b, a] gives [b, a], and adding a to [b, a] leaves it as it is |
| Eventos.Evento.RemoverCurso | src/main/java/com/model/domain/Evento.java:101-105 | a null course changes nothing; otherwise the course list becomes `SemCurso` of the old list |
| Eventos.Evento.TornarAbertoATodos | src/main/java/com/model/domain/Evento.java:107-109 | the list becomes empty, the event is open and not restricted, and it admits every student |
| Eventos.Disponiveis | src/main/java/com/model/domain/Evento.java:115-122 | seats left are never negative, are 0 with no capacity, are `vagas - inscritos` when positive, and are 0 only when capacity is unset or reached |
| Eventos.Evento.Inscritos | src/main/java/com/model/domain/Evento.java:120 | the enrollment count is the length of the list, and 0 when the list is null |
| Eventos.Evento.VagasDisponiveis | src/main/java/com/model/domain/Evento.java:115-122 | the event's seats left are never negative |
| Eventos.Evento.TemVagasDisponiveis | src/main/java/com/model/domain/Evento.java:124-126 | a seat is free exactly when capacity is set and the enrollment count is below it |
| Eventos.UmaInscricaoOcupaUmaVaga | src/main/java/com/model/domain/Evento.java:115-126 | one more enrollment takes exactly one seat while seats remain, and none once full |
| Wrappers.Wrap32 | src/main/java/com/model/domain/Evento.java:121 | a Java `int` result: the exact value when it fits in 32 bits, and always congruent to it modulo 2^32 |
| Eventos.Disponiveis32 | src/main/java/com/model/domain/Evento.java:115-122 | the 32-bit evaluation is never negative and is 0 with no capacity |
| Eventos.Disponiveis32SemTransbordo | src/main/java/com/model/domain/Evento.java:121 | where the subtraction fits in 32 bits, the 32-bit and the intended seat counts agree |
| Eventos.Disponiveis32Transborda | src/main/java/com/model/domain/Evento.java:121 | capacity -2147483648 with one enrollment reports 2147483647 free seats, where the intended count is 0 |
| Catalogo.IdsDoEvento | src/main/java/com/model/domain/Evento.java:50-51 | the event's enrollment list is never longer than the enrollment table |
| Catalogo.IdsDoEventoConcatena | src/main/java/com/model/domain/Evento.java:50-51 | the list of a concatenated table is the concatenation of the lists |
| Catalogo.IdsDoEventoMembros | src/main/java/com/model/domain/Evento.java:50-51 | an id is in the event's list exactly when a row with that id refers to the event |
| Catalogo.IdsDoEventoAnexa | src/main/java/com/model/services/InscricaoService.java:57-58 | saving a row of the event appends its id to the event's list; a row of another event leaves it as it was |
| Catalogo.InscricoesDoEvento | src/main/java/com/model/services/InscricaoService.java:27-29 | `listarPorEvento` returns exactly the rows of that event |
| Catalogo.InscricoesDoAluno | src/main/java/com/model/services/InscricaoService.java:31-33 | `listarPorAluno` returns exactly the rows of that student |
| Catalogo.IdsDasInscricoesDoEvento | src/main/java/com/model/services/InscricaoService.java:27-29 | the event's own list holds, in order, the ids of what `listarPorEvento` returns |
| Catalogo.BuscarInscricao | src/main/java/com/model/services/InscricaoService.java:62-63 | `findById` finds a row carrying the id, or reports that no row carries it |
| Catalogo.Presentes | src/main/java/com/model/services/CertificadoService.java:183 | exactly the event's rows whose attendance is `true` |
| Catalogo.CertificadosDoAluno | src/main/java/com/model/services/CertificadoService.java:42-44 | `listarPorAluno` returns exactly the student's certificates |
| Catalogo.CertificadosDoEvento | src/main/java/com/model/services/CertificadoService.java:46-48 | `listarPorEvento` returns exactly the event's certificates |
| Catalogo.CertificadosComHash | src/main/java/com/model/services/CertificadoService.java:50-53 | exactly the certificates carrying the hash, a null hash selecting those without one |
| Catalogo.ExisteInscricaoSse | src/main/java/com/model/services/InscricaoService.java:41 | `existsByEventoIdAndAlunoId` holds exactly when the student owns one of the rows the event's query returns |
| Catalogo.BemFormadaFatos | src/main/java/com/model/services/InscricaoService.java:41-43 | in a consistent table, ids increase, rows refer to stored students and events, and no pair is enrolled twice |
| Catalogo.AnexarBemFormada | src/main/java/com/model/services/InscricaoService.java:51-58 | saving a new pair under the next id keeps the table consistent |
| Catalogo.RemoverBemFormada | src/main/java/com/model/services/InscricaoService.java:68-70 | deleting any row keeps the table consistent |
| Catalogo.IdRemovido | src/main/java/com/model/services/InscricaoService.java:68-70 | after deleting a row no remaining row carries its id |
| Catalogo.MesmasChavesBemFormada | src/main/java/com/model/services/InscricaoService.java:61-66 | changing fields other than id, student and event keeps the table consistent |
| Catalogo.CertificadosFatos | src/main/java/com/model/domain/Certificado.java:24-26 | certificate ids increase and stay below the next identity value |
| Catalogo.AnexarCertificado | src/main/java/com/model/services/CertificadoService.java:80 | saving under the next identity value keeps the certificate table consistent |
| Catalogo.SemCertificado | src/main/java/com/model/services/CertificadoService.java:87 | `deleteById` keeps exactly the rows with another id |
| Catalogo.SemCertificadoBemFormada | src/main/java/com/model/services/CertificadoService.java:87 | deleting by id keeps the certificate table consistent |
| Catalogo.SemCertificadoConta | src/main/java/com/model/services/CertificadoService.java:87 | deleting a present id removes exactly one row; an absent id removes none |
| Inscricoes.RemocaoNosIdsDoEvento | src/main/java/com/model/services/InscricaoService.java:68-70 | deleting a row shortens its own event's list by one and leaves every other event's list as it was |
| Inscricoes.MesmasChavesMesmosIds | src/main/java/com/model/services/InscricaoService.java:64-65 | rewriting attendance leaves every event's list unchanged |
| Catalogo.Catalogo.LotacaoRespeitada | src/main/java/com/model/services/InscricaoService.java:44-46 | no event holds more enrollments than its capacity, so an event whose capacity is unset holds none |
| Inscricoes.InscricaoService.Registrar | src/main/java/com/model/services/InscricaoService.java:35-59 | first failure wins: no event, no student, already enrolled (Conflict), no seats, not eligible; only the enrollment table, its id counter and the event's enrollment list are in the frame, and on any error none of them changes; on success one unconfirmed row under the next id is appended, its id joins the event's list, the event stays within capacity, and the store stays consistent |
| Inscricoes.InscricaoService.Gravar | src/main/java/com/model/services/InscricaoService.java:57-58 | adding to the event's list and saving appends the row, links its id to the event and keeps the store consistent and within capacity |
| Inscricoes.InscricaoService.AtualizarPresenca | src/main/java/com/model/services/InscricaoService.java:61-66 | NotFound for an unknown id; otherwise only that row's attendance changes, to the given value, null included |
| Inscricoes.InscricaoService.Remover | src/main/java/com/model/services/InscricaoService.java:68-70 | an unknown id changes nothing; otherwise exactly that row is deleted, its event has one enrollment fewer and no longer lists it; no other field of the event is in the frame |
| Inscricoes.InscricaoService.Excluir | src/main/java/com/model/services/InscricaoService.java:69 | deleting the row at a position removes exactly it from the table and its id from the event's list |
| HashValidador.Natural | src/main/java/com/model/services/CertificadoService.java:106 | `append(int)` writes at least one character, all decimal digits |
| HashValidador.Decimal | src/main/java/com/model/services/CertificadoService.java:106 | a rendered id never contains the separator |
| HashValidador.LerNaturalDeNatural | src/main/java/com/model/services/CertificadoService.java:106 | reading back the digits of a natural number gives the number |
| HashValidador.LerDecimalDeDecimal | src/main/java/com/model/services/CertificadoService.java:106 | reading back a rendered id, negative or not, gives the id |
| HashValidador.Preimagem | src/main/java/com/model/services/CertificadoService.java:105-115 | the digested text ends with the fixed key `CERTIFICADO_VALIDATOR_KEY` |
| HashValidador.Campos | src/main/java/com/model/services/CertificadoService.java:105-115 | the preimage has ten fields in the source's order, with nulls written as empty text and the fixed key last |
| HashValidador.SepararJuntar | src/main/java/com/model/services/CertificadoService.java:105-115 | splitting a join of separator-free fields gives the fields back |
| HashValidador.JuntarInjetiva | src/main/java/com/model/services/CertificadoService.java:105-115 | two joins of separator-free fields are equal only when the field lists are |
| HashValidador.PreimagemSeparavel | src/main/java/com/model/services/CertificadoService.java:105-115 | with separator-free text, the preimage splits back into its ten fields, the three ids read back, and the key is last |
| HashValidador.PreimagemIdentifica | src/main/java/com/model/services/CertificadoService.java:105-115 | with separator-free text, equal preimages mean equal ids, text fields and timestamp |
| HashValidador.SemSinal | src/main/java/com/model/services/CertificadoService.java:124 | `0xff & b` is in 0..255 and differs from the signed byte by 0 or 256 |
| HashValidador.ComSinal | src/main/java/com/model/services/CertificadoService.java:124 | each value 0..255 comes from exactly one signed byte |
| HashValidador.ToHexString | src/main/java/com/model/services/CertificadoService.java:124 | `Integer.toHexString` has one digit exactly below 16, and no leading zero for a positive value |
| HashValidador.Passo | src/main/java/com/model/services/CertificadoService.java:124-128 | one loop step appends exactly two lower-case digits, the high nibble's then the low nibble's, the '0' pad included |
| HashValidador.PassoMaiusculo | src/main/java/com/model/services/CertificadoService.java:124-128 | one loop step, once upper-cased, is the high nibble's digit then the low nibble's |
| HashValidador.ParaMaiusculas | src/main/java/com/model/services/CertificadoService.java:131 | upper-casing keeps the length and maps each character |
| HashValidador.HexPosicoes | src/main/java/com/model/services/CertificadoService.java:122-131 | two characters per byte, high nibble first, zero padded |
| HashValidador.HexAlfabeto | src/main/java/com/model/services/CertificadoService.java:122-131 | every character of the rendering is one of 0-9 and A-F |
| HashValidador.HexDeDigest | src/main/java/com/model/services/CertificadoService.java:99 | a 32-byte digest renders as 64 characters |
| HashValidador.DecodificarHexDeHex | src/main/java/com/model/services/CertificadoService.java:122-131 | decoding the rendering gives the digest bytes back |
| HashValidador.HexInjetiva | src/main/java/com/model/services/CertificadoService.java:122-131 | different digests render differently |
| HashValidador.HashDe | src/main/java/com/model/services/CertificadoService.java:102-135 | the validation hash has 64 characters |
| HashValidador.HashIdentificaDigest | src/main/java/com/model/services/CertificadoService.java:117-131 | equal validation hashes mean equal digests |
| Certificados.CertificadoService.BuscarPorHash | src/main/java/com/model/services/CertificadoService.java:50-53 | NotFound exactly when no certificate carries the hash; a found certificate carries it and is the only one; several give a server error |
| Certificados.CertificadoService.Emitir | src/main/java/com/model/services/CertificadoService.java:55-81 | null ids rejected in the order student, event, speaker; then missing records in the same order; on error nothing changes; otherwise one certificate under the next id, with the payload's hash and institution data copied unchanged, is appended, with no duplicate check |
| Certificados.CertificadoService.Salvar | src/main/java/com/model/services/CertificadoService.java:80 | saving appends the certificate and advances the identity value, keeping the table consistent |
| Certificados.CertificadoService.Remover | src/main/java/com/model/services/CertificadoService.java:83-88 | a null id is rejected with nothing deleted; otherwise exactly the row with that id is deleted, and nothing is deleted when no row has it |
| Certificados.CertificadoService.GerarHashValidador | src/main/java/com/model/services/CertificadoService.java:102-135 | the loop's result is the upper-cased rendering of the digest of the preimage: 64 characters from 0-9A-F |
| Certificados.CertificadoService.GerarHashValidadorDoCertificado | src/main/java/com/model/services/CertificadoService.java:143-150 | the hash of the certificate's own student, event, speaker and institution identity |
| Certificados.AlgumDoEvento | src/main/java/com/model/services/CertificadoService.java:193-195 | the `findByAlunoId` then `anyMatch` check holds exactly when the student has a certificate for the event |
| Certificados.Novos | src/main/java/com/model/services/CertificadoService.java:190-220 | the certificates the stream saves, in order, never more than the attendees; its meaning is stated by the lemmas below |
| Certificados.NovosPasso | src/main/java/com/model/services/CertificadoService.java:190-220 | one more attendee is skipped when already certified and otherwise receives the next certificate |
| Certificados.NovosCampos | src/main/java/com/model/services/CertificadoService.java:201-217 | each new certificate is for the event and the speaker given, carries the institution data and a 64-character hash, takes the identity values in turn, and goes to a present attendee |
| Certificados.NovosSemDuplicar | src/main/java/com/model/services/CertificadoService.java:193-199 | only attendees without a certificate for the event receive one, and none receives two |
| Certificados.NovosCobrem | src/main/java/com/model/services/CertificadoService.java:190-220 | afterwards every present attendee holds a certificate for the event |
| Certificados.NovosVazio | src/main/java/com/model/services/CertificadoService.java:193-199 | when every attendee is already certified, nothing is issued |
| Certificados.NovosIdempotente | src/main/java/com/model/services/CertificadoService.java:190-220 | issuing a second time for the same event issues nothing |
| Certificados.NovosSse | src/main/java/com/model/services/CertificadoService.java:190-220 | a student receives a certificate exactly when they attended and held none for the event before |
| Certificados.CertificadoService.GerarCertificadosParaEvento | src/main/java/com/model/services/CertificadoService.java:163-221 | null event then null speaker (BadRequest), missing event then missing speaker (NotFound), no present attendee (BadRequest); nothing saved on error; otherwise the certificates saved, and returned in order, are exactly `Novos` of the old table |
| Certificados.CertificadoService.EmitirParaPresentes | src/main/java/com/model/services/CertificadoService.java:190-220 | the stream over the attendees saves and returns exactly `Novos`, appending to the table |
| Certificados.CertificadoService.EmitirPara | src/main/java/com/model/services/CertificadoService.java:191-218 | one stream step extends the saved certificates from `Novos` of the attendees seen to `Novos` of one more |
| Certificados.CertificadoService.NovoCertificado | src/main/java/com/model/services/CertificadoService.java:201-215 | the built certificate is the specification's certificate for that attendee and clock reading |
| Certificados.SemCertificadoIgual | src/main/java/com/model/services/CertificadoService.java:87 | deleting an id that no row carries leaves the table as it was |

## Left out

- Persistence, transactions, concurrency, HTTP controllers and the other CRUD services are not modelled. The repositories are one in-memory `Catalogo`, with each table in id order. That is the order the derived queries return in this model.
- SHA-256, UTF-8 encoding and `MessageDigest.getInstance` are a parameter `sha256: string -> Digest`. The `NoSuchAlgorithmException` branch is therefore not modelled.
- `LocalDateTime.now()` is a parameter. For bulk issuance it is `relogio(n)`, the clock's reading when the n-th hash of that run is computed. `new Date()` in `registrar` is the parameter `agora`.
- HashValidador.ParaMaiusculas: `toUpperCase` is modelled on ASCII letters only. The strings it is applied to are hexadecimal digits, so nothing is lost.
- HashValidador.PreimagemSeparavel: the preimage reads back only when names, CPF, institution identity and timestamp are free of `|`. With a `|` in them, two different certificates can share a preimage.
- Lombok/JPA object identity and `Curso.equals`: `Curso.java` is not part of this model. `adicionarCurso`, `removerCurso` and `cursos.contains` compare courses as values (id and name).
- Eventos.Evento.AdicionarCurso, Eventos.Evento.RemoverCurso, Eventos.Evento.TornarAbertoATodos: they require a non-null course list. The Java methods throw `NullPointerException` on a null list.
- Null payloads and null entity arguments, which throw `NullPointerException` in the Java code, are outside the model's types.
- Inscricoes.InscricaoService.Registrar, Inscricoes.InscricaoService.AtualizarPresenca, Inscricoes.InscricaoService.Remover: they take `int` ids. The service has no null checks, so a null id fails inside the repository (`findById(null)`, `deleteById(null)`).
- Inscricoes.InscricaoService.Remover: the model also refreshes the event's enrollment list. It stands for the JPA reload of the `mappedBy` collection after `deleteById`.
- `listarTodos` of the certificate service returns the whole table and has nothing to state beyond that.
- Certificados.CertificadoService.BuscarPorHash: with several matches, the model raises a generic server error. It does not model the specific exception text, which the Java code would throw from inside the persistence layer.
- Eventos.Evento.VagasDisponiveis, Eventos.Evento.TemVagasDisponiveis, and the registration check that uses them, follow the intended unbounded arithmetic. The 32-bit wrap-around of `vagas - (int) inscritos` is kept apart in Eventos.Disponiveis32 (see Findings).

## Findings

| source | as written | input that shows it | evidently intended | confidence | as-written member | corrected member |
|---|---|---|---|---|---|---|
| src/main/java/com/model/domain/Evento.java:121 | `Math.max(0, vagas - (int) inscritos)` subtracts in 32-bit `int` and wraps | `vagas = -2147483648` with one enrollment gives 2147483647 free seats, so `temVagasDisponiveis` admits a registration | seats left are `max(0, vagas - inscritos)` over integers, here 0 | low — not executed; it needs a negative capacity, which nothing else in the code rejects | Eventos.Disponiveis32Transborda | Eventos.Disponiveis |

# aprovados_cage in Dafny

`aprovados_cage` is a Streamlit web application for candidates who passed a public
examination. Candidates are "aprovados": they are listed in a roster by
registration number (`n_inscr`), group, quota and rank. Each candidate registers an
account and declares whether they will take the post ("Vai assumir", "Indeciso",
"Não vai assumir"). The home page then shows them:

- how many of the people ahead of them in their group and quota decided each way;
- the group's chat link, once few enough candidates ahead still take a seat;
- the messages that coordinators addressed to their rank range.

Coordinators manage their group's seat count and link and send messages.
Superusers assign roles and reset accounts.

This project models that core as Dafny over in-memory tables and proves the rules
the pages rely on.

- **Schema** (`schema.dfy`). The five SQLAlchemy tables of `database.py`:
  - `mensagens`, `usuarios`, `lista_aprovados`, `grupos` and `documentos`.
  - Each column is modelled with its kind, nullability, default, primary key,
    uniqueness and on-update timestamp.
  - A record is a `Row`, a map from column to `Value`.
- **Storage** (`database.dfy`). The `Database` object is the class `Db`, whose
  fields `tables` and `serials` are what the methods change.
  - `Insert`, `Update` and `Delete` are specified against the pure functions
    `InsertOutcome`, `UpdateOutcome` and `Without`.
  - These functions model SQLAlchemy's failures as `DbError` values with no state
    change: unknown keyword, NOT NULL, wrong type, key clash, several rows
    matching.
  - The `TableValid` invariant holds keys unique and serial ids below the
    counter, and every method keeps it.
- **Pages as operations.** The pages become functions over table snapshots
  (`home.dfy`, `grupos.dfy`, `coordenador_grupo.dfy`) or methods on `Db`
  (`login.dfy`, `dados_usuarios.dfy`, `controle_grupo.dfy`, `adm.dfy`).
  - Streamlit widgets become parameters.
  - Messages to the user become the `Aviso` datatype.
  - Python exceptions become `Raised` values.
- **Session state** is the class `Sessao.Estado`. Logging in and out changes its
  fields.
- **Foreign code.**
  - Password hashing is a pair of functions with one soundness property
    (`Passwords.Sound`).
  - URL validation is an uninterpreted predicate.
  - Image re-encoding is an uninterpreted partial function: `None` stands for bytes
    Pillow cannot decode, where `Image.open` raises.
  - The clock is an integer parameter `now`.

## Model

| member | source | states |
|---|---|---|
| Database.KeyNamesAre | database.py:18-95 | the identity of a record is `id_mensagem`, `n_inscr` (users and roster), (`grupo`, `cota`) or `id_documento`, as the primary keys declare |
| Database.SerialNamesAre | database.py:18-95 | only the message and document ids are filled by auto-increment |
| Database.UniqueColumns | database.py:45 | the only UNIQUE column besides the keys is the users' `email` |
| Database.Build | database.py:174-190 | a constructed record has exactly the table's columns: given fields kept, missing ones filled from the column default, the clock or the serial |
| Database.InsertOutcome | database.py:174-190 | an insert succeeds iff every key is a column, the built record fits the schema and clashes with no key or unique value; the stored record holds every given field |
| Database.InsertKeepsValid | database.py:174-190 | a successful insert keeps the table invariant (unique keys, serials below the counter) |
| Database.InsertKeepsAllValid | database.py:174-190 | a committed insert, with the table counter advanced, keeps every table valid |
| Database.UsuariosUnique | database.py:41-45 | two user records differ in `n_inscr` and in `email` |
| Database.AprovadosUnique | database.py:68 | two roster records differ in `n_inscr` |
| Database.GruposUnique | database.py:80-83 | two allocation records differ in group or quota |
| Database.UsuarioDefaults | database.py:57-59 | a user inserted without them gets role "usuario", quota "AC" and contact option "Não desejo receber" |
| Database.Without | mensageria.py:74-80 | removing position i keeps every other record in order |
| Database.RemoveKeepsValid | mensageria.py:74-80 | deleting a record keeps the table invariant |
| Database.Overlay | database.py:206-208 | the named columns take the new values and the record keeps its columns |
| Database.Touch | database.py:50-54 | the `onupdate` columns take the flush time unless the update assigns them; the record keeps its columns |
| Database.Applied | database.py:200-211 | the record after the `setattr` loop and the flush; `UpdateChangesOnlyNamed` and `AppliedConforms` state what it changes |
| Database.UpdateChangesOnlyNamed | database.py:200-211 | an update keeps the record's columns, writes the named fields, leaves every other non-timestamp column, and is the identity when it writes equal values |
| Database.MatchAt | database.py:200-204 | under `one_or_none`, the single matching position, and no other position matches |
| Database.UpdateOutcome | database.py:192-211 | no match gives `None`; otherwise exactly one record matched and the result is that record with the update applied, still fitting the schema and clashing with no other record |
| Database.UpdateAccepted | database.py:192-211 | a single match whose updated record has no forbidden NULL, fits the schema and clashes with no other record is committed as that record |
| Database.AppliedConforms | database.py:200-211 | assigning admissible values, and the refreshed modification time, keeps a record well typed |
| Database.ReplaceKeepsValid | database.py:192-211 | replacing a record by a conforming one that clashes with no other keeps the table invariant |
| Database.UpdateKeepsValid | database.py:192-211 | writing back an accepted update that names no key keeps every table valid |
| Database.Select | database.py:214-228 | `retornarValor` returns exactly the records that agree with every field of the filter |
| Database.UsuariosNaFrente | database.py:317-338 | the ahead list holds exactly the users with the same group and quota and a strictly smaller position |
| Database.RosterRow | database.py:241-257 | a roster line becomes a record with its `n_inscr`, and quota "AC" when the file has no quota column |
| Database.ImportStep | database.py:247-259 | each roster line is inserted only when its `n_inscr` is not yet listed |
| Database.ListedIff | database.py:247-250 | "listed" is the existence of a record matching the registration-number filter |
| Database.ListedAfterInsert | database.py:247-250 | a record carrying the number, once appended, makes it listed |
| Database.SuperuserListed | database.py:294-307 | inserting the default superuser record lists the superuser's number |
| Database.ListedGrows | database.py:247-259 | appending records never unlists a number |
| Database.ImportAppends | database.py:247-259 | import only appends, and every appended record comes from a line of the file |
| Database.ImportKeepsListed | database.py:247-259 | a number listed before the import is still listed after it |
| Database.ImportCovers | database.py:247-259 | after import every number of the file is listed |
| Database.ImportNoop | database.py:247-259 | importing lines whose numbers are all listed changes nothing |
| Database.ImportIdempotent | database.py:247-259 | running the import twice gives the same table as running it once |
| Database.SuperuserData | database.py:286-307 | the default superuser has role "superuser", group "TI_RAIZ" and position 0 |
| Database.SetFields | database.py:206-208 | the `setattr` loop overwrites exactly the named fields of the record |
| Database.UpdateKeepsSerials | database.py:192-211 | an update that names no key column leaves the serial ids alone |
| Database.SerialsAreKeys | database.py:18-95 | every autoincremented id is a primary-key column not refreshed on update |
| Database.FreshIdClashFree | database.py:174-190 | a message or document carrying the next id clashes with no stored record |
| Database.Db.constructor | database.py:130-136 | a fresh database is valid and every table is empty |
| Database.Db.Insert | database.py:174-190 | the outcome is `InsertOutcome`; on success exactly one record is appended and the serial advances, otherwise nothing changes |
| Database.Db.Update | database.py:192-211 | the outcome is `UpdateOutcome`; on a match only that record is replaced, otherwise nothing changes |
| Database.Flush | database.py:206-211 | the flushed record is the stored one with the update applied |
| Database.Db.Delete | mensageria.py:74-80 | the table loses exactly the record at the position and keeps the rest in order |
| Database.Db.InserirTabelaAprovados | database.py:232-259 | the roster becomes `Imported(old roster, file)`; other tables are untouched |
| Database.Db.ImportarLinha | database.py:247-259 | one roster line is inserted exactly when its number is not listed; other tables are untouched |
| Database.Db.InserirGrupos | database.py:263-273 | an empty allocation table receives the seed allocations |
| Database.Db.VerificarSuperusuarioPadrao | database.py:276-307 | the superuser is inserted only when their number is not listed; after a success the number is listed; nothing else changes |
| Database.Db.CreateAllTablesOnce | database.py:130-146 | roster and allocations are seeded only when empty, otherwise kept; the users table gains exactly the superuser record when their number was not listed and is otherwise kept, and after a success the superuser is listed; messages and documents are untouched |
| Database.RosterRowComplete | database.py:250-257 | a roster record is complete and conforms to the schema |
| Database.RosterInsertSucceeds | database.py:247-259 | inserting a roster line with an unlisted number always succeeds and stores the line's record |
| Database.SeedGroups | database.py:263-268 | the four seed allocations; `SeedRowComplete` and `SeedKeysDistinct` prove them well typed with distinct keys |
| Database.SeedRowComplete | database.py:263-273 | each seed allocation is complete and conforms |
| Database.SeedKeysDistinct | database.py:263-273 | the seed allocations have pairwise distinct (group, quota) keys |
| Database.SeedInsertSucceeds | database.py:263-273 | each seed insert succeeds on the preceding seeds |
| Home.AprovadosNaFrente | controller/home.py:28-37 | on a non-empty roster, exactly the candidates with the same group and quota and a smaller position; an empty frame raises KeyError |
| Home.Contar | controller/home.py:44-47 | the three decision counts sum to at most the number of users ahead, and to exactly that when every option is one of the three strings |
| Home.ContarAgreesWithVerOpcoes | controller/home.py:44-47 | the page's counts equal the per-option counts of the corrected `verOpcoes`; when that raises, every count is zero |
| Home.ApresentarDadosDecisoes | controller/home.py:23-73 | the outcome is counts iff someone registered is ahead, "nobody ahead" iff no candidate is ahead, and "nobody ahead registered" otherwise |
| Home.SemAprovadosNaFrenteSemUsuarios | controller/home.py:68-73 | when accounts copy their place from the roster and no candidate is ahead, the page says "nobody ahead" |
| Home.MostrarLink | controller/home.py:76-117 | the link branch is taken iff the seat-consuming candidates ahead are fewer than the seats; it shows the group's first link when valid, and "unavailable" otherwise |
| Home.NaoCadastradoConsomeVaga | controller/home.py:81-95 | an unregistered candidate ahead always consumes a seat |
| Home.Recusantes | controller/home.py:81-87 | the numbers of the users ahead who declined, or the placeholder ids when nobody registered is ahead; `SoRecusantesSaem` and `NaoCadastradoConsomeVaga` state its effect |
| Home.ConsomeVaga | controller/home.py:95 | a roster row keeps its seat unless its number is among the decliners; stated through `SoRecusantesSaem` |
| Home.Assentos | controller/home.py:89-95 | every seat-taker is an approved candidate ahead in the same group and quota who is not among the decliners |
| Home.SoRecusantesSaem | controller/home.py:81-95 | a candidate ahead is dropped only if a registered user ahead with the same number declined, or if they hold a placeholder id |
| Home.AlocacaoEm | controller/home.py:98-99 | the allocation is the single row with the same group and the same quota ignoring case |
| Home.AlocacaoDe | controller/home.py:98 | same group, quota equal ignoring case; `AlocacaoEm` proves the single match is the allocation |
| Home.Vagas | controller/home.py:98 | the seat count of the single allocation of the user's pair; `MaisVagasNuncaEscondem` relates it to the link |
| Home.MaisVagasNuncaEscondem | controller/home.py:101-117 | raising the seat count never hides a shown link |
| Home.AlocacaoAposVagas | controller/home.py:101-117 | rewriting the seat count of the user's allocation leaves it the only allocation of the user's pair |
| Home.NovoConcorrenteNuncaRevela | controller/home.py:101-117 | adding a seat-consuming candidate ahead never reveals a hidden link |
| Home.ExibirMensagensUsuario | controller/home.py:120-150 | an empty table says "no message created"; otherwise exactly the messages addressed to the user's group, quota and rank range, newest first |
| Grupos.MostrarEstatisticas | grupos.py:17-25 | always succeeds with an empty result |
| Grupos.MostrarMensagens | grupos.py:41-48 | always succeeds with the congratulation text |
| Grupos.VerQuantidade | grupos.py:28-37 | KeyError iff the users table is empty; otherwise success with a count no larger than the table, zero iff no user has the group |
| Grupos.VerQuantidadeAppend | grupos.py:28-37 | one more user raises their own group's count by one and leaves every other group's count |
| Grupos.VerQuantidadeAcrossQuotas | grupos.py:30-37 | on a non-empty table the count is the group's users of one quota plus those of all other quotas |
| Grupos.MostrarLink | grupos.py:51-59 | the link of the first allocation of the group, whatever its quota; IndexError iff the group has none |
| Mensageria.Linha | mensageria.py:40-51 | the inner loop builds one message per quota, in order |
| Mensageria.FanOutSnoc | mensageria.py:40-51 | the outer loop appends one group's messages after the previous groups' |
| Mensageria.FanOutLength | mensageria.py:40-51 | a call stores \|grupos\| × \|cotas\| messages |
| Mensageria.FanOutAt | mensageria.py:40-51 | message i·\|cotas\|+j carries group i and quota j with the call's shared title, content, range and author |
| Mensageria.FanOutMembers | mensageria.py:40-51 | every stored message is the one of some (group, quota) pair |
| Mensageria.Destinada | controller/home.py:138-143 | the message mask: same group, same quota, position within the range; `FanOutReachesOnly` and `FanOutReachesAll` characterise it over a submission |
| Mensageria.FanOutReachesOnly | mensageria.py:40-51 | a user reached by the call has a group and quota of the call and a rank within the range |
| Mensageria.FanOutReachesAll | mensageria.py:40-51 | every user with a chosen group and quota and a rank in range is reached |
| Mensageria.EmptyRangeReachesNobody | mensageria.py:26-51 | a range with minimum above maximum is stored anyway and reaches nobody |
| Mensageria.MensagemRowComplete | mensageria.py:42-51 | a stored message is the built one plus a fresh id and the creation time |
| Mensageria.MensagemInsertSucceeds | mensageria.py:42-51 | inserting a message into a valid table always succeeds |
| Mensageria.Inserir | mensageria.py:61-66 | inserting into a newest-first list keeps it newest first and adds exactly that message |
| Mensageria.Ordenar | mensageria.py:61-66 | the sort is newest first and a permutation of its input |
| Mensageria.ListarMensagens | mensageria.py:57-66 | the listing holds all messages, ordered by creation time descending |
| Mensageria.ListarPrimeiroMaisNovo | mensageria.py:61-66 | the first listed message is at least as new as any message |
| Mensageria.IdsDistinct | mensageria.py:18-32 | message ids are pairwise distinct |
| Mensageria.DeletarRemoveSoEsse | mensageria.py:74-80 | after deleting the record with that id no record with it remains |
| Mensageria.Mensageria.InserirLinha | mensageria.py:40-51 | one group's messages are appended after the existing ones |
| Mensageria.Mensageria.InserirUma | mensageria.py:42-51 | one `inserirDados` appends exactly one row holding every entry of the message dictionary |
| Mensageria.Mensageria.CriarMensagem | mensageria.py:26-54 | the messages table grows by \|grupos\|×\|cotas\| rows carrying the fan-out, old rows kept, other tables untouched |
| Mensageria.Mensageria.DeletarMensagem | mensageria.py:69-80 | returns true iff a record has the id, and then removes exactly the first such record; otherwise nothing changes |
| Contas.ClasseDoRole | contas.py:16-20 | the class of a role exists iff the role is usuario, coordenador or superuser |
| Contas.BuscarDadosConta | contas.py:131-132 | the account record of the number; IndexError iff there is none |
| Contas.ExisteCadastroPrevio | contas.py:128-129 | `_existe_cadastro_previo`: the filter on the registration number selects a user record; `BuscarDadosConta` fails exactly when it does not hold |
| Contas.BuscarDadosColocacao | contas.py:134-135 | the roster record of the number; IndexError iff it is not listed |
| Contas.ContaUnica | contas.py:128-132 | in a valid users table the lookup returns the one record with that number |
| Contas.ColocacaoUnica | contas.py:134-135 | in a valid roster the lookup returns the one record with that number |
| Contas.AcessarContaOutcome | contas.py:81-116 | no account gives "Não existe conta", a failed check gives "Senha incorreta", otherwise an object of the stored role's class for that number, and KeyError for an unknown role |
| Contas.ContaConstruivel | contas.py:107-116 | with a correct password the login succeeds iff the stored role maps to a class |
| Contas.ContaData | contas.py:50-61 | the new account takes name, position, group and quota from the roster record and stores the hashed password, the number and the given phone |
| Contas.DocumentoInsertSucceeds | contas.py:167-198 | storing the document of a valid table always succeeds |
| Contas.CriarEntaoAcessar | contas.py:29-116 | after creating an account, logging in with the same password grants an ordinary user object |
| Contas.ContaCriadaGuarda | contas.py:59-63 | a successful creation appends exactly one user record holding every field built for it |
| Contas.ContaSemDocumento | contas.py:59-63 | an undecodable upload leaves a half-created account: one more user record, the number now has an account, the documents unchanged |
| Contas.NovaTentativaRecusada | contas.py:42-48 | once the number has an account, every later creation is refused with "Já existe conta" and stores nothing, so the missing document cannot be added this way |
| Contas.CriarMantemCadastrados | contas.py:50-61 | creating an account keeps every account backed by a roster record with the same group, quota and position |
| Contas.Conta.constructor | contas.py:22-26 | a new manager has no role |
| Contas.Conta.AcessarConta | contas.py:81-116 | returns `AcessarContaOutcome` and records the role only on success |
| Contas.Conta.AdicionarConta | contas.py:137-165 | returns `InsertOutcome` and appends exactly that user record on success |
| Contas.Conta.ArmazenarDoc | contas.py:167-198 | no upload raises AttributeError and an upload Pillow cannot decode raises ImageError, both storing nothing; otherwise exactly one document record is appended |
| Contas.Conta.Registrar | contas.py:50-77 | inserts the user and then the document, as `ContaCriada` states: a failed user insert stores nothing; a missing or undecodable upload raises after the user record is committed |
| Contas.Conta.CriarConta | contas.py:29-77 | an existing account is refused with "Já existe conta", an unlisted number raises IndexError, both storing nothing; otherwise one user record is stored, followed by one document, or by AttributeError or ImageError (missing or undecodable upload) with the user record alone |
| Usuarios.NovoUsuario | usuarios.py:14-45 | construction succeeds iff every parameter is given, and keeps the class, number, plain quota and position |
| Usuarios.NovoUsuarioIgnoresExtras | usuarios.py:27 | extra keyword fields do not change the constructed object |
| Usuarios.Atualizacoes | usuarios.py:53-63 | the changes are exactly the request's email, phone, option and contact option |
| Usuarios.ExtrairMudancas | usuarios.py:53-63 | the key-by-key loop builds exactly `Atualizacoes` |
| Usuarios.MudarDados | usuarios.py:47-80 | no whitelisted key gives `sucesso` false and no write; otherwise the record with the user's own number is updated and `sucesso` is true |
| Usuarios.MudarDadosOnlyWhitelist | usuarios.py:53-73 | a column outside the whitelist and the timestamp is never changed by a profile update |
| Usuarios.OpcoesCount | usuarios.py:88-92 | the per-option table counts the records with each option |
| Usuarios.VerOpcoes | usuarios.py:83-92 | KeyError iff nobody is ahead in the same group and quota; otherwise success, counting the users ahead by option |
| Usuarios.VerOpcoesAsWrittenRaises | usuarios.py:84 | as written, the call without the quota raises TypeError |
| Usuarios.VerOpcoesAsWritten | usuarios.py:83-85 | the call by keywords `db`, `grupo` and `posicao` binds only when those are the query's parameters; `VerOpcoesAsWrittenRaises` proves it never does |
| UtilsPage.LimparTelefone | controller/utils_page.py:10-14 | the result holds only digits and is no longer than the input |
| UtilsPage.ValidarTelefone | controller/utils_page.py:23-28 | `validar_telefone`: at least 8 characters; `TelefoneAceito` proves a cleaned entry passes iff it has at least 8 digits |
| UtilsPage.LimparTelefoneKeepsDigits | controller/utils_page.py:14 | stripping distributes over concatenation and keeps a character iff it is a digit, so the digits stay in order |
| UtilsPage.LimparTelefoneIdempotent | controller/utils_page.py:14 | stripping twice equals stripping once |
| UtilsPage.LimparTelefoneOfDigits | controller/utils_page.py:14 | a string of digits is unchanged |
| UtilsPage.LimparTelefoneLength | controller/utils_page.py:14 | the result is as long as the input's number of digits |
| UtilsPage.TelefoneAceito | controller/utils_page.py:23-28 | a cleaned phone is accepted iff the input has at least 8 digits |
| UtilsPage.IndexOf | controller/utils_page.py:20 | the first position of a character, or none |
| UtilsPage.LastIndexOf | controller/utils_page.py:20 | the last position of a character, or none |
| UtilsPage.ValidarEmail | controller/utils_page.py:16-21 | `validar_email`, computed by splitting at the first '@' and the last '.' of the domain; `ValidarEmailMatchesPattern` proves it agrees with the regular expression |
| UtilsPage.ValidarEmailMatchesPattern | controller/utils_page.py:16-21 | `ValidarEmail` accepts exactly the strings the email regular expression matches |
| UtilsPage.ValidarEmailSound | controller/utils_page.py:20-21 | an accepted string matches the pattern |
| UtilsPage.ValidarEmailComplete | controller/utils_page.py:20-21 | a string matching the pattern is accepted |
| UtilsPage.EmailAceitoTemUmaArroba | controller/utils_page.py:20-21 | an accepted email has exactly one '@', after a non-empty local part of word characters, '.' and '-' |
| UtilsPage.EmailAceitoSemEspacos | controller/utils_page.py:20-21 | an accepted email has no spaces and ends with '.' and at least one word character |
| ControleGrupo.Chave | controller/controle_grupo.py:21-24 | the filter names only columns of the allocation table |
| ControleGrupo.ChaveCasa | controller/controle_grupo.py:21-24 | a record matches the filter iff it has exactly the coordinator's group and the chosen quota |
| ControleGrupo.Novo | controller/controle_grupo.py:51-60 | the inserted record is complete and carries that group and quota |
| ControleGrupo.Gravado | controller/controle_grupo.py:43-50 | an updated record holds the submitted seat count and link and keeps every other column |
| ControleGrupo.Editor | controller/controle_grupo.py:21-37 | the editor shows 0 and "" without a record, otherwise the seat count and link of a matching record |
| ControleGrupo.UmaPorCota | controller/controle_grupo.py:21-24 | a matching record is the only one |
| ControleGrupo.NoMaximoUma | controller/controle_grupo.py:21-24 | at most one record matches a (group, quota) pair |
| ControleGrupo.Upsert | controller/controle_grupo.py:41-60 | the single record of the pair takes the new values, or a new record is appended; `UpsertGrava` proves it satisfies `Upserted` |
| ControleGrupo.UpsertGrava | controller/controle_grupo.py:41-60 | after the upsert exactly one record has the pair and holds the values; other records are unchanged; the table grows iff none existed |
| ControleGrupo.UpsertInsere | controller/controle_grupo.py:51-60 | with no record, appending the new one is an upsert |
| ControleGrupo.UpsertAtualiza | controller/controle_grupo.py:43-50 | with a record, rewriting only its seat count and link is an upsert |
| ControleGrupo.UpsertIdempotente | controller/controle_grupo.py:41-60 | submitting the same values twice equals submitting them once |
| ControleGrupo.EditorMostraGravado | controller/controle_grupo.py:31-37 | after a submission the editor shows the submitted values |
| ControleGrupo.AplicadoEhGravado | controller/controle_grupo.py:45-48 | the database update of seat count and link yields the updated record |
| ControleGrupo.GravadoConforme | controller/controle_grupo.py:43-50 | the updated record still fits the schema |
| ControleGrupo.MesmaChaveSemConflito | controller/controle_grupo.py:43-50 | a record with the same key clashes with no other record |
| ControleGrupo.AtualizacaoAceita | controller/controle_grupo.py:43-50 | the update always succeeds and yields the updated record |
| ControleGrupo.NovoSemConflito | controller/controle_grupo.py:51-60 | the new record clashes with no record of another pair |
| ControleGrupo.InsercaoAceita | controller/controle_grupo.py:51-60 | the insert always succeeds and stores the new record |
| ControleGrupo.AtualizarAlocacao | controller/controle_grupo.py:43-50 | the allocation table becomes its upsert |
| ControleGrupo.InserirAlocacao | controller/controle_grupo.py:51-60 | the allocation table becomes its upsert |
| ControleGrupo.ControleDeGrupo | controller/controle_grupo.py:6-60 | only the allocation table changes, to its upsert for the own group and chosen quota; the message says inserted iff no record existed |
| CoordenadorGrupo.DoGrupo | controller/coordenador_grupo.py:21-34 | exactly the records of the group; an empty frame raises KeyError |
| CoordenadorGrupo.Pares | controller/coordenador_grupo.py:41-46 | the (option, quota) table counts at most one entry per user |
| CoordenadorGrupo.ParesConta | controller/coordenador_grupo.py:41-46 | each (option, quota) entry counts the users with that option and quota |
| CoordenadorGrupo.ParesSomam | controller/coordenador_grupo.py:41-46 | when every user has both fields, the entries sum to the number of users |
| CoordenadorGrupo.EstatisticasDeGrupo | controller/coordenador_grupo.py:10-49 | the counts filter on group only; the options table sums to the users count when every user has option and quota; empty frames raise |
| CoordenadorGrupo.ParesSomamSe | controller/coordenador_grupo.py:41-46 | the sum property carries to the group's users |
| CoordenadorGrupo.Auditar | controller/coordenador_grupo.py:85-119 | "not found or not in your group" iff no user of the own group has the number; otherwise that user, with a document of the number when there is one |
| CoordenadorGrupo.ForaDoGrupo | controller/coordenador_grupo.py:88-90 | no match among the group's users means no user of the group has the number |
| CoordenadorGrupo.ListaGrupos | controller/coordenador_grupo.py:153-155 | the choices are sorted and are exactly the allocation groups other than "TI_RAIZ" |
| CoordenadorGrupo.NomesVisiveisSao | controller/coordenador_grupo.py:153-155 | the listed names are exactly the stored groups other than "TI_RAIZ" |
| CoordenadorGrupo.GruposPadrao | controller/coordenador_grupo.py:161 | a coordinator's own group, or every choice; `PadraoEntreOpcoes` proves the preselection is among the choices |
| CoordenadorGrupo.PadraoEntreOpcoes | controller/coordenador_grupo.py:158-162 | the default selection is among the choices |
| CoordenadorGrupo.Autor | controller/coordenador_grupo.py:185 | the author is "nome (n_inscr: X)" |
| CoordenadorGrupo.AutorIdentifica | controller/coordenador_grupo.py:185 | for names without '(', equal author lines come from the same name and registration number |
| CoordenadorGrupo.ValidarMensagem | controller/coordenador_grupo.py:167-176 | rejects a blank title or content, then no groups, then no quotas, in that order |
| CoordenadorGrupo.EnviarMensagem | controller/coordenador_grupo.py:166-188 | a rejection stores nothing; otherwise the fan-out is appended and success reported |
| CoordenadorGrupo.DeletarDaLista | controller/coordenador_grupo.py:195-214 | success and removal of that id iff it exists; otherwise an error and no change |
| Forms.FirstFailure | controller/login.py:51-83 | no message iff every check passes |
| Forms.FirstFailureIsFirst | controller/login.py:51-83 | the reported message is that of the first failing check |
| Forms.FirstFailureAppend | controller/dados_usuarios.py:49-66 | a later check is reached only when all earlier ones pass |
| Login.MapaOpcaoBijetivo | controller/login.py:40-44 | the three labels map one-to-one onto the three decisions |
| Login.MapearOpcao | controller/login.py:40-44 | a known label maps to its decision, none selected means "Não vai assumir", anything else raises KeyError |
| Login.ValidarContato | controller/login.py:61-78 | email presence, email format, phone presence, phone format, in that order; passes iff all hold |
| Login.ValidarCadastro | controller/login.py:51-83 | roster, password, contact and document checks in order; passes iff all hold |
| Login.AvisoDaCriacao | controller/login.py:85-104 | success only when creation reports success; a raised exception becomes the contact-the-administrator error |
| Login.CriarConta | controller/login.py:17-104 | a bad label raises, a failed check stores nothing, otherwise `criarConta` runs with the cleaned phone; an undecodable upload shows the contact-the-administrator error after the user record is committed |
| Login.TelefoneArmazenadoLimpo | controller/login.py:75-91 | a created account stores a digits-only phone of at least 8 digits |
| Login.ImagemInvalidaMostraErro | controller/login.py:85-104 | an undecodable upload shows the contact-the-administrator error, while the account exists and no document was stored |
| Login.Entrar | controller/login.py:110-125 | a granted login stores the account and sets `logado`; a refusal or error leaves the session unchanged |
| DadosUsuarios.Posicao | controller/dados_usuarios.py:13-17 | the first index of a present value |
| DadosUsuarios.IndiceOu | controller/dados_usuarios.py:13-29 | the index of a present value, otherwise the fallback |
| DadosUsuarios.IndiceOpcao | controller/dados_usuarios.py:13-17 | the preselected decision is the current one, or index 0 |
| DadosUsuarios.IndiceContato | controller/dados_usuarios.py:25-29 | the preselected contact option is the current one, or the "no contact" option |
| DadosUsuarios.PreselecaoIdaEVolta | controller/dados_usuarios.py:13-43 | mapping the preselected label back gives the current decision, or "Não vai assumir" |
| DadosUsuarios.MudancasAsWritten | controller/dados_usuarios.py:68-73 | the dictionary as written names only editable columns and not the contact option, with the cleaned phone |
| DadosUsuarios.MudancasAsWrittenIgnoraContato | controller/dados_usuarios.py:68-73 | as written, the submitted contact option never reaches the record |
| DadosUsuarios.Mudancas | controller/dados_usuarios.py:68-73 | the changes hold email, cleaned phone, option and the chosen contact option |
| DadosUsuarios.MudancasPassamWhitelist | controller/dados_usuarios.py:68-75 | the changes pass the whitelist unchanged and are never empty |
| DadosUsuarios.MudancasGravamContato | controller/dados_usuarios.py:68-73 | with the correction the contact option is stored |
| DadosUsuarios.GerenciarDadosUsuario | controller/dados_usuarios.py:6-80 | the corrected page: it submits `Mudancas`, which adds the contact option that lines 68-73 leave out (see Findings). An unknown label raises KeyError and a failed check stores nothing and reports it. Otherwise the user's record is updated with that dictionary and success is reported. |
| Pagina.Menu | controller/pagina.py:78-101 | every menu has statistics, profile and logout; administration only for superuser; group items only for coordenador and superuser |
| Pagina.MenuHierarquia | controller/pagina.py:78-101 | superuser menu ⊇ coordinator menu ⊇ ordinary menu; any other role gets the ordinary menu |
| Pagina.Secao | controller/pagina.py:106-139 | group sections open only for coordenador and superuser, administration only for superuser; refusal iff the role lacks the permission |
| Pagina.MenuSemNegacao | controller/pagina.py:78-139 | an item of one's own menu is never refused |
| Pagina.Exibir | controller/pagina.py:28-145 | the login page iff not logged in; a logged-in session without account is reset; "Sair" clears `logado` and `conta` |
| Sessao.Estado.constructor | controller/pagina.py:33 | a new session has neither `logado` nor `conta` |
| Adm.BuscarInformacoes | controller/adm.py:27-34 | the user's record, or "Usuário não encontrado." iff none |
| Adm.InformacoesDoUsuario | controller/adm.py:30-32 | the lookup shows the one record with that number |
| Adm.InscricaoUnica | controller/adm.py:43-45 | a user record with the number is the only match |
| Adm.NoMaximoUmUsuario | controller/adm.py:43-45 | at most one user record has a number |
| Adm.FilterSemUm | controller/adm.py:43-48 | dropping the one failing record removes exactly that position |
| Adm.ResetLiberaInscricao | controller/adm.py:43-48 | after the reset the number has no account, every other record stays, and the table shrinks by one |
| Adm.RemoverUsuario | controller/adm.py:43-48 | the users table loses exactly the records with that number |
| Adm.ResetarConta | controller/adm.py:39-66 | an empty number or an unknown user reports an error and changes nothing; otherwise exactly that user is deleted |
| Adm.ComRole | controller/adm.py:104-109 | the updated record changes only the role, to the new one, and its modification time |
| Adm.RoleDefineClasse | controller/adm.py:95-109 | the new role maps to its class at the next login |
| Adm.ComRoleConforme | controller/adm.py:104-109 | the updated record still fits the schema |
| Adm.MesmaIdentidadeSemConflito | controller/adm.py:104-109 | a record with the same number and email clashes with no other |
| Adm.RoleAceito | controller/adm.py:104-109 | the role update always succeeds and yields the updated record |
| Adm.MudarRole | controller/adm.py:104-109 | only that user's record changes, to its role update |
| Adm.AtribuirRole | controller/adm.py:93-110 | an empty number or an unknown user reports an error and changes nothing; otherwise only that user's role changes |

The seed of `_inserir_grupos` (database.py:263-273) spells the third quota "PcD".
The allocation editor (controller/controle_grupo.py:17-18) offers "PCD", and its
exact-match filter does not find the seeded rows, so the first submission inserts
a second allocation for the pair. The home page compares quotas ignoring case
(controller/home.py:98-99), so both rows then match. The size `tamanho_CR` is then a two-element
array; comparing the count against it gives a two-element boolean array, and the
`if` of controller/home.py:101 raises ValueError (its truth value is ambiguous).
`Home.MostrarLink` requires exactly one matching allocation and does not model
that state.

## Left out

- Stored NULLs: a NULL in a nullable text column is read as "" when a page builds
  a `Usuario`. NULL never equals a filter value.
- Column names are an enumeration. A keyword that names no column of any table
  (SQLAlchemy's "invalid keyword" error) cannot be written, so the model covers
  only a column of another table.
- String length limits of the VARCHAR columns are not enforced; SQLite does not
  enforce them either.
- UtilsPage.ValidarEmailMatchesPattern: `\w` and `\D` are taken as ASCII. Python's
  `$` also accepts a trailing newline; that quirk is not modelled.
- Text.Lower and Text.IsBlank: ASCII approximations of Python's `str.lower()`
  (controller/home.py:98) and `str.strip()` (controller/coordenador_grupo.py:168).
  Non-ASCII letters keep their case and only ASCII whitespace counts as blank.
- Database.RosterRow: stores the roster position as a number. The source passes
  `str(row['posicao'])` (database.py:238) to the Integer column of
  database.py:67; SQLite's integer affinity stores such a numeric text as that
  number, which is what the model keeps.
- Time is one integer `now` per operation.
  - Several inserts of one call share it, so the newest-first order among equal
    timestamps is left unspecified.
  - The "updates in the last day" count and the percentage metric of the home
    page (floating point) are left out.
- Streamlit caching of the ahead list and of the database object is left out. The
  model always reads the current tables.
- Foreign code:
  - bcrypt is an abstract hash and verifier.
  - Fernet encryption is left out.
  - Pillow re-encoding is an uninterpreted `compress`; only whether it decodes the
    upload (and then its output bytes) is modelled.
  - URL validation is an uninterpreted predicate.
  - Twilio/WhatsApp sending is left out; it is never called.
- Administration I/O: the SQL console, the CSV/Excel export and the deletion of
  document files on reset are left out. The document rows themselves stay, as in
  the source.
- Home.NaoCadastradoConsomeVaga: proved for registration numbers other than the
  placeholder ids "aaaaa" and "bbbbb". When nobody registered is ahead, a candidate
  holding such an id is dropped, as written.
- Home.MostrarLink: requires exactly one matching allocation. With none, the source
  depends on numpy's truth value of an empty array. With two (the seeded "PcD" and
  an editor-made "PCD" allocation), the `if` at controller/home.py:101 raises
  ValueError; the model does not reach that state.
- Unreachable branches are not modelled: the final `else` of `criarConta`
  (contas.py:71-77) and the `except` of `mostrar_link`.
- Empty DataFrames have no columns, so column access raises KeyError. The model
  reports this as `Failure(KeyError)` and does not model the message text.
- Page sections are modelled independently of earlier raises on the same page.
  For example, `CoordenadorGrupo.Auditar` is reached on the real page only after
  controller/coordenador_grupo.py:31 reads `df_aprovados['grupo']`, which raises
  KeyError on an empty roster; the model of the audit section does not carry that
  precondition.
- Pagina.Exibir: the login page's radio choice between creating an account and
  logging in is not dispatched. It returns `TelaLogin`, and the two forms are
  `Login.CriarConta` and `Login.Entrar`.
- CoordenadorGrupo.PadraoEntreOpcoes: requires the coordinator's own group to be
  among the choices. Otherwise Streamlit's multiselect raises, and that case is not
  modelled.
- Login.CriarConta: when no contact option is chosen, "Não desejo receber" is
  passed, as the form does; the widget itself is not modelled.
- The `Coordenador` and `Superusuario` methods of usuarios.py:95-122 only raise
  NotImplementedError and no page calls them; they are not modelled.
- `apresentar_dados_gerais_usuario` (controller/home.py:10-20) only displays fields
  and is not modelled.
- Rendering, layout, the texts of data_p_config/textos.py and the bootstrapping in
  app.py are not part of this model.

## Findings

| source | as written | input that shows it | evidently intended | confidence | as-written member | corrected member |
|---|---|---|---|---|---|---|
| usuarios.py:84 | `verOpcoes` calls `retornarListaUsuariosNaFrente(db, grupo, posicao)`, whose signature at database.py:317 also requires `cota` | any user, any table: the call raises TypeError | pass `self.cota`, counting the users ahead in the same group and quota by option (grouping still raises KeyError when nobody is ahead) | not executed | Usuarios.VerOpcoesAsWrittenRaises | Usuarios.VerOpcoes |
| controller/dados_usuarios.py:68-73 | the change dictionary holds email, phone and option but not the contact option chosen at lines 31-35 | a user with contact "Não desejo receber" who selects "Sim, por WhatsApp" and submits: the record keeps "Não desejo receber" | include `opcao_contato` in the changes; the page `DadosUsuarios.GerenciarDadosUsuario` is modelled with this correction | not executed | DadosUsuarios.MudancasAsWrittenIgnoraContato | DadosUsuarios.MudancasGravamContato |

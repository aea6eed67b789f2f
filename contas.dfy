/** Accounts: creating one from the roster record of a registration number, and
    logging in, which builds the object of the class the stored role names. */
module Contas {
  import opened Wrappers
  import opened Schema
  import opened Seqs
  import opened Database
  import opened Usuarios
  import Passwords

  /** `Conta.CLASSES`: the class each role is built with. */
  const Classes: map<string, Classe> :=
    map["usuario" := UsuarioClass, "coordenador" := CoordenadorClass, "superuser" := SuperusuarioClass]

  const JaExiste := "Já existe conta para essa inscrição"
  const SemConta := "Não existe conta criada para essa inscrição"
  const SenhaIncorreta := "Senha incorreta"

  /** The class `CLASSES[dados['role']]` selects, or None where that lookup raises
      KeyError (no role column, NULL, or a role outside the map). */
  function ClasseDoRole(dados: Row): (r: Option<Classe>)
    ensures r.Some? <==> Role in dados && dados[Role].Text? && dados[Role].s in Classes
    ensures r.Some? ==> r.value == Classes[dados[Role].s]
  {
    if Role in dados && dados[Role].Text? && dados[Role].s in Classes then Some(Classes[dados[Role].s])
    else None
  }

  /** `_existe_cadastro_previo`: some user record has this registration number. */
  predicate ExisteCadastroPrevio(usuarios: seq<Row>, n: string)
  {
    Select(Usuarios, usuarios, ByInscr(n)) != []
  }

  /** `_buscar_dados_conta`: the first user record with this registration number;
      `[0]` raises IndexError when there is none. */
  function BuscarDadosConta(usuarios: seq<Row>, n: string): (r: Result<Row, Raised>)
    ensures r.Failure? <==> !ExisteCadastroPrevio(usuarios, n)
    ensures r.Failure? ==> r.error == IndexError
    ensures r.Success? ==> r.value in usuarios && TextIs(r.value, NInscr, n)
  {
    var s := Select(Usuarios, usuarios, ByInscr(n));
    if s == [] then Failure(IndexError) else Success(s[0])
  }

  /** `_buscar_dados_colocacao`: the first roster record with this registration
      number; `[0]` raises IndexError when there is none. */
  function BuscarDadosColocacao(aprovados: seq<Row>, n: string): (r: Result<Row, Raised>)
    ensures r.Failure? <==> !Listed(aprovados, n)
    ensures r.Failure? ==> r.error == IndexError
    ensures r.Success? ==> r.value in aprovados && TextIs(r.value, NInscr, n)
  {
    var s := Select(Aprovados, aprovados, ByInscr(n));
    if s == [] then Failure(IndexError) else Success(s[0])
  }

  /** In a valid users table the record found is the only one with that number. */
  lemma ContaUnica(usuarios: seq<Row>, serial: nat, n: string, i: nat)
    requires TableValid(Usuarios, usuarios, serial)
    requires i < |usuarios| && TextIs(usuarios[i], NInscr, n)
    ensures BuscarDadosConta(usuarios, n) == Success(usuarios[i])
  {
    assert Matches(usuarios[i], ByInscr(n));
    var r := BuscarDadosConta(usuarios, n).value;
    var j :| 0 <= j < |usuarios| && usuarios[j] == r;
    if j < i {
      UsuariosUnique(usuarios, serial, j, i);
    } else if i < j {
      UsuariosUnique(usuarios, serial, i, j);
    }
  }

  /** In a valid roster the record found is the only one with that number. */
  lemma ColocacaoUnica(aprovados: seq<Row>, serial: nat, n: string, i: nat)
    requires TableValid(Aprovados, aprovados, serial)
    requires i < |aprovados| && TextIs(aprovados[i], NInscr, n)
    ensures BuscarDadosColocacao(aprovados, n) == Success(aprovados[i])
  {
    assert Matches(aprovados[i], ByInscr(n));
    var r := BuscarDadosColocacao(aprovados, n).value;
    var j :| 0 <= j < |aprovados| && aprovados[j] == r;
    if j < i {
      AprovadosUnique(aprovados, serial, j, i);
    } else if i < j {
      AprovadosUnique(aprovados, serial, i, j);
    }
  }

  /** What a login attempt yields: a refusal with its message, or the account object. */
  datatype Acesso = Negado(motivo: string) | Concedido(conta: Usuario)

  /** `acessarConta` on a snapshot of the users table. */
  function AcessarContaOutcome(usuarios: seq<Row>, n: string, senha: string,
                               verify: (string, string) -> bool): (r: Result<Acesso, Raised>)
    ensures r == Success(Negado(SemConta)) <==> !ExisteCadastroPrevio(usuarios, n)
    ensures r == Success(Negado(SenhaIncorreta)) <==>
              ExisteCadastroPrevio(usuarios, n) && !verify(senha, TextAt(BuscarDadosConta(usuarios, n).value, Senha))
    ensures r.Success? && r.value.Concedido? ==>
              var dados := BuscarDadosConta(usuarios, n).value;
              && verify(senha, TextAt(dados, Senha))
              && ClasseDoRole(dados).Some?
              && r.value.conta.classe == ClasseDoRole(dados).value
              && r.value.conta.nInscr == n
    ensures r.Failure? ==>
              var dados := BuscarDadosConta(usuarios, n).value;
              ExisteCadastroPrevio(usuarios, n) && verify(senha, TextAt(dados, Senha))
              && (r.error == KeyError <==> ClasseDoRole(dados).None?)
  {
    match BuscarDadosConta(usuarios, n)
    case Failure(_) => Success(Negado(SemConta))
    case Success(dados) =>
      if !verify(senha, TextAt(dados, Senha)) then Success(Negado(SenhaIncorreta))
      else
        match ClasseDoRole(dados)
        case None => Failure(KeyError)
        case Some(classe) =>
          match NovoUsuario(classe, dados)
          case Failure(e) => Failure(e)
          case Success(u) => Success(Concedido(u))
  }

  /** A stored user record builds its object: every constructor parameter is a column. */
  lemma ContaConstruivel(usuarios: seq<Row>, serial: nat, n: string, senha: string,
                         verify: (string, string) -> bool)
    requires TableValid(Usuarios, usuarios, serial)
    requires ExisteCadastroPrevio(usuarios, n)
    requires verify(senha, TextAt(BuscarDadosConta(usuarios, n).value, Senha))
    ensures (AcessarContaOutcome(usuarios, n, senha, verify).Success?
             <==> ClasseDoRole(BuscarDadosConta(usuarios, n).value).Some?)
  {
    var dados := BuscarDadosConta(usuarios, n).value;
    var i :| 0 <= i < |usuarios| && usuarios[i] == dados;
    assert Conforms(Usuarios, usuarios[i]);
    assert Parametros <= dados.Keys;
  }

  /** An uploaded file: its name and its bytes. */
  datatype Documento = Documento(name: string, content: seq<bv8>)

  /** The `data_dict` of `_adicionar_conta`: name, position, group and quota come
      from the roster record, the password is stored hashed. */
  function ContaData(colocacao: Row, n: string, hashed: string, email: string, telefone: string,
                     opcao: string, formacao: Option<string>, opcaoContato: string): (r: Row)
    ensures r.Keys == Parametros - {Role}
    ensures forall c :: c in {Nome, Posicao, Grupo, Cota} && c in colocacao ==> r[c] == colocacao[c]
    ensures r[Senha] == Text(hashed) && r[NInscr] == Text(n) && r[Telefone] == Text(telefone)
  {
    map[Nome := ValueAt(colocacao, Nome), Posicao := ValueAt(colocacao, Posicao),
        Senha := Text(hashed), Email := Text(email), Telefone := Text(telefone),
        Opcao := Text(opcao), NInscr := Text(n), Grupo := ValueAt(colocacao, Grupo),
        FormacaoAcademica := if formacao.Some? then Text(formacao.value) else Null,
        Cota := ValueAt(colocacao, Cota), OpcaoContato := Text(opcaoContato)]
  }

  /** `dados[c]` of a record; a record of a valid table holds every column. */
  function ValueAt(r: Row, c: Col): (v: Value)
    ensures c in r ==> v == r[c]
  {
    if c in r then r[c] else Null
  }

  /** The `novo_documento` dictionary, holding the re-encoded content `conteudo`. */
  function DocData(n: string, d: Documento, conteudo: seq<bv8>): Row
  {
    map[NInscr := Text(n), NomeArquivo := Text(d.name), Conteudo := Bytes(conteudo)]
  }

  /** A document insert always succeeds: the id is new and nothing else is unique. */
  lemma DocumentoInsertSucceeds(rows: seq<Row>, serial: nat, n: string, d: Documento,
                                conteudo: seq<bv8>, now: int)
    requires TableValid(Documentos, rows, serial)
    ensures InsertOutcome(Documentos, rows, DocData(n, d, conteudo), now, serial).Success?
  {
    var r := Build(Documentos, DocData(n, d, conteudo), now, serial);
    DocumentoMontado(n, d, conteudo, now, serial);
    FreshIdClashFree(Documentos, rows, serial, r, IdDocumento);
  }

  /** The document row names only declared columns, has admissible values and
      carries the next id. */
  lemma DocumentoMontado(n: string, d: Documento, conteudo: seq<bv8>, now: int, serial: nat)
    ensures DocData(n, d, conteudo).Keys <= Columns(Documentos).Keys
    ensures var r := Build(Documentos, DocData(n, d, conteudo), now, serial);
            Conforms(Documentos, r) && IdDocumento in r && r[IdDocumento] == Number(serial)
  {
    var r := Build(Documentos, DocData(n, d, conteudo), now, serial);
    assert Conforms(Documentos, r);
  }

  /** A freshly created account logs in with the password it was created with and
      gets an ordinary user object, given that verification accepts what hashing
      produced. */
  lemma CriarEntaoAcessar(usuarios: seq<Row>, serial: nat, data: Row, n: string, senha: string,
                          crypto: Passwords.Crypto, salt: nat, now: int)
    requires Passwords.Sound(crypto)
    requires !ExisteCadastroPrevio(usuarios, n)
    requires data.Keys == Parametros - {Role} && data[NInscr] == Text(n) && data[Senha] == Text(crypto.hash(senha, salt))
    requires InsertOutcome(Usuarios, usuarios, data, now, serial).Success?
    ensures var row := InsertOutcome(Usuarios, usuarios, data, now, serial).value;
            AcessarContaOutcome(usuarios + [row], n, senha, crypto.verify)
              == Success(Concedido(NovoUsuario(UsuarioClass, row).value))
  {
    var row := InsertOutcome(Usuarios, usuarios, data, now, serial).value;
    UsuarioDefaults(usuarios, data, now, serial);
    BuscaAposCriar(usuarios, row, n);
    assert ClasseDoRole(row) == Some(UsuarioClass);
    assert Parametros <= row.Keys;
    AcessoConcedido(usuarios + [row], n, senha, crypto.verify, row);
  }

  /** The record appended for a registration number that had none is the one found. */
  lemma BuscaAposCriar(usuarios: seq<Row>, row: Row, n: string)
    requires !ExisteCadastroPrevio(usuarios, n) && NInscr in row && row[NInscr] == Text(n)
    ensures BuscarDadosConta(usuarios + [row], n) == Success(row)
  {
    FilterAppend(usuarios, [row], Where(ByInscr(n)));
    assert Filter([row], Where(ByInscr(n))) == [row];
  }

  /** A found record whose password verifies and whose role names the user class
      grants access with that record's object. */
  lemma AcessoConcedido(usuarios: seq<Row>, n: string, senha: string, verify: (string, string) -> bool, row: Row)
    requires BuscarDadosConta(usuarios, n) == Success(row) && verify(senha, TextAt(row, Senha))
    requires ClasseDoRole(row) == Some(UsuarioClass) && Parametros <= row.Keys
    ensures AcessarContaOutcome(usuarios, n, senha, verify) == Success(Concedido(NovoUsuario(UsuarioClass, row).value))
  {
  }

  /** What `criarConta` does once the roster record `colocacao` is found: the user
      insert either raises and nothing is stored, or adds exactly one user record;
      then a missing upload raises AttributeError and an upload Pillow cannot decode
      raises ImageError, both after the user record is committed; otherwise exactly
      one document record is added and the reply names the account holder. */
  ghost predicate ContaCriada(antes: map<TableName, seq<Row>>, depois: map<TableName, seq<Row>>,
                              serialU: nat, serialD: nat, colocacao: Row, data: Row, n: string,
                              documento: Option<Documento>, compress: seq<bv8> -> Option<seq<bv8>>, now: int,
                              r: Result<Reply<string>, Raised>)
  {
    && Usuarios in antes && Documentos in antes
    && var o := InsertOutcome(Usuarios, antes[Usuarios], data, now, serialU);
       && (o.Failure? ==> r == Failure(Database(o.error)) && depois == antes)
       && (o.Success? && documento.None? ==>
             r == Failure(AttributeError) && depois == antes[Usuarios := antes[Usuarios] + [o.value]])
       && (o.Success? && documento.Some? && compress(documento.value.content).None? ==>
             r == Failure(ImageError) && depois == antes[Usuarios := antes[Usuarios] + [o.value]])
       && (o.Success? && documento.Some? && compress(documento.value.content).Some? ==>
             var d := InsertOutcome(Documentos, antes[Documentos],
                                    DocData(n, documento.value, compress(documento.value.content).value), now, serialD);
             && d.Success?
             && r == Success(Reply(true, "Criado conta para " + TextAt(colocacao, Nome)))
             && depois == antes[Usuarios := antes[Usuarios] + [o.value]][Documentos := antes[Documentos] + [d.value]])
  }

  /** When the creation succeeds, the users table grows by one record that holds
      every field of the dictionary built for it. */
  lemma ContaCriadaGuarda(antes: map<TableName, seq<Row>>, depois: map<TableName, seq<Row>>,
                          serialU: nat, serialD: nat, colocacao: Row, data: Row, n: string,
                          documento: Option<Documento>, compress: seq<bv8> -> Option<seq<bv8>>, now: int,
                          r: Result<Reply<string>, Raised>, c: Col)
    requires ContaCriada(antes, depois, serialU, serialD, colocacao, data, n, documento, compress, now, r)
    requires r.Success? && c in data
    ensures Usuarios in depois && |depois[Usuarios]| == |antes[Usuarios]| + 1
    ensures var novo := depois[Usuarios][|antes[Usuarios]|]; c in novo && novo[c] == data[c]
  {
    var o := InsertOutcome(Usuarios, antes[Usuarios], data, now, serialU);
    assert o.Success? && documento.Some? && compress(documento.value.content).Some?;
    assert depois[Usuarios] == antes[Usuarios] + [o.value];
  }

  /** An upload that `Image.open` cannot decode leaves a half-created account: the
      user record is committed and listed, no document is stored, and the page has
      nothing to retry with (see `NovaTentativaRecusada`). */
  lemma ContaSemDocumento(antes: map<TableName, seq<Row>>, depois: map<TableName, seq<Row>>,
                          serialU: nat, serialD: nat, n: string, hashed: string, email: string,
                          telefone: string, opcao: string, formacao: Option<string>, opcaoContato: string,
                          documento: Option<Documento>, compress: seq<bv8> -> Option<seq<bv8>>, now: int,
                          r: Result<Reply<string>, Raised>)
    requires CriacaoDeConta(antes, depois, serialU, serialD, n, hashed, email, telefone, opcao, formacao,
                            opcaoContato, documento, compress, now, r)
    requires r == Failure(ImageError)
    ensures documento.Some? && compress(documento.value.content).None?
    ensures Usuarios in depois && |depois[Usuarios]| == |antes[Usuarios]| + 1
    ensures ExisteCadastroPrevio(depois[Usuarios], n)
    ensures Documentos in antes && Documentos in depois && depois[Documentos] == antes[Documentos]
  {
    assert !ExisteCadastroPrevio(antes[Usuarios], n) && Listed(antes[Aprovados], n);
    var colocacao := BuscarDadosColocacao(antes[Aprovados], n).value;
    var data := ContaData(colocacao, n, hashed, email, telefone, opcao, formacao, opcaoContato);
    var o := InsertOutcome(Usuarios, antes[Usuarios], data, now, serialU);
    assert ContaCriada(antes, depois, serialU, serialD, colocacao, data, n, documento, compress, now, r);
    assert o.Success? && documento.Some? && compress(documento.value.content).None?;
    assert depois[Usuarios] == antes[Usuarios] + [o.value];
    ListedAfterInsert(antes[Usuarios], o.value, n);
  }

  /** A number that already has an account is refused by every later `criarConta`,
      whatever it uploads, and nothing is stored. */
  lemma NovaTentativaRecusada(antes: map<TableName, seq<Row>>, depois: map<TableName, seq<Row>>,
                              serialU: nat, serialD: nat, n: string, hashed: string, email: string,
                              telefone: string, opcao: string, formacao: Option<string>, opcaoContato: string,
                              documento: Option<Documento>, compress: seq<bv8> -> Option<seq<bv8>>, now: int,
                              r: Result<Reply<string>, Raised>)
    requires Usuarios in antes && ExisteCadastroPrevio(antes[Usuarios], n)
    requires CriacaoDeConta(antes, depois, serialU, serialD, n, hashed, email, telefone, opcao, formacao,
                            opcaoContato, documento, compress, now, r)
    ensures r == Success(Reply(false, JaExiste)) && depois == antes
  {
  }

  /** The whole effect of `criarConta`: a number that already has an account is
      refused and a number missing from the roster raises, both leaving the tables
      as they were; otherwise the account is created from the roster record. */
  ghost predicate CriacaoDeConta(antes: map<TableName, seq<Row>>, depois: map<TableName, seq<Row>>,
                                 serialU: nat, serialD: nat, n: string, hashed: string, email: string,
                                 telefone: string, opcao: string, formacao: Option<string>, opcaoContato: string,
                                 documento: Option<Documento>, compress: seq<bv8> -> Option<seq<bv8>>, now: int,
                                 r: Result<Reply<string>, Raised>)
  {
    && Usuarios in antes && Aprovados in antes
    && (ExisteCadastroPrevio(antes[Usuarios], n) ==>
          r == Success(Reply(false, JaExiste)) && depois == antes)
    && (!ExisteCadastroPrevio(antes[Usuarios], n) && !Listed(antes[Aprovados], n) ==>
          r == Failure(IndexError) && depois == antes)
    && (!ExisteCadastroPrevio(antes[Usuarios], n) && Listed(antes[Aprovados], n) ==>
          var colocacao := BuscarDadosColocacao(antes[Aprovados], n).value;
          ContaCriada(antes, depois, serialU, serialD, colocacao,
                      ContaData(colocacao, n, hashed, email, telefone, opcao, formacao, opcaoContato),
                      n, documento, compress, now, r))
  }

  /** Two records hold the same place in the queue: same group, quota and position. */
  predicate MesmaColocacao(a: Row, b: Row)
  {
    && Grupo in a && Grupo in b && a[Grupo] == b[Grupo]
    && Cota in a && Cota in b && a[Cota] == b[Cota]
    && Posicao in a && Posicao in b && a[Posicao] == b[Posicao]
  }

  /** Every account outside the administrators' group holds the place of some
      roster record: accounts copy group, quota and position from the roster. */
  ghost predicate Cadastrados(usuarios: seq<Row>, aprovados: seq<Row>)
  {
    forall i :: 0 <= i < |usuarios| && !TextIs(usuarios[i], Grupo, SuperuserGroup) ==>
      exists j :: 0 <= j < |aprovados| && MesmaColocacao(usuarios[i], aprovados[j])
  }

  /** Creating an account keeps every account backed by a roster record: the new
      record carries the dictionary built from roster record `k`. */
  lemma CriarMantemCadastrados(usuarios: seq<Row>, aprovados: seq<Row>, k: nat, row: Row, n: string,
                               hashed: string, email: string, telefone: string, opcao: string,
                               formacao: Option<string>, opcaoContato: string)
    requires k < |aprovados| && Conforms(Aprovados, aprovados[k])
    requires Cadastrados(usuarios, aprovados)
    requires var data := ContaData(aprovados[k], n, hashed, email, telefone, opcao, formacao, opcaoContato);
             forall c :: c in data ==> c in row && row[c] == data[c]
    ensures Cadastrados(usuarios + [row], aprovados)
  {
    var data := ContaData(aprovados[k], n, hashed, email, telefone, opcao, formacao, opcaoContato);
    assert Grupo in data && Cota in data && Posicao in data;
    assert MesmaColocacao(row, aprovados[k]);
    var s := usuarios + [row];
    forall i | 0 <= i < |s| && !TextIs(s[i], Grupo, SuperuserGroup)
      ensures exists m :: 0 <= m < |aprovados| && MesmaColocacao(s[i], aprovados[m])
    {
      if i < |usuarios| {
        assert s[i] == usuarios[i];
      }
    }
  }

  /** The account manager; `role` is set by a successful login. */
  class Conta {
    const db: Db
    var role: Option<string>

    constructor (db: Db)
      ensures this.db == db && role == None
    {
      this.db := db;
      role := None;
    }

    /** `acessarConta`: on success the role read from the record is remembered. */
    method AcessarConta(n: string, senha: string, crypto: Passwords.Crypto) returns (r: Result<Acesso, Raised>)
      requires db.Valid()
      modifies this
      ensures r == AcessarContaOutcome(db.tables[Usuarios], n, senha, crypto.verify)
      ensures r.Success? && r.value.Concedido? ==>
                role == Some(BuscarDadosConta(db.tables[Usuarios], n).value[Role].s)
      ensures !(r.Success? && r.value.Concedido?) ==> role == old(role)
    {
      r := AcessarContaOutcome(db.tables[Usuarios], n, senha, crypto.verify);
      if r.Success? && r.value.Concedido? {
        var dados := BuscarDadosConta(db.tables[Usuarios], n).value;
        role := Some(dados[Role].s);
      }
    }

    /** `_adicionar_conta`: inserts the user record built from its arguments. */
    method AdicionarConta(data: Row, now: int) returns (o: Result<Row, DbError>)
      requires db.Valid() && data.Keys == Parametros - {Role}
      modifies db
      ensures db.Valid()
      ensures o == InsertOutcome(Usuarios, old(db.tables[Usuarios]), data, now, old(db.serials[Usuarios]))
      ensures o.Success? ==> db.tables == old(db.tables)[Usuarios := old(db.tables[Usuarios]) + [o.value]]
                             && db.serials[Documentos] == old(db.serials[Documentos])
      ensures o.Failure? ==> db.tables == old(db.tables)
    {
      NoSerials(Usuarios);
      o := db.Insert(Usuarios, data, now);
    }

    /** `_armazenar_doc`: reading the upload raises AttributeError when there is
        none, and `Image.open` raises when `compress` cannot decode it; otherwise the
        re-encoded document is inserted, which always succeeds. */
    method ArmazenarDoc(n: string, documento: Option<Documento>, compress: seq<bv8> -> Option<seq<bv8>>, now: int)
      returns (r: Result<Row, Raised>)
      requires db.Valid()
      modifies db
      ensures db.Valid()
      ensures documento.None? ==> r == Failure(AttributeError) && db.tables == old(db.tables)
      ensures documento.Some? && compress(documento.value.content).None? ==>
                r == Failure(ImageError) && db.tables == old(db.tables)
      ensures documento.Some? && compress(documento.value.content).Some? ==>
                var o := InsertOutcome(Documentos, old(db.tables[Documentos]),
                                       DocData(n, documento.value, compress(documento.value.content).value),
                                       now, old(db.serials[Documentos]));
                o.Success? && r == Success(o.value)
                && db.tables == old(db.tables)[Documentos := old(db.tables[Documentos]) + [o.value]]
    {
      if documento.None? {
        return Failure(AttributeError);
      }
      var conteudo := compress(documento.value.content);
      if conteudo.None? {
        return Failure(ImageError);
      }
      DocumentoInsertSucceeds(db.tables[Documentos], db.serials[Documentos], n, documento.value, conteudo.value, now);
      SerialOnly(Documentos, IdDocumento);
      var o := db.Insert(Documentos, DocData(n, documento.value, conteudo.value), now);
      r := Success(o.value);
    }

    /** The user insert and then the document insert of `criarConta`, once the roster
        record is known. */
    method Registrar(colocacao: Row, data: Row, n: string, documento: Option<Documento>,
                     compress: seq<bv8> -> Option<seq<bv8>>, now: int)
      returns (r: Result<Reply<string>, Raised>)
      requires db.Valid() && data.Keys == Parametros - {Role}
      modifies db
      ensures db.Valid()
      ensures ContaCriada(old(db.tables), db.tables, old(db.serials[Usuarios]), old(db.serials[Documentos]),
                          colocacao, data, n, documento, compress, now, r)
    {
      var o := AdicionarConta(data, now);
      if o.Failure? {
        return Failure(Database(o.error));
      }
      var d := ArmazenarDoc(n, documento, compress, now);
      if d.Failure? {
        return Failure(d.error);
      }
      r := Success(Reply(true, "Criado conta para " + TextAt(colocacao, Nome)));
    }

    /** `criarConta`: refuses a number that already has an account, raises for a
        number missing from the roster, otherwise inserts the user (copying name,
        position, group and quota from the roster, hashing the password) and then
        the document. */
    method CriarConta(n: string, senha: string, email: string, telefone: string, opcao: string,
                      formacao: Option<string>, opcaoContato: string, documento: Option<Documento>,
                      crypto: Passwords.Crypto, salt: nat, compress: seq<bv8> -> Option<seq<bv8>>, now: int)
      returns (r: Result<Reply<string>, Raised>)
      requires db.Valid()
      modifies db
      ensures db.Valid()
      ensures CriacaoDeConta(old(db.tables), db.tables, old(db.serials[Usuarios]), old(db.serials[Documentos]),
                             n, crypto.hash(senha, salt), email, telefone, opcao, formacao, opcaoContato,
                             documento, compress, now, r)
    {
      if ExisteCadastroPrevio(db.tables[Usuarios], n) {
        return Success(Reply(false, JaExiste));
      }
      var busca := BuscarDadosColocacao(db.tables[Aprovados], n);
      if busca.Failure? {
        return Failure(IndexError);
      }
      var colocacao := busca.value;
      var hashed := crypto.hash(senha, salt);
      var data := ContaData(colocacao, n, hashed, email, telefone, opcao, formacao, opcaoContato);
      r := Registrar(colocacao, data, n, documento, compress, now);
    }
  }
}

/** The login page: the registration form with its validation chain, and the
    login form that fills the session. */
module Login {
  import opened Wrappers
  import opened Schema
  import opened Database
  import opened Usuarios
  import opened Contas
  import opened Forms
  import opened UtilsPage
  import opened Sessao
  import Home
  import Passwords

  // ----- the decision labels -----

  const RotuloNaoVou := "Não vou assumir"
  const RotuloVou := "Vou assumir"
  const RotuloIndeciso := "Estou indeciso"

  /** The form label of each decision and the value stored for it. */
  const MapaOpcao: map<string, string> :=
    map[RotuloNaoVou := Home.NaoVaiAssumir, RotuloVou := Home.VaiAssumir, RotuloIndeciso := Home.Indeciso]

  /** The label map is one-to-one onto the three stored decisions. */
  lemma MapaOpcaoBijetivo()
    ensures forall a, b :: a in MapaOpcao && b in MapaOpcao && MapaOpcao[a] == MapaOpcao[b] ==> a == b
    ensures MapaOpcao.Values == {Home.NaoVaiAssumir, Home.VaiAssumir, Home.Indeciso}
  {
    assert MapaOpcao[RotuloNaoVou] == Home.NaoVaiAssumir;
    assert MapaOpcao[RotuloVou] == Home.VaiAssumir;
    assert MapaOpcao[RotuloIndeciso] == Home.Indeciso;
  }

  /** The decision of the registration form: an empty choice counts as "Não vou
      assumir"; a label outside the map raises KeyError. */
  function MapearOpcao(selecionada: string): (r: Result<string, Raised>)
    ensures r.Success? <==> selecionada == "" || selecionada in MapaOpcao
    ensures r.Failure? ==> r.error == KeyError
    ensures r.Success? ==> r.value in {Home.NaoVaiAssumir, Home.VaiAssumir, Home.Indeciso}
    ensures selecionada == "" ==> r == Success(Home.NaoVaiAssumir)
  {
    var rotulo := if selecionada == "" then RotuloNaoVou else selecionada;
    if rotulo in MapaOpcao then Success(MapaOpcao[rotulo]) else Failure(KeyError)
  }

  // ----- validation -----

  const MsgInscricao := "Número de inscrição não encontrado no banco."
  const MsgSenha := "Por favor, insira uma senha."
  const MsgEmailVazio := "Por favor, insira um e-mail de contato."
  const MsgEmailInvalido := "O e-mail fornecido não é válido."
  const MsgTelefoneVazio := "Por favor, insira um telefone."
  const MsgTelefoneInvalido := "O número de telefone fornecido não é válido."
  const MsgDocumento := "Por favor, envie uma imagem do documento."

  /** The e-mail and phone tests both forms run, in their order. */
  function ChecagensContato(email: string, telefone: string): seq<Check>
  {
    [Check(email != "", MsgEmailVazio), Check(ValidarEmail(email), MsgEmailInvalido),
     Check(telefone != "", MsgTelefoneVazio), Check(ValidarTelefone(LimparTelefone(telefone)), MsgTelefoneInvalido)]
  }

  /** The contact part of a form: the first of empty e-mail, malformed e-mail, empty
      phone and short cleaned phone is reported. */
  function ValidarContato(email: string, telefone: string): (r: Option<string>)
    ensures email == "" ==> r == Some(MsgEmailVazio)
    ensures email != "" && !ValidarEmail(email) ==> r == Some(MsgEmailInvalido)
    ensures email != "" && ValidarEmail(email) && telefone == "" ==> r == Some(MsgTelefoneVazio)
    ensures email != "" && ValidarEmail(email) && telefone != "" && !ValidarTelefone(LimparTelefone(telefone))
            ==> r == Some(MsgTelefoneInvalido)
    ensures r.None? <==> email != "" && ValidarEmail(email) && telefone != "" && ValidarTelefone(LimparTelefone(telefone))
  {
    var checks := ChecagensContato(email, telefone);
    assert checks[1..][1..][1..][1..] == [];
    assert FirstFailure(checks[3..]) == if !checks[3].passes then Some(MsgTelefoneInvalido) else None;
    assert checks[3..] == checks[2..][1..] && checks[2..] == checks[1..][1..];
    assert FirstFailure(checks[2..]) == if !checks[2].passes then Some(MsgTelefoneVazio) else FirstFailure(checks[3..]);
    assert FirstFailure(checks[1..]) == if !checks[1].passes then Some(MsgEmailInvalido) else FirstFailure(checks[2..]);
    FirstFailure(checks)
  }

  /** The registration chain: roster number, password, contact, then the upload. */
  function ValidarCadastro(aprovados: seq<Row>, n: string, senha: string, email: string, telefone: string,
                           temDocumento: bool): (r: Option<string>)
    ensures !Listed(aprovados, n) ==> r == Some(MsgInscricao)
    ensures Listed(aprovados, n) && senha == "" ==> r == Some(MsgSenha)
    ensures Listed(aprovados, n) && senha != "" && ValidarContato(email, telefone).Some? ==> r == ValidarContato(email, telefone)
    ensures Listed(aprovados, n) && senha != "" && ValidarContato(email, telefone).None? && !temDocumento
            ==> r == Some(MsgDocumento)
    ensures r.None? <==> Listed(aprovados, n) && senha != "" && ValidarContato(email, telefone).None? && temDocumento
  {
    var antes := [Check(Listed(aprovados, n), MsgInscricao), Check(senha != "", MsgSenha)];
    var contato := ChecagensContato(email, telefone);
    var depois := [Check(temDocumento, MsgDocumento)];
    FirstFailureAppend(antes + contato, depois);
    FirstFailureAppend(antes, contato);
    assert antes[1..][1..] == [] && depois[1..] == [];
    FirstFailure(antes + contato + depois)
  }

  // ----- criar_conta -----

  const CadastroCriado := "Cadastro criado com sucesso!"
  const ErroSalvar := "Erro ao salvar os dados no banco."
  const ErroCriar := "Erro ao criar a conta. Por favor, contate o administrador do sistema no número (21) 99992-6802!"

  /** What the page shows for the outcome of `criarConta`: any exception becomes the
      contact-the-administrator message. */
  function AvisoDaCriacao(r: Result<Reply<string>, Raised>): (a: Aviso)
    ensures a.Sucesso? <==> r.Success? && r.value.sucesso
    ensures a == Erro(ErroCriar) <==> r.Failure?
  {
    match r
    case Failure(_) => Erro(ErroCriar)
    case Success(reply) => if reply.sucesso then Sucesso(CadastroCriado) else Erro(ErroSalvar)
  }

  /** The registration form as submitted; `opcao` is the chosen label. */
  datatype FormCadastro = FormCadastro(n: string, senha: string, email: string, telefone: string,
                                       formacao: string, opcao: string, opcaoContato: string,
                                       documento: Option<Documento>)

  /** `criar_conta` on submit: the label is mapped (outside the `try`), the chain
      runs, and only a form that passes it reaches `criarConta`, with the cleaned
      phone; the outcome is turned into a message. */
  method CriarConta(conta: Conta, f: FormCadastro, crypto: Passwords.Crypto, salt: nat,
                    compress: seq<bv8> -> Option<seq<bv8>>, now: int) returns (r: Result<Aviso, Raised>)
    requires conta.db.Valid()
    modifies conta.db
    ensures conta.db.Valid()
    ensures MapearOpcao(f.opcao).Failure? ==> r == Failure(KeyError) && conta.db.tables == old(conta.db.tables)
    ensures MapearOpcao(f.opcao).Success? &&
            ValidarCadastro(old(conta.db.tables[Aprovados]), f.n, f.senha, f.email, f.telefone, f.documento.Some?).Some? ==>
              r == Success(Erro(ValidarCadastro(old(conta.db.tables[Aprovados]), f.n, f.senha, f.email, f.telefone,
                                                f.documento.Some?).value))
              && conta.db.tables == old(conta.db.tables)
    ensures MapearOpcao(f.opcao).Success? &&
            ValidarCadastro(old(conta.db.tables[Aprovados]), f.n, f.senha, f.email, f.telefone, f.documento.Some?).None? ==>
              exists res :: r == Success(AvisoDaCriacao(res)) &&
                CriacaoDeConta(old(conta.db.tables), conta.db.tables, old(conta.db.serials[Usuarios]),
                               old(conta.db.serials[Documentos]), f.n, crypto.hash(f.senha, salt), f.email,
                               LimparTelefone(f.telefone), MapearOpcao(f.opcao).value, Some(f.formacao),
                               if f.opcaoContato == "" then DefaultContact else f.opcaoContato,
                               f.documento, compress, now, res)
  {
    var opcao := MapearOpcao(f.opcao);
    if opcao.Failure? {
      return Failure(KeyError);
    }
    var contato := if f.opcaoContato == "" then DefaultContact else f.opcaoContato;
    var erro := ValidarCadastro(conta.db.tables[Aprovados], f.n, f.senha, f.email, f.telefone, f.documento.Some?);
    if erro.Some? {
      return Success(Erro(erro.value));
    }
    var res := conta.CriarConta(f.n, f.senha, f.email, LimparTelefone(f.telefone), opcao.value, Some(f.formacao),
                                contato, f.documento, crypto, salt, compress, now);
    r := Success(AvisoDaCriacao(res));
  }

  /** The phone stored by a registration that passed the chain is all digits and
      at least 8 long. */
  lemma TelefoneArmazenadoLimpo(antes: map<TableName, seq<Row>>, depois: map<TableName, seq<Row>>,
                                serialU: nat, serialD: nat, n: string, hashed: string, email: string,
                                telefone: string, opcao: string, formacao: Option<string>, opcaoContato: string,
                                documento: Option<Documento>, compress: seq<bv8> -> Option<seq<bv8>>, now: int,
                                res: Result<Reply<string>, Raised>)
    requires ValidarContato(email, telefone).None?
    requires CriacaoDeConta(antes, depois, serialU, serialD, n, hashed, email, LimparTelefone(telefone), opcao,
                            formacao, opcaoContato, documento, compress, now, res)
    requires res.Success? && res.value.sucesso
    ensures |depois[Usuarios]| == |antes[Usuarios]| + 1
    ensures var novo := depois[Usuarios][|antes[Usuarios]|];
            Telefone in novo && novo[Telefone].Text? && |novo[Telefone].s| >= 8
            && forall i :: 0 <= i < |novo[Telefone].s| ==> Text.IsDigit(novo[Telefone].s[i])
  {
    var limpo := LimparTelefone(telefone);
    var colocacao := BuscarDadosColocacao(antes[Aprovados], n).value;
    var data := ContaData(colocacao, n, hashed, email, limpo, opcao, formacao, opcaoContato);
    assert !ExisteCadastroPrevio(antes[Usuarios], n) && Listed(antes[Aprovados], n);
    assert ContaCriada(antes, depois, serialU, serialD, colocacao, data, n, documento, compress, now, res);
    ContaCriadaGuarda(antes, depois, serialU, serialD, colocacao, data, n, documento, compress, now, res, Telefone);
  }

  /** An upload Pillow cannot decode shows the contact-the-administrator error,
      although the account was created: the number now has an account and no
      document was stored. */
  lemma ImagemInvalidaMostraErro(antes: map<TableName, seq<Row>>, depois: map<TableName, seq<Row>>,
                                 serialU: nat, serialD: nat, n: string, hashed: string, email: string,
                                 telefone: string, opcao: string, formacao: Option<string>, opcaoContato: string,
                                 documento: Option<Documento>, compress: seq<bv8> -> Option<seq<bv8>>, now: int,
                                 res: Result<Reply<string>, Raised>)
    requires CriacaoDeConta(antes, depois, serialU, serialD, n, hashed, email, telefone, opcao,
                            formacao, opcaoContato, documento, compress, now, res)
    requires res == Failure(ImageError)
    ensures AvisoDaCriacao(res) == Erro(ErroCriar)
    ensures Usuarios in depois && ExisteCadastroPrevio(depois[Usuarios], n)
    ensures Documentos in antes && Documentos in depois && depois[Documentos] == antes[Documentos]
  {
    ContaSemDocumento(antes, depois, serialU, serialD, n, hashed, email, telefone, opcao,
                      formacao, opcaoContato, documento, compress, now, res);
  }

  // ----- login -----

  const AcessoRealizado := "Acesso realizado com sucesso!"

  /** `login` on submit: a granted access stores the account and sets `logado`;
      a refusal shows its reason and leaves the session as it was; an exception of
      `acessarConta` escapes the page. */
  method Entrar(s: Estado, conta: Conta, n: string, senha: string, crypto: Passwords.Crypto)
    returns (r: Result<Aviso, Raised>)
    requires conta.db.Valid()
    modifies s, conta
    ensures var o := AcessarContaOutcome(conta.db.tables[Usuarios], n, senha, crypto.verify);
            && (o.Success? && o.value.Concedido? ==>
                  s.conta == Some(o.value.conta) && s.logado == Some(true) && r == Success(Sucesso(AcessoRealizado)))
            && (o.Success? && o.value.Negado? ==>
                  r == Success(Erro(o.value.motivo)) && s.conta == old(s.conta) && s.logado == old(s.logado))
            && (o.Failure? ==> r == Failure(o.error) && s.conta == old(s.conta) && s.logado == old(s.logado))
  {
    var o := conta.AcessarConta(n, senha, crypto);
    match o
    case Failure(e) =>
      r := Failure(e);
    case Success(Negado(motivo)) =>
      r := Success(Erro(motivo));
    case Success(Concedido(u)) =>
      s.conta := Some(u);
      s.logado := Some(true);
      r := Success(Sucesso(AcessoRealizado));
  }
}

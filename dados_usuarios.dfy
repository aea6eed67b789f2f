/** The profile page: the preselected choices, the validation chain and the
    change dictionary handed to `mudarDados`. */
module DadosUsuarios {
  import opened Wrappers
  import opened Schema
  import opened Database
  import opened Usuarios
  import opened Forms
  import opened UtilsPage
  import opened Login
  import Home

  /** The stored decisions in the order of the form's labels. */
  const Decisoes: seq<string> := [Home.NaoVaiAssumir, Home.VaiAssumir, Home.Indeciso]
  const Rotulos: seq<string> := [RotuloNaoVou, RotuloVou, RotuloIndeciso]
  const OpcoesContato: seq<string> :=
    ["Sim, por e-mail", "Sim, por WhatsApp", "Sim, por e-mail e WhatsApp", DefaultContact]

  /** `lista.index(x)`: the first position holding `x`. */
  function Posicao(lista: seq<string>, x: string): (r: nat)
    requires x in lista
    ensures r < |lista| && lista[r] == x
    ensures forall k :: 0 <= k < r ==> lista[k] != x
  {
    if lista[0] == x then 0 else 1 + Posicao(lista[1..], x)
  }

  /** `lista.index(x)`, or `padrao` when it raises (the `except` branch). */
  function IndiceOu(lista: seq<string>, x: string, padrao: nat): (r: nat)
    requires padrao < |lista|
    ensures r < |lista|
    ensures x in lista ==> lista[r] == x
    ensures x !in lista ==> r == padrao
  {
    if x in lista then Posicao(lista, x) else padrao
  }

  /** The preselected decision: the position of the current one, or the first. */
  function IndiceOpcao(u: Usuario): (r: nat)
    ensures r < 3
    ensures u.opcao in Decisoes ==> Decisoes[r] == u.opcao
    ensures u.opcao !in Decisoes ==> r == 0
  {
    IndiceOu(Decisoes, u.opcao, 0)
  }

  /** The preselected contact option: the position of the current one, or the last,
      "Não desejo receber". */
  function IndiceContato(u: Usuario): (r: nat)
    ensures r < 4
    ensures u.opcaoContato in OpcoesContato ==> OpcoesContato[r] == u.opcaoContato
    ensures u.opcaoContato !in OpcoesContato ==> OpcoesContato[r] == DefaultContact
  {
    IndiceOu(OpcoesContato, u.opcaoContato, 3)
  }

  /** Submitting the form untouched keeps the decision: the preselected label maps
      back to the current decision, and to "Não vai assumir" for any other value. */
  lemma PreselecaoIdaEVolta(u: Usuario)
    ensures Rotulos[IndiceOpcao(u)] in MapaOpcao
    ensures u.opcao in Decisoes ==> MapaOpcao[Rotulos[IndiceOpcao(u)]] == u.opcao
    ensures u.opcao !in Decisoes ==> MapaOpcao[Rotulos[IndiceOpcao(u)]] == Home.NaoVaiAssumir
  {
    var i := IndiceOpcao(u);
    assert MapaOpcao[Rotulos[i]] == Decisoes[i] by {
      if i == 0 {
        assert Rotulos[0] == RotuloNaoVou;
      } else if i == 1 {
        assert Rotulos[1] == RotuloVou;
      } else {
        assert Rotulos[2] == RotuloIndeciso;
      }
    }
  }

  /** The dictionary `mudancas` as written: e-mail, cleaned phone and decision; the
      contact option chosen on the same form is not part of it. */
  function MudancasAsWritten(email: string, telefone: string, opcao: string, contato: string): (r: Row)
    ensures r.Keys < Editaveis && OpcaoContato !in r
    ensures Telefone in r && r[Telefone] == Text(LimparTelefone(telefone))
  {
    map[Email := Text(email), Telefone := Text(LimparTelefone(telefone)), Opcao := Text(opcao)]
  }

  /** As written, the contact option the user selects never reaches the record:
      after the update the record keeps the option it had, whatever was selected. */
  lemma MudancasAsWrittenIgnoraContato(row: Row, email: string, telefone: string, opcao: string,
                                       contato: string, now: int)
    requires OpcaoContato in row
    ensures Applied(Usuarios, row, Atualizacoes(MudancasAsWritten(email, telefone, opcao, contato)), now)[OpcaoContato]
            == row[OpcaoContato]
  {
    var m := Atualizacoes(MudancasAsWritten(email, telefone, opcao, contato));
    assert OpcaoContato !in m;
    UpdateChangesOnlyNamed(Usuarios, row, m, now);
  }

  /** The change dictionary with the contact option the form collects. */
  function Mudancas(email: string, telefone: string, opcao: string, contato: string): (r: Row)
    ensures r.Keys == Editaveis
    ensures r[OpcaoContato] == Text(contato)
    ensures r[Telefone] == Text(LimparTelefone(telefone))
  {
    MudancasAsWritten(email, telefone, opcao, contato)[OpcaoContato := Text(contato)]
  }

  /** Every submitted field passes the whitelist, so the request is never empty and
      `mudarDados` always writes; each field arrives as submitted. */
  lemma MudancasPassamWhitelist(email: string, telefone: string, opcao: string, contato: string)
    ensures Atualizacoes(Mudancas(email, telefone, opcao, contato)) == Mudancas(email, telefone, opcao, contato)
    ensures Atualizacoes(Mudancas(email, telefone, opcao, contato)) != map[]
    ensures Atualizacoes(Mudancas(email, telefone, opcao, contato))[OpcaoContato] == Text(contato)
  {
    var m := Mudancas(email, telefone, opcao, contato);
    assert Atualizacoes(m).Keys == m.Keys;
    assert OpcaoContato in Atualizacoes(m);
  }

  /** With the corrected dictionary the record ends up holding the selected
      contact option. */
  lemma MudancasGravamContato(row: Row, email: string, telefone: string, opcao: string,
                              contato: string, now: int)
    requires OpcaoContato in row
    ensures Applied(Usuarios, row, Atualizacoes(Mudancas(email, telefone, opcao, contato)), now)[OpcaoContato]
            == Text(contato)
  {
    MudancasPassamWhitelist(email, telefone, opcao, contato);
    UpdateChangesOnlyNamed(Usuarios, row, Atualizacoes(Mudancas(email, telefone, opcao, contato)), now);
  }

  const DadosAtualizados := "Dados atualizados com sucesso!"

  /** The profile form as submitted; `opcao` is the chosen label. */
  datatype FormDados = FormDados(email: string, telefone: string, opcao: string, opcaoContato: string)

  /** `gerenciar_dados_usuario` on submit, with the corrected change dictionary
      `Mudancas` (the contact option included; as written it is left out, see
      `MudancasAsWrittenIgnoraContato`): the label is mapped, the contact chain runs,
      and a form that passes it updates the user's own record through `mudarDados`. */
  method GerenciarDadosUsuario(u: Usuario, db: Db, f: FormDados, now: int) returns (r: Result<Aviso, Raised>)
    requires db.Valid()
    modifies db
    ensures db.Valid() && db.serials == old(db.serials)
    ensures f.opcao !in MapaOpcao ==> r == Failure(KeyError) && db.tables == old(db.tables)
    ensures f.opcao in MapaOpcao && ValidarContato(f.email, f.telefone).Some? ==>
              r == Success(Erro(ValidarContato(f.email, f.telefone).value)) && db.tables == old(db.tables)
    ensures f.opcao in MapaOpcao && ValidarContato(f.email, f.telefone).None? ==>
              var m := Mudancas(f.email, f.telefone, MapaOpcao[f.opcao], f.opcaoContato);
              var o := UpdateOutcome(Usuarios, old(db.tables[Usuarios]), ByInscr(u.nInscr), m, now);
              && (o.Success? ==> r == Success(Sucesso(DadosAtualizados)))
              && (o.Failure? ==> r == Failure(Database(o.error)))
              && (o.Success? && o.value.Some? ==>
                    db.tables == old(db.tables)[Usuarios := old(db.tables[Usuarios])[MatchAt(old(db.tables[Usuarios]), ByInscr(u.nInscr)) := o.value.value]])
              && (!(o.Success? && o.value.Some?) ==> db.tables == old(db.tables))
  {
    if f.opcao !in MapaOpcao {
      return Failure(KeyError);
    }
    var erro := ValidarContato(f.email, f.telefone);
    if erro.Some? {
      return Success(Erro(erro.value));
    }
    var m := Mudancas(f.email, f.telefone, MapaOpcao[f.opcao], f.opcaoContato);
    MudancasPassamWhitelist(f.email, f.telefone, MapaOpcao[f.opcao], f.opcaoContato);
    var resultado := MudarDados(u, db, m, now);
    match resultado
    case Failure(e) =>
      r := Failure(e);
    case Success(reply) =>
      r := if reply.sucesso then Success(Sucesso(DadosAtualizados)) else Success(Erro(reply.resultado));
  }
}

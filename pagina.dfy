/** The navigation of the application: the login page for a session that is not
    logged in, otherwise a menu that depends on the account's role, the sections
    the menu leads to, and logging out. */
module Pagina {
  import opened Wrappers
  import opened Usuarios
  import opened Sessao

  const VerEstatisticas := "Ver Estatísticas (Usuário)"
  const GestaoGrupo := "Gestão de Grupo (Coordenador)"
  const ControleGrupo := "Controle de Grupo"
  const MensagemGrupo := "Mensagem ao Grupo"
  const Administracao := "Administração (Superuser)"
  const GerenciarDados := "Gerenciar Dados de Usuário"
  const Sair := "Sair"

  const SemPermissaoSecao := "Você não tem permissão para esta seção."
  const SemPermissaoMensagens := "Você não tem permissão para criar mensagens."
  const SemPermissaoRecurso := "Você não tem permissão para este recurso."

  /** The sidebar options of a role; any role other than the two privileged ones
      gets the ordinary menu. */
  function Menu(role: string): (r: seq<string>)
    ensures VerEstatisticas in r && GerenciarDados in r && Sair in r
    ensures Administracao in r <==> role == "superuser"
    ensures (GestaoGrupo in r || ControleGrupo in r || MensagemGrupo in r) <==> role in {"coordenador", "superuser"}
  {
    if role == "superuser" then
      [VerEstatisticas, GestaoGrupo, ControleGrupo, MensagemGrupo, Administracao, GerenciarDados, Sair]
    else if role == "coordenador" then
      [VerEstatisticas, GestaoGrupo, ControleGrupo, MensagemGrupo, GerenciarDados, Sair]
    else
      [VerEstatisticas, GerenciarDados, Sair]
  }

  /** Each menu contains the one of the role below it. */
  lemma MenuHierarquia(role: string)
    ensures forall x :: x in Menu("usuario") ==> x in Menu("coordenador")
    ensures forall x :: x in Menu("coordenador") ==> x in Menu("superuser")
    ensures role != "superuser" && role != "coordenador" ==> Menu(role) == Menu("usuario")
  {
  }

  /** The roles that may manage a group. */
  predicate Coordena(role: string)
  {
    role == "coordenador" || role == "superuser"
  }

  /** What the main page shows. */
  datatype Tela =
    | TelaLogin
    | ContaAusente
    | Estatisticas
    | GestaoDeGrupo
    | CriacaoDeMensagem
    | Administrar
    | DadosDoUsuario
    | ControleDeGrupo
    | Negado(aviso: string)
    | Saida
    | Nada

  /** The section a choice leads to: the `if/elif` chain, then the second
      `if/elif` for group control and logout; the group sections need a
      coordinating role and administration needs the superuser. */
  function Secao(role: string, escolha: string): (t: Tela)
    ensures t == GestaoDeGrupo || t == CriacaoDeMensagem || t == ControleDeGrupo ==> Coordena(role)
    ensures t == Administrar ==> role == "superuser"
    ensures t.Negado? <==> (escolha in {GestaoGrupo, MensagemGrupo, ControleGrupo} && !Coordena(role))
                           || (escolha == Administracao && role != "superuser")
    ensures t == Nada <==> escolha !in Menu("superuser")
  {
    if escolha == VerEstatisticas then Estatisticas
    else if escolha == GestaoGrupo then (if Coordena(role) then GestaoDeGrupo else Negado(SemPermissaoSecao))
    else if escolha == MensagemGrupo then (if Coordena(role) then CriacaoDeMensagem else Negado(SemPermissaoMensagens))
    else if escolha == Administracao then (if role == "superuser" then Administrar else Negado(SemPermissaoSecao))
    else if escolha == GerenciarDados then DadosDoUsuario
    else if escolha == ControleGrupo then (if Coordena(role) then ControleDeGrupo else Negado(SemPermissaoRecurso))
    else if escolha == Sair then Saida
    else Nada
  }

  /** A choice taken from the role's own menu never meets a permission error. */
  lemma MenuSemNegacao(role: string, escolha: string)
    requires escolha in Menu(role)
    ensures !Secao(role, escolha).Negado? && Secao(role, escolha) != Nada
  {
  }

  /** `Pagina.exibir` for one run: the login page unless `logado` is set and true;
      a logged-in session without an account is sent back to login; otherwise the
      chosen section, where "Sair" logs out. */
  method Exibir(s: Estado, escolha: string) returns (t: Tela)
    modifies s
    ensures old(s.logado) != Some(true) ==> t == TelaLogin && s.logado == old(s.logado) && s.conta == old(s.conta)
    ensures old(s.logado) == Some(true) && old(s.conta).None? ==>
              t == ContaAusente && s.logado == Some(false) && s.conta == None
    ensures old(s.logado) == Some(true) && old(s.conta).Some? ==>
              && t == Secao(old(s.conta).value.role, escolha)
              && (t == Saida ==> s.logado == Some(false) && s.conta == None)
              && (t != Saida ==> s.logado == old(s.logado) && s.conta == old(s.conta))
  {
    if s.logado != Some(true) {
      return TelaLogin;
    }
    if s.conta.None? {
      s.logado := Some(false);
      return ContaAusente;
    }
    t := Secao(s.conta.value.role, escolha);
    if t == Saida {
      s.logado := Some(false);
      s.conta := None;
    }
  }
}

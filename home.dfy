/** The logged-in user's home page: the counts of who is ahead in the queue, the
    rule that reveals the group link, and the messages addressed to the user. Every
    function reads table snapshots and changes nothing. */
module Home {
  import opened Wrappers
  import opened Schema
  import opened Seqs
  import opened Text
  import opened Database
  import opened Usuarios
  import G = Grupos
  import opened Mensageria
  import opened Contas

  // The three decisions a user can register.
  const VaiAssumir := "Vai assumir"
  const Indeciso := "Indeciso"
  const NaoVaiAssumir := "Não vai assumir"

  /** The roster filtered to the candidates ahead of `u`; the mask over the frame of
      an empty table raises KeyError, since that frame has no columns. */
  function AprovadosNaFrente(aprovados: seq<Row>, u: Usuario): (r: Result<seq<Row>, Raised>)
    ensures r.Failure? <==> aprovados == []
    ensures r.Failure? ==> r.error == KeyError
    ensures r.Success? ==> forall i :: 0 <= i < |r.value| ==> r.value[i] in aprovados && Ahead(r.value[i], u.grupo, u.posicao, u.cota)
    ensures r.Success? ==> forall i :: 0 <= i < |aprovados| && Ahead(aprovados[i], u.grupo, u.posicao, u.cota) ==> aprovados[i] in r.value
  {
    if aprovados == [] then Failure(KeyError) else Success(Filter(aprovados, AheadOf(u.grupo, u.posicao, u.cota)))
  }

  /** The three metrics of the users ahead. */
  datatype Contagens = Contagens(assumir: nat, indecisos: nat, naoAssumir: nat)

  /** Counts per decision by exact comparison: the three parts are disjoint, so they
      add up to at most the users ahead, and to all of them when every decision is
      one of the three strings. */
  function Contar(frente: seq<Row>): (c: Contagens)
    ensures c.assumir + c.indecisos + c.naoAssumir <= |frente|
    ensures (forall i :: 0 <= i < |frente| ==>
               TextIs(frente[i], Opcao, VaiAssumir) || TextIs(frente[i], Opcao, Indeciso) || TextIs(frente[i], Opcao, NaoVaiAssumir))
            ==> c.assumir + c.indecisos + c.naoAssumir == |frente|
  {
    FilterThreeWay(frente, OpcaoIs(VaiAssumir), OpcaoIs(Indeciso), OpcaoIs(NaoVaiAssumir));
    Contagens(|Filter(frente, OpcaoIs(VaiAssumir))|, |Filter(frente, OpcaoIs(Indeciso))|,
              |Filter(frente, OpcaoIs(NaoVaiAssumir))|)
  }

  /** The counts agree with the per-decision tally of `verOpcoes`; when that raises,
      nobody is ahead and every count is zero. */
  lemma ContarAgreesWithVerOpcoes(u: Usuario, usuarios: seq<Row>)
    ensures var c := Contar(UsuariosNaFrente(usuarios, u.grupo, u.posicao, u.cota));
            var r := VerOpcoes(u, usuarios);
            && (r.Success? ==>
                  c.assumir == r.value.resultado[VaiAssumir] && c.indecisos == r.value.resultado[Indeciso]
                  && c.naoAssumir == r.value.resultado[NaoVaiAssumir])
            && (r.Failure? ==> c == Contagens(0, 0, 0))
  {
    var frente := UsuariosNaFrente(usuarios, u.grupo, u.posicao, u.cota);
    OpcoesCount(frente, VaiAssumir);
    OpcoesCount(frente, Indeciso);
    OpcoesCount(frente, NaoVaiAssumir);
  }

  /** What `apresentar_dados_decisoes` shows. */
  datatype Painel = Contagem(c: Contagens) | NinguemNaFrente | NinguemCadastrado

  /** `apresentar_dados_decisoes`: the counts when some registered user is ahead;
      otherwise "nobody ahead" when no approved candidate is ahead, and "nobody
      ahead has registered" when some is. */
  function ApresentarDadosDecisoes(u: Usuario, usuarios: seq<Row>, aprovados: seq<Row>): (r: Result<Painel, Raised>)
    ensures r.Failure? <==> aprovados == []
    ensures r.Success? ==>
              var uf := UsuariosNaFrente(usuarios, u.grupo, u.posicao, u.cota);
              var af := AprovadosNaFrente(aprovados, u).value;
              && (r.value.Contagem? <==> |uf| > 0)
              && (r.value.Contagem? ==> r.value.c == Contar(uf))
              && (r.value == NinguemNaFrente <==> |uf| == 0 && |af| == 0)
              && (r.value == NinguemCadastrado <==> |uf| == 0 && |af| > 0)
  {
    match AprovadosNaFrente(aprovados, u)
    case Failure(e) => Failure(e)
    case Success(af) =>
      var uf := UsuariosNaFrente(usuarios, u.grupo, u.posicao, u.cota);
      if |uf| > 0 then Success(Contagem(Contar(uf)))
      else if |af| == 0 then Success(NinguemNaFrente)
      else Success(NinguemCadastrado)
  }

  /** Since every account holds the place of a roster record, a user ahead means an
      approved candidate ahead: with nobody ahead in the roster the page says so. */
  lemma SemAprovadosNaFrenteSemUsuarios(u: Usuario, usuarios: seq<Row>, aprovados: seq<Row>)
    requires Cadastrados(usuarios, aprovados) && u.grupo != SuperuserGroup && aprovados != []
    requires AprovadosNaFrente(aprovados, u).value == []
    ensures ApresentarDadosDecisoes(u, usuarios, aprovados) == Success(NinguemNaFrente)
  {
    var uf := UsuariosNaFrente(usuarios, u.grupo, u.posicao, u.cota);
    if uf != [] {
      var x := uf[0];
      var i :| 0 <= i < |usuarios| && usuarios[i] == x;
      assert !TextIs(usuarios[i], Grupo, SuperuserGroup);
      var j :| 0 <= j < |aprovados| && MesmaColocacao(usuarios[i], aprovados[j]);
      assert Ahead(aprovados[j], u.grupo, u.posicao, u.cota);
    }
  }

  // ----- mostrar_link -----

  /** The ids `isin` drops on a non-empty list of users ahead. */
  const Sentinela: set<Value> := {Text("aaaaa"), Text("bbbbb")}

  /** `nao_vao_assumir`: the registration numbers of the users ahead who declined,
      or the placeholder ids when nobody registered is ahead. */
  function Recusantes(frente: seq<Row>): set<Value>
  {
    if frente == [] then Sentinela
    else set i | 0 <= i < |frente| && TextIs(frente[i], Opcao, NaoVaiAssumir) && NInscr in frente[i] :: frente[i][NInscr]
  }

  /** `~isin(nao_vao_assumir)` on one roster row. */
  function ConsomeVaga(recusantes: set<Value>): Row -> bool
  {
    (a: Row) => !(NInscr in a && a[NInscr] in recusantes)
  }

  /** The approved candidates ahead who still take a seat. */
  function Assentos(u: Usuario, usuarios: seq<Row>, aprovados: seq<Row>): (r: seq<Row>)
    ensures |r| <= |aprovados|
    ensures forall i :: 0 <= i < |r| ==>
              r[i] in aprovados && Ahead(r[i], u.grupo, u.posicao, u.cota)
              && ConsomeVaga(Recusantes(UsuariosNaFrente(usuarios, u.grupo, u.posicao, u.cota)))(r[i])
  {
    var recusantes := Recusantes(UsuariosNaFrente(usuarios, u.grupo, u.posicao, u.cota));
    Filter(Filter(aprovados, AheadOf(u.grupo, u.posicao, u.cota)), ConsomeVaga(recusantes))
  }

  /** The allocation of the user's pair: exact group, quota compared in lower case. */
  function AlocacaoDe(u: Usuario): Row -> bool
  {
    (g: Row) => Cota in g && g[Cota].Text? && Lower(g[Cota].s) == Lower(u.cota) && TextIs(g, Grupo, u.grupo)
  }

  predicate AlocacaoUnica(grupos: seq<Row>, u: Usuario)
  {
    |Filter(grupos, AlocacaoDe(u))| == 1
  }

  /** `tamanho_CR`: the seat count of the user's allocation. */
  function Vagas(grupos: seq<Row>, u: Usuario): int
    requires AlocacaoUnica(grupos, u)
  {
    NumberAt(Filter(grupos, AlocacaoDe(u))[0], QtdeVagas)
  }

  /** What `mostrar_link` shows. */
  datatype VisaoLink = LinkDoGrupo(url: string) | LinkIndisponivel | AguardeSuaVez

  /** `mostrar_link`: when fewer candidates ahead take a seat than the allocation
      has, the group's link (if `linkValido` accepts it), otherwise the request to
      wait. `linkValido` stands for the URL validator. */
  function MostrarLink(u: Usuario, usuarios: seq<Row>, aprovados: seq<Row>, grupos: seq<Row>,
                       linkValido: string -> bool): (r: Result<VisaoLink, Raised>)
    requires AlocacaoUnica(grupos, u)
    ensures exists k :: 0 <= k < |grupos| && G.GrupoIs(u.grupo)(grupos[k])
    ensures r.Failure? <==> aprovados == []
    ensures r.Success? ==> (r.value != AguardeSuaVez <==> |Assentos(u, usuarios, aprovados)| < Vagas(grupos, u))
    ensures r.Success? && r.value != AguardeSuaVez ==>
              var link := TextAt(grupos[FirstIndex(grupos, G.GrupoIs(u.grupo))], Link);
              r.value == if linkValido(link) then LinkDoGrupo(link) else LinkIndisponivel
  {
    var alocacao := Filter(grupos, AlocacaoDe(u))[0];
    assert alocacao in grupos && G.GrupoIs(u.grupo)(alocacao);
    if aprovados == [] then Failure(KeyError)
    else if |Assentos(u, usuarios, aprovados)| < Vagas(grupos, u) then
      var link := G.MostrarLink(grupos, u.grupo).value.resultado;
      if linkValido(link) then Success(LinkDoGrupo(link)) else Success(LinkIndisponivel)
    else Success(AguardeSuaVez)
  }

  /** An approved candidate ahead who never registered always takes a seat (unless
      their number is one of the placeholder ids). */
  lemma NaoCadastradoConsomeVaga(u: Usuario, usuarios: seq<Row>, aprovados: seq<Row>, a: Row)
    requires a in aprovados && Ahead(a, u.grupo, u.posicao, u.cota)
    requires NInscr in a && a[NInscr] !in Sentinela
    requires forall i :: 0 <= i < |usuarios| ==> !(NInscr in usuarios[i] && usuarios[i][NInscr] == a[NInscr])
    ensures a in Assentos(u, usuarios, aprovados)
  {
    var uf := UsuariosNaFrente(usuarios, u.grupo, u.posicao, u.cota);
    var af := Filter(aprovados, AheadOf(u.grupo, u.posicao, u.cota));
    assert a[NInscr] !in Recusantes(uf) by {
      if uf != [] {
        forall i | 0 <= i < |uf| ensures !(NInscr in uf[i] && uf[i][NInscr] == a[NInscr]) {
          assert uf[i] in usuarios;
        }
      }
    }
    assert a in af;
    var k :| 0 <= k < |af| && af[k] == a;
    assert ConsomeVaga(Recusantes(uf))(af[k]);
  }

  /** An approved candidate ahead is dropped from the seat count only when a user
      ahead with that number declined, or when nobody registered is ahead and the
      number is a placeholder id. */
  lemma SoRecusantesSaem(u: Usuario, usuarios: seq<Row>, aprovados: seq<Row>, a: Row)
    requires a in aprovados && Ahead(a, u.grupo, u.posicao, u.cota)
    requires a !in Assentos(u, usuarios, aprovados)
    ensures NInscr in a
    ensures var uf := UsuariosNaFrente(usuarios, u.grupo, u.posicao, u.cota);
            (uf == [] && a[NInscr] in Sentinela)
            || exists i :: 0 <= i < |uf| && TextIs(uf[i], Opcao, NaoVaiAssumir) && NInscr in uf[i] && uf[i][NInscr] == a[NInscr]
  {
    var uf := UsuariosNaFrente(usuarios, u.grupo, u.posicao, u.cota);
    var af := Filter(aprovados, AheadOf(u.grupo, u.posicao, u.cota));
    assert a in af;
    var k :| 0 <= k < |af| && af[k] == a;
    assert !ConsomeVaga(Recusantes(uf))(af[k]);
  }

  /** The allocation found is the only row of the pair. */
  lemma AlocacaoEm(grupos: seq<Row>, u: Usuario, k: nat)
    requires AlocacaoUnica(grupos, u) && k < |grupos| && AlocacaoDe(u)(grupos[k])
    ensures forall j :: 0 <= j < |grupos| && j != k ==> !AlocacaoDe(u)(grupos[j])
    ensures Filter(grupos, AlocacaoDe(u)) == [grupos[k]]
  {
    forall j | 0 <= j < |grupos| && j != k ensures !AlocacaoDe(u)(grupos[j]) {
      if AlocacaoDe(u)(grupos[j]) && j < k {
        TwoHits(grupos, AlocacaoDe(u), j, k);
      } else if AlocacaoDe(u)(grupos[j]) && k < j {
        TwoHits(grupos, AlocacaoDe(u), k, j);
      }
    }
    FilterOnly(grupos, AlocacaoDe(u), k);
  }

  /** Raising the seat count of the user's allocation never hides the link. */
  lemma MaisVagasNuncaEscondem(u: Usuario, usuarios: seq<Row>, aprovados: seq<Row>, grupos: seq<Row>,
                               k: nat, v: int, linkValido: string -> bool)
    requires AlocacaoUnica(grupos, u) && k < |grupos| && AlocacaoDe(u)(grupos[k])
    requires v >= NumberAt(grupos[k], QtdeVagas)
    requires MostrarLink(u, usuarios, aprovados, grupos, linkValido) != Success(AguardeSuaVez)
    ensures AlocacaoUnica(grupos[k := grupos[k][QtdeVagas := Number(v)]], u)
    ensures MostrarLink(u, usuarios, aprovados, grupos[k := grupos[k][QtdeVagas := Number(v)]], linkValido)
              != Success(AguardeSuaVez)
  {
    var mais := grupos[k := grupos[k][QtdeVagas := Number(v)]];
    AlocacaoEm(grupos, u, k);
    AlocacaoAposVagas(grupos, u, k, v);
    assert Vagas(mais, u) == v;
  }

  /** The seat count rewritten in place leaves the allocation where it was. */
  lemma AlocacaoAposVagas(grupos: seq<Row>, u: Usuario, k: nat, v: int)
    requires AlocacaoUnica(grupos, u) && k < |grupos| && AlocacaoDe(u)(grupos[k])
    ensures Filter(grupos[k := grupos[k][QtdeVagas := Number(v)]], AlocacaoDe(u)) == [grupos[k][QtdeVagas := Number(v)]]
  {
    var mais := grupos[k := grupos[k][QtdeVagas := Number(v)]];
    AlocacaoEm(grupos, u, k);
    assert AlocacaoDe(u)(mais[k]);
    forall j | 0 <= j < |mais| && j != k ensures !AlocacaoDe(u)(mais[j]) {
      assert mais[j] == grupos[j];
    }
    FilterOnly(mais, AlocacaoDe(u), k);
  }

  /** One more approved candidate ahead who has not declined never reveals the link. */
  lemma NovoConcorrenteNuncaRevela(u: Usuario, usuarios: seq<Row>, aprovados: seq<Row>, grupos: seq<Row>,
                                   a: Row, linkValido: string -> bool)
    requires AlocacaoUnica(grupos, u)
    requires Ahead(a, u.grupo, u.posicao, u.cota)
    requires ConsomeVaga(Recusantes(UsuariosNaFrente(usuarios, u.grupo, u.posicao, u.cota)))(a)
    requires MostrarLink(u, usuarios, aprovados, grupos, linkValido) == Success(AguardeSuaVez)
    ensures MostrarLink(u, usuarios, aprovados + [a], grupos, linkValido) == Success(AguardeSuaVez)
  {
    var p := AheadOf(u.grupo, u.posicao, u.cota);
    var q := ConsomeVaga(Recusantes(UsuariosNaFrente(usuarios, u.grupo, u.posicao, u.cota)));
    FilterAppend(aprovados, [a], p);
    assert Filter([a], p) == [a];
    FilterAppend(Filter(aprovados, p), [a], q);
    assert Filter([a], q) == [a];
  }

  // ----- exibir_mensagens_usuario -----

  /** What the message history shows. */
  datatype VisaoMensagens = NenhumaMensagemCriada | NenhumaParaUsuario | Mostradas(ms: seq<Row>)

  function DestinadaA(u: Usuario): Row -> bool
  {
    (m: Row) => Destinada(m, u.grupo, u.posicao, u.cota)
  }

  /** `exibir_mensagens_usuario`: "no message created" for an empty table, otherwise
      the messages addressed to the user, newest first, or "none for the user". */
  function ExibirMensagensUsuario(u: Usuario, mensagens: seq<Row>): (r: VisaoMensagens)
    ensures r == NenhumaMensagemCriada <==> mensagens == []
    ensures r == NenhumaParaUsuario <==>
              mensagens != [] && forall i :: 0 <= i < |mensagens| ==> !Destinada(mensagens[i], u.grupo, u.posicao, u.cota)
    ensures r.Mostradas? ==> Decrescente(r.ms) && multiset(r.ms) == multiset(Filter(mensagens, DestinadaA(u)))
    ensures r.Mostradas? ==> forall m :: m in r.ms <==> m in mensagens && Destinada(m, u.grupo, u.posicao, u.cota)
  {
    var df := ListarMensagens(mensagens);
    if df == [] then
      assert |mensagens| == |multiset(mensagens)| == |multiset(df)| == 0;
      NenhumaMensagemCriada
    else
      var pert := Ordenar(Filter(df, DestinadaA(u)));
      FilterPermutation(df, mensagens, DestinadaA(u));
      assert multiset(pert) == multiset(Filter(mensagens, DestinadaA(u)));
      assert mensagens != [] by {
        assert |mensagens| == |multiset(mensagens)| == |multiset(df)| > 0;
      }
      assert forall m :: m in pert <==> m in mensagens && Destinada(m, u.grupo, u.posicao, u.cota) by {
        forall m ensures m in pert <==> m in mensagens && Destinada(m, u.grupo, u.posicao, u.cota) {
          var f := Filter(mensagens, DestinadaA(u));
          assert m in pert <==> m in multiset(pert);
          assert m in f <==> m in multiset(f);
          if m in mensagens && Destinada(m, u.grupo, u.posicao, u.cota) {
            var i :| 0 <= i < |mensagens| && mensagens[i] == m;
            assert m in f;
          }
        }
      }
      if pert == [] then NenhumaParaUsuario else Mostradas(pert)
  }
}

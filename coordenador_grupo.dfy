/** The coordinator's pages: the statistics of their own group, the document
    audit restricted to that group, and the form that sends messages. */
module CoordenadorGrupo {
  import opened Wrappers
  import opened Schema
  import opened Seqs
  import opened Text
  import opened Database
  import opened Usuarios
  import opened Forms
  import opened Mensageria
  import G = Grupos

  // ----- estatisticas_de_grupo_coordenador -----

  /** `df[df['grupo'] == g]` over a whole table: the frame of an empty table has no
      columns, so the mask raises KeyError. */
  function DoGrupo(rows: seq<Row>, g: string): (r: Result<seq<Row>, Raised>)
    ensures r.Failure? <==> rows == []
    ensures r.Failure? ==> r.error == KeyError
    ensures r.Success? ==> forall x :: x in r.value <==> x in rows && TextIs(x, Grupo, g)
  {
    if rows == [] then Failure(KeyError)
    else
      var f := Filter(rows, G.GrupoIs(g));
      assert forall x :: x in rows && TextIs(x, Grupo, g) ==> x in f by {
        forall x | x in rows && TextIs(x, Grupo, g) ensures x in f {
          var i :| 0 <= i < |rows| && rows[i] == x;
        }
      }
      Success(f)
  }

  /** The `groupby(['opcao', 'cota']).size()` table as a multiset of pairs; rows
      with a missing key are dropped, as pandas drops NaN groups. */
  function Pares(rows: seq<Row>): (r: multiset<(string, string)>)
    ensures |r| <= |rows|
  {
    if rows == [] then multiset{}
    else
      var x := rows[0];
      (if Opcao in x && x[Opcao].Text? && Cota in x && x[Cota].Text? then multiset{(x[Opcao].s, x[Cota].s)} else multiset{})
      + Pares(rows[1..])
  }

  function OpcaoCota(o: string, c: string): Row -> bool
  {
    (x: Row) => TextIs(x, Opcao, o) && TextIs(x, Cota, c)
  }

  /** Each (decision, quota) cell counts the users holding that pair. */
  lemma {:induction false} ParesConta(rows: seq<Row>, o: string, c: string)
    ensures Pares(rows)[(o, c)] == |Filter(rows, OpcaoCota(o, c))|
  {
    if rows != [] {
      ParesConta(rows[1..], o, c);
    }
  }

  /** When every user has a decision and a quota, the cells add up to the users. */
  lemma {:induction false} ParesSomam(rows: seq<Row>)
    requires forall i :: 0 <= i < |rows| ==> Opcao in rows[i] && rows[i][Opcao].Text? && Cota in rows[i] && rows[i][Cota].Text?
    ensures |Pares(rows)| == |rows|
  {
    if rows != [] {
      ParesSomam(rows[1..]);
    }
  }

  /** The figures of the statistics page. */
  datatype Estatisticas = Estatisticas(usuarios: nat, aprovados: nat, opcoes: multiset<(string, string)>)

  /** The statistics of the coordinator's group: registered users and approved
      candidates of the group (group equality only, every quota) and the
      (decision, quota) table of those users. */
  function EstatisticasDeGrupo(u: Usuario, usuarios: seq<Row>, aprovados: seq<Row>): (r: Result<Estatisticas, Raised>)
    ensures r.Failure? <==> usuarios == [] || aprovados == []
    ensures r.Success? ==> G.VerQuantidade(usuarios, u.grupo).Success?
                           && r.value.usuarios == G.VerQuantidade(usuarios, u.grupo).value.resultado
    ensures r.Success? ==> r.value.aprovados == |Filter(aprovados, G.GrupoIs(u.grupo))|
    ensures r.Success? ==> |r.value.opcoes| <= r.value.usuarios
    ensures r.Success? && (forall i :: 0 <= i < |usuarios| ==> Opcao in usuarios[i] && usuarios[i][Opcao].Text? && Cota in usuarios[i] && usuarios[i][Cota].Text?)
            ==> |r.value.opcoes| == r.value.usuarios
  {
    match DoGrupo(usuarios, u.grupo)
    case Failure(e) => Failure(e)
    case Success(grupo) =>
      match DoGrupo(aprovados, u.grupo)
      case Failure(e) => Failure(e)
      case Success(aprovadosGrupo) =>
        assert forall i :: 0 <= i < |grupo| ==> grupo[i] in usuarios;
        ParesSomamSe(grupo, usuarios);
        Success(Estatisticas(|grupo|, |aprovadosGrupo|, Pares(grupo)))
  }

  /** Rows taken from a table whose rows all have both keys have both keys. */
  lemma ParesSomamSe(grupo: seq<Row>, usuarios: seq<Row>)
    requires forall i :: 0 <= i < |grupo| ==> grupo[i] in usuarios
    ensures (forall i :: 0 <= i < |usuarios| ==> Opcao in usuarios[i] && usuarios[i][Opcao].Text? && Cota in usuarios[i] && usuarios[i][Cota].Text?)
            ==> |Pares(grupo)| == |grupo|
  {
    if forall i :: 0 <= i < |usuarios| ==> Opcao in usuarios[i] && usuarios[i][Opcao].Text? && Cota in usuarios[i] && usuarios[i][Cota].Text? {
      forall i | 0 <= i < |grupo|
        ensures Opcao in grupo[i] && grupo[i][Opcao].Text? && Cota in grupo[i] && grupo[i][Cota].Text?
      {
        var j :| 0 <= j < |usuarios| && usuarios[j] == grupo[i];
      }
      ParesSomam(grupo);
    }
  }

  // ----- auditoria -----

  const MsgNaoPertence := "Usuário não encontrado ou não pertence ao seu grupo."
  const MsgSemDocumento := "Nenhum documento encontrado para este usuário."

  /** What the audit shows: a refusal, the user without a document, or the user
      with their first document. */
  datatype Auditoria = NaoPertence | SemDocumento(usuario: Row) | ComDocumento(usuario: Row, documento: Row)

  /** No user of group `g` has number `n` when the group's rows hold none. */
  lemma ForaDoGrupo(usuarios: seq<Row>, grupo: seq<Row>, g: string, n: string)
    requires forall x :: x in grupo <==> x in usuarios && TextIs(x, Grupo, g)
    requires Filter(grupo, Where(ByInscr(n))) == []
    ensures forall i :: 0 <= i < |usuarios| ==> !(TextIs(usuarios[i], Grupo, g) && TextIs(usuarios[i], NInscr, n))
  {
    forall i | 0 <= i < |usuarios| && TextIs(usuarios[i], Grupo, g)
      ensures !TextIs(usuarios[i], NInscr, n)
    {
      var k :| 0 <= k < |grupo| && grupo[k] == usuarios[i];
      assert !Where(ByInscr(n))(grupo[k]);
    }
  }

  /** An empty document lookup means no document carries number `n`. */
  lemma SemDocumentoDe(documentos: seq<Row>, n: string)
    requires Select(Documentos, documentos, ByInscr(n)) == []
    ensures forall i :: 0 <= i < |documentos| ==> !TextIs(documentos[i], NInscr, n)
  {
    forall i | 0 <= i < |documentos| ensures !TextIs(documentos[i], NInscr, n) {
      assert !Matches(documentos[i], ByInscr(n));
    }
  }

  /** The audit of registration number `n`: it looks only among the users of the
      coordinator's own group; the document is looked up by number. */
  function Auditar(u: Usuario, usuarios: seq<Row>, documentos: seq<Row>, n: string): (r: Result<Auditoria, Raised>)
    ensures r.Failure? <==> usuarios == []
    ensures r.Success? ==>
              (r.value == NaoPertence <==>
                 forall i :: 0 <= i < |usuarios| ==> !(TextIs(usuarios[i], Grupo, u.grupo) && TextIs(usuarios[i], NInscr, n)))
    ensures r.Success? && !r.value.NaoPertence? ==>
              r.value.usuario in usuarios && TextIs(r.value.usuario, Grupo, u.grupo) && TextIs(r.value.usuario, NInscr, n)
    ensures r.Success? && r.value.ComDocumento? ==> r.value.documento in documentos && TextIs(r.value.documento, NInscr, n)
    ensures r.Success? && r.value.SemDocumento? ==> forall i :: 0 <= i < |documentos| ==> !TextIs(documentos[i], NInscr, n)
  {
    match DoGrupo(usuarios, u.grupo)
    case Failure(e) => Failure(e)
    case Success(grupo) =>
      var registro := Filter(grupo, Where(ByInscr(n)));
      if registro == [] then
        ForaDoGrupo(usuarios, grupo, u.grupo, n);
        Success(NaoPertence)
      else
        assert registro[0] in grupo;
        var docs := Select(Documentos, documentos, ByInscr(n));
        if docs == [] then
          SemDocumentoDe(documentos, n);
          Success(SemDocumento(registro[0]))
        else
          Success(ComDocumento(registro[0], docs[0]))
  }

  // ----- criar_mensagem -----

  /** The group names of the allocations outside the administrators' group, in
      table order. */
  function NomesVisiveis(grupos: seq<Row>): seq<string>
  {
    var visiveis := Filter(grupos, (x: Row) => TextAt(x, Grupo) != SuperuserGroup);
    seq(|visiveis|, k requires 0 <= k < |visiveis| => TextAt(visiveis[k], Grupo))
  }

  /** Exactly the names of stored groups other than the administrators' are listed. */
  lemma NomesVisiveisSao(grupos: seq<Row>)
    ensures forall g :: g in NomesVisiveis(grupos) <==>
              g != SuperuserGroup && exists i :: 0 <= i < |grupos| && TextAt(grupos[i], Grupo) == g
  {
    var visiveis := Filter(grupos, (x: Row) => TextAt(x, Grupo) != SuperuserGroup);
    var nomes := NomesVisiveis(grupos);
    forall g ensures g in nomes <==> g != SuperuserGroup && exists i :: 0 <= i < |grupos| && TextAt(grupos[i], Grupo) == g {
      if g != SuperuserGroup && exists i :: 0 <= i < |grupos| && TextAt(grupos[i], Grupo) == g {
        var i :| 0 <= i < |grupos| && TextAt(grupos[i], Grupo) == g;
        var k :| 0 <= k < |visiveis| && visiveis[k] == grupos[i];
        assert nomes[k] == g;
      }
      if g in nomes {
        var k :| 0 <= k < |nomes| && nomes[k] == g;
        assert visiveis[k] in grupos;
      }
    }
  }

  /** The group choices: the distinct allocation groups other than the
      administrators' group, sorted. */
  function ListaGrupos(grupos: seq<Row>): (r: Result<seq<string>, Raised>)
    ensures r.Failure? <==> grupos == []
    ensures r.Success? ==> Crescente(r.value)
    ensures r.Success? ==>
              forall g :: g in r.value <==> g != SuperuserGroup && exists i :: 0 <= i < |grupos| && TextAt(grupos[i], Grupo) == g
  {
    if grupos == [] then Failure(KeyError)
    else
      var nomes := NomesVisiveis(grupos);
      OrdenarSemRepeticaoCorreto(nomes);
      NomesVisiveisSao(grupos);
      Success(OrdenarSemRepeticao(nomes))
  }

  /** The preselected groups: the coordinator's own, or every choice. */
  function GruposPadrao(u: Usuario, lista: seq<string>): seq<string>
  {
    if u.role == "coordenador" then [u.grupo] else lista
  }

  /** The preselection is among the choices when a coordinator's group has an
      allocation and is not the administrators' group. */
  lemma PadraoEntreOpcoes(u: Usuario, grupos: seq<Row>)
    requires grupos != []
    requires u.role == "coordenador" ==>
               u.grupo != SuperuserGroup && exists i :: 0 <= i < |grupos| && TextAt(grupos[i], Grupo) == u.grupo
    ensures forall g :: g in GruposPadrao(u, ListaGrupos(grupos).value) ==> g in ListaGrupos(grupos).value
  {
  }

  /** The author line of a message: "nome (n_inscr: X)". */
  function Autor(u: Usuario): (r: string)
    ensures |r| == |u.nome| + |u.nInscr| + 12
    ensures r[..|u.nome|] == u.nome
    ensures r[|u.nome|..|u.nome| + 11] == " (n_inscr: "
    ensures r[|u.nome| + 11..|r| - 1] == u.nInscr && r[|r| - 1] == ')'
  {
    u.nome + " (n_inscr: " + u.nInscr + ")"
  }

  /** The author line identifies its writer: for names without '(' (whose first
      '(' is therefore the one before "n_inscr"), equal author lines come from the
      same name and the same registration number. */
  lemma AutorIdentifica(u: Usuario, v: Usuario)
    requires '(' !in u.nome && '(' !in v.nome
    requires Autor(u) == Autor(v)
    ensures u.nome == v.nome && u.nInscr == v.nInscr
  {
    if |u.nome| < |v.nome| {
      AbreParenteses(u, v);
    } else if |v.nome| < |u.nome| {
      AbreParenteses(v, u);
    }
    assert u.nome == Autor(u)[..|u.nome|];
  }

  /** A shorter name puts the '(' of its author line where the longer name's line
      has a letter of the name or the space after it. */
  lemma AbreParenteses(u: Usuario, v: Usuario)
    requires '(' !in v.nome && |u.nome| < |v.nome|
    ensures Autor(u) != Autor(v)
  {
    var k := |u.nome| + 1;
    assert Autor(u)[k] == '(';
    if k < |v.nome| {
      assert Autor(v)[k] == v.nome[k];
    } else {
      assert Autor(v)[k] == ' ';
    }
  }

  const MsgPreencha := "Preencha título e conteúdo da mensagem."
  const MsgSemGrupo := "Selecione ao menos um grupo."
  const MsgSemCota := "Selecione ao menos uma cota."
  const MsgCriadas := "Mensagem(ens) criada(s) com sucesso!"

  /** The submission chain: blank title or content, then no group, then no quota. */
  function ValidarMensagem(titulo: string, conteudo: string, grupos: seq<string>, cotas: seq<string>): (r: Option<string>)
    ensures IsBlank(titulo) || IsBlank(conteudo) ==> r == Some(MsgPreencha)
    ensures !IsBlank(titulo) && !IsBlank(conteudo) && grupos == [] ==> r == Some(MsgSemGrupo)
    ensures !IsBlank(titulo) && !IsBlank(conteudo) && grupos != [] && cotas == [] ==> r == Some(MsgSemCota)
    ensures r.None? <==> !IsBlank(titulo) && !IsBlank(conteudo) && grupos != [] && cotas != []
  {
    var checks := [Check(!IsBlank(titulo) && !IsBlank(conteudo), MsgPreencha), Check(grupos != [], MsgSemGrupo),
                   Check(cotas != [], MsgSemCota)];
    assert checks[1..][1..][1..] == [];
    assert FirstFailure(checks[2..]) == if !checks[2].passes then Some(MsgSemCota) else None;
    assert checks[2..] == checks[1..][1..];
    assert FirstFailure(checks[1..]) == if !checks[1].passes then Some(MsgSemGrupo) else FirstFailure(checks[2..]);
    FirstFailure(checks)
  }

  /** The message form as submitted. */
  datatype FormMensagem = FormMensagem(titulo: string, conteudo: string, posicaoMin: int, posicaoMax: int,
                                       cotas: seq<string>, grupos: seq<string>)

  /** `criar_mensagem` on submit: a rejected form stores nothing; an accepted one
      fans out one message per (group, quota) pair, signed by the account. */
  method EnviarMensagem(m: Mensageria, u: Usuario, f: FormMensagem, now: int) returns (aviso: Aviso)
    requires m.db.Valid()
    modifies m.db
    ensures m.db.Valid()
    ensures ValidarMensagem(f.titulo, f.conteudo, f.grupos, f.cotas).Some? ==>
              aviso == Erro(ValidarMensagem(f.titulo, f.conteudo, f.grupos, f.cotas).value)
              && m.db.tables == old(m.db.tables)
    ensures ValidarMensagem(f.titulo, f.conteudo, f.grupos, f.cotas).None? ==>
              var e := Envio(f.titulo, f.conteudo, f.posicaoMin, f.posicaoMax, Autor(u));
              var antes := old(m.db.tables[Mensagens]);
              && aviso == Sucesso(MsgCriadas)
              && m.db.tables == old(m.db.tables)[Mensagens := m.db.tables[Mensagens]]
              && |m.db.tables[Mensagens]| == |antes| + |f.grupos| * |f.cotas|
              && m.db.tables[Mensagens][..|antes|] == antes
              && Carries(m.db.tables[Mensagens][|antes|..], FanOut(e, f.grupos, f.cotas))
  {
    var erro := ValidarMensagem(f.titulo, f.conteudo, f.grupos, f.cotas);
    if erro.Some? {
      return Erro(erro.value);
    }
    m.CriarMensagem(Envio(f.titulo, f.conteudo, f.posicaoMin, f.posicaoMax, Autor(u)), f.grupos, f.cotas, now);
    aviso := Sucesso(MsgCriadas);
  }

  const MsgDeletada := "Mensagem deletada com sucesso!"
  const MsgFalhaDeletar := "Falha ao deletar ou mensagem não encontrada."

  /** The delete button of a listed message. */
  method DeletarDaLista(m: Mensageria, id: int) returns (aviso: Aviso)
    requires m.db.Valid()
    modifies m.db
    ensures m.db.Valid()
    ensures var antes := old(m.db.tables[Mensagens]);
            if exists k :: 0 <= k < |antes| && Matches(antes[k], IdFiltro(id)) then
              aviso == Sucesso(MsgDeletada)
              && m.db.tables == old(m.db.tables)[Mensagens := Without(antes, FirstIndex(antes, Where(IdFiltro(id))))]
            else
              aviso == Erro(MsgFalhaDeletar) && m.db.tables == old(m.db.tables)
  {
    var ok := m.DeletarMensagem(id);
    aviso := if ok then Sucesso(MsgDeletada) else Erro(MsgFalhaDeletar);
  }
}

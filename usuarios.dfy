/** The logged-in account object: its construction from a `usuarios` record, the
    profile update it performs and the per-decision count of the users ahead. */
module Usuarios {
  import opened Wrappers
  import opened Schema
  import opened Seqs
  import opened Database

  /** The class `CLASSES` maps a role to; the subclasses add no modelled behaviour. */
  datatype Classe = UsuarioClass | CoordenadorClass | SuperusuarioClass

  datatype Usuario = Usuario(
    classe: Classe, nome: string, posicao: int, senha: string, email: string,
    telefone: string, opcao: string, nInscr: string, grupo: string,
    formacaoAcademica: string, role: string, cota: string, opcaoContato: string)

  /** The parameters of `Usuario.__init__` other than `**kwargs`. */
  const Parametros: set<Col> := {Nome, Posicao, Senha, Email, Telefone, Opcao, NInscr, Grupo,
                                 FormacaoAcademica, Role, Cota, OpcaoContato}

  /** `Classe(**dados)`: every parameter must be given, other keys land in `**kwargs`
      and are ignored. `self.cota = cota,` stores a one-element tuple, which the
      constructor then unwraps. */
  function NovoUsuario(classe: Classe, dados: Row): (r: Result<Usuario, Raised>)
    ensures r.Success? <==> Parametros <= dados.Keys
    ensures r.Success? ==> r.value.classe == classe && r.value.nInscr == TextAt(dados, NInscr)
                           && r.value.cota == TextAt(dados, Cota) && r.value.posicao == NumberAt(dados, Posicao)
  {
    if !(Parametros <= dados.Keys) then Failure(TypeError)
    else
      var tupla := [TextAt(dados, Cota)];
      var cota := if |tupla| == 1 then tupla[0] else TextAt(dados, Cota);
      Success(Usuario(classe, TextAt(dados, Nome), NumberAt(dados, Posicao), TextAt(dados, Senha),
                      TextAt(dados, Email), TextAt(dados, Telefone), TextAt(dados, Opcao),
                      TextAt(dados, NInscr), TextAt(dados, Grupo), TextAt(dados, FormacaoAcademica),
                      TextAt(dados, Role), cota, TextAt(dados, OpcaoContato)))
  }

  /** Keys outside the parameters, such as the timestamps of the record, make no
      difference to the object built. */
  lemma NovoUsuarioIgnoresExtras(classe: Classe, dados: Row, extras: Row)
    requires extras.Keys !! Parametros
    ensures NovoUsuario(classe, dados + extras) == NovoUsuario(classe, dados)
  {
    var both := dados + extras;
    assert forall c :: c in Parametros ==> (c in both <==> c in dados);
    assert forall c :: c in Parametros && c in dados ==> both[c] == dados[c];
  }

  // ----- mudarDados -----

  /** The fields a user may change about themselves. */
  const Editaveis: set<Col> := {Email, Telefone, Opcao, OpcaoContato}

  /** The `atualizacoes` dictionary: the whitelisted entries of the request. */
  function Atualizacoes(mudanca: Row): (r: Row)
    ensures r.Keys == mudanca.Keys * Editaveis
    ensures forall c :: c in r ==> r[c] == mudanca[c]
  {
    map c | c in mudanca && c in Editaveis :: mudanca[c]
  }

  /** The four `if key in mudanca` steps that fill `atualizacoes`. */
  method ExtrairMudancas(mudanca: Row) returns (atualizacoes: Row)
    ensures atualizacoes == Atualizacoes(mudanca)
  {
    atualizacoes := map[];
    if Email in mudanca {
      atualizacoes := atualizacoes[Email := mudanca[Email]];
    }
    if Telefone in mudanca {
      atualizacoes := atualizacoes[Telefone := mudanca[Telefone]];
    }
    if Opcao in mudanca {
      atualizacoes := atualizacoes[Opcao := mudanca[Opcao]];
    }
    if OpcaoContato in mudanca {
      atualizacoes := atualizacoes[OpcaoContato := mudanca[OpcaoContato]];
    }
  }

  const Atualizado := "Cadastro atualizado com sucesso"
  const SemAtualizacoes := "Não foram encontradas atualizações válidas"

  /** `mudarDados`: copies the whitelisted fields of the request into `atualizacoes`
      one by one and, when there is any, updates the user's own record. The object
      `u` is a value: the method has no way to change it. */
  method MudarDados(u: Usuario, db: Db, mudanca: Row, now: int) returns (r: Result<Reply<string>, Raised>)
    requires db.Valid()
    modifies db
    ensures db.Valid() && db.serials == old(db.serials)
    ensures Atualizacoes(mudanca) == map[] ==> r == Success(Reply(false, SemAtualizacoes)) && db.tables == old(db.tables)
    ensures Atualizacoes(mudanca) != map[] ==>
              var o := UpdateOutcome(Usuarios, old(db.tables[Usuarios]), ByInscr(u.nInscr), Atualizacoes(mudanca), now);
              && (o.Success? ==> r == Success(Reply(true, Atualizado)))
              && (o.Failure? ==> r == Failure(Database(o.error)))
              && (o.Success? && o.value.Some? ==>
                    db.tables == old(db.tables)[Usuarios := old(db.tables[Usuarios])[MatchAt(old(db.tables[Usuarios]), ByInscr(u.nInscr)) := o.value.value]])
              && (!(o.Success? && o.value.Some?) ==> db.tables == old(db.tables))
  {
    var atualizacoes := ExtrairMudancas(mudanca);
    if |atualizacoes| > 0 {
      UsuariosKey();
      var o := db.Update(Usuarios, ByInscr(u.nInscr), atualizacoes, now);
      if o.Failure? {
        return Failure(Database(o.error));
      }
      r := Success(Reply(true, Atualizado));
    } else {
      assert atualizacoes == map[];
      r := Success(Reply(false, SemAtualizacoes));
    }
  }

  /** A profile update leaves every column outside the whitelist as it was, apart
      from the modification timestamp the database refreshes. */
  lemma MudarDadosOnlyWhitelist(row: Row, mudanca: Row, now: int, c: Col)
    requires c in row && c !in Editaveis && c != DataUltimaModificacao
    ensures Applied(Usuarios, row, Atualizacoes(mudanca), now)[c] == row[c]
  {
    UpdateChangesOnlyNamed(Usuarios, row, Atualizacoes(mudanca), now);
    assert c !in Atualizacoes(mudanca);
    if c in Columns(Usuarios) && Columns(Usuarios)[c].touchedOnUpdate {
      TouchedColumns(Usuarios, c);
    }
  }

  // ----- verOpcoes -----

  /** The parameters of `retornarListaUsuariosNaFrente`. */
  const NaFrenteParametros: set<string> := {"_db", "grupo", "posicao", "cota"}

  /** A call by keyword binds when the keywords are exactly the parameters. */
  predicate Binds(parametros: set<string>, keywords: set<string>)
  {
    keywords == parametros
  }

  /** The decisions of the given users, with multiplicity: `groupby('opcao').count()`. */
  function Opcoes(rows: seq<Row>): multiset<string>
  {
    if rows == [] then multiset{}
    else (if Opcao in rows[0] && rows[0][Opcao].Text? then multiset{rows[0][Opcao].s} else multiset{}) + Opcoes(rows[1..])
  }

  function OpcaoIs(o: string): Row -> bool
  {
    (r: Row) => TextIs(r, Opcao, o)
  }

  /** Each decision is counted as often as the rows holding it. */
  lemma {:induction false} OpcoesCount(rows: seq<Row>, o: string)
    ensures Opcoes(rows)[o] == |Filter(rows, OpcaoIs(o))|
  {
    if rows != [] {
      OpcoesCount(rows[1..], o);
    }
  }

  /** `verOpcoes` with the call the query needs: the users ahead in the same group
      and quota, counted per decision. With nobody ahead the query returns a frame
      without columns, and grouping it by `opcao` raises KeyError. */
  function VerOpcoes(u: Usuario, usuarios: seq<Row>): (r: Result<Reply<multiset<string>>, Raised>)
    ensures r.Failure? <==> UsuariosNaFrente(usuarios, u.grupo, u.posicao, u.cota) == []
    ensures r.Failure? ==> r.error == KeyError
    ensures r.Success? ==> r.value.sucesso
    ensures r.Success? ==>
              forall o :: r.value.resultado[o] == |Filter(UsuariosNaFrente(usuarios, u.grupo, u.posicao, u.cota), OpcaoIs(o))|
  {
    var frente := UsuariosNaFrente(usuarios, u.grupo, u.posicao, u.cota);
    if frente == [] then Failure(KeyError)
    else
      forall o ensures Opcoes(frente)[o] == |Filter(frente, OpcaoIs(o))| {
        OpcoesCount(frente, o);
      }
      Success(Reply(true, Opcoes(frente)))
  }

  /** `verOpcoes` as written: the query is called with `db=`, `grupo=` and
      `posicao=` only. */
  function VerOpcoesAsWritten(u: Usuario, usuarios: seq<Row>): Result<Reply<multiset<string>>, Raised>
  {
    if Binds(NaFrenteParametros, {"db", "grupo", "posicao"}) then VerOpcoes(u, usuarios)
    else Failure(TypeError)
  }

  /** As written, `verOpcoes` raises TypeError for every user: the keyword `db` is
      not a parameter and `cota` is never given. */
  lemma VerOpcoesAsWrittenRaises(u: Usuario, usuarios: seq<Row>)
    ensures VerOpcoesAsWritten(u, usuarios) == Failure(TypeError)
  {
    assert "cota" in NaFrenteParametros && "cota" !in {"db", "grupo", "posicao"};
  }
}

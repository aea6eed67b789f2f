/** The superuser's administration page: looking a user up, resetting an account
    (deleting its record) and assigning a role. */
module Adm {
  import opened Wrappers
  import opened Schema
  import opened Seqs
  import opened Database
  import opened Forms
  import opened Contas

  const MsgNaoEncontrado := "Usuário não encontrado."
  const MsgInscricaoInvalida := "Por favor, forneça um número de inscrição válido."
  const MsgResetado := "Conta e arquivos associados deletados com sucesso!"
  const MsgInformeInscricao := "Por favor, informe o número de inscrição do usuário."

  /** The roles offered by the select box. */
  const Roles: seq<string> := ["usuario", "coordenador", "superuser"]

  function MsgRoleAtualizado(novo: string): string
  {
    "Role atualizado para '" + novo + "' com sucesso!"
  }

  /** "Buscar Informações": the first record with the registration number, or the
      error shown when there is none. */
  function BuscarInformacoes(usuarios: seq<Row>, n: string): (r: Result<Row, string>)
    ensures r.Failure? <==> !ExisteCadastroPrevio(usuarios, n)
    ensures r.Failure? ==> r.error == MsgNaoEncontrado
    ensures r.Success? ==> r.value in usuarios && TextIs(r.value, NInscr, n)
  {
    match BuscarDadosConta(usuarios, n)
    case Failure(_) => Failure(MsgNaoEncontrado)
    case Success(dados) => Success(dados)
  }

  /** In a valid users table the record shown is the one record of that user. */
  lemma InformacoesDoUsuario(usuarios: seq<Row>, serial: nat, n: string, i: nat)
    requires TableValid(Usuarios, usuarios, serial)
    requires i < |usuarios| && TextIs(usuarios[i], NInscr, n)
    ensures BuscarInformacoes(usuarios, n) == Success(usuarios[i])
  {
    ContaUnica(usuarios, serial, n, i);
  }

  /** In a valid users table a registration number selects at most the one record at
      position `k`. */
  lemma InscricaoUnica(rows: seq<Row>, serial: nat, n: string, k: nat)
    requires TableValid(Usuarios, rows, serial)
    requires k < |rows| && Matches(rows[k], ByInscr(n))
    ensures Filter(rows, Where(ByInscr(n))) == [rows[k]]
  {
    forall j | 0 <= j < |rows| && j != k ensures !Where(ByInscr(n))(rows[j]) {
      if Matches(rows[j], ByInscr(n)) {
        if j < k {
          UsuariosUnique(rows, serial, j, k);
        } else {
          UsuariosUnique(rows, serial, k, j);
        }
        assert false;
      }
    }
    FilterOnly(rows, Where(ByInscr(n)), k);
  }

  lemma NoMaximoUmUsuario(rows: seq<Row>, serial: nat, n: string)
    requires TableValid(Usuarios, rows, serial)
    ensures |Filter(rows, Where(ByInscr(n)))| <= 1
  {
    var hits := Filter(rows, Where(ByInscr(n)));
    if hits != [] {
      var k :| 0 <= k < |rows| && rows[k] == hits[0];
      InscricaoUnica(rows, serial, n, k);
    }
  }

  // ----- resetting an account -----

  /** The test kept by a reset: the record is not of registration number `n`. */
  function OutroQue(n: string): Row -> bool
  {
    (r: Row) => !Matches(r, ByInscr(n))
  }

  lemma WithoutCons<T>(s: seq<T>, i: nat)
    requires 0 < i < |s|
    ensures Without(s, i) == [s[0]] + Without(s[1..], i - 1)
  {
    assert s[..i] == [s[0]] + s[1..][..i - 1];
    assert s[i + 1..] == s[1..][i..];
  }

  /** Selecting every element but the one at `i` is removing position `i`. */
  lemma {:induction false} FilterSemUm<T>(s: seq<T>, p: T -> bool, i: nat)
    requires i < |s| && !p(s[i])
    requires forall j :: 0 <= j < |s| && j != i ==> p(s[j])
    ensures Filter(s, p) == Without(s, i)
  {
    var t := s[1..];
    if i == 0 {
      forall j | 0 <= j < |t| ensures p(t[j]) {
        assert t[j] == s[j + 1];
      }
      FilterKeepsAll(t, p);
      assert Without(s, 0) == t;
    } else {
      forall j | 0 <= j < |t| && j != i - 1 ensures p(t[j]) {
        assert t[j] == s[j + 1];
      }
      FilterSemUm(t, p, i - 1);
      WithoutCons(s, i);
    }
  }

  /** After a reset the registration number has no account, so it can be created
      again; every other record is still there, and exactly one record is gone. */
  lemma ResetLiberaInscricao(rows: seq<Row>, serial: nat, n: string)
    requires TableValid(Usuarios, rows, serial) && ExisteCadastroPrevio(rows, n)
    ensures !ExisteCadastroPrevio(Filter(rows, OutroQue(n)), n)
    ensures forall i :: 0 <= i < |rows| && !Matches(rows[i], ByInscr(n)) ==> rows[i] in Filter(rows, OutroQue(n))
    ensures |Filter(rows, OutroQue(n))| == |rows| - 1
  {
    var s := Filter(rows, OutroQue(n));
    FilterNone(s, Where(ByInscr(n)));
    var hits := Filter(rows, Where(ByInscr(n)));
    var k :| 0 <= k < |rows| && rows[k] == hits[0];
    InscricaoUnica(rows, serial, n, k);
    FilterSemUm(rows, OutroQue(n), k);
  }

  /** The record removed by the "Resetar Conta" branch. */
  method RemoverUsuario(db: Db, n: string)
    requires db.Valid() && ExisteCadastroPrevio(db.tables[Usuarios], n)
    modifies db
    ensures db.Valid() && db.serials == old(db.serials)
    ensures db.tables == old(db.tables)[Usuarios := Filter(old(db.tables[Usuarios]), OutroQue(n))]
  {
    var rows := db.tables[Usuarios];
    NoMaximoUmUsuario(rows, db.serials[Usuarios], n);
    var i := MatchAt(rows, ByInscr(n));
    FilterSemUm(rows, OutroQue(n), i);
    db.Delete(Usuarios, i);
  }

  /** "Resetar Conta": with a registration number given, deletes that user's record
      when there is one; the uploaded documents stay in their table. */
  method ResetarConta(db: Db, n: string) returns (aviso: Aviso)
    requires db.Valid()
    modifies db
    ensures db.Valid() && db.serials == old(db.serials)
    ensures n == "" ==> aviso == Erro(MsgInscricaoInvalida) && db.tables == old(db.tables)
    ensures n != "" && !ExisteCadastroPrevio(old(db.tables[Usuarios]), n) ==>
              aviso == Erro(MsgNaoEncontrado) && db.tables == old(db.tables)
    ensures n != "" && ExisteCadastroPrevio(old(db.tables[Usuarios]), n) ==>
              && aviso == Sucesso(MsgResetado)
              && db.tables == old(db.tables)[Usuarios := Filter(old(db.tables[Usuarios]), OutroQue(n))]
  {
    if n == "" {
      return Erro(MsgInscricaoInvalida);
    }
    var encontrado := Select(Usuarios, db.tables[Usuarios], ByInscr(n));
    if encontrado == [] {
      return Erro(MsgNaoEncontrado);
    }
    RemoverUsuario(db, n);
    aviso := Sucesso(MsgResetado);
  }

  // ----- assigning a role -----

  /** The update dictionary `{"role": novo}`. */
  function NovoRole(novo: string): Row
  {
    map[Role := Text(novo)]
  }

  /** The user's record after the role update: the role is the new one, and only
      the role and the modification time can differ from before. */
  function ComRole(row: Row, novo: string, now: int): (r: Row)
    ensures r.Keys == row.Keys
    ensures Role in row ==> r[Role] == Text(novo)
    ensures forall c :: c in row && c != Role && c != DataUltimaModificacao ==> r[c] == row[c]
    ensures DataUltimaModificacao in row ==>
              r[DataUltimaModificacao] == row[DataUltimaModificacao] || r[DataUltimaModificacao] == Time(now)
  {
    UpdateChangesOnlyNamed(Usuarios, row, NovoRole(novo), now);
    Applied(Usuarios, row, NovoRole(novo), now)
  }

  /** At the next login the account is built with the class of the new role. */
  lemma RoleDefineClasse(row: Row, novo: string, now: int)
    requires Role in row && novo in Roles
    ensures ClasseDoRole(ComRole(row, novo, now)) == Some(Classes[novo])
  {
  }

  /** The updated record is still a well-typed user record. */
  lemma ComRoleConforme(row: Row, novo: string, now: int)
    requires Conforms(Usuarios, row)
    ensures Conforms(Usuarios, ComRole(row, novo, now))
    ensures !HasForbiddenNull(Usuarios, ComRole(row, novo, now))
  {
    AppliedConforms(Usuarios, row, NovoRole(novo), now);
    ConformsNoNull(Usuarios, ComRole(row, novo, now));
  }

  /** A record with the registration number and e-mail of position `i` clashes with
      no other row. */
  lemma MesmaIdentidadeSemConflito(rows: seq<Row>, serial: nat, i: nat, n: Row)
    requires TableValid(Usuarios, rows, serial) && i < |rows|
    requires NInscr in n && Email in n
    requires NInscr in rows[i] && Email in rows[i]
    requires n[NInscr] == rows[i][NInscr] && n[Email] == rows[i][Email]
    ensures ClashFreeExcept(Usuarios, rows, i, n)
  {
    forall j | 0 <= j < |rows| && j != i ensures !Conflict(Usuarios, rows[j], n) {
      if j < i {
        UsuariosUnique(rows, serial, j, i);
      } else {
        UsuariosUnique(rows, serial, i, j);
      }
    }
  }

  /** Changing the role of the one record of a registration number is always accepted. */
  lemma RoleAceito(rows: seq<Row>, serial: nat, n: string, novo: string, now: int)
    requires TableValid(Usuarios, rows, serial) && |Filter(rows, Where(ByInscr(n)))| == 1
    ensures UpdateOutcome(Usuarios, rows, ByInscr(n), NovoRole(novo), now)
            == Success(Some(ComRole(rows[MatchAt(rows, ByInscr(n))], novo, now)))
  {
    var i := MatchAt(rows, ByInscr(n));
    assert Conforms(Usuarios, rows[i]);
    ComRoleConforme(rows[i], novo, now);
    MesmaIdentidadeSemConflito(rows, serial, i, ComRole(rows[i], novo, now));
    UpdateAccepted(Usuarios, rows, ByInscr(n), NovoRole(novo), now, ComRole(rows[i], novo, now));
  }

  /** The update branch of "Atribuir Role". */
  method MudarRole(db: Db, n: string, novo: string, now: int)
    requires db.Valid() && |Filter(db.tables[Usuarios], Where(ByInscr(n)))| == 1
    modifies db
    ensures db.Valid() && db.serials == old(db.serials)
    ensures var i := MatchAt(old(db.tables[Usuarios]), ByInscr(n));
            db.tables == old(db.tables)[Usuarios := old(db.tables[Usuarios])[i := ComRole(old(db.tables[Usuarios])[i], novo, now)]]
  {
    RoleAceito(db.tables[Usuarios], db.serials[Usuarios], n, novo, now);
    UsuariosKey();
    var r := db.Update(Usuarios, ByInscr(n), NovoRole(novo), now);
  }

  /** "Atribuir Role": with a registration number given and a record found, sets its
      role to the selected one. */
  method AtribuirRole(db: Db, n: string, novo: string, now: int) returns (aviso: Aviso)
    requires db.Valid() && novo in Roles
    modifies db
    ensures db.Valid() && db.serials == old(db.serials)
    ensures n == "" ==> aviso == Erro(MsgInformeInscricao) && db.tables == old(db.tables)
    ensures n != "" && !ExisteCadastroPrevio(old(db.tables[Usuarios]), n) ==>
              aviso == Erro(MsgNaoEncontrado) && db.tables == old(db.tables)
    ensures n != "" && ExisteCadastroPrevio(old(db.tables[Usuarios]), n) ==>
              && aviso == Sucesso(MsgRoleAtualizado(novo))
              && |Filter(old(db.tables[Usuarios]), Where(ByInscr(n)))| == 1
              && var i := MatchAt(old(db.tables[Usuarios]), ByInscr(n));
                 db.tables == old(db.tables)[Usuarios := old(db.tables[Usuarios])[i := ComRole(old(db.tables[Usuarios])[i], novo, now)]]
  {
    if n == "" {
      return Erro(MsgInformeInscricao);
    }
    var registro := Select(Usuarios, db.tables[Usuarios], ByInscr(n));
    if registro == [] {
      return Erro(MsgNaoEncontrado);
    }
    NoMaximoUmUsuario(db.tables[Usuarios], db.serials[Usuarios], n);
    MudarRole(db, n, novo, now);
    aviso := Sucesso(MsgRoleAtualizado(novo));
  }
}

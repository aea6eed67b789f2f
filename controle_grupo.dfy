/** The coordinator's group control page: for one quota of the coordinator's own
    group it shows the stored seat count and link, and on "Atualizar" updates that
    allocation, or creates it when the group has none for the quota. */
module ControleGrupo {
  import opened Wrappers
  import opened Schema
  import opened Seqs
  import opened Database
  import opened Usuarios
  import opened Forms

  /** The quotas offered by the select box. */
  const OpcoesCota: seq<string> := ["AC", "Racial", "PCD"]

  const MsgAtualizados := "Dados atualizados com sucesso!"
  const MsgInseridos := "Dados inseridos com sucesso!"

  /** The filter `{"grupo": ..., "cota": ...}` naming one allocation. */
  function Chave(g: string, c: string): (r: Row)
    ensures r.Keys <= Columns(Grupos).Keys
  {
    map[Grupo := Text(g), Cota := Text(c)]
  }

  /** A record matches the filter exactly when it is of that group and quota. */
  lemma ChaveCasa(x: Row, g: string, c: string)
    ensures Matches(x, Chave(g, c)) <==> TextIs(x, Grupo, g) && TextIs(x, Cota, c)
  {
    if TextIs(x, Grupo, g) && TextIs(x, Cota, c) {
      forall k | k in Chave(g, c) ensures k in x && x[k] == Chave(g, c)[k] {
      }
    }
  }

  /** The allocation holds the submitted seat count and link. */
  predicate Guarda(x: Row, vagas: nat, link: string)
  {
    QtdeVagas in x && x[QtdeVagas] == Number(vagas) && Link in x && x[Link] == Text(link)
  }

  /** Writing the values an allocation already holds changes nothing. */
  lemma GravadoFixo(x: Row, vagas: nat, link: string)
    requires Guarda(x, vagas, link)
    ensures Gravado(x, vagas, link) == x
  {
    assert Gravado(x, vagas, link).Keys == x.Keys;
  }

  /** No column of the allocation table is refreshed on update. */
  lemma GruposSemCarimbo(n: Row, u: Row, now: int)
    ensures Touch(Grupos, n, u, now) == n
  {
    assert forall x :: x in Columns(Grupos) ==> !Columns(Grupos)[x].touchedOnUpdate;
  }

  /** The update dictionary: seat count and link. */
  function Campos(vagas: nat, link: string): Row
  {
    map[QtdeVagas := Number(vagas), Link := Text(link)]
  }

  /** The update dictionary names no key column. */
  lemma CamposSemChave(vagas: nat, link: string)
    ensures Campos(vagas, link).Keys !! KeyNames(Grupos)
  {
    assert QtdeVagas !in KeyNames(Grupos) && Link !in KeyNames(Grupos);
  }

  /** The dictionary inserted for a quota the group has no allocation for. */
  function Novo(g: string, c: string, vagas: nat, link: string): (r: Row)
    ensures r.Keys == Columns(Grupos).Keys
    ensures Matches(r, Chave(g, c))
  {
    map[Grupo := Text(g), Cota := Text(c), QtdeVagas := Number(vagas), Link := Text(link)]
  }

  /** An allocation after the seat count and link have been replaced. */
  function Gravado(row: Row, vagas: nat, link: string): (r: Row)
    ensures r.Keys == row.Keys + {QtdeVagas, Link}
    ensures r[QtdeVagas] == Number(vagas) && r[Link] == Text(link)
    ensures forall c :: c in row && c != QtdeVagas && c != Link ==> r[c] == row[c]
  {
    row[QtdeVagas := Number(vagas)][Link := Text(link)]
  }

  /** The values the editor starts from: those of the first allocation found, or
      no seats and an empty link. */
  function Editor(rows: seq<Row>, g: string, c: string): (r: (int, string))
    ensures Select(Grupos, rows, Chave(g, c)) == [] ==> r == (0, "")
    ensures Select(Grupos, rows, Chave(g, c)) != [] ==>
              exists i :: 0 <= i < |rows| && Matches(rows[i], Chave(g, c))
                          && r == (NumberAt(rows[i], QtdeVagas), TextAt(rows[i], Link))
  {
    var registro := Select(Grupos, rows, Chave(g, c));
    if registro == [] then (0, "")
    else
      assert registro[0] in rows;
      (NumberAt(registro[0], QtdeVagas), TextAt(registro[0], Link))
  }

  /** In a valid allocation table a group has at most one allocation per quota; when
      it has one at position `k`, that is the only one selected. */
  lemma UmaPorCota(rows: seq<Row>, serial: nat, g: string, c: string, k: nat)
    requires TableValid(Grupos, rows, serial)
    requires k < |rows| && Matches(rows[k], Chave(g, c))
    ensures Filter(rows, Where(Chave(g, c))) == [rows[k]]
  {
    forall j | 0 <= j < |rows| && j != k ensures !Where(Chave(g, c))(rows[j]) {
      if Matches(rows[j], Chave(g, c)) {
        if j < k {
          GruposUnique(rows, serial, j, k);
        } else {
          GruposUnique(rows, serial, k, j);
        }
        assert false;
      }
    }
    FilterOnly(rows, Where(Chave(g, c)), k);
  }

  lemma NoMaximoUma(rows: seq<Row>, serial: nat, g: string, c: string)
    requires TableValid(Grupos, rows, serial)
    ensures |Filter(rows, Where(Chave(g, c)))| <= 1
  {
    var hits := Filter(rows, Where(Chave(g, c)));
    if hits != [] {
      var k :| 0 <= k < |rows| && rows[k] == hits[0];
      UmaPorCota(rows, serial, g, c, k);
    }
  }

  /** The table after the upsert: the one allocation of the pair takes the new
      values, or a new allocation is appended. */
  function Upsert(rows: seq<Row>, g: string, c: string, vagas: nat, link: string): seq<Row>
    requires |Filter(rows, Where(Chave(g, c)))| <= 1
  {
    if |Filter(rows, Where(Chave(g, c)))| == 0 then rows + [Novo(g, c, vagas, link)]
    else
      var i := MatchAt(rows, Chave(g, c));
      rows[i := Gravado(rows[i], vagas, link)]
  }

  /** `r` is `rows` after an upsert of the pair: the pair has exactly one allocation,
      holding the submitted values; every other allocation is untouched, and the
      table grows by one exactly when the pair had none. */
  predicate Upserted(rows: seq<Row>, r: seq<Row>, g: string, c: string, vagas: nat, link: string)
  {
    && |r| == (if |Filter(rows, Where(Chave(g, c)))| == 0 then |rows| + 1 else |rows|)
    && (forall i :: 0 <= i < |rows| && !Matches(rows[i], Chave(g, c)) ==> r[i] == rows[i])
    && exists k :: 0 <= k < |r| && Filter(r, Where(Chave(g, c))) == [r[k]] && Guarda(r[k], vagas, link)
  }

  lemma UpsertGrava(rows: seq<Row>, g: string, c: string, vagas: nat, link: string)
    requires |Filter(rows, Where(Chave(g, c)))| <= 1
    ensures Upserted(rows, Upsert(rows, g, c, vagas, link), g, c, vagas, link)
  {
    if |Filter(rows, Where(Chave(g, c)))| == 0 {
      UpsertInsere(rows, g, c, vagas, link);
    } else {
      UpsertAtualiza(rows, g, c, vagas, link);
    }
  }

  /** Appending the new allocation to a table without the pair makes it the only one. */
  lemma NovoUnico(rows: seq<Row>, g: string, c: string, vagas: nat, link: string)
    requires |Filter(rows, Where(Chave(g, c)))| == 0
    ensures Filter(rows + [Novo(g, c, vagas, link)], Where(Chave(g, c))) == [Novo(g, c, vagas, link)]
  {
    var r := rows + [Novo(g, c, vagas, link)];
    forall j | 0 <= j < |r| && j != |rows| ensures !Where(Chave(g, c))(r[j]) {
      assert r[j] == rows[j];
    }
    FilterOnly(r, Where(Chave(g, c)), |rows|);
  }

  lemma UpsertInsere(rows: seq<Row>, g: string, c: string, vagas: nat, link: string)
    requires |Filter(rows, Where(Chave(g, c)))| == 0
    ensures Upserted(rows, rows + [Novo(g, c, vagas, link)], g, c, vagas, link)
  {
    var r := rows + [Novo(g, c, vagas, link)];
    NovoUnico(rows, g, c, vagas, link);
    assert Filter(r, Where(Chave(g, c))) == [r[|rows|]] && Guarda(r[|rows|], vagas, link);
    assert forall i :: 0 <= i < |rows| ==> r[i] == rows[i];
  }

  /** After the matching allocation is rewritten it is still the only one of its pair. */
  lemma GravadoUnico(rows: seq<Row>, k: nat, g: string, c: string, vagas: nat, link: string)
    requires k < |rows| && Matches(rows[k], Chave(g, c))
    requires forall j :: 0 <= j < |rows| && j != k ==> !Matches(rows[j], Chave(g, c))
    ensures Filter(rows[k := Gravado(rows[k], vagas, link)], Where(Chave(g, c)))
            == [Gravado(rows[k], vagas, link)]
  {
    var r := rows[k := Gravado(rows[k], vagas, link)];
    ChaveCasa(rows[k], g, c);
    ChaveCasa(r[k], g, c);
    forall j | 0 <= j < |r| && j != k ensures !Where(Chave(g, c))(r[j]) {
      assert r[j] == rows[j];
    }
    FilterOnly(r, Where(Chave(g, c)), k);
  }

  lemma UpsertAtualiza(rows: seq<Row>, g: string, c: string, vagas: nat, link: string)
    requires |Filter(rows, Where(Chave(g, c)))| == 1
    ensures var k := MatchAt(rows, Chave(g, c));
            Upserted(rows, rows[k := Gravado(rows[k], vagas, link)], g, c, vagas, link)
  {
    var k := MatchAt(rows, Chave(g, c));
    var r := rows[k := Gravado(rows[k], vagas, link)];
    GravadoUnico(rows, k, g, c, vagas, link);
    assert Filter(r, Where(Chave(g, c))) == [r[k]] && Guarda(r[k], vagas, link);
    assert |r| == (if |Filter(rows, Where(Chave(g, c)))| == 0 then |rows| + 1 else |rows|);
    assert forall i :: 0 <= i < |rows| && !Matches(rows[i], Chave(g, c)) ==> r[i] == rows[i];
  }

  /** The position of the pair's only allocation after an upsert. */
  lemma UnicaGravada(rows: seq<Row>, g: string, c: string, vagas: nat, link: string) returns (k: nat)
    requires |Filter(rows, Where(Chave(g, c)))| <= 1
    ensures var r := Upsert(rows, g, c, vagas, link);
            k < |r| && Filter(r, Where(Chave(g, c))) == [r[k]] && Guarda(r[k], vagas, link)
  {
    if |Filter(rows, Where(Chave(g, c)))| == 0 {
      k := |rows|;
      NovoUnico(rows, g, c, vagas, link);
    } else {
      k := MatchAt(rows, Chave(g, c));
      GravadoUnico(rows, k, g, c, vagas, link);
    }
  }

  /** The only row the filter selects is the one `MatchAt` finds. */
  lemma MatchAtUnica(r: seq<Row>, f: Row, k: nat)
    requires k < |r| && Filter(r, Where(f)) == [r[k]]
    ensures MatchAt(r, f) == k
  {
    assert Where(f)(Filter(r, Where(f))[0]);
  }

  /** Submitting the same values twice leaves the table as the first submission did. */
  lemma UpsertIdempotente(rows: seq<Row>, g: string, c: string, vagas: nat, link: string)
    requires |Filter(rows, Where(Chave(g, c)))| <= 1
    ensures |Filter(Upsert(rows, g, c, vagas, link), Where(Chave(g, c)))| == 1
    ensures Upsert(Upsert(rows, g, c, vagas, link), g, c, vagas, link) == Upsert(rows, g, c, vagas, link)
  {
    var r := Upsert(rows, g, c, vagas, link);
    var k := UnicaGravada(rows, g, c, vagas, link);
    MatchAtUnica(r, Chave(g, c), k);
    GravadoFixo(r[k], vagas, link);
  }

  /** The editor reopened after a submission shows the submitted values. */
  lemma EditorMostraGravado(rows: seq<Row>, g: string, c: string, vagas: nat, link: string)
    requires |Filter(rows, Where(Chave(g, c)))| <= 1
    ensures Editor(Upsert(rows, g, c, vagas, link), g, c) == (vagas, link)
  {
    var r := Upsert(rows, g, c, vagas, link);
    var k := UnicaGravada(rows, g, c, vagas, link);
    assert Select(Grupos, r, Chave(g, c)) == [r[k]];
  }

  /** Applying the update dictionary to an allocation gives the allocation with the
      new seat count and link. */
  lemma AplicadoEhGravado(row: Row, vagas: nat, link: string, now: int)
    requires Conforms(Grupos, row)
    ensures Applied(Grupos, row, Campos(vagas, link), now) == Gravado(row, vagas, link)
  {
    assert QtdeVagas in row && Link in row;
    OverlayCampos(row, vagas, link);
    GruposSemCarimbo(Gravado(row, vagas, link), Campos(vagas, link), now);
  }

  /** The `setattr` loop over the update dictionary writes the two new values. */
  lemma OverlayCampos(row: Row, vagas: nat, link: string)
    requires QtdeVagas in row && Link in row
    ensures Overlay(row, Campos(vagas, link), Campos(vagas, link).Keys) == Gravado(row, vagas, link)
  {
    var u := Campos(vagas, link);
    assert Overlay(row, u, u.Keys).Keys == Gravado(row, vagas, link).Keys;
  }

  /** The new values are well typed and non-NULL, so the record still conforms. */
  lemma GravadoConforme(row: Row, vagas: nat, link: string)
    requires Conforms(Grupos, row)
    ensures Conforms(Grupos, Gravado(row, vagas, link))
    ensures !HasForbiddenNull(Grupos, Gravado(row, vagas, link))
  {
    var n := Gravado(row, vagas, link);
    forall x | x in n ensures Fits(Columns(Grupos)[x], n[x]) {
      if x != QtdeVagas && x != Link {
        assert Fits(Columns(Grupos)[x], row[x]);
      }
    }
  }

  /** A record that keeps the key of position `i` clashes with no other row. */
  lemma MesmaChaveSemConflito(rows: seq<Row>, serial: nat, i: nat, n: Row)
    requires TableValid(Grupos, rows, serial) && i < |rows|
    requires SameKey(Grupos, n, rows[i])
    ensures ClashFreeExcept(Grupos, rows, i, n)
  {
    forall j | 0 <= j < |rows| && j != i ensures !Conflict(Grupos, rows[j], n) {
      if j < i {
        assert !Conflict(Grupos, rows[j], rows[i]);
      } else {
        assert !Conflict(Grupos, rows[i], rows[j]);
      }
    }
  }

  /** Replacing seat count and link of an allocation is always accepted: the row
      keeps its key and well-typed values, and no column of the table is unique. */
  lemma AtualizacaoAceita(rows: seq<Row>, serial: nat, g: string, c: string, vagas: nat, link: string, now: int)
    requires TableValid(Grupos, rows, serial) && |Filter(rows, Where(Chave(g, c)))| == 1
    ensures UpdateOutcome(Grupos, rows, Chave(g, c), Campos(vagas, link), now)
            == Success(Some(Gravado(rows[MatchAt(rows, Chave(g, c))], vagas, link)))
  {
    var i := MatchAt(rows, Chave(g, c));
    var row := rows[i];
    assert Conforms(Grupos, row);
    var n := Gravado(row, vagas, link);
    AplicadoEhGravado(row, vagas, link, now);
    GravadoConforme(row, vagas, link);
    assert SameKey(Grupos, n, row);
    MesmaChaveSemConflito(rows, serial, i, n);
    UpdateAccepted(Grupos, rows, Chave(g, c), Campos(vagas, link), now, n);
  }

  /** A row of another (group, quota) pair does not clash with the new allocation. */
  lemma NovoSemConflito(row: Row, g: string, c: string, vagas: nat, link: string)
    requires Conforms(Grupos, row) && !Matches(row, Chave(g, c))
    ensures !Conflict(Grupos, row, Novo(g, c, vagas, link))
  {
    var d := Novo(g, c, vagas, link);
    ChaveCasa(row, g, c);
  }

  /** The new allocation dictionary is already a complete, well-typed row. */
  lemma NovoCompleto(g: string, c: string, vagas: nat, link: string, now: int, serial: nat)
    ensures Build(Grupos, Novo(g, c, vagas, link), now, serial) == Novo(g, c, vagas, link)
    ensures Conforms(Grupos, Novo(g, c, vagas, link))
  {
    var d := Novo(g, c, vagas, link);
    assert Build(Grupos, d, now, serial) == d;
  }

  /** No stored row of another pair clashes with the new allocation. */
  lemma NovoLivre(rows: seq<Row>, g: string, c: string, vagas: nat, link: string)
    requires forall i :: 0 <= i < |rows| ==> Conforms(Grupos, rows[i])
    requires |Filter(rows, Where(Chave(g, c)))| == 0
    ensures ClashFree(Grupos, rows, Novo(g, c, vagas, link))
  {
    forall i | 0 <= i < |rows| ensures !Conflict(Grupos, rows[i], Novo(g, c, vagas, link)) {
      assert !Where(Chave(g, c))(rows[i]);
      NovoSemConflito(rows[i], g, c, vagas, link);
    }
  }

  /** A new allocation for a pair the group does not have is always accepted. */
  lemma InsercaoAceita(rows: seq<Row>, serial: nat, g: string, c: string, vagas: nat, link: string, now: int)
    requires TableValid(Grupos, rows, serial) && |Filter(rows, Where(Chave(g, c)))| == 0
    ensures InsertOutcome(Grupos, rows, Novo(g, c, vagas, link), now, serial) == Success(Novo(g, c, vagas, link))
  {
    NovoCompleto(g, c, vagas, link, now, serial);
    NovoLivre(rows, g, c, vagas, link);
  }

  /** The `atualizarTabela` branch: the pair's allocation takes the new values. */
  method AtualizarAlocacao(db: Db, g: string, c: string, vagas: nat, link: string, now: int)
    requires db.Valid() && |Filter(db.tables[Grupos], Where(Chave(g, c)))| == 1
    modifies db
    ensures db.Valid() && db.serials == old(db.serials)
    ensures db.tables == old(db.tables)[Grupos := Upsert(old(db.tables[Grupos]), g, c, vagas, link)]
  {
    ghost var antes := db.tables[Grupos];
    ghost var k := MatchAt(antes, Chave(g, c));
    AtualizacaoAceita(antes, db.serials[Grupos], g, c, vagas, link, now);
    CamposSemChave(vagas, link);
    var r := db.Update(Grupos, Chave(g, c), Campos(vagas, link), now);
    assert Upsert(antes, g, c, vagas, link) == antes[k := Gravado(antes[k], vagas, link)];
  }

  /** The `inserirDados` branch: a new allocation is appended. */
  method InserirAlocacao(db: Db, g: string, c: string, vagas: nat, link: string, now: int)
    requires db.Valid() && |Filter(db.tables[Grupos], Where(Chave(g, c)))| == 0
    modifies db
    ensures db.Valid()
    ensures db.serials == old(db.serials)[Grupos := old(db.serials[Grupos]) + 1]
    ensures db.tables == old(db.tables)[Grupos := Upsert(old(db.tables[Grupos]), g, c, vagas, link)]
  {
    ghost var antes := db.tables[Grupos];
    InsercaoAceita(antes, db.serials[Grupos], g, c, vagas, link, now);
    NoSerials(Grupos);
    var r := db.Insert(Grupos, Novo(g, c, vagas, link), now);
    assert Upsert(antes, g, c, vagas, link) == antes + [Novo(g, c, vagas, link)];
  }

  /** `controle_de_grupo` on "Atualizar": updates the allocation of the coordinator's
      group for the chosen quota, or inserts it when there is none; both writes
      always succeed. */
  method ControleDeGrupo(conta: Usuario, db: Db, cota: string, vagas: nat, link: string, now: int)
    returns (aviso: Aviso)
    requires db.Valid() && cota in OpcoesCota
    modifies db
    ensures db.Valid()
    ensures |Filter(old(db.tables[Grupos]), Where(Chave(conta.grupo, cota)))| <= 1
    ensures db.tables == old(db.tables)[Grupos := Upsert(old(db.tables[Grupos]), conta.grupo, cota, vagas, link)]
    ensures db.serials == old(db.serials)[Grupos := db.serials[Grupos]]
    ensures aviso == if Select(Grupos, old(db.tables[Grupos]), Chave(conta.grupo, cota)) == []
                     then Sucesso(MsgInseridos) else Sucesso(MsgAtualizados)
  {
    NoMaximoUma(db.tables[Grupos], db.serials[Grupos], conta.grupo, cota);
    var registro := Select(Grupos, db.tables[Grupos], Chave(conta.grupo, cota));
    if registro != [] {
      AtualizarAlocacao(db, conta.grupo, cota, vagas, link, now);
      MapKeep(db.serials, Grupos);
      aviso := Sucesso(MsgAtualizados);
    } else {
      InserirAlocacao(db, conta.grupo, cota, vagas, link, now);
      aviso := Sucesso(MsgInseridos);
    }
  }
}

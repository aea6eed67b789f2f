/** The storage layer: the tables held by the database, the generic insert, update,
    delete and filtered lookup, the query for the users ahead in the queue, and the
    seeding done at first start-up. Errors the database or SQLAlchemy raise are
    `Failure` results that leave every table unchanged. */
module Database {
  import opened Wrappers
  import opened Schema
  import opened Seqs
  import Passwords

  datatype DbError =
    | InvalidKeyword          // a data key that is not a column of the table
    | NotNullViolation        // NULL in a NOT NULL column
    | TypeMismatch            // a value of the wrong type for its column
    | UniqueViolation         // a primary key or UNIQUE value already present
    | MultipleResultsFound    // `one_or_none` met more than one row

  /** The Python exceptions the modelled code can raise. */
  datatype Raised =
    | IndexError              // `[0]` on an empty list of records
    | KeyError                // a dictionary lookup with a missing key
    | AttributeError          // an attribute read on None
    | TypeError               // a call whose arguments do not fit the parameters
    | ImageError              // Pillow cannot identify the bytes as an image
    | Database(e: DbError)    // an error raised by the database

  const AllTables: set<TableName> := {Mensagens, Usuarios, Aprovados, Grupos, Documentos}

  lemma AllTablesListed(t: TableName)
    ensures t in AllTables
  {
  }

  /** The primary-key columns of each table. */
  lemma KeyNamesAre(t: TableName)
    ensures forall c :: c in KeyNames(t) <==>
      match t
      case Mensagens => c == IdMensagem
      case Usuarios => c == NInscr
      case Aprovados => c == NInscr
      case Grupos => c == Grupo || c == Cota
      case Documentos => c == IdDocumento
  {
  }

  /** The autoincremented columns of each table. */
  lemma SerialNamesAre(t: TableName)
    ensures forall c :: c in SerialNames(t) <==>
      match t
      case Mensagens => c == IdMensagem
      case Documentos => c == IdDocumento
      case _ => false
  {
    match t
    case Mensagens => SerialOnly(Mensagens, IdMensagem);
    case Documentos => SerialOnly(Documentos, IdDocumento);
    case Usuarios => NoSerials(Usuarios);
    case Aprovados => NoSerials(Aprovados);
    case Grupos => NoSerials(Grupos);
  }

  /** The messages' and the documents' tables each autoincrement exactly their id. */
  lemma SerialOnly(t: TableName, id: Col)
    requires (t == Mensagens && id == IdMensagem) || (t == Documentos && id == IdDocumento)
    ensures SerialNames(t) == {id}
  {
  }

  /** Users, the roster and the allocations have no autoincremented column. */
  lemma NoSerials(t: TableName)
    requires t != Mensagens && t != Documentos
    ensures SerialNames(t) == {}
  {
  }

  /** The only key column of the users' table is the registration number. */
  lemma UsuariosKey()
    ensures KeyNames(Usuarios) == {NInscr}
  {
  }

  /** A message or document row that carries the next id clashes with no stored row. */
  lemma FreshIdClashFree(t: TableName, rows: seq<Row>, serial: nat, r: Row, c: Col)
    requires (t == Mensagens && c == IdMensagem) || (t == Documentos && c == IdDocumento)
    requires TableValid(t, rows, serial) && c in r && r[c] == Number(serial)
    ensures ClashFree(t, rows, r)
  {
    assert c in SerialNames(t);
    forall i | 0 <= i < |rows| ensures !Conflict(t, rows[i], r) {
      assert rows[i][c].n < serial;
    }
  }

  /** Only `data_ultima_modificacao` of `usuarios` is refreshed on update. */
  lemma TouchedColumns(t: TableName, c: Col)
    requires c in Columns(t) && Columns(t)[c].touchedOnUpdate
    ensures t == Usuarios && c == DataUltimaModificacao
  {
  }

  /** Only `email` of `usuarios` is declared UNIQUE. */
  lemma UniqueColumns(t: TableName, c: Col)
    requires c in Columns(t) && Columns(t)[c].unique
    ensures t == Usuarios && c == Email
  {
  }

  /** The key comparison of `Conflict` is equality of the primary keys. */
  lemma SameKeyIsKeyOf(t: TableName, a: Row, b: Row)
    ensures SameKey(t, a, b) <==> KeyOf(t, a) == KeyOf(t, b)
  {
    KeyNamesAre(t);
    var ka, kb := KeyOf(t, a), KeyOf(t, b);
    if SameKey(t, a, b) {
      assert ka.Keys == kb.Keys;
      assert forall c :: c in ka ==> ka[c] == kb[c];
    }
    if ka == kb {
      forall c | c in KeyNames(t) ensures SameAt(a, b, c) {
        assert c in a <==> c in ka;
        assert c in b <==> c in kb;
      }
    }
  }

  /** The uniqueness comparison of `Conflict` is a clash on a column the schema
      declares UNIQUE. */
  lemma UniqueClashIsDeclared(t: TableName, a: Row, b: Row)
    ensures UniqueClash(t, a, b) <==>
              exists c :: c in Columns(t) && Columns(t)[c].unique && c in a && c in b && !a[c].Null? && a[c] == b[c]
  {
    if exists c :: c in Columns(t) && Columns(t)[c].unique && c in a && c in b && !a[c].Null? && a[c] == b[c] {
      var c :| c in Columns(t) && Columns(t)[c].unique && c in a && c in b && !a[c].Null? && a[c] == b[c];
      UniqueColumns(t, c);
    }
    if UniqueClash(t, a, b) {
      assert Email in Columns(t) && Columns(t)[Email].unique;
    }
  }

  // ----- insert (inserirDados) -----

  /** The value SQLAlchemy supplies for a column the data dictionary leaves out. */
  function Fill(c: Column, now: int, serial: nat): Value
  {
    match c.default
    case NoDefault => Null
    case Fixed(v) => v
    case CurrentTime => Time(now)
    case AutoIncrement => Number(serial)
  }

  /** `model_class(**data_dict)`: given columns take the given value, the others their default. */
  function Build(t: TableName, data: Row, now: int, serial: nat): (r: Row)
    ensures r.Keys == Columns(t).Keys
    ensures forall c :: c in data && c in Columns(t) ==> r[c] == data[c]
    ensures forall c :: c in Columns(t) && c !in data ==> r[c] == Fill(Columns(t)[c], now, serial)
  {
    map c | c in Columns(t) :: if c in data then data[c] else Fill(Columns(t)[c], now, serial)
  }

  /** Data that names every column is stored as given. */
  lemma BuildComplete(t: TableName, data: Row, now: int, serial: nat)
    requires data.Keys == Columns(t).Keys
    ensures Build(t, data, now, serial) == data
  {
  }

  predicate ClashFree(t: TableName, rows: seq<Row>, r: Row)
  {
    forall i :: 0 <= i < |rows| ==> !Conflict(t, rows[i], r)
  }

  /** What one insert of `data` does: the stored row, or the error that is raised. */
  function InsertOutcome(t: TableName, rows: seq<Row>, data: Row, now: int, serial: nat): (r: Result<Row, DbError>)
    ensures r.Success? <==>
              data.Keys <= Columns(t).Keys && Conforms(t, Build(t, data, now, serial))
              && ClashFree(t, rows, Build(t, data, now, serial))
    ensures r.Success? ==> Conforms(t, r.value) && ClashFree(t, rows, r.value)
                           && forall c :: c in data ==> c in r.value && r.value[c] == data[c]
  {
    if !(data.Keys <= Columns(t).Keys) then Failure(InvalidKeyword)
    else
      var r := Build(t, data, now, serial);
      if HasForbiddenNull(t, r) then Failure(NotNullViolation)
      else if !Conforms(t, r) then Failure(TypeMismatch)
      else if !ClashFree(t, rows, r) then Failure(UniqueViolation)
      else Success(r)
  }

  // ----- table invariant -----

  /** What the database guarantees of one table: every row has the declared columns
      and admissible values, no two rows share a key or a UNIQUE value, and every
      autoincremented id is below the next one the sequence hands out. */
  ghost predicate TableValid(t: TableName, rows: seq<Row>, serial: nat)
  {
    && (forall i :: 0 <= i < |rows| ==> Conforms(t, rows[i]))
    && PairsFree(t, rows)
    && SerialsBelow(t, rows, serial)
  }

  /** No two rows share a key or a UNIQUE value. */
  ghost predicate PairsFree(t: TableName, rows: seq<Row>)
  {
    forall i, j :: 0 <= i < j < |rows| ==> !Conflict(t, rows[i], rows[j])
  }

  /** Every autoincremented id is a number below the next one the sequence hands out. */
  ghost predicate SerialsBelow(t: TableName, rows: seq<Row>, serial: nat)
  {
    forall i, c :: 0 <= i < |rows| && c in SerialNames(t) ==>
      c in rows[i] && rows[i][c].Number? && rows[i][c].n < serial
  }

  lemma InsertKeepsValid(t: TableName, rows: seq<Row>, serial: nat, data: Row, now: int)
    requires TableValid(t, rows, serial)
    requires data.Keys !! SerialNames(t)
    requires InsertOutcome(t, rows, data, now, serial).Success?
    ensures TableValid(t, rows + [InsertOutcome(t, rows, data, now, serial).value], serial + 1)
  {
    var r: Row := InsertOutcome(t, rows, data, now, serial).value;
    AppendKeepsPairs(t, rows, r);
    var s: seq<Row> := rows + [r];
    forall i: int, c: Col | 0 <= i < |s| && c in SerialNames(t)
      ensures c in s[i] && s[i][c].Number? && s[i][c].n < serial + 1
    {
      if i == |rows| {
        assert c !in data;
        assert Columns(t)[c].default == AutoIncrement;
      } else {
        assert s[i] == rows[i];
      }
    }
  }

  /** Appending a row that clashes with no stored row keeps all pairs clash-free. */
  lemma AppendKeepsPairs(t: TableName, rows: seq<Row>, r: Row)
    requires PairsFree(t, rows) && ClashFree(t, rows, r)
    ensures PairsFree(t, rows + [r])
  {
    var s := rows + [r];
    forall a, b | 0 <= a < b < |s| ensures !Conflict(t, s[a], s[b]) {
      if b == |rows| {
        assert s[a] == rows[a] && !Conflict(t, rows[a], r);
      } else {
        assert s[a] == rows[a] && s[b] == rows[b];
      }
    }
  }

  /** In a valid `usuarios` table no two rows share a registration number or an e-mail. */
  lemma UsuariosUnique(rows: seq<Row>, serial: nat, i: nat, j: nat)
    requires TableValid(Usuarios, rows, serial) && i < j < |rows|
    ensures NInscr in rows[i] && NInscr in rows[j] && rows[i][NInscr] != rows[j][NInscr]
    ensures Email in rows[i] && Email in rows[j] && rows[i][Email] != rows[j][Email]
  {
    assert Conforms(Usuarios, rows[i]) && Conforms(Usuarios, rows[j]);
    assert !Conflict(Usuarios, rows[i], rows[j]);
    assert Fits(Columns(Usuarios)[Email], rows[i][Email]);
  }

  /** In a valid roster no two rows share a registration number. */
  lemma AprovadosUnique(rows: seq<Row>, serial: nat, i: nat, j: nat)
    requires TableValid(Aprovados, rows, serial) && i < j < |rows|
    ensures NInscr in rows[i] && NInscr in rows[j] && rows[i][NInscr] != rows[j][NInscr]
  {
    assert Conforms(Aprovados, rows[i]) && Conforms(Aprovados, rows[j]);
    assert !Conflict(Aprovados, rows[i], rows[j]);
  }

  /** In a valid allocation table no two rows share the pair (group, quota). */
  lemma GruposUnique(rows: seq<Row>, serial: nat, i: nat, j: nat)
    requires TableValid(Grupos, rows, serial) && i < j < |rows|
    ensures Grupo in rows[i] && Cota in rows[i] && Grupo in rows[j] && Cota in rows[j]
    ensures rows[i][Grupo] != rows[j][Grupo] || rows[i][Cota] != rows[j][Cota]
  {
    assert Conforms(Grupos, rows[i]) && Conforms(Grupos, rows[j]);
    assert !Conflict(Grupos, rows[i], rows[j]);
  }

  /** A user inserted without `role`, `cota` or `opcao_contato` gets the declared defaults. */
  lemma UsuarioDefaults(rows: seq<Row>, data: Row, now: int, serial: nat)
    requires InsertOutcome(Usuarios, rows, data, now, serial).Success?
    ensures var r := InsertOutcome(Usuarios, rows, data, now, serial).value;
            && (Role !in data ==> r[Role] == Text(DefaultRole))
            && (Cota !in data ==> r[Cota] == Text(DefaultQuota))
            && (OpcaoContato !in data ==> r[OpcaoContato] == Text(DefaultContact))
  {
  }

  /** `xs` without its element at position `i`. */
  function Without<T>(xs: seq<T>, i: nat): (r: seq<T>)
    requires i < |xs|
    ensures |r| == |xs| - 1
    ensures forall k :: 0 <= k < |r| ==> r[k] == if k < i then xs[k] else xs[k + 1]
  {
    xs[..i] + xs[i + 1..]
  }

  /** Removing a row keeps every remaining pair of rows clash-free. */
  lemma RemoveKeepsPairs(t: TableName, rows: seq<Row>, i: nat)
    requires i < |rows|
    requires PairsFree(t, rows)
    ensures PairsFree(t, Without(rows, i))
  {
    var s := Without(rows, i);
    forall a, b | 0 <= a < b < |s| ensures !Conflict(t, s[a], s[b]) {
      var a' := if a < i then a else a + 1;
      var b' := if b < i then b else b + 1;
      assert s[a] == rows[a'] && s[b] == rows[b'] && a' < b';
    }
  }

  lemma RemoveKeepsValid(t: TableName, rows: seq<Row>, serial: nat, i: nat)
    requires TableValid(t, rows, serial) && i < |rows|
    ensures TableValid(t, Without(rows, i), serial)
  {
    RemoveKeepsPairs(t, rows, i);
    RemoveKeepsSerials(t, rows, serial, i);
  }

  /** Removing a row keeps every remaining id below the counter. */
  lemma RemoveKeepsSerials(t: TableName, rows: seq<Row>, serial: nat, i: nat)
    requires i < |rows|
    requires SerialsBelow(t, rows, serial)
    ensures SerialsBelow(t, Without(rows, i), serial)
  {
    var s: seq<Row> := Without(rows, i);
    forall a: int, c: Col | 0 <= a < |s| && c in SerialNames(t)
      ensures c in s[a] && s[a][c].Number? && s[a][c].n < serial
    {
      var a' := if a < i then a else a + 1;
      assert s[a] == rows[a'];
    }
  }

  // ----- update (atualizarTabela) -----

  /** The test `filter_by(**filter)` applies to each row. */
  function Where(filter: Row): Row -> bool
  {
    (x: Row) => Matches(x, filter)
  }

  /** The columns named in `done` take the value of `update`; the rest keep theirs. */
  function Overlay(row: Row, update: Row, done: set<Col>): (r: Row)
    ensures r.Keys == row.Keys
  {
    map c | c in row :: if c in done && c in update then update[c] else row[c]
  }

  /** `onupdate=datetime.now`: the columns so declared take the flush time, unless the
      update itself assigns them. */
  function Touch(t: TableName, row: Row, update: Row, now: int): (r: Row)
    ensures r.Keys == row.Keys
  {
    map c | c in row :: if c in Columns(t) && Columns(t)[c].touchedOnUpdate && c !in update then Time(now) else row[c]
  }

  /** The record after every `setattr(record, key, value)` and the flush; a record
      whose values did not change is not written, so its timestamps stay. */
  function Applied(t: TableName, row: Row, update: Row, now: int): Row
  {
    var n := Overlay(row, update, update.Keys);
    if n == row then row else Touch(t, n, update, now)
  }

  /** An update whose values are admissible in their columns keeps a well-typed
      record well-typed, the refreshed timestamp included. */
  lemma AppliedConforms(t: TableName, row: Row, update: Row, now: int)
    requires Conforms(t, row)
    requires forall c :: c in update && c in row ==> Fits(Columns(t)[c], update[c])
    ensures Conforms(t, Applied(t, row, update, now))
  {
    var n := Overlay(row, update, update.Keys);
    forall c | c in n ensures Fits(Columns(t)[c], n[c]) {
      if c !in update {
        assert n[c] == row[c];
      }
    }
    if n != row {
      var m := Touch(t, n, update, now);
      forall c | c in m ensures Fits(Columns(t)[c], m[c]) {
        if c in Columns(t) && Columns(t)[c].touchedOnUpdate && c !in update {
          TouchedColumns(t, c);
        } else {
          assert m[c] == n[c];
        }
      }
    }
  }

  /** An update changes the named columns to their new values and, besides them,
      at most the modification timestamp; every other column keeps its value. */
  lemma UpdateChangesOnlyNamed(t: TableName, row: Row, update: Row, now: int)
    ensures Applied(t, row, update, now).Keys == row.Keys
    ensures forall c :: c in row && c in update ==> Applied(t, row, update, now)[c] == update[c]
    ensures forall c :: c in row && c !in update && !(c in Columns(t) && Columns(t)[c].touchedOnUpdate) ==>
              Applied(t, row, update, now)[c] == row[c]
    ensures (forall c :: c in update && c in row ==> row[c] == update[c]) ==> Applied(t, row, update, now) == row
  {
    var n := Overlay(row, update, update.Keys);
    if n == row {
      forall c | c in row && c in update ensures row[c] == update[c] {
        assert n[c] == update[c];
      }
    } else {
      assert exists c :: c in update && c in row && row[c] != update[c] by {
        var c :| c in row && n[c] != row[c];
      }
    }
  }

  /** The position of the record `one_or_none` returns when exactly one row matches. */
  function MatchAt(rows: seq<Row>, filter: Row): (i: nat)
    requires |Filter(rows, Where(filter))| == 1
    ensures i < |rows| && Matches(rows[i], filter)
    ensures forall j :: 0 <= j < |rows| && j != i ==> !Matches(rows[j], filter)
  {
    var hits := Filter(rows, Where(filter));
    assert hits[0] in rows && Where(filter)(hits[0]);
    var i := FirstIndex(rows, Where(filter));
    assert forall j :: 0 <= j < |rows| && j != i ==> !Matches(rows[j], filter) by {
      forall j | 0 <= j < |rows| && j != i ensures !Matches(rows[j], filter) {
        if Matches(rows[j], filter) && j > i {
          TwoHits(rows, Where(filter), i, j);
        }
      }
    }
    i
  }

  predicate ClashFreeExcept(t: TableName, rows: seq<Row>, i: nat, r: Row)
  {
    forall j :: 0 <= j < |rows| && j != i ==> !Conflict(t, rows[j], r)
  }

  /** What one `atualizarTabela` does: None when nothing matches, the updated record
      when exactly one does, or the error that is raised. */
  function UpdateOutcome(t: TableName, rows: seq<Row>, filter: Row, update: Row, now: int): (r: Result<Option<Row>, DbError>)
    ensures r == Success(None) <==> |Filter(rows, Where(filter))| == 0
    ensures r.Success? && r.value.Some? ==>
              |Filter(rows, Where(filter))| == 1
              && r.value.value == Applied(t, rows[MatchAt(rows, filter)], update, now)
              && Conforms(t, r.value.value) && ClashFreeExcept(t, rows, MatchAt(rows, filter), r.value.value)
  {
    var hits := Filter(rows, Where(filter));
    if |hits| == 0 then Success(None)
    else if |hits| > 1 then Failure(MultipleResultsFound)
    else
      var i := MatchAt(rows, filter);
      var n := Applied(t, rows[i], update, now);
      if HasForbiddenNull(t, n) then Failure(NotNullViolation)
      else if !Conforms(t, n) then Failure(TypeMismatch)
      else if !ClashFreeExcept(t, rows, i, n) then Failure(UniqueViolation)
      else Success(Some(n))
  }

  /** An update of the one matching row is accepted when the new record has no
      forbidden NULL, is well typed and clashes with no other row. */
  lemma UpdateAccepted(t: TableName, rows: seq<Row>, filter: Row, update: Row, now: int, n: Row)
    requires |Filter(rows, Where(filter))| == 1
    requires n == Applied(t, rows[MatchAt(rows, filter)], update, now)
    requires !HasForbiddenNull(t, n) && Conforms(t, n) && ClashFreeExcept(t, rows, MatchAt(rows, filter), n)
    ensures UpdateOutcome(t, rows, filter, update, now) == Success(Some(n))
  {
  }

  lemma ReplaceKeepsValid(t: TableName, rows: seq<Row>, serial: nat, i: nat, n: Row)
    requires TableValid(t, rows, serial) && i < |rows|
    requires Conforms(t, n) && ClashFreeExcept(t, rows, i, n)
    requires forall c :: c in SerialNames(t) ==> c in n && c in rows[i] && n[c] == rows[i][c]
    ensures TableValid(t, rows[i := n], serial)
  {
    ReplaceKeepsPairs(t, rows, i, n);
    var s: seq<Row> := rows[i := n];
    forall a: int, c: Col | 0 <= a < |s| && c in SerialNames(t)
      ensures c in s[a] && s[a][c].Number? && s[a][c].n < serial
    {
      if a != i {
        assert s[a] == rows[a];
      }
    }
  }

  /** Replacing row `i` by one that clashes with no other row keeps all pairs clash-free. */
  lemma ReplaceKeepsPairs(t: TableName, rows: seq<Row>, i: nat, n: Row)
    requires i < |rows|
    requires PairsFree(t, rows) && ClashFreeExcept(t, rows, i, n)
    ensures PairsFree(t, rows[i := n])
  {
    var s: seq<Row> := rows[i := n];
    forall a, b | 0 <= a < b < |s| ensures !Conflict(t, s[a], s[b]) {
      if b == i {
        assert !Conflict(t, rows[a], n);
      } else if a == i {
        assert !Conflict(t, rows[b], n);
      } else {
        assert s[a] == rows[a] && s[b] == rows[b];
      }
    }
  }

  // ----- filtered lookup and the queue query -----

  /** `retornarValor`: the rows whose columns equal every entry of the filter, in table order. */
  function Select(t: TableName, rows: seq<Row>, filter: Row): (r: seq<Row>)
    requires filter.Keys <= Columns(t).Keys
    ensures forall i :: 0 <= i < |r| ==> r[i] in rows && Matches(r[i], filter)
    ensures forall i :: 0 <= i < |rows| && Matches(rows[i], filter) ==> rows[i] in r
  {
    Filter(rows, Where(filter))
  }

  /** A row is strictly ahead of position `posicao` in the partition (`grupo`, `cota`). */
  predicate Ahead(r: Row, grupo: string, posicao: int, cota: string)
  {
    TextIs(r, Grupo, grupo) && NumberBelow(r, Posicao, posicao) && TextIs(r, Cota, cota)
  }

  function AheadOf(grupo: string, posicao: int, cota: string): Row -> bool
  {
    (r: Row) => Ahead(r, grupo, posicao, cota)
  }

  /** `retornarListaUsuariosNaFrente`: the registered users of the same group and quota
      with a strictly smaller position. */
  function UsuariosNaFrente(usuarios: seq<Row>, grupo: string, posicao: int, cota: string): (r: seq<Row>)
    ensures forall i :: 0 <= i < |r| ==> r[i] in usuarios && Ahead(r[i], grupo, posicao, cota)
    ensures forall i :: 0 <= i < |usuarios| && Ahead(usuarios[i], grupo, posicao, cota) ==> usuarios[i] in r
  {
    Filter(usuarios, AheadOf(grupo, posicao, cota))
  }

  // ----- roster import -----

  /** One line of the semicolon-separated roster file. */
  datatype RosterLine = RosterLine(nInscr: string, nome: string, posicao: int, grupo: string, cota: string)

  /** The roster file; `hasQuotaColumn` says whether it has a `cota` column at all. */
  datatype RosterFile = RosterFile(hasQuotaColumn: bool, lines: seq<RosterLine>)

  function ByInscr(n: string): Row
  {
    map[NInscr := Text(n)]
  }

  /** The row stored for one roster line; without a `cota` column the quota is "AC". */
  function RosterRow(f: RosterFile, l: RosterLine): (r: Row)
    ensures TextIs(r, NInscr, l.nInscr)
    ensures !f.hasQuotaColumn ==> TextIs(r, Cota, DefaultQuota)
  {
    map[NInscr := Text(l.nInscr), Nome := Text(l.nome), Posicao := Number(l.posicao),
        Grupo := Text(l.grupo), Cota := Text(if f.hasQuotaColumn then l.cota else DefaultQuota)]
  }

  /** Whether a table keyed by registration number (the roster or the users) already
      holds a row for this number: the filter `{'n_inscr': n}` selects something. */
  predicate Listed(rows: seq<Row>, n: string)
  {
    Filter(rows, Where(ByInscr(n))) != []
  }

  /** `_inserir_tabela_aprovados`: each line is inserted unless its number is already listed. */
  /** The roster after one line: unchanged when its registration number is listed,
      otherwise with the line's row appended. */
  function ImportOne(rows: seq<Row>, f: RosterFile, l: RosterLine): seq<Row>
  {
    if Listed(rows, l.nInscr) then rows else rows + [RosterRow(f, l)]
  }

  function Imported(rows: seq<Row>, f: RosterFile, lines: seq<RosterLine>): seq<Row>
    decreases |lines|
  {
    if lines == [] then rows
    else Imported(ImportOne(rows, f, lines[0]), f, lines[1..])
  }

  /** One step of the import, from position `k` of the lines. */
  lemma ImportStep(rows: seq<Row>, f: RosterFile, lines: seq<RosterLine>, k: nat)
    requires k < |lines|
    ensures Imported(rows, f, lines[k..]) == Imported(ImportOne(rows, f, lines[k]), f, lines[k + 1..])
  {
    assert lines[k..][0] == lines[k] && lines[k..][1..] == lines[k + 1..];
  }

  lemma ListedIff(rows: seq<Row>, n: string)
    ensures Listed(rows, n) <==> exists i :: 0 <= i < |rows| && Matches(rows[i], ByInscr(n))
  {
    if Listed(rows, n) {
      var s := Select(Aprovados, rows, ByInscr(n));
      assert s[0] in rows;
    }
  }

  /** A row carrying number `n` appended to a table makes `n` listed there. */
  lemma ListedAfterInsert(rows: seq<Row>, r: Row, n: string)
    requires NInscr in r && r[NInscr] == Text(n)
    ensures Listed(rows + [r], n)
  {
    assert Matches((rows + [r])[|rows|], ByInscr(n));
    ListedIff(rows + [r], n);
  }

  /** A committed insert of the default superuser lists its number. */
  lemma SuperuserListed(rows: seq<Row>, inscr: string, hashed: string, now: int, serial: nat)
    requires InsertOutcome(Usuarios, rows, SuperuserData(inscr, hashed), now, serial).Success?
    ensures Listed(rows + [InsertOutcome(Usuarios, rows, SuperuserData(inscr, hashed), now, serial).value], inscr)
  {
    var r := InsertOutcome(Usuarios, rows, SuperuserData(inscr, hashed), now, serial).value;
    assert NInscr in SuperuserData(inscr, hashed);
    ListedAfterInsert(rows, r, inscr);
  }

  lemma {:induction false} ListedGrows(rows: seq<Row>, extra: seq<Row>, n: string)
    requires Listed(rows, n)
    ensures Listed(rows + extra, n)
  {
    ListedIff(rows, n);
    ListedIff(rows + extra, n);
    var i :| 0 <= i < |rows| && Matches(rows[i], ByInscr(n));
    assert (rows + extra)[i] == rows[i];
  }

  /** The import keeps the rows it starts from as a prefix. */
  lemma {:induction false} ImportKeepsPrefix(rows: seq<Row>, f: RosterFile, lines: seq<RosterLine>)
    ensures |rows| <= |Imported(rows, f, lines)|
    ensures Imported(rows, f, lines)[..|rows|] == rows
    decreases |lines|
  {
    if lines != [] {
      var next := ImportOne(rows, f, lines[0]);
      ImportKeepsPrefix(next, f, lines[1..]);
      var out := Imported(next, f, lines[1..]);
      assert out == Imported(rows, f, lines);
      assert out[..|rows|] == out[..|next|][..|rows|];
    }
  }

  /** Every row the import adds is built from one of the lines. */
  lemma {:induction false} ImportAddsLines(rows: seq<Row>, f: RosterFile, lines: seq<RosterLine>)
    ensures forall k :: |rows| <= k < |Imported(rows, f, lines)| ==>
              exists l :: l in lines && Imported(rows, f, lines)[k] == RosterRow(f, l)
    decreases |lines|
  {
    if lines != [] {
      var l := lines[0];
      var next := ImportOne(rows, f, l);
      ImportAddsLines(next, f, lines[1..]);
      ImportKeepsPrefix(next, f, lines[1..]);
      var out := Imported(rows, f, lines);
      assert out == Imported(next, f, lines[1..]);
      forall k | |rows| <= k < |out| ensures exists l' :: l' in lines && out[k] == RosterRow(f, l') {
        if k < |next| {
          assert out[k] == out[..|next|][k] == RosterRow(f, l);
        } else {
          var l' :| l' in lines[1..] && out[k] == RosterRow(f, l');
          assert l' in lines;
        }
      }
    } else {
      assert Imported(rows, f, lines) == rows;
    }
  }

  /** The import only appends, and only rows built from roster lines. */
  lemma ImportAppends(rows: seq<Row>, f: RosterFile, lines: seq<RosterLine>)
    ensures |rows| <= |Imported(rows, f, lines)|
    ensures Imported(rows, f, lines)[..|rows|] == rows
    ensures forall k :: |rows| <= k < |Imported(rows, f, lines)| ==>
              exists l :: l in lines && Imported(rows, f, lines)[k] == RosterRow(f, l)
  {
    ImportKeepsPrefix(rows, f, lines);
    ImportAddsLines(rows, f, lines);
  }

  /** After one line its registration number is listed. */
  lemma ImportOneLists(rows: seq<Row>, f: RosterFile, l: RosterLine)
    ensures Listed(ImportOne(rows, f, l), l.nInscr)
  {
    if !Listed(rows, l.nInscr) {
      var next := rows + [RosterRow(f, l)];
      ListedIff(next, l.nInscr);
      assert Matches(next[|rows|], ByInscr(l.nInscr));
    }
  }

  /** A registration number listed before the import is listed after it. */
  lemma {:induction false} ImportKeepsListed(rows: seq<Row>, f: RosterFile, lines: seq<RosterLine>, n: string)
    requires Listed(rows, n)
    ensures Listed(Imported(rows, f, lines), n)
    decreases |lines|
  {
    if lines != [] {
      var next := ImportOne(rows, f, lines[0]);
      if next != rows {
        ListedGrows(rows, [RosterRow(f, lines[0])], n);
      }
      ImportKeepsListed(next, f, lines[1..], n);
    }
  }

  /** After the import every line's registration number is listed. */
  lemma {:induction false} ImportCovers(rows: seq<Row>, f: RosterFile, lines: seq<RosterLine>)
    ensures forall l :: l in lines ==> Listed(Imported(rows, f, lines), l.nInscr)
    decreases |lines|
  {
    if lines != [] {
      var l := lines[0];
      var next := ImportOne(rows, f, l);
      ImportOneLists(rows, f, l);
      ImportCovers(next, f, lines[1..]);
      ImportKeepsListed(next, f, lines[1..], l.nInscr);
      assert Imported(next, f, lines[1..]) == Imported(rows, f, lines);
      forall l' | l' in lines ensures Listed(Imported(rows, f, lines), l'.nInscr) {
        if l' != l {
          assert l' in lines[1..];
        }
      }
    }
  }

  /** Importing lines that are all listed already changes nothing. */
  lemma {:induction false} ImportNoop(rows: seq<Row>, f: RosterFile, lines: seq<RosterLine>)
    requires forall l :: l in lines ==> Listed(rows, l.nInscr)
    ensures Imported(rows, f, lines) == rows
    decreases |lines|
  {
    if lines != [] {
      ImportNoop(rows, f, lines[1..]);
    }
  }

  /** Running the roster import a second time adds nothing. */
  lemma ImportIdempotent(rows: seq<Row>, f: RosterFile)
    ensures Imported(Imported(rows, f, f.lines), f, f.lines) == Imported(rows, f, f.lines)
  {
    ImportCovers(rows, f, f.lines);
    ImportNoop(Imported(rows, f, f.lines), f, f.lines);
  }

  /** The seat allocations written at first start-up. */
  function SeedGroups(): seq<Row>
  {
    [ map[Grupo := Text("TI_RAIZ"), Cota := Text("AC"), QtdeVagas := Number(1), Link := Text("link sera mostrado p TI")],
      map[Grupo := Text("Auditor do Estado"), Cota := Text("AC"), QtdeVagas := Number(24), Link := Text("link sera mostrado p AE")],
      map[Grupo := Text("Auditor do Estado"), Cota := Text("Racial"), QtdeVagas := Number(3), Link := Text("link sera mostrado p AE")],
      map[Grupo := Text("Auditor do Estado"), Cota := Text("PcD"), QtdeVagas := Number(3), Link := Text("link sera mostrado p AE")] ]
  }

  const SuperuserGroup := "TI_RAIZ"
  const SuperuserRole := "superuser"

  /** The data dictionary of the default superuser. */
  function SuperuserData(inscr: string, hashed: string): (r: Row)
    ensures TextIs(r, Role, SuperuserRole) && TextIs(r, Grupo, SuperuserGroup)
    ensures Posicao in r && r[Posicao] == Number(0)
  {
    map[NInscr := Text(inscr), Posicao := Number(0), Nome := Text("SuperAdminPorrudão"),
        Senha := Text(hashed), Email := Text("procure_e_me_ache@exemplo.com"),
        Telefone := Text("000000000"), Grupo := Text(SuperuserGroup), Opcao := Text("Indeciso"),
        FormacaoAcademica := Null, Role := Text(SuperuserRole)]
  }

  /** The `setattr` loop: every key of `update` that is a column of the record takes
      its new value; a key that is not a column only sets a plain attribute. */
  method SetFields(row: Row, update: Row) returns (rec: Row)
    ensures rec == Overlay(row, update, update.Keys)
  {
    rec := row;
    var pending := update.Keys;
    while pending != {}
      invariant pending <= update.Keys
      invariant rec == Overlay(row, update, update.Keys - pending)
      decreases pending
    {
      var k :| k in pending;
      if k in rec {
        rec := rec[k := update[k]];
      }
      pending := pending - {k};
    }
  }

  /** The record after the `setattr` loop and the session flush, which stamps the
      modification time only when some value changed. */
  method Flush(t: TableName, row: Row, update: Row, now: int) returns (rec: Row)
    ensures rec == Applied(t, row, update, now)
  {
    rec := SetFields(row, update);
    if rec != row {
      rec := Touch(t, rec, update, now);
    }
  }

  /** An update that names no key column leaves the autoincremented ids as they were. */
  lemma UpdateKeepsSerials(t: TableName, row: Row, update: Row, now: int)
    requires update.Keys !! KeyNames(t)
    requires SerialNames(t) <= row.Keys
    ensures forall c :: c in SerialNames(t) ==> c in Applied(t, row, update, now)
                                                && Applied(t, row, update, now)[c] == row[c]
  {
    SerialsAreKeys(t);
    UpdateChangesOnlyNamed(t, row, update, now);
  }

  /** Every autoincremented column is a primary-key column that the flush never stamps. */
  lemma SerialsAreKeys(t: TableName)
    ensures forall c :: c in SerialNames(t) ==> c in KeyNames(t) && !Columns(t)[c].touchedOnUpdate
  {
  }

  lemma MapKeep<K, V>(m: map<K, V>, k: K)
    requires k in m
    ensures m[k := m[k]] == m
  {
  }

  lemma MapOverwrite<K, V>(m: map<K, V>, k: K, a: V, b: V)
    ensures m[k := a][k := b] == m[k := b]
  {
  }

  /** Every table is present, with its id counter, and keeps its invariant. */
  ghost predicate AllValid(tables: map<TableName, seq<Row>>, serials: map<TableName, nat>)
  {
    forall t: TableName :: t in tables && t in serials && TableValid(t, tables[t], serials[t])
  }

  /** Replacing one table and its counter by a valid pair keeps the database valid. */
  lemma SetTableKeepsValid(tables: map<TableName, seq<Row>>, serials: map<TableName, nat>,
                           t: TableName, rows: seq<Row>, serial: nat)
    requires AllValid(tables, serials) && TableValid(t, rows, serial)
    ensures AllValid(tables[t := rows], serials[t := serial])
  {
  }

  /** Appending an accepted insert and advancing the table's counter keeps every
      table valid. */
  lemma InsertKeepsAllValid(tables: map<TableName, seq<Row>>, serials: map<TableName, nat>,
                            t: TableName, data: Row, now: int)
    requires AllValid(tables, serials)
    requires data.Keys !! SerialNames(t)
    requires InsertOutcome(t, tables[t], data, now, serials[t]).Success?
    ensures AllValid(tables[t := tables[t] + [InsertOutcome(t, tables[t], data, now, serials[t]).value]],
                     serials[t := serials[t] + 1])
  {
    assert TableValid(t, tables[t], serials[t]);
    InsertKeepsValid(t, tables[t], serials[t], data, now);
    SetTableKeepsValid(tables, serials, t, tables[t] + [InsertOutcome(t, tables[t], data, now, serials[t]).value], serials[t] + 1);
  }

  /** Replacing the rows of one table by rows valid under its counter keeps the database valid. */
  lemma SetRowsKeepsValid(tables: map<TableName, seq<Row>>, serials: map<TableName, nat>,
                          t: TableName, rows: seq<Row>)
    requires AllValid(tables, serials) && TableValid(t, rows, serials[t])
    ensures AllValid(tables[t := rows], serials)
  {
  }

  /** Writing back an accepted update of row `i` keeps every table valid. */
  lemma UpdateKeepsValid(tables: map<TableName, seq<Row>>, serials: map<TableName, nat>,
                         t: TableName, i: nat, update: Row, now: int, rec: Row)
    requires AllValid(tables, serials) && i < |tables[t]|
    requires update.Keys !! KeyNames(t)
    requires rec == Applied(t, tables[t][i], update, now)
    requires Conforms(t, rec) && ClashFreeExcept(t, tables[t], i, rec)
    ensures AllValid(tables[t := tables[t][i := rec]], serials)
  {
    var rows := tables[t];
    assert TableValid(t, rows, serials[t]);
    assert Conforms(t, rows[i]);
    UpdateKeepsSerials(t, rows[i], update, now);
    ReplaceKeepsValid(t, rows, serials[t], i, rec);
    SetRowsKeepsValid(tables, serials, t, rows[i := rec]);
  }

  class Db {
    var tables: map<TableName, seq<Row>>
    var serials: map<TableName, nat>

    ghost predicate Valid()
      reads this
    {
      AllValid(tables, serials)
    }

    constructor ()
      ensures Valid()
      ensures forall t :: t in tables ==> tables[t] == []
    {
      tables := map t | t in AllTables :: [];
      serials := map t | t in AllTables :: 1;
      new;
      forall t: TableName ensures t in tables && t in serials && TableValid(t, tables[t], serials[t]) {
        AllTablesListed(t);
      }
    }

    /** `inserirDados`: adds exactly one row, or raises and changes nothing. */
    method Insert(t: TableName, data: Row, now: int) returns (r: Result<Row, DbError>)
      requires Valid()
      requires data.Keys !! SerialNames(t)
      modifies this
      ensures Valid()
      ensures r == InsertOutcome(t, old(tables[t]), data, now, old(serials[t]))
      ensures r.Success? ==> tables == old(tables)[t := old(tables[t]) + [r.value]]
                             && serials == old(serials)[t := old(serials[t]) + 1]
      ensures r.Failure? ==> tables == old(tables) && serials == old(serials)
    {
      r := InsertOutcome(t, tables[t], data, now, serials[t]);
      if r.Success? {
        InsertKeepsAllValid(tables, serials, t, data, now);
        tables := tables[t := tables[t] + [r.value]];
        serials := serials[t := serials[t] + 1];
      }
    }

    /** `atualizarTabela`: applies `update` field by field to the one matching record;
        the flush then refreshes the modification time and the commit checks the row. */
    method Update(t: TableName, filter: Row, update: Row, now: int) returns (r: Result<Option<Row>, DbError>)
      requires Valid()
      requires filter.Keys <= Columns(t).Keys
      requires update.Keys !! KeyNames(t)
      modifies this
      ensures Valid() && serials == old(serials)
      ensures r == UpdateOutcome(t, old(tables[t]), filter, update, now)
      ensures r.Success? && r.value.Some? ==>
                tables == old(tables)[t := old(tables[t])[MatchAt(old(tables[t]), filter) := r.value.value]]
      ensures !(r.Success? && r.value.Some?) ==> tables == old(tables)
    {
      var rows := tables[t];
      var hits := Filter(rows, Where(filter));
      if |hits| == 0 {
        return Success(None);
      }
      if |hits| > 1 {
        return Failure(MultipleResultsFound);
      }
      var i := MatchAt(rows, filter);
      var rec := Flush(t, rows[i], update, now);
      if HasForbiddenNull(t, rec) {
        return Failure(NotNullViolation);
      }
      if !Conforms(t, rec) {
        return Failure(TypeMismatch);
      }
      if !ClashFreeExcept(t, rows, i, rec) {
        return Failure(UniqueViolation);
      }
      UpdateAccepted(t, rows, filter, update, now, rec);
      UpdateKeepsValid(tables, serials, t, i, update, now, rec);
      tables := tables[t := rows[i := rec]];
      r := Success(Some(rec));
    }

    /** Removes the row at position `i` of table `t`. */
    method Delete(t: TableName, i: nat)
      requires Valid() && i < |tables[t]|
      modifies this
      ensures Valid() && serials == old(serials)
      ensures tables == old(tables)[t := Without(old(tables[t]), i)]
    {
      RemoveKeepsValid(t, tables[t], serials[t], i);
      SetRowsKeepsValid(tables, serials, t, Without(tables[t], i));
      tables := tables[t := Without(tables[t], i)];
    }

    /** `_inserir_tabela_aprovados`: imports the roster, skipping registration numbers
        that are already listed. */
    method InserirTabelaAprovados(f: RosterFile, now: int)
      requires Valid()
      modifies this
      ensures Valid()
      ensures tables == old(tables)[Aprovados := Imported(old(tables[Aprovados]), f, f.lines)]
      ensures serials[Usuarios] == old(serials[Usuarios])
    {
      ghost var target := Imported(tables[Aprovados], f, f.lines);
      var k := 0;
      assert f.lines[k..] == f.lines;
      while k < |f.lines|
        invariant Valid() && k <= |f.lines|
        invariant tables == old(tables)[Aprovados := tables[Aprovados]]
        invariant serials[Usuarios] == old(serials[Usuarios])
        invariant Imported(tables[Aprovados], f, f.lines[k..]) == target
      {
        ghost var before := tables[Aprovados];
        ImportStep(before, f, f.lines, k);
        ImportarLinha(f, f.lines[k], now);
        MapOverwrite(old(tables), Aprovados, before, tables[Aprovados]);
        k := k + 1;
      }
      assert f.lines[k..] == [];
    }

    /** One iteration of the import loop: the line is inserted unless its registration
        number is already listed. */
    method ImportarLinha(f: RosterFile, l: RosterLine, now: int)
      requires Valid()
      modifies this
      ensures Valid()
      ensures tables == old(tables)[Aprovados := ImportOne(old(tables[Aprovados]), f, l)]
      ensures serials[Usuarios] == old(serials[Usuarios])
    {
      var existing := Select(Aprovados, tables[Aprovados], ByInscr(l.nInscr));
      if existing == [] {
        RosterInsertSucceeds(tables[Aprovados], serials[Aprovados], f, l, now);
        NoSerials(Aprovados);
        var r := Insert(Aprovados, RosterRow(f, l), now);
      }
    }

    /** `_inserir_grupos`: writes the four seed allocations into the empty table. */
    method InserirGrupos(now: int)
      requires Valid() && tables[Grupos] == []
      modifies this
      ensures Valid()
      ensures tables == old(tables)[Grupos := SeedGroups()]
      ensures serials[Usuarios] == old(serials[Usuarios])
    {
      var seeds := SeedGroups();
      var k := 0;
      while k < |seeds|
        invariant Valid() && k <= |seeds|
        invariant tables == old(tables)[Grupos := seeds[..k]]
        invariant serials[Usuarios] == old(serials[Usuarios])
      {
        SeedInsertSucceeds(serials[Grupos], k, now);
        NoSerials(Grupos);
        var r := Insert(Grupos, seeds[k], now);
        assert seeds[..k + 1] == seeds[..k] + [seeds[k]];
        k := k + 1;
      }
      assert seeds[..k] == seeds;
    }

    /** `_verificar_superusuario_padrao`: creates the default superuser if its
        registration number is absent; the insert can still fail on a taken e-mail. */
    method VerificarSuperusuarioPadrao(inscr: string, senhaPadrao: string, crypto: Passwords.Crypto, salt: nat, now: int)
      returns (r: Result<bool, DbError>)
      requires Valid()
      modifies this
      ensures Valid()
      ensures forall t :: t != Usuarios ==> tables[t] == old(tables[t])
      ensures Listed(old(tables[Usuarios]), inscr) ==> r == Success(false) && tables == old(tables)
      ensures !Listed(old(tables[Usuarios]), inscr) ==>
                var o := InsertOutcome(Usuarios, old(tables[Usuarios]), SuperuserData(inscr, crypto.hash(senhaPadrao, salt)), now, old(serials[Usuarios]));
                (o.Success? ==> r == Success(true) && tables == old(tables)[Usuarios := old(tables[Usuarios]) + [o.value]])
                && (o.Failure? ==> r == Failure(o.error) && tables == old(tables))
      ensures r.Success? ==> Listed(tables[Usuarios], inscr)
    {
      var existing := Select(Usuarios, tables[Usuarios], ByInscr(inscr));
      if existing != [] {
        assert Listed(tables[Usuarios], inscr);
        return Success(false);
      }
      NoSerials(Usuarios);
      var data := SuperuserData(inscr, crypto.hash(senhaPadrao, salt));
      var o := Insert(Usuarios, data, now);
      if o.Success? {
        SuperuserListed(old(tables[Usuarios]), inscr, crypto.hash(senhaPadrao, salt), now, old(serials[Usuarios]));
        r := Success(true);
      } else {
        r := Failure(o.error);
      }
    }

    /** `create_all_tables_once`: seeds the roster and the allocations only when their
        tables are empty, then makes sure the default superuser exists. */
    method CreateAllTablesOnce(f: RosterFile, superInscr: string, senhaPadrao: string,
                               crypto: Passwords.Crypto, salt: nat, now: int)
      returns (r: Result<bool, DbError>)
      requires Valid()
      modifies this
      ensures Valid()
      ensures old(tables[Aprovados]) == [] ==> tables[Aprovados] == Imported([], f, f.lines)
      ensures old(tables[Aprovados]) != [] ==> tables[Aprovados] == old(tables[Aprovados])
      ensures old(tables[Grupos]) == [] ==> tables[Grupos] == SeedGroups()
      ensures old(tables[Grupos]) != [] ==> tables[Grupos] == old(tables[Grupos])
      ensures tables[Mensagens] == old(tables[Mensagens]) && tables[Documentos] == old(tables[Documentos])
      ensures Listed(old(tables[Usuarios]), superInscr) ==> r == Success(false) && tables[Usuarios] == old(tables[Usuarios])
      ensures !Listed(old(tables[Usuarios]), superInscr) ==>
                var o := InsertOutcome(Usuarios, old(tables[Usuarios]), SuperuserData(superInscr, crypto.hash(senhaPadrao, salt)),
                                       now, old(serials[Usuarios]));
                (o.Success? ==> r == Success(true) && tables[Usuarios] == old(tables[Usuarios]) + [o.value])
                && (o.Failure? ==> r == Failure(o.error) && tables[Usuarios] == old(tables[Usuarios]))
      ensures r.Success? ==> Listed(tables[Usuarios], superInscr)
    {
      ghost var m0 := tables;
      if tables[Aprovados] == [] {
        InserirTabelaAprovados(f, now);
      }
      ghost var m1 := tables;
      assert m1[Mensagens] == m0[Mensagens] && m1[Documentos] == m0[Documentos] && m1[Grupos] == m0[Grupos];
      if tables[Grupos] == [] {
        InserirGrupos(now);
      }
      ghost var m2 := tables;
      assert m2[Mensagens] == m1[Mensagens] && m2[Documentos] == m1[Documentos] && m2[Aprovados] == m1[Aprovados];
      assert m2[Usuarios] == m0[Usuarios];
      r := VerificarSuperusuarioPadrao(superInscr, senhaPadrao, crypto, salt, now);
    }
  }

  /** A roster row is complete and well typed as it stands, so no default is filled in. */
  lemma RosterRowComplete(f: RosterFile, l: RosterLine, now: int, serial: nat)
    ensures Build(Aprovados, RosterRow(f, l), now, serial) == RosterRow(f, l)
    ensures RosterRow(f, l).Keys <= Columns(Aprovados).Keys
    ensures !HasForbiddenNull(Aprovados, RosterRow(f, l)) && Conforms(Aprovados, RosterRow(f, l))
  {
    var d := RosterRow(f, l);
    assert d.Keys == Columns(Aprovados).Keys;
    BuildComplete(Aprovados, d, now, serial);
    assert Conforms(Aprovados, d);
    ConformsNoNull(Aprovados, d);
  }

  lemma RosterInsertSucceeds(rows: seq<Row>, serial: nat, f: RosterFile, l: RosterLine, now: int)
    requires TableValid(Aprovados, rows, serial)
    requires Select(Aprovados, rows, ByInscr(l.nInscr)) == []
    ensures InsertOutcome(Aprovados, rows, RosterRow(f, l), now, serial) == Success(RosterRow(f, l))
  {
    var d := RosterRow(f, l);
    RosterRowComplete(f, l, now, serial);
    forall i | 0 <= i < |rows| ensures !Conflict(Aprovados, rows[i], d) {
      assert !Matches(rows[i], ByInscr(l.nInscr));
    }
  }

  /** Each seed allocation is complete and well typed as it stands. */
  lemma SeedRowComplete(k: nat, now: int, serial: nat)
    requires k < |SeedGroups()|
    ensures Build(Grupos, SeedGroups()[k], now, serial) == SeedGroups()[k]
    ensures SeedGroups()[k].Keys <= Columns(Grupos).Keys
    ensures !HasForbiddenNull(Grupos, SeedGroups()[k]) && Conforms(Grupos, SeedGroups()[k])
  {
    assert SeedGroups()[k].Keys == Columns(Grupos).Keys;
  }

  /** The four seed allocations have pairwise different (group, quota) keys. */
  lemma SeedKeysDistinct(i: nat, k: nat)
    requires i < k < |SeedGroups()|
    ensures !Conflict(Grupos, SeedGroups()[i], SeedGroups()[k])
  {
    var seeds := SeedGroups();
    assert seeds[i][Grupo] != seeds[k][Grupo] || seeds[i][Cota] != seeds[k][Cota];
  }

  lemma SeedInsertSucceeds(serial: nat, k: nat, now: int)
    requires k < |SeedGroups()|
    ensures InsertOutcome(Grupos, SeedGroups()[..k], SeedGroups()[k], now, serial) == Success(SeedGroups()[k])
  {
    SeedRowComplete(k, now, serial);
    forall i | 0 <= i < k ensures !Conflict(Grupos, SeedGroups()[..k][i], SeedGroups()[k]) {
      SeedKeysDistinct(i, k);
    }
  }
}

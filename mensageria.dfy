/** Messages to the approved candidates: one stored row per (group, quota) pair of
    a submission, the listing newest first, deletion by id, and the rule that
    decides which messages a user is shown. */
module Mensageria {
  import opened Wrappers
  import opened Schema
  import opened Seqs
  import opened Database

  /** The fields one submission shares across all the rows it stores. */
  datatype Envio = Envio(titulo: string, conteudo: string, posicaoMin: int, posicaoMax: int, autor: string)

  /** The `nova_msg` dictionary for one (group, quota) pair. */
  function NovaMsg(e: Envio, g: string, c: string): Row
  {
    map[Grupo := Text(g), Cota := Text(c), PosicaoMin := Number(e.posicaoMin), PosicaoMax := Number(e.posicaoMax),
        Titulo := Text(e.titulo), Conteudo := Text(e.conteudo), Autor := Text(e.autor)]
  }

  /** The dictionaries of the inner loop: one group, every quota in order. */
  function Linha(e: Envio, g: string, cotas: seq<string>): (r: seq<Row>)
    ensures |r| == |cotas|
    ensures forall j :: 0 <= j < |cotas| ==> r[j] == NovaMsg(e, g, cotas[j])
  {
    seq(|cotas|, j requires 0 <= j < |cotas| => NovaMsg(e, g, cotas[j]))
  }

  /** The dictionaries of both loops: groups outer, quotas inner. */
  function FanOut(e: Envio, grupos: seq<string>, cotas: seq<string>): seq<Row>
    decreases |grupos|
  {
    if grupos == [] then [] else Linha(e, grupos[0], cotas) + FanOut(e, grupos[1..], cotas)
  }

  lemma {:induction false} FanOutSnoc(e: Envio, grupos: seq<string>, cotas: seq<string>, i: nat)
    requires i < |grupos|
    ensures FanOut(e, grupos[..i + 1], cotas) == FanOut(e, grupos[..i], cotas) + Linha(e, grupos[i], cotas)
  {
    if i == 0 {
      assert grupos[..1][1..] == [];
    } else {
      assert grupos[..i + 1][1..] == grupos[1..][..i];
      assert grupos[..i][1..] == grupos[1..][..i - 1];
      FanOutSnoc(e, grupos[1..], cotas, i - 1);
    }
  }

  lemma Distrib(i: int, n: int)
    ensures i * n == n + (i - 1) * n
  {
  }

  lemma IndexBound(i: int, j: int, n: int, m: int)
    requires 0 <= i < m && 0 <= j < n
    ensures 0 <= i * n + j < m * n
  {
    assert i * n <= (m - 1) * n;
    Distrib(m, n);
  }

  /** Exactly |grupos| × |cotas| dictionaries. */
  lemma {:induction false} FanOutLength(e: Envio, grupos: seq<string>, cotas: seq<string>)
    ensures |FanOut(e, grupos, cotas)| == |grupos| * |cotas|
  {
    if grupos != [] {
      FanOutLength(e, grupos[1..], cotas);
      Distrib(|grupos|, |cotas|);
    }
  }

  /** The dictionary at i·|cotas| + j is for the pair (grupos[i], cotas[j]). */
  lemma {:induction false} FanOutAt(e: Envio, grupos: seq<string>, cotas: seq<string>, i: nat, j: nat)
    requires i < |grupos| && j < |cotas|
    ensures i * |cotas| + j < |FanOut(e, grupos, cotas)|
    ensures FanOut(e, grupos, cotas)[i * |cotas| + j] == NovaMsg(e, grupos[i], cotas[j])
  {
    var n := |cotas|;
    FanOutLength(e, grupos, cotas);
    IndexBound(i, j, n, |grupos|);
    if i > 0 {
      FanOutAt(e, grupos[1..], cotas, i - 1, j);
      Distrib(i, n);
      assert grupos[1..][i - 1] == grupos[i];
    }
  }

  /** Every dictionary of a submission is for a pair of the Cartesian product and
      carries the shared fields. */
  lemma {:induction false} FanOutMembers(e: Envio, grupos: seq<string>, cotas: seq<string>, k: nat)
    requires k < |FanOut(e, grupos, cotas)|
    ensures exists i, j :: 0 <= i < |grupos| && 0 <= j < |cotas| && FanOut(e, grupos, cotas)[k] == NovaMsg(e, grupos[i], cotas[j])
  {
    var l := Linha(e, grupos[0], cotas);
    if k < |l| {
      assert FanOut(e, grupos, cotas)[k] == NovaMsg(e, grupos[0], cotas[k]);
    } else {
      FanOutMembers(e, grupos[1..], cotas, k - |l|);
      var i, j :| 0 <= i < |grupos[1..]| && 0 <= j < |cotas|
                  && FanOut(e, grupos[1..], cotas)[k - |l|] == NovaMsg(e, grupos[1..][i], cotas[j]);
      assert FanOut(e, grupos, cotas)[k] == NovaMsg(e, grupos[i + 1], cotas[j]);
    }
  }

  /** The mask of `exibir_mensagens_usuario`: same group, same quota, and the
      position within [posicao_min, posicao_max]. */
  predicate Destinada(m: Row, grupo: string, posicao: int, cota: string)
  {
    && TextIs(m, Grupo, grupo) && TextIs(m, Cota, cota)
    && PosicaoMin in m && m[PosicaoMin].Number? && m[PosicaoMin].n <= posicao
    && PosicaoMax in m && m[PosicaoMax].Number? && posicao <= m[PosicaoMax].n
  }

  /** A submission reaches a user only if the user's group is among its groups, the
      user's quota among its quotas, and the position within its range. */
  lemma FanOutReachesOnly(e: Envio, grupos: seq<string>, cotas: seq<string>, grupo: string, posicao: int, cota: string, k: nat)
    requires k < |FanOut(e, grupos, cotas)| && Destinada(FanOut(e, grupos, cotas)[k], grupo, posicao, cota)
    ensures grupo in grupos && cota in cotas && e.posicaoMin <= posicao <= e.posicaoMax
  {
    FanOutMembers(e, grupos, cotas, k);
    var i, j :| 0 <= i < |grupos| && 0 <= j < |cotas| && FanOut(e, grupos, cotas)[k] == NovaMsg(e, grupos[i], cotas[j]);
    assert grupos[i] == grupo && cotas[j] == cota;
  }

  /** Conversely, a user of one of the groups and quotas, within the range, is
      reached by the row for their pair. */
  lemma FanOutReachesAll(e: Envio, grupos: seq<string>, cotas: seq<string>, grupo: string, posicao: int, cota: string)
    requires grupo in grupos && cota in cotas && e.posicaoMin <= posicao <= e.posicaoMax
    ensures exists k :: 0 <= k < |FanOut(e, grupos, cotas)| && Destinada(FanOut(e, grupos, cotas)[k], grupo, posicao, cota)
  {
    var i :| 0 <= i < |grupos| && grupos[i] == grupo;
    var j :| 0 <= j < |cotas| && cotas[j] == cota;
    FanOutAt(e, grupos, cotas, i, j);
    assert Destinada(FanOut(e, grupos, cotas)[i * |cotas| + j], grupo, posicao, cota);
  }

  /** Nothing relates the two bounds: a submission with posicao_min > posicao_max is
      stored all the same and reaches nobody. */
  lemma EmptyRangeReachesNobody(e: Envio, grupos: seq<string>, cotas: seq<string>, grupo: string, posicao: int, cota: string, k: nat)
    requires e.posicaoMin > e.posicaoMax && k < |FanOut(e, grupos, cotas)|
    ensures !Destinada(FanOut(e, grupos, cotas)[k], grupo, posicao, cota)
  {
    FanOutMembers(e, grupos, cotas, k);
  }

  /** Stored rows hold every entry of the dictionaries they were inserted from. */
  ghost predicate Carries(rows: seq<Row>, datas: seq<Row>)
  {
    |rows| == |datas| && forall k, c :: 0 <= k < |rows| && c in datas[k] ==> c in rows[k] && rows[k][c] == datas[k][c]
  }

  lemma CarriesSnoc(rows: seq<Row>, datas: seq<Row>, r: Row, d: Row)
    requires Carries(rows, datas)
    requires forall c :: c in d ==> c in r && r[c] == d[c]
    ensures Carries(rows + [r], datas + [d])
  {
  }

  /** The stored row of a message: the dictionary, the next id and the time. */
  lemma MensagemRowComplete(e: Envio, g: string, c: string, now: int, serial: nat)
    ensures Build(Mensagens, NovaMsg(e, g, c), now, serial)
         == NovaMsg(e, g, c)[IdMensagem := Number(serial)][DataCriacao := Time(now)]
    ensures NovaMsg(e, g, c).Keys <= Columns(Mensagens).Keys
  {
    var r := Build(Mensagens, NovaMsg(e, g, c), now, serial);
    assert r.Keys == NovaMsg(e, g, c)[IdMensagem := Number(serial)][DataCriacao := Time(now)].Keys;
  }

  /** One more stored row, carrying the next dictionary, extends what the rows
      after the prefix `before` carry. */
  lemma CarriesStep(before: seq<Row>, m0: seq<Row>, r: Row, datas: seq<Row>, j: nat)
    requires |before| <= |m0| && m0[..|before|] == before
    requires j < |datas| && Carries(m0[|before|..], datas[..j])
    requires forall c :: c in datas[j] ==> c in r && r[c] == datas[j][c]
    ensures (m0 + [r])[..|before|] == before
    ensures Carries((m0 + [r])[|before|..], datas[..j + 1])
  {
    assert (m0 + [r])[|before|..] == m0[|before|..] + [r];
    assert datas[..j + 1] == datas[..j] + [datas[j]];
    CarriesSnoc(m0[|before|..], datas[..j], r, datas[j]);
  }

  /** The rows one more group appended after `m0` extend what the rows after the
      prefix `before` carry by that group's line. */
  lemma CarriesGroupStep(before: seq<Row>, m0: seq<Row>, m1: seq<Row>, e: Envio,
                         grupos: seq<string>, cotas: seq<string>, i: nat)
    requires i < |grupos|
    requires |before| <= |m0| <= |m1| && m0[..|before|] == before && m1[..|m0|] == m0
    requires Carries(m0[|before|..], FanOut(e, grupos[..i], cotas))
    requires Carries(m1[|m0|..], Linha(e, grupos[i], cotas))
    ensures m1[..|before|] == before
    ensures Carries(m1[|before|..], FanOut(e, grupos[..i + 1], cotas))
  {
    assert m1[|before|..] == m0[|before|..] + m1[|m0|..];
    CarriesAppend(m0[|before|..], FanOut(e, grupos[..i], cotas), m1[|m0|..], Linha(e, grupos[i], cotas));
    FanOutSnoc(e, grupos, cotas, i);
  }

  lemma CarriesAppend(a: seq<Row>, d: seq<Row>, b: seq<Row>, f: seq<Row>)
    requires Carries(a, d) && Carries(b, f)
    ensures Carries(a + b, d + f)
  {
    forall k, c | 0 <= k < |a + b| && c in (d + f)[k] ensures c in (a + b)[k] && (a + b)[k][c] == (d + f)[k][c] {
      if k >= |a| {
        assert (a + b)[k] == b[k - |a|] && (d + f)[k] == f[k - |a|];
      }
    }
  }

  /** A message dictionary never names the autoincremented id. */
  lemma NovaMsgSemSerial(e: Envio, g: string, c: string)
    ensures NovaMsg(e, g, c).Keys !! SerialNames(Mensagens)
  {
    SerialNamesAre(Mensagens);
  }

  /** Every message insert succeeds: its id is new and every other column is given
      or defaulted. */
  lemma MensagemInsertSucceeds(rows: seq<Row>, serial: nat, e: Envio, g: string, c: string, now: int)
    requires TableValid(Mensagens, rows, serial)
    ensures InsertOutcome(Mensagens, rows, NovaMsg(e, g, c), now, serial).Success?
  {
    var r := Build(Mensagens, NovaMsg(e, g, c), now, serial);
    MensagemRowComplete(e, g, c, now, serial);
    assert Conforms(Mensagens, r);
    FreshIdClashFree(Mensagens, rows, serial, r, IdMensagem);
  }

  // ----- listing -----

  /** The creation time of a message, or None for NULL. */
  function Carimbo(m: Row): Option<int>
  {
    if DataCriacao in m && m[DataCriacao].Time? then Some(m[DataCriacao].t) else None
  }

  /** `a` may be listed before `b` by `sort_values('data_criacao', ascending=False)`:
      a later time first, NULL times last. */
  predicate MaisRecente(a: Row, b: Row)
  {
    Carimbo(b).None? || (Carimbo(a).Some? && Carimbo(a).value >= Carimbo(b).value)
  }

  predicate Decrescente(s: seq<Row>)
  {
    forall i, j :: 0 <= i < j < |s| ==> MaisRecente(s[i], s[j])
  }

  /** Putting in front a message at least as recent as all the others keeps the order. */
  lemma PrependOrdered(x: Row, s: seq<Row>)
    requires Decrescente(s)
    requires forall k :: 0 <= k < |s| ==> MaisRecente(x, s[k])
    ensures Decrescente([x] + s)
  {
    var r := [x] + s;
    forall i, j | 0 <= i < j < |r| ensures MaisRecente(r[i], r[j]) {
      if i > 0 {
        assert r[i] == s[i - 1] && r[j] == s[j - 1];
      } else {
        assert r[j] == s[j - 1];
      }
    }
  }

  /** A message more recent than the head of an ordered list is more recent than all of it. */
  lemma BeatsHead(x: Row, s: seq<Row>)
    requires Decrescente(s) && s != [] && MaisRecente(x, s[0])
    ensures forall k :: 0 <= k < |s| ==> MaisRecente(x, s[k])
  {
    forall k | 0 < k < |s| ensures MaisRecente(x, s[k]) {
      assert MaisRecente(s[0], s[k]);
    }
  }

  /** The head of an ordered list stays ahead of the rest after `x`, which it beats,
      joins that rest. */
  lemma HeadBeatsInserted(s: seq<Row>, x: Row, rest: seq<Row>)
    requires Decrescente(s) && s != [] && !MaisRecente(x, s[0])
    requires multiset(rest) == multiset(s[1..]) + multiset{x}
    ensures forall k :: 0 <= k < |rest| ==> MaisRecente(s[0], rest[k])
  {
    forall k | 0 <= k < |rest| ensures MaisRecente(s[0], rest[k]) {
      assert rest[k] in multiset(rest);
      if rest[k] != x {
        assert rest[k] in multiset(s[1..]);
        var m :| 0 <= m < |s[1..]| && s[1..][m] == rest[k];
        assert MaisRecente(s[0], s[m + 1]);
      }
    }
  }

  function Inserir(x: Row, s: seq<Row>): (r: seq<Row>)
    requires Decrescente(s)
    ensures Decrescente(r) && multiset(r) == multiset(s) + multiset{x}
  {
    if s == [] then [x]
    else if MaisRecente(x, s[0]) then
      BeatsHead(x, s);
      PrependOrdered(x, s);
      [x] + s
    else
      var rest := Inserir(x, s[1..]);
      assert s == [s[0]] + s[1..];
      HeadBeatsInserted(s, x, rest);
      PrependOrdered(s[0], rest);
      [s[0]] + rest
  }

  function Ordenar(s: seq<Row>): (r: seq<Row>)
    ensures Decrescente(r) && multiset(r) == multiset(s)
  {
    if s == [] then []
    else
      assert s == [s[0]] + s[1..];
      Inserir(s[0], Ordenar(s[1..]))
  }

  /** `listar_mensagens`: every message, newest first. */
  function ListarMensagens(mensagens: seq<Row>): (r: seq<Row>)
    ensures Decrescente(r) && multiset(r) == multiset(mensagens)
  {
    if mensagens == [] then mensagens else Ordenar(mensagens)
  }

  /** The first message listed is at least as recent as every stored message. */
  lemma ListarPrimeiroMaisNovo(mensagens: seq<Row>, m: Row)
    requires m in mensagens
    ensures ListarMensagens(mensagens) != [] && MaisRecente(ListarMensagens(mensagens)[0], m)
  {
    var r := ListarMensagens(mensagens);
    assert m in multiset(mensagens);
    assert m in multiset(r);
    var k :| 0 <= k < |r| && r[k] == m;
    if k > 0 {
      assert MaisRecente(r[0], r[k]);
    }
  }

  /** A valid message table holds each id at most once. */
  lemma IdsDistinct(rows: seq<Row>, serial: nat, i: nat, j: nat)
    requires TableValid(Mensagens, rows, serial) && i < j < |rows|
    ensures IdMensagem in rows[i] && IdMensagem in rows[j] && rows[i][IdMensagem] != rows[j][IdMensagem]
  {
    assert Conforms(Mensagens, rows[i]) && Conforms(Mensagens, rows[j]);
    assert !Conflict(Mensagens, rows[i], rows[j]);
  }

  function IdFiltro(id: int): Row
  {
    map[IdMensagem := Number(id)]
  }

  /** Deleting the row found for an id leaves no row with that id; `Without` keeps
      every other row, in order. */
  lemma DeletarRemoveSoEsse(rows: seq<Row>, serial: nat, id: int, i: nat)
    requires TableValid(Mensagens, rows, serial)
    requires i < |rows| && Matches(rows[i], IdFiltro(id))
    ensures forall k :: 0 <= k < |Without(rows, i)| ==> !Matches(Without(rows, i)[k], IdFiltro(id))
  {
    var w := Without(rows, i);
    assert IdMensagem in IdFiltro(id);
    assert rows[i][IdMensagem] == Number(id);
    forall k | 0 <= k < |w| ensures !Matches(w[k], IdFiltro(id)) {
      var k' := if k < i then k else k + 1;
      assert w[k] == rows[k'];
      if k' < i {
        IdsDistinct(rows, serial, k', i);
      } else {
        IdsDistinct(rows, serial, i, k');
      }
    }
  }

  /** The messaging service over the database. */
  class Mensageria {
    const db: Db

    constructor (db: Db)
      ensures this.db == db
    {
      this.db := db;
    }

    /** One `inserirDados` of the inner loop: exactly one row is appended, and it
        holds every entry of the message dictionary. */
    method InserirUma(e: Envio, g: string, c: string, now: int) returns (ghost r: Row)
      requires db.Valid()
      modifies db
      ensures db.Valid()
      ensures db.tables == old(db.tables)[Mensagens := old(db.tables[Mensagens]) + [r]]
      ensures forall k :: k in NovaMsg(e, g, c) ==> k in r && r[k] == NovaMsg(e, g, c)[k]
    {
      MensagemInsertSucceeds(db.tables[Mensagens], db.serials[Mensagens], e, g, c, now);
      NovaMsgSemSerial(e, g, c);
      var o := db.Insert(Mensagens, NovaMsg(e, g, c), now);
      r := o.value;
    }

    /** The inner loop of `criar_mensagem`: one row for each quota, in order. */
    method InserirLinha(e: Envio, g: string, cotas: seq<string>, now: int)
      requires db.Valid()
      modifies db
      ensures db.Valid()
      ensures db.tables == old(db.tables)[Mensagens := db.tables[Mensagens]]
      ensures |db.tables[Mensagens]| >= |old(db.tables[Mensagens])|
      ensures db.tables[Mensagens][..|old(db.tables[Mensagens])|] == old(db.tables[Mensagens])
      ensures Carries(db.tables[Mensagens][|old(db.tables[Mensagens])|..], Linha(e, g, cotas))
    {
      ghost var before := db.tables[Mensagens];
      var j := 0;
      while j < |cotas|
        invariant db.Valid() && j <= |cotas|
        invariant db.tables == old(db.tables)[Mensagens := db.tables[Mensagens]]
        invariant |db.tables[Mensagens]| >= |before| && db.tables[Mensagens][..|before|] == before
        invariant Carries(db.tables[Mensagens][|before|..], Linha(e, g, cotas)[..j])
      {
        ghost var m0 := db.tables[Mensagens];
        ghost var r := InserirUma(e, g, cotas[j], now);
        CarriesStep(before, m0, r, Linha(e, g, cotas), j);
        j := j + 1;
      }
      assert Linha(e, g, cotas)[..j] == Linha(e, g, cotas);
    }

    /** `criar_mensagem`: inserts one row per (group, quota) pair, groups outer and
        quotas inner; every other table is untouched. */
    method CriarMensagem(e: Envio, grupos: seq<string>, cotas: seq<string>, now: int)
      requires db.Valid()
      modifies db
      ensures db.Valid()
      ensures db.tables == old(db.tables)[Mensagens := db.tables[Mensagens]]
      ensures |db.tables[Mensagens]| == |old(db.tables[Mensagens])| + |grupos| * |cotas|
      ensures db.tables[Mensagens][..|old(db.tables[Mensagens])|] == old(db.tables[Mensagens])
      ensures Carries(db.tables[Mensagens][|old(db.tables[Mensagens])|..], FanOut(e, grupos, cotas))
    {
      ghost var before := db.tables[Mensagens];
      var i := 0;
      while i < |grupos|
        invariant db.Valid() && i <= |grupos|
        invariant db.tables == old(db.tables)[Mensagens := db.tables[Mensagens]]
        invariant |db.tables[Mensagens]| >= |before| && db.tables[Mensagens][..|before|] == before
        invariant Carries(db.tables[Mensagens][|before|..], FanOut(e, grupos[..i], cotas))
      {
        ghost var m0 := db.tables[Mensagens];
        InserirLinha(e, grupos[i], cotas, now);
        CarriesGroupStep(before, m0, db.tables[Mensagens], e, grupos, cotas, i);
        i := i + 1;
      }
      assert grupos[..i] == grupos;
      FanOutLength(e, grupos, cotas);
    }

    /** `deletar_mensagem`: removes the first row with this id and answers True, or
        answers False and changes nothing. */
    method DeletarMensagem(id: int) returns (ok: bool)
      requires db.Valid()
      modifies db
      ensures db.Valid()
      ensures ok <==> exists k :: 0 <= k < |old(db.tables[Mensagens])| && Matches(old(db.tables[Mensagens])[k], IdFiltro(id))
      ensures ok ==> db.tables == old(db.tables)[Mensagens := Without(old(db.tables[Mensagens]), FirstIndex(old(db.tables[Mensagens]), Where(IdFiltro(id))))]
      ensures !ok ==> db.tables == old(db.tables)
    {
      var hits := Filter(db.tables[Mensagens], Where(IdFiltro(id)));
      if hits == [] {
        return false;
      }
      assert hits[0] in db.tables[Mensagens] && Where(IdFiltro(id))(hits[0]);
      var i := FirstIndex(db.tables[Mensagens], Where(IdFiltro(id)));
      db.Delete(Mensagens, i);
      ok := true;
    }
  }
}

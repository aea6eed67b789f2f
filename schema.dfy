/** The five tables of the application as declared with SQLAlchemy: every column's
    type, nullability, default, primary-key and uniqueness flags. A row is the
    dictionary `{column: value}` that the queries hand back. */
module Schema {

  /** Values stored in a column; `Time` is a timestamp as an abstract integer and
      `Null` is SQL NULL (Python's None). */
  datatype Value = Text(s: string) | Number(n: int) | Time(t: int) | Bytes(b: seq<bv8>) | Null

  datatype Kind = TextKind | IntKind | TimeKind | BytesKind

  /** A column default: none, a constant, `datetime.now`, or an autoincremented id. */
  datatype Default = NoDefault | Fixed(v: Value) | CurrentTime | AutoIncrement

  datatype Column = Column(kind: Kind, nullable: bool, default: Default, primaryKey: bool,
                           unique: bool, touchedOnUpdate: bool)

  datatype TableName = Mensagens | Usuarios | Aprovados | Grupos | Documentos

  /** The column names used by the five tables. */
  datatype Col =
    | IdMensagem | Grupo | Cota | PosicaoMin | PosicaoMax | Titulo | Conteudo | DataCriacao | Autor
    | NInscr | Posicao | Nome | Senha | Email | Telefone | FormacaoAcademica | DataUltimaModificacao
    | Opcao | Role | OpcaoContato | QtdeVagas | Link | IdDocumento | NomeArquivo | DataUpload

  type Row = map<Col, Value>

  // Default column values of the schema.
  const DefaultQuota := "AC"
  const DefaultRole := "usuario"
  const DefaultContact := "Não desejo receber"

  function Plain(k: Kind, nullable: bool): Column
  {
    Column(k, nullable, NoDefault, false, false, false)
  }

  function Defaulted(k: Kind, nullable: bool, d: Default): Column
  {
    Column(k, nullable, d, false, false, false)
  }

  function KeyColumn(k: Kind, d: Default): Column
  {
    Column(k, false, d, true, false, false)
  }

  /** The declared columns of each table. */
  function Columns(t: TableName): map<Col, Column>
  {
    match t
    case Mensagens =>
      map[IdMensagem := KeyColumn(IntKind, AutoIncrement),
          Grupo := Plain(TextKind, false),
          Cota := Defaulted(TextKind, false, Fixed(Text(DefaultQuota))),
          PosicaoMin := Plain(IntKind, false),
          PosicaoMax := Plain(IntKind, false),
          Titulo := Plain(TextKind, false),
          Conteudo := Plain(TextKind, false),
          DataCriacao := Defaulted(TimeKind, true, CurrentTime),
          Autor := Plain(TextKind, false)]
    case Usuarios =>
      map[NInscr := KeyColumn(TextKind, NoDefault),
          Posicao := Plain(IntKind, false),
          Nome := Plain(TextKind, false),
          Senha := Plain(TextKind, false),
          Email := Column(TextKind, false, NoDefault, false, true, false),
          Telefone := Plain(TextKind, true),
          Grupo := Plain(TextKind, false),
          FormacaoAcademica := Plain(TextKind, true),
          DataCriacao := Defaulted(TimeKind, false, CurrentTime),
          DataUltimaModificacao := Column(TimeKind, false, CurrentTime, false, false, true),
          Opcao := Plain(TextKind, false),
          Role := Defaulted(TextKind, true, Fixed(Text(DefaultRole))),
          Cota := Defaulted(TextKind, true, Fixed(Text(DefaultQuota))),
          OpcaoContato := Defaulted(TextKind, true, Fixed(Text(DefaultContact)))]
    case Aprovados =>
      map[NInscr := KeyColumn(TextKind, NoDefault),
          Posicao := Plain(IntKind, false),
          Nome := Plain(TextKind, false),
          Grupo := Plain(TextKind, false),
          Cota := Defaulted(TextKind, false, Fixed(Text(DefaultQuota)))]
    case Grupos =>
      map[Grupo := KeyColumn(TextKind, NoDefault),
          QtdeVagas := Plain(IntKind, false),
          Link := Plain(TextKind, false),
          Cota := KeyColumn(TextKind, Fixed(Text(DefaultQuota)))]
    case Documentos =>
      map[IdDocumento := KeyColumn(IntKind, AutoIncrement),
          NInscr := Plain(TextKind, false),
          NomeArquivo := Plain(TextKind, false),
          Conteudo := Plain(BytesKind, false),
          DataUpload := Defaulted(TimeKind, false, CurrentTime)]
  }

  function KindOf(v: Value): Kind
    requires !v.Null?
  {
    match v
    case Text(_) => TextKind
    case Number(_) => IntKind
    case Time(_) => TimeKind
    case Bytes(_) => BytesKind
  }

  /** A value is admissible in a column: NULL only where nullable, otherwise of the column's type. */
  predicate Fits(c: Column, v: Value)
  {
    if v.Null? then c.nullable else KindOf(v) == c.kind
  }

  /** A row has exactly the table's columns, each holding an admissible value. */
  predicate Conforms(t: TableName, r: Row)
  {
    r.Keys == Columns(t).Keys && forall c :: c in r ==> Fits(Columns(t)[c], r[c])
  }

  /** A NULL in a NOT NULL column, the first thing the database refuses. */
  predicate HasForbiddenNull(t: TableName, r: Row)
  {
    exists c :: c in r && c in Columns(t) && r[c].Null? && !Columns(t)[c].nullable
  }

  /** A row of admissible values has no NULL where the schema forbids one. */
  lemma ConformsNoNull(t: TableName, r: Row)
    requires Conforms(t, r)
    ensures !HasForbiddenNull(t, r)
  {
  }

  function KeyNames(t: TableName): set<Col>
  {
    set c | c in Columns(t) && Columns(t)[c].primaryKey
  }

  /** Columns filled from a sequence when the caller gives no value. */
  function SerialNames(t: TableName): set<Col>
  {
    set c | c in Columns(t) && Columns(t)[c].default == AutoIncrement
  }

  function KeyOf(t: TableName, r: Row): map<Col, Value>
  {
    map c | c in KeyNames(t) && c in r :: r[c]
  }

  /** `a` and `b` agree on column `c`: both lack it, or both hold the same value. */
  predicate SameAt(a: Row, b: Row, c: Col)
  {
    (c in a <==> c in b) && (c in a ==> a[c] == b[c])
  }

  /** Two rows with the same primary key, column by column over the key columns
      each table declares (the ones `KeyNames` collects). */
  predicate SameKey(t: TableName, a: Row, b: Row)
  {
    match t
    case Mensagens => SameAt(a, b, IdMensagem)
    case Usuarios => SameAt(a, b, NInscr)
    case Aprovados => SameAt(a, b, NInscr)
    case Grupos => SameAt(a, b, Grupo) && SameAt(a, b, Cota)
    case Documentos => SameAt(a, b, IdDocumento)
  }

  /** Two rows share a non-NULL value in a UNIQUE column; `email` of `usuarios` is
      the only such column the schema declares. */
  predicate UniqueClash(t: TableName, a: Row, b: Row)
  {
    t == Usuarios && Email in a && Email in b && !a[Email].Null? && a[Email] == b[Email]
  }

  /** Two rows that the database refuses to hold together. */
  predicate Conflict(t: TableName, a: Row, b: Row)
  {
    SameKey(t, a, b) || UniqueClash(t, a, b)
  }

  /** `filter_by(**filter)`: every entry of the filter equals the row's column. */
  predicate Matches(r: Row, filter: Row)
  {
    forall k :: k in filter ==> k in r && r[k] == filter[k]
  }

  /** The text in a column, or "" when the column is absent or not text. */
  function TextAt(r: Row, c: Col): string
  {
    if c in r && r[c].Text? then r[c].s else ""
  }

  /** The integer in a column, or 0 when the column is absent or not an integer. */
  function NumberAt(r: Row, c: Col): int
  {
    if c in r && r[c].Number? then r[c].n else 0
  }

  /** pandas `df[c] == s` on one row: false for NULL and for a missing column. */
  predicate TextIs(r: Row, c: Col, s: string)
  {
    c in r && r[c] == Text(s)
  }

  /** pandas `df[c] < p` on one row: false for NULL. */
  predicate NumberBelow(r: Row, c: Col, p: int)
  {
    c in r && r[c].Number? && r[c].n < p
  }
}

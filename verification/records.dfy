/**
 The dataset's row: one (entity, share class) pair of the CNMV register of
 venture-capital and closed-end collective-investment entities, as the
 dashboard holds it after loading (date columns already parsed; an
 unparseable or empty cell is `None`).
 */
module Records {
  import opened Optional

  /** A calendar day as `pd.to_datetime(..., format='%d/%m/%Y')` yields it. */
  datatype Date = Date(year: int, month: int, day: int)

  /** Chronological order of days (pandas compares the parsed timestamps). */
  predicate DateLe(a: Date, b: Date) {
    a.year < b.year
    || (a.year == b.year && a.month < b.month)
    || (a.year == b.year && a.month == b.month && a.day <= b.day)
  }

  /** A `to_period('M')` bucket. */
  datatype YearMonth = YearMonth(year: int, month: int)

  predicate MonthLe(a: YearMonth, b: YearMonth) {
    a.year < b.year || (a.year == b.year && a.month <= b.month)
  }

  function MonthOf(d: Date): YearMonth {
    YearMonth(d.year, d.month)
  }

  datatype Record = Record(
    name: Option<string>,           // entity_name
    kind: string,                   // entity_type
    gestora: Option<string>,        // gestora_nombre: managing company
    depositaria: Option<string>,    // depositaria_nombre: custodian
    registered: Option<Date>,       // fecha_registro
    lastProspectus: Option<Date>,   // fecha_ultimo_folleto
    isin: Option<string>,
    prospectusUrl: Option<string>,  // folleto_url
    denominacion: Option<string>,   // share-class name
    numero: Option<string>,         // share-class number
    fechaAlta: Option<string>,      // class registration date, kept as text
    dfi: Option<string>)

  /** The table's columns. */
  datatype Column =
    | EntityName | EntityType | Gestora | Depositaria
    | FechaRegistro | FechaUltimoFolleto | Isin | FolletoUrl
    | Denominacion | Numero | FechaAlta | Dfi

  /** One table cell; `Missing` is NaN / NaT. */
  datatype Cell = Missing | Text(text: string) | Day(date: Date)

  function TextCell(v: Option<string>): Cell {
    if v.Some? then Text(v.value) else Missing
  }

  function DateCell(v: Option<Date>): Cell {
    if v.Some? then Day(v.value) else Missing
  }

  /** `row[column]`. */
  function Field(r: Record, c: Column): Cell {
    match c
    case EntityName => TextCell(r.name)
    case EntityType => Text(r.kind)
    case Gestora => TextCell(r.gestora)
    case Depositaria => TextCell(r.depositaria)
    case FechaRegistro => DateCell(r.registered)
    case FechaUltimoFolleto => DateCell(r.lastProspectus)
    case Isin => TextCell(r.isin)
    case FolletoUrl => TextCell(r.prospectusUrl)
    case Denominacion => TextCell(r.denominacion)
    case Numero => TextCell(r.numero)
    case FechaAlta => TextCell(r.fechaAlta)
    case Dfi => TextCell(r.dfi)
  }

  /** The column's header in the CSV file. */
  function ColumnName(c: Column): string {
    match c
    case EntityName => "entity_name"
    case EntityType => "entity_type"
    case Gestora => "gestora_nombre"
    case Depositaria => "depositaria_nombre"
    case FechaRegistro => "fecha_registro"
    case FechaUltimoFolleto => "fecha_ultimo_folleto"
    case Isin => "isin"
    case FolletoUrl => "folleto_url"
    case Denominacion => "denominacion"
    case Numero => "numero"
    case FechaAlta => "fecha_alta"
    case Dfi => "dfi"
  }

  /** Columns that vary between the share classes of one entity. */
  predicate ClassSpecific(c: Column) {
    c in {Denominacion, Numero, Isin, FechaAlta, Dfi}
  }

  /** `row[cols]`: the cells of the given columns, in that order. */
  function Key(r: Record, cols: seq<Column>): (k: seq<Cell>)
    ensures |k| == |cols|
    ensures forall i :: 0 <= i < |cols| ==> k[i] == Field(r, cols[i])
  {
    seq(|cols|, i requires 0 <= i < |cols| => Field(r, cols[i]))
  }

  /** `df[cols]` as a list of rows. */
  function Project(rows: seq<Record>, cols: seq<Column>): (p: seq<seq<Cell>>)
    ensures |p| == |rows|
    ensures forall i :: 0 <= i < |rows| ==> p[i] == Key(rows[i], cols)
  {
    seq(|rows|, i requires 0 <= i < |rows| => Key(rows[i], cols))
  }

  lemma ProjectCons(rows: seq<Record>, cols: seq<Column>)
    requires rows != []
    ensures Project(rows, cols) == [Key(rows[0], cols)] + Project(rows[1..], cols)
  {
    var p, q := Project(rows, cols), Project(rows[1..], cols);
    assert forall i :: 0 <= i < |q| ==> p[i + 1] == q[i];
  }

  /** `df[column]`: one cell per row. */
  function Cells(rows: seq<Record>, c: Column): (r: seq<Cell>)
    ensures |r| == |rows|
    ensures forall i :: 0 <= i < |rows| ==> r[i] == Field(rows[i], c)
  {
    seq(|rows|, i requires 0 <= i < |rows| => Field(rows[i], c))
  }

  /** `df['entity_name']`. */
  function EntityNames(rows: seq<Record>): (v: seq<Option<string>>)
    ensures |v| == |rows|
    ensures forall i :: 0 <= i < |rows| ==> v[i] == rows[i].name
  {
    seq(|rows|, i requires 0 <= i < |rows| => rows[i].name)
  }

  /** `df['fecha_registro']`. */
  function Registrations(rows: seq<Record>): (v: seq<Option<Date>>)
    ensures |v| == |rows|
    ensures forall i :: 0 <= i < |rows| ==> v[i] == rows[i].registered
  {
    seq(|rows|, i requires 0 <= i < |rows| => rows[i].registered)
  }

  /** `df['gestora_nombre']`. */
  function Gestoras(rows: seq<Record>): (v: seq<Option<string>>)
    ensures |v| == |rows|
    ensures forall i :: 0 <= i < |rows| ==> v[i] == rows[i].gestora
  {
    seq(|rows|, i requires 0 <= i < |rows| => rows[i].gestora)
  }

  /** `df['depositaria_nombre']`. */
  function Depositarias(rows: seq<Record>): (v: seq<Option<string>>)
    ensures |v| == |rows|
    ensures forall i :: 0 <= i < |rows| ==> v[i] == rows[i].depositaria
  {
    seq(|rows|, i requires 0 <= i < |rows| => rows[i].depositaria)
  }

  /** The entity types dropped when the dataset is loaded. */
  const ExcludedTypes: seq<string> := [
    "Gestora de entidades de inversión de tipo cerrado",
    "Fondo de inversión a largo plazo europeo"
  ]

  /** Sentinel of the entity-type selector meaning "no filter". */
  const AllTypes: string := "Todos"

  /** Sentinel of the manager and depositary selectors meaning "no filter". */
  const AllNames: string := "Todas"
}

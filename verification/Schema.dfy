/** Field metadata, the values a query carries, and the rows a query is evaluated on. */
module Schema {
  import opened Kleene
  import opened Outcomes

  datatype Dialect = SQLite | MySQL | Postgres

  datatype FieldType = StringType | IntType | BoolType | TimestampType

  datatype FieldKind = Scalar | BoolColumn | JsonBool | JsonExists | JsonList | VirtualAlias

  datatype CompareOp = Eq | Neq | Lt | Lte | Gt | Gte

  datatype Field = Field(kind: FieldKind, typ: FieldType, aliasFor: string, supportsContains: bool,
                         allowedOps: Option<set<CompareOp>>)

  /** A schema maps an exposed identifier to its field. */
  type Fields = map<string, Field>

  /** A literal of the filter language, an SQL argument, or a column value. */
  datatype Value = Null | Bool(b: bool) | Int(n: int) | Double(d: real) | Str(s: string)

  /** What the JSON path of a flag holds; the stored message declares flags boolean. */
  datatype Json = Absent | JsonNull | JsonTruth(b: bool)

  /** Whether the JSON path of any other entry holds a value. */
  datatype Entry = NoEntry | NullEntry | Present

  /** One table row, as the operands of a filter see it. Column expressions, date parts and
      JSON paths are looked up by field name. */
  datatype Row = Row(
    scalar: string -> Value,
    flag: string -> Value,
    json: string -> Json,
    entry: string -> Entry,
    tags: string -> Option<seq<string>>,
    part: (string, string) -> Value)

  /** The parts of a database server that the filter engine relies on without defining them:
      case folding of one character, string ordering, and regular expressions. */
  datatype Database = Database(
    fold: char -> char,
    orders: (CompareOp, string, string) -> bool,
    regex: (string, string) -> bool)
  {
    /** Case folding leaves the LIKE metacharacters alone and never produces one. */
    ghost predicate FoldKeepsMeta() {
      forall c: char :: (c in ['\\', '%', '_'] || fold(c) in ['\\', '%', '_']) ==> fold(c) == c
    }
  }

  /** A missing tag list reads as the empty list (COALESCE to an empty array). */
  function TagsOf(row: Row, list: string): seq<string> {
    match row.tags(list)
    case None => []
    case Some(tags) => tags
  }

  predicate IsNumber(v: Value) {
    v.Int? || v.Bool?
  }

  function NumberOf(v: Value): int
    requires IsNumber(v)
  {
    match v
    case Int(n) => n
    case Bool(b) => if b then 1 else 0
  }

  predicate Ordered(op: CompareOp, a: int, b: int) {
    match op
    case Eq => a == b
    case Neq => a != b
    case Lt => a < b
    case Lte => a <= b
    case Gt => a > b
    case Gte => a >= b
  }

  /** SQL comparison: NULL on either side gives UNKNOWN. */
  function Compare(db: Database, op: CompareOp, a: Value, b: Value): Truth {
    if IsNumber(a) && IsNumber(b) then OfBool(Ordered(op, NumberOf(a), NumberOf(b)))
    else if a.Str? && b.Str? then OfBool(db.orders(op, a.s, b.s))
    else Unknown
  }

  /** SQL membership: the disjunction of the equalities. */
  function Among(db: Database, a: Value, vs: seq<Value>): Truth {
    if vs == [] then False else Or(Compare(db, Eq, a, vs[0]), Among(db, a, vs[1..]))
  }

  function Fold(db: Database, s: string): string {
    seq(|s|, i requires 0 <= i < |s| => db.fold(s[i]))
  }
}

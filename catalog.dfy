/** The relational backend behind `Arison::Core`: the catalog of tables and
    their columns that the generated DDL changes, and the bulk inserts it
    receives. The DDL text that lib/arison/core.rb builds and evaluates is
    represented by its structure. */
module Catalog {
  import opened Values

  /** A column's declared type: the primary key every created table gets, a
      type the engine declared, or a native type of a table made elsewhere. */
  datatype SqlType = PrimaryKey | Declared(t: ColumnType) | Native(name: string)

  /** A catalog column: its name, its type and the top-level `limit` entry of
      its serialised form, which is what `get_limit_hash` reads (nil: absent). */
  datatype Column = Column(name: string, sqlType: SqlType, limit: Option<nat>)

  /** One `t.<type> "<name>"` line of a CREATE TABLE block. */
  datatype ColumnDef = ColumnDef(name: string, columnType: ColumnType)

  /** `create_table "<table>" do |t| ... end`; a None line is the empty line a
      nil schema entry leaves in the joined text. */
  datatype CreateTableDsl = CreateTableDsl(table: string, lines: seq<Option<ColumnDef>>)

  /** `add_column "<table>", "<column>", :<type>`; a None type leaves the bare
      `:` that Ruby refuses to evaluate. */
  datatype AddColumnDsl = AddColumnDsl(table: string, column: string, columnType: Option<ColumnType>)

  /** A model instance built for one record: the sanitized attributes it was
      given, and whether assigning them raised no error. */
  datatype Instance = Instance(attempted: Record, assignmentOk: bool)

  /** One bulk insert: the instances handed to the backend in one call. */
  datatype Batch = Batch(table: string, instances: seq<Instance>)

  function Names(cols: seq<Column>): (ns: seq<string>)
    ensures |ns| == |cols|
    ensures forall i :: 0 <= i < |cols| ==> ns[i] == cols[i].name
  {
    if cols == [] then [] else [cols[0].name] + Names(cols[1..])
  }

  function NameSet(cols: seq<Column>): (s: set<string>)
    ensures forall n :: n in s <==> exists i :: 0 <= i < |cols| && cols[i].name == n
  {
    set c | c in cols :: c.name
  }

  predicate Distinct(ns: seq<string>) {
    forall i, j :: 0 <= i < j < |ns| ==> ns[i] != ns[j]
  }

  /** The lines of a CREATE TABLE block that declare a column, in order. */
  function Defined(lines: seq<Option<ColumnDef>>): (ds: seq<ColumnDef>)
    ensures |ds| <= |lines|
  {
    if lines == [] then []
    else (if lines[0].Some? then [lines[0].value] else []) + Defined(lines[1..])
  }

  /** The column a declaration creates; string columns get whatever `limit`
      entry the backend reports for such a column. */
  function ColumnOf(d: ColumnDef, stringLimit: Option<nat>): Column {
    Column(d.name, Declared(d.columnType), if d.columnType == StringType then stringLimit else None)
  }

  function ColumnsOf(ds: seq<ColumnDef>, stringLimit: Option<nat>): (cs: seq<Column>)
    ensures |cs| == |ds|
    ensures forall i :: 0 <= i < |ds| ==> cs[i] == ColumnOf(ds[i], stringLimit)
  {
    seq(|ds|, i requires 0 <= i < |ds| => ColumnOf(ds[i], stringLimit))
  }

  /** The columns a CREATE TABLE block yields: the `id` primary key, then the
      declared lines in order. */
  function CreatedColumns(dsl: CreateTableDsl, stringLimit: Option<nat>): seq<Column> {
    [Column("id", PrimaryKey, None)] + ColumnsOf(Defined(dsl.lines), stringLimit)
  }

  class Database {
    /** Every table's columns, in catalog order. */
    var tables: map<string, seq<Column>>
    /** The bulk inserts the backend has accepted, in order. */
    var inserted: seq<Batch>
    /** The `limit` entry the backend reports for a `string` column declared
        without one; None where the serialised column has no such entry. */
    const stringLimit: Option<nat>
    /** Whether the backend accepts a bulk insert (false: it raises). */
    const acceptsBatch: Batch -> bool

    constructor (stringLimit: Option<nat>, acceptsBatch: Batch -> bool)
      ensures tables == map[] && inserted == []
      ensures this.stringLimit == stringLimit && this.acceptsBatch == acceptsBatch
    {
      tables := map[];
      inserted := [];
      this.stringLimit := stringLimit;
      this.acceptsBatch := acceptsBatch;
    }

    /** `data_source_exists?` */
    predicate DataSourceExists(table: string)
      reads this
    {
      table in tables
    }

    /** Evaluating a CREATE TABLE block: refused when the table exists or two
      of its columns share a name; otherwise the table appears with exactly
      the block's columns. */
    method RunCreateTable(dsl: CreateTableDsl) returns (ok: bool)
      modifies this
      ensures ok <==> dsl.table !in old(tables) && Distinct(Names(CreatedColumns(dsl, stringLimit)))
      ensures ok ==> tables == old(tables)[dsl.table := CreatedColumns(dsl, stringLimit)]
      ensures !ok ==> tables == old(tables)
      ensures inserted == old(inserted)
    {
      var cols := CreatedColumns(dsl, stringLimit);
      ok := dsl.table !in tables && Distinct(Names(cols));
      if ok {
        tables := tables[dsl.table := cols];
      }
    }

    /** Evaluating an `add_column` line: refused when the type is missing, the
      table is missing or the column exists; otherwise the column is appended
      and every other column stays as it was. */
    method RunAddColumn(dsl: AddColumnDsl) returns (ok: bool)
      modifies this
      ensures ok <==> dsl.columnType.Some? && dsl.table in old(tables)
                      && dsl.column !in NameSet(old(tables)[dsl.table])
      ensures ok ==> tables == old(tables)[dsl.table :=
        old(tables)[dsl.table] + [ColumnOf(ColumnDef(dsl.column, dsl.columnType.value), stringLimit)]]
      ensures !ok ==> tables == old(tables)
      ensures inserted == old(inserted)
    {
      ok := dsl.columnType.Some? && dsl.table in tables && dsl.column !in NameSet(tables[dsl.table]);
      if ok {
        var col := ColumnOf(ColumnDef(dsl.column, dsl.columnType.value), stringLimit);
        tables := tables[dsl.table := tables[dsl.table] + [col]];
      }
    }

    /** `klass.import(block)`: the backend records the batch, or raises. */
    method BulkInsert(b: Batch) returns (ok: bool)
      modifies this
      ensures ok == acceptsBatch(b)
      ensures inserted == if ok then old(inserted) + [b] else old(inserted)
      ensures tables == old(tables)
    {
      ok := acceptsBatch(b);
      if ok {
        inserted := inserted + [b];
      }
    }
  }
}

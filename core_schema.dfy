/** The schema side of lib/arison/core.rb: the column-limit hash, the column
    list of a CREATE TABLE block, the `add_column` lines, and the additive
    plan that `add_column_live` carries out record by record. */
module CoreSchema {
  import opened Values
  import opened Catalog
  import Util
  import CoreUtil

  /** How a `Core` method ends: normally, or with the exception it raises. */
  datatype Failure =
    | UndefinedTable   // the table's columns were read but the table is missing
    | NoFirstRecord    // `get_column_schema(nil)`: there is no first record
    | NotAHash         // `record.keys` on a [key, value] pair of a bare Hash
    | DdlRejected      // evaluating a generated DDL block raised
    | BatchRejected(index: nat)  // the bulk insert of that chunk raised
  datatype Outcome = Done | Raised(failure: Failure)

  /** The `data` argument: an Array of records, or one bare Hash. */
  datatype Input = Records(records: seq<Record>) | OneHash(record: Record)

  // ---------------------------------------------------------------------------
  // get_limit_hash

  /** `get_limit_hash`: folds the table's columns into name -> limit, a later
      column overwriting an earlier one of the same name. */
  function LimitHash(cols: seq<Column>): (limits: map<string, Option<nat>>)
    ensures limits.Keys == NameSet(cols)
  {
    if cols == [] then map[]
    else
      var last := cols[|cols| - 1];
      assert NameSet(cols) == NameSet(cols[..|cols| - 1]) + {last.name} by {
        assert forall c :: c in cols <==> c in cols[..|cols| - 1] || c == last;
      }
      LimitHash(cols[..|cols| - 1])[last.name := last.limit]
  }

  /** Every column's limit is in the hash unless a later column of the same
      name replaced it. */
  lemma {:induction false} LimitHashOf(cols: seq<Column>, i: nat)
    requires i < |cols|
    requires forall j :: i < j < |cols| ==> cols[j].name != cols[i].name
    ensures cols[i].name in LimitHash(cols) && LimitHash(cols)[cols[i].name] == cols[i].limit
  {
    if i < |cols| - 1 {
      LimitHashOf(cols[..|cols| - 1], i);
    }
  }

  /** When no column carries a `limit` entry, every key's limit is nil. */
  lemma {:induction false} LimitHashUnlimited(cols: seq<Column>)
    requires forall i :: 0 <= i < |cols| ==> cols[i].limit == None
    ensures forall k :: LimitOf(LimitHash(cols), k) == None
  {
    if cols != [] {
      var init, last := cols[..|cols| - 1], cols[|cols| - 1];
      LimitHashUnlimited(init);
      assert LimitHash(cols) == LimitHash(init)[last.name := None];
      forall k ensures LimitOf(LimitHash(cols), k) == None {
        if k != last.name {
          assert LimitOf(LimitHash(cols), k) == LimitOf(LimitHash(init), k);
        }
      }
    }
  }

  /** `limits[k]`: the limit, or nil for a key that is not a column. */
  function LimitOf(limits: map<string, Option<nat>>, k: string): Option<nat> {
    if k in limits then limits[k] else None
  }

  // ---------------------------------------------------------------------------
  // get_column_schema, get_create_table_dsl, get_add_column_dsl

  /** `get_column_schema`: one entry per field of the record, nil where
      core.rb's `get_type` gives no type. */
  function ColumnSchema(hash: Record, toTime: TimeParser): (entries: seq<Option<ColumnDef>>)
    ensures |entries| == |hash|
    ensures forall i :: 0 <= i < |hash| ==>
      (entries[i].None? <==> CoreUtil.GetType(hash[i].key, hash[i].value, toTime).None?)
    ensures forall i :: 0 <= i < |hash| && entries[i].Some? ==>
      entries[i].value == ColumnDef(hash[i].key, CoreUtil.GetType(hash[i].key, hash[i].value, toTime).value)
  {
    seq(|hash|, i requires 0 <= i < |hash| =>
      var t := CoreUtil.GetType(hash[i].key, hash[i].value, toTime);
      if t.None? then None else Some(ColumnDef(hash[i].key, t.value)))
  }

  const CREATED_AT := ColumnDef("created_at", DatetimeType)
  const UPDATED_AT := ColumnDef("updated_at", DatetimeType)

  /** `get_create_table_dsl`: the schema entries of the first record, then
      `created_at`, then `updated_at`. */
  function GetCreateTableDsl(table: string, hash: Record, toTime: TimeParser): (dsl: CreateTableDsl)
    ensures dsl.table == table && |dsl.lines| == |hash| + 2
    ensures dsl.lines[..|hash|] == ColumnSchema(hash, toTime)
    ensures dsl.lines[|hash|] == Some(CREATED_AT) && dsl.lines[|hash| + 1] == Some(UPDATED_AT)
  {
    CreateTableDsl(table, ColumnSchema(hash, toTime) + [Some(CREATED_AT), Some(UPDATED_AT)])
  }

  /** The fields of a record that get a column, in order. */
  function TypedFields(hash: Record, toTime: TimeParser): seq<string> {
    if hash == [] then []
    else
      (if CoreUtil.GetType(hash[0].key, hash[0].value, toTime).Some? then [hash[0].key] else [])
      + TypedFields(hash[1..], toTime)
  }

  lemma {:induction false} DefinedNames(hash: Record, toTime: TimeParser, stringLimit: Option<nat>)
    ensures Names(ColumnsOf(Defined(ColumnSchema(hash, toTime)), stringLimit)) == TypedFields(hash, toTime)
  {
    if hash != [] {
      var schema := ColumnSchema(hash, toTime);
      DefinedNames(hash[1..], toTime, stringLimit);
      assert schema == [schema[0]] + ColumnSchema(hash[1..], toTime);
      DefinedAppend([schema[0]], ColumnSchema(hash[1..], toTime));
      ColumnsOfAppend(Defined([schema[0]]), Defined(ColumnSchema(hash[1..], toTime)), stringLimit);
      NamesAppend(ColumnsOf(Defined([schema[0]]), stringLimit),
                  ColumnsOf(Defined(ColumnSchema(hash[1..], toTime)), stringLimit));
    }
  }

  /** A created table has the `id` key, then a column for each field of the
      first record that gets a type, then the two timestamps. */
  lemma CreatedTableNames(table: string, hash: Record, toTime: TimeParser, stringLimit: Option<nat>)
    ensures Names(CreatedColumns(GetCreateTableDsl(table, hash, toTime), stringLimit))
         == ["id"] + TypedFields(hash, toTime) + ["created_at", "updated_at"]
  {
    var lines := GetCreateTableDsl(table, hash, toTime).lines;
    var schema := ColumnSchema(hash, toTime);
    var stamps := [Some(CREATED_AT), Some(UPDATED_AT)];
    assert lines == schema + stamps;
    DefinedAppend(schema, stamps);
    assert Defined(stamps) == [CREATED_AT, UPDATED_AT];
    ColumnsOfAppend(Defined(schema), [CREATED_AT, UPDATED_AT], stringLimit);
    var body := ColumnsOf(Defined(schema), stringLimit);
    var tail := ColumnsOf([CREATED_AT, UPDATED_AT], stringLimit);
    NamesAppend([Column("id", PrimaryKey, None)], body + tail);
    NamesAppend(body, tail);
    DefinedNames(hash, toTime, stringLimit);
    assert Names(tail) == ["created_at", "updated_at"];
  }

  lemma {:induction false} DefinedAppend(a: seq<Option<ColumnDef>>, b: seq<Option<ColumnDef>>)
    ensures Defined(a + b) == Defined(a) + Defined(b)
  {
    if a != [] {
      assert (a + b)[1..] == a[1..] + b;
      DefinedAppend(a[1..], b);
    } else {
      assert a + b == b;
    }
  }

  lemma ColumnsOfAppend(a: seq<ColumnDef>, b: seq<ColumnDef>, stringLimit: Option<nat>)
    ensures ColumnsOf(a + b, stringLimit) == ColumnsOf(a, stringLimit) + ColumnsOf(b, stringLimit)
  {
  }

  lemma NamesAppend(a: seq<Column>, b: seq<Column>)
    ensures Names(a + b) == Names(a) + Names(b)
  {
  }

  /** `get_add_column_dsl`: the type comes from `record['column_name']`, the
      literal key, not from the new column's own value. */
  function GetAddColumnDsl(table: string, column: string, record: Record, toTime: TimeParser): (dsl: AddColumnDsl)
    ensures dsl.table == table && dsl.column == column
    ensures !HasKey(record, "column_name") ==> dsl.columnType == Some(StringType)
  {
    AddColumnDsl(table, column, CoreUtil.GetType(column, Lookup(record, "column_name"), toTime))
  }

  // ---------------------------------------------------------------------------
  // add_column_live, as a plan of add_column lines

  /** `record.keys - limits.keys`: the record's keys that are not columns, in
      the record's order. */
  function Diff(keys: seq<string>, known: set<string>): (d: seq<string>)
    ensures forall k :: k in d <==> k in keys && k !in known
    ensures Distinct(keys) ==> Distinct(d)
  {
    if keys == [] then []
    else (if keys[0] in known then [] else [keys[0]]) + Diff(keys[1..], known)
  }

  /** The difference keeps the order the keys came in. */
  lemma {:induction false} DiffKeepsOrder(keys: seq<string>, known: set<string>)
    requires Distinct(keys)
    ensures forall i, j :: 0 <= i < j < |Diff(keys, known)| ==>
      IndexOf(keys, Diff(keys, known)[i]) < IndexOf(keys, Diff(keys, known)[j])
  {
    if keys != [] {
      DistinctTail(keys);
      DiffKeepsOrder(keys[1..], known);
    }
  }

  lemma DistinctTail(keys: seq<string>)
    requires Distinct(keys) && keys != []
    ensures Distinct(keys[1..])
  {
    forall i, j | 0 <= i < j < |keys[1..]| ensures keys[1..][i] != keys[1..][j] {
      assert keys[1..][i] == keys[i + 1] && keys[1..][j] == keys[j + 1];
    }
  }

  /** The position of the first occurrence of `k` in `ks`. */
  function IndexOf(ks: seq<string>, k: string): (p: nat)
    requires k in ks
    ensures p < |ks| && ks[p] == k && k !in ks[..p]
  {
    if ks[0] == k then 0
    else
      var p := IndexOf(ks[1..], k);
      assert ks[..p + 1] == [ks[0]] + ks[1..][..p];
      1 + p
  }

  function KeysOf(r: Record): set<string> {
    set f | f in r :: f.key
  }

  /** Every key of every record. */
  function KeySet(records: seq<Record>): set<string> {
    if records == [] then {} else KeySet(records[..|records| - 1]) + KeysOf(records[|records| - 1])
  }

  /** The `add_column` lines for one record, given the live column names. */
  function Step(table: string, known: set<string>, record: Record, toTime: TimeParser): seq<AddColumnDsl> {
    var d := Diff(Keys(record), known);
    seq(|d|, j requires 0 <= j < |d| => GetAddColumnDsl(table, d[j], record, toTime))
  }

  /** The `add_column` lines `add_column_live` evaluates, record after record,
      each record's missing keys computed against the columns the earlier
      records left. */
  function Plan(table: string, known: set<string>, records: seq<Record>, toTime: TimeParser): seq<AddColumnDsl> {
    if records == [] then []
    else
      var n := |records| - 1;
      Plan(table, known, records[..n], toTime) + Step(table, known + KeySet(records[..n]), records[n], toTime)
  }

  function AddedNames(plan: seq<AddColumnDsl>): (ns: seq<string>)
    ensures |ns| == |plan|
    ensures forall i :: 0 <= i < |plan| ==> ns[i] == plan[i].column
  {
    seq(|plan|, i requires 0 <= i < |plan| => plan[i].column)
  }

  predicate AllUniqueKeys(records: seq<Record>) {
    forall i :: 0 <= i < |records| ==> UniqueKeys(records[i])
  }

  lemma UniqueKeysDistinct(r: Record)
    requires UniqueKeys(r)
    ensures Distinct(Keys(r))
  {
  }

  lemma KeysOfKeys(r: Record)
    ensures forall k :: k in Keys(r) <==> k in KeysOf(r)
  {
    forall k ensures k in Keys(r) <==> k in KeysOf(r) {
      if k in Keys(r) {
        var i :| 0 <= i < |r| && Keys(r)[i] == k;
        assert r[i] in r;
      }
      if k in KeysOf(r) {
        var f :| f in r && f.key == k;
        var i :| 0 <= i < |r| && r[i] == f;
        assert Keys(r)[i] == k;
      }
    }
  }

  /** The plan adds exactly the keys that are not yet columns, every one
      only once, to the named table. */
  lemma {:induction false} PlanAddsMissingKeysOnce(table: string, known: set<string>, records: seq<Record>, toTime: TimeParser)
    requires AllUniqueKeys(records)
    ensures forall k :: k in AddedNames(Plan(table, known, records, toTime)) <==> k in KeySet(records) && k !in known
    ensures Distinct(AddedNames(Plan(table, known, records, toTime)))
    ensures forall d :: d in Plan(table, known, records, toTime) ==> d.table == table
  {
    if records != [] {
      var n := |records| - 1;
      var init := records[..n];
      var last := records[n];
      var before := known + KeySet(init);
      assert AllUniqueKeys(init) by {
        forall i | 0 <= i < |init| ensures UniqueKeys(init[i]) {
          assert init[i] == records[i];
        }
      }
      PlanAddsMissingKeysOnce(table, known, init, toTime);
      var p := Plan(table, known, init, toTime);
      var d := Diff(Keys(last), before);
      StepNames(table, before, last, toTime);
      AddedNamesAppend(p, Step(table, before, last, toTime));
      assert forall x :: x in d ==> x !in AddedNames(p);
      DistinctAppend(AddedNames(p), d);
    }
  }

  /** The index of the first record that has key `k`. */
  function FirstRecord(records: seq<Record>, k: string): (a: nat)
    requires k in KeySet(records)
    ensures a < |records| && k in KeysOf(records[a]) && k in Keys(records[a]) && k !in KeySet(records[..a])
  {
    var n := |records| - 1;
    KeysOfKeys(records[n]);
    if k in KeySet(records[..n]) then
      var a := FirstRecord(records[..n], k);
      assert records[..n][..a] == records[..a];
      a
    else
      n
  }

  /** Key `x` first appears before key `y`: in an earlier record, or earlier
      in the same record. */
  predicate FirstAppearsBefore(records: seq<Record>, x: string, y: string)
    requires x in KeySet(records) && y in KeySet(records)
  {
    var a := FirstRecord(records, x);
    var b := FirstRecord(records, y);
    a < b || (a == b && IndexOf(Keys(records[a]), x) < IndexOf(Keys(records[a]), y))
  }

  /** Every name is a key of the records, and the names come in the order
      their keys first appear. */
  predicate OrderedByFirstAppearance(records: seq<Record>, names: seq<string>) {
    forall i, j :: 0 <= i < j < |names| ==>
      names[i] in KeySet(records) && names[j] in KeySet(records) && FirstAppearsBefore(records, names[i], names[j])
  }

  /** The plan adds the columns in the order their keys first appear in the
      records. */
  lemma {:induction false} PlanAddsInFirstAppearanceOrder(table: string, known: set<string>, records: seq<Record>,
                                                          toTime: TimeParser)
    requires AllUniqueKeys(records)
    ensures OrderedByFirstAppearance(records, AddedNames(Plan(table, known, records, toTime)))
  {
    if records != [] {
      var n := |records| - 1;
      var init := records[..n];
      var last := records[n];
      var before := known + KeySet(init);
      assert AllUniqueKeys(init) by {
        forall i | 0 <= i < |init| ensures UniqueKeys(init[i]) {
          assert init[i] == records[i];
        }
      }
      PlanAddsInFirstAppearanceOrder(table, known, init, toTime);
      PlanAddsMissingKeysOnce(table, known, init, toTime);
      var p := Plan(table, known, init, toTime);
      StepNames(table, before, last, toTime);
      AddedNamesAppend(p, Step(table, before, last, toTime));
      assert AddedNames(Plan(table, known, records, toTime)) == AddedNames(p) + Diff(Keys(last), before);
      OrderExtends(records, n, AddedNames(p), before);
    }
  }

  /** Appending the last record's new keys to names ordered by first
      appearance in the earlier records keeps them so ordered. */
  lemma OrderExtends(records: seq<Record>, n: nat, ns: seq<string>, before: set<string>)
    requires n == |records| - 1 && UniqueKeys(records[n]) && KeySet(records[..n]) <= before
    requires forall x :: x in ns ==> x in KeySet(records[..n])
    requires OrderedByFirstAppearance(records[..n], ns)
    ensures OrderedByFirstAppearance(records, ns + Diff(Keys(records[n]), before))
  {
    var all := ns + Diff(Keys(records[n]), before);
    if !OrderedByFirstAppearance(records, all) {
      var i, j :| 0 <= i < j < |all|
        && !(all[i] in KeySet(records) && all[j] in KeySet(records) && FirstAppearsBefore(records, all[i], all[j]));
      OrderPair(records, n, ns, before, i, j);
      assert false;
    }
  }

  lemma OrderPair(records: seq<Record>, n: nat, ns: seq<string>, before: set<string>, i: nat, j: nat)
    requires n == |records| - 1 && UniqueKeys(records[n]) && KeySet(records[..n]) <= before
    requires forall x :: x in ns ==> x in KeySet(records[..n])
    requires OrderedByFirstAppearance(records[..n], ns)
    requires i < j < |ns + Diff(Keys(records[n]), before)|
    ensures var all := ns + Diff(Keys(records[n]), before);
      all[i] in KeySet(records) && all[j] in KeySet(records) && FirstAppearsBefore(records, all[i], all[j])
  {
    var all := ns + Diff(Keys(records[n]), before);
    if j < |ns| {
      OrderPairEarlier(records, n, ns, all, i, j);
    } else if i < |ns| {
      OrderPairAcross(records, n, ns, before, all, i, j);
    } else {
      OrderPairLast(records, n, ns, before, all, i, j);
    }
  }

  /** Two names both added before the last record keep their order. */
  lemma OrderPairEarlier(records: seq<Record>, n: nat, ns: seq<string>, all: seq<string>, i: nat, j: nat)
    requires n == |records| - 1
    requires OrderedByFirstAppearance(records[..n], ns)
    requires i < j < |ns| <= |all| && all[..|ns|] == ns
    ensures all[i] in KeySet(records) && all[j] in KeySet(records) && FirstAppearsBefore(records, all[i], all[j])
  {
    assert all[i] == all[..|ns|][i] && all[j] == all[..|ns|][j];
    OrderInEarlierRecords(records, n, ns[i], ns[j]);
  }

  /** A name added before the last record precedes one the last record adds. */
  lemma OrderPairAcross(records: seq<Record>, n: nat, ns: seq<string>, before: set<string>, all: seq<string>,
                        i: nat, j: nat)
    requires n == |records| - 1 && KeySet(records[..n]) <= before
    requires forall x :: x in ns ==> x in KeySet(records[..n])
    requires all == ns + Diff(Keys(records[n]), before)
    requires i < |ns| <= j < |all|
    ensures all[i] in KeySet(records) && all[j] in KeySet(records) && FirstAppearsBefore(records, all[i], all[j])
  {
    assert all[i] == ns[i] && ns[i] in ns;
    OrderAcrossRecords(records, n, before, all[i], j - |ns|, all[j]);
  }

  /** A key of an earlier record comes before a new key of the last one. */
  lemma OrderAcrossRecords(records: seq<Record>, n: nat, before: set<string>, x: string, j: nat, y: string)
    requires n == |records| - 1 && KeySet(records[..n]) <= before
    requires x in KeySet(records[..n]) && j < |Diff(Keys(records[n]), before)|
    requires y == Diff(Keys(records[n]), before)[j]
    ensures x in KeySet(records) && y in KeySet(records) && FirstAppearsBefore(records, x, y)
  {
    KeysOfKeys(records[n]);
    assert y in Keys(records[n]) && y !in KeySet(records[..n]);
    assert FirstRecord(records, y) == n;
    assert FirstRecord(records, x) < n;
  }

  /** Two names the last record adds keep that record's order. */
  lemma OrderPairLast(records: seq<Record>, n: nat, ns: seq<string>, before: set<string>, all: seq<string>,
                      i: nat, j: nat)
    requires n == |records| - 1 && UniqueKeys(records[n]) && KeySet(records[..n]) <= before
    requires all == ns + Diff(Keys(records[n]), before)
    requires |ns| <= i < j < |all|
    ensures all[i] in KeySet(records) && all[j] in KeySet(records) && FirstAppearsBefore(records, all[i], all[j])
  {
    var d := Diff(Keys(records[n]), before);
    var x, y := all[i], all[j];
    assert x == d[i - |ns|] && y == d[j - |ns|];
    UniqueKeysDistinct(records[n]);
    DiffKeepsOrder(Keys(records[n]), before);
    KeysOfKeys(records[n]);
    assert x in d && y in d;
    assert x !in KeySet(records[..n]) && y !in KeySet(records[..n]);
    assert FirstRecord(records, x) == n && FirstRecord(records, y) == n;
  }

  /** Order among keys of the first `n` records is the same in the longer
      list of records. */
  lemma OrderInEarlierRecords(records: seq<Record>, n: nat, x: string, y: string)
    requires n == |records| - 1
    requires x in KeySet(records[..n]) && y in KeySet(records[..n])
    requires FirstAppearsBefore(records[..n], x, y)
    ensures x in KeySet(records) && y in KeySet(records) && FirstAppearsBefore(records, x, y)
  {
    var a := FirstRecord(records[..n], x);
    var b := FirstRecord(records[..n], y);
    assert records[..n][a] == records[a] && records[..n][b] == records[b];
  }

  /** A record's pass adds its keys that are not known, in order and each
      once, all to the named table. */
  lemma StepNames(table: string, known: set<string>, r: Record, toTime: TimeParser)
    requires UniqueKeys(r)
    ensures AddedNames(Step(table, known, r, toTime)) == Diff(Keys(r), known)
    ensures forall k :: k in Diff(Keys(r), known) <==> k in KeysOf(r) && k !in known
    ensures Distinct(Diff(Keys(r), known))
    ensures forall d :: d in Step(table, known, r, toTime) ==> d.table == table
  {
    UniqueKeysDistinct(r);
    KeysOfKeys(r);
  }

  lemma AddedNamesAppend(a: seq<AddColumnDsl>, b: seq<AddColumnDsl>)
    ensures AddedNames(a + b) == AddedNames(a) + AddedNames(b)
  {
  }

  /** For records without a `column_name` key every planned column is a
      `string` column, whatever its values. */
  lemma {:induction false} PlanTypesAreString(table: string, known: set<string>, records: seq<Record>, toTime: TimeParser)
    requires forall i :: 0 <= i < |records| ==> !HasKey(records[i], "column_name")
    ensures forall d :: d in Plan(table, known, records, toTime) ==> d.columnType == Some(StringType)
  {
    if records != [] {
      PlanTypesAreString(table, known, records[..|records| - 1], toTime);
    }
  }

  /** Processing one more record extends the plan by that record's step. */
  lemma PlanSnoc(table: string, known: set<string>, records: seq<Record>, i: nat, toTime: TimeParser)
    requires i < |records|
    ensures Plan(table, known, records[..i + 1], toTime)
         == Plan(table, known, records[..i], toTime) + Step(table, known + KeySet(records[..i]), records[i], toTime)
  {
    assert records[..i + 1][..i] == records[..i];
  }

  /** The plan for a prefix of the records is a prefix of the plan. */
  lemma {:induction false} PlanPrefix(table: string, known: set<string>, records: seq<Record>, i: nat, toTime: TimeParser)
    requires i <= |records|
    ensures Plan(table, known, records[..i], toTime) <= Plan(table, known, records, toTime)
    decreases |records| - i
  {
    if i < |records| {
      PlanPrefix(table, known, records, i + 1, toTime);
      PlanSnoc(table, known, records, i, toTime);
    } else {
      assert records[..i] == records;
    }
  }

  // ---------------------------------------------------------------------------
  // Evaluating the plan

  /** The lines evaluated before the first one without a type (whose bare `:`
      raises and ends the call). */
  function TypedPrefix(plan: seq<AddColumnDsl>): (p: seq<AddColumnDsl>)
    ensures p <= plan
    ensures forall i :: 0 <= i < |p| ==> p[i].columnType.Some?
    ensures |p| < |plan| ==> plan[|p|].columnType.None?
  {
    if plan == [] || plan[0].columnType.None? then []
    else [plan[0]] + TypedPrefix(plan[1..])
  }

  predicate AllTyped(plan: seq<AddColumnDsl>) {
    forall i :: 0 <= i < |plan| ==> plan[i].columnType.Some?
  }

  /** The columns a list of typed `add_column` lines appends. */
  function Added(plan: seq<AddColumnDsl>, stringLimit: Option<nat>): (cs: seq<Column>)
    requires AllTyped(plan)
    ensures |cs| == |plan|
    ensures Names(cs) == AddedNames(plan)
  {
    seq(|plan|, i requires 0 <= i < |plan| =>
      ColumnOf(ColumnDef(plan[i].column, plan[i].columnType.value), stringLimit))
  }

  /** The columns and the outcome of `add_column_live` on a table that has
      `cols`: the plan's lines are appended up to the first untyped one. */
  function LiveSync(table: string, cols: seq<Column>, data: Input, toTime: TimeParser, stringLimit: Option<nat>)
    : (seq<Column>, Outcome)
  {
    match data
    case OneHash(record) => (cols, if record == [] then Done else Raised(NotAHash))
    case Records(records) =>
      var plan := Plan(table, NameSet(cols), records, toTime);
      var applied := TypedPrefix(plan);
      (cols + Added(applied, stringLimit), if applied == plan then Done else Raised(DdlRejected))
  }

  /** Schema evolution is additive: the existing columns stay first and
      unchanged. */
  lemma LiveSyncKeepsColumns(table: string, cols: seq<Column>, data: Input, toTime: TimeParser, stringLimit: Option<nat>)
    ensures LiveSync(table, cols, data, toTime, stringLimit).0[..|cols|] == cols
  {
    if data.Records? {
      var cols' := LiveSync(table, cols, data, toTime, stringLimit).0;
      var added := Added(TypedPrefix(Plan(table, NameSet(cols), data.records, toTime)), stringLimit);
      LiveSyncColumns(table, cols, data.records, toTime, stringLimit);
      assert cols' == cols + added;
    }
  }

  /** No column name occurs twice after the call when none did before. */
  lemma LiveSyncKeepsNamesDistinct(table: string, cols: seq<Column>, data: Input, toTime: TimeParser, stringLimit: Option<nat>)
    requires data.Records? ==> AllUniqueKeys(data.records)
    requires Distinct(Names(cols))
    ensures Distinct(Names(LiveSync(table, cols, data, toTime, stringLimit).0))
  {
    if data.Records? {
      var applied := TypedPrefix(Plan(table, NameSet(cols), data.records, toTime));
      var added := Added(applied, stringLimit);
      var cols' := LiveSync(table, cols, data, toTime, stringLimit).0;
      LiveSyncColumns(table, cols, data.records, toTime, stringLimit);
      AppliedNamesFresh(table, cols, data.records, toTime);
      assert Names(added) == AddedNames(applied);
      AppendFresh(cols, added);
      assert cols' == cols + added;
    }
  }

  /** Appending columns with new, distinct names keeps every name distinct. */
  lemma AppendFresh(cols: seq<Column>, added: seq<Column>)
    requires Distinct(Names(cols)) && Distinct(Names(added))
    requires forall x :: x in Names(added) ==> x !in Names(cols)
    ensures Distinct(Names(cols + added))
  {
    NamesAppend(cols, added);
    DistinctAppend(Names(cols), Names(added));
  }

  lemma LiveSyncColumns(table: string, cols: seq<Column>, records: seq<Record>, toTime: TimeParser, stringLimit: Option<nat>)
    ensures LiveSync(table, cols, Records(records), toTime, stringLimit).0
         == cols + Added(TypedPrefix(Plan(table, NameSet(cols), records, toTime)), stringLimit)
  {
  }

  /** The columns a call appends are new and distinct. */
  lemma AppliedNamesFresh(table: string, cols: seq<Column>, records: seq<Record>, toTime: TimeParser)
    requires AllUniqueKeys(records)
    ensures var newNames := AddedNames(TypedPrefix(Plan(table, NameSet(cols), records, toTime)));
      Distinct(newNames) && forall x :: x in newNames ==> x !in Names(cols)
  {
    var plan := Plan(table, NameSet(cols), records, toTime);
    var applied := TypedPrefix(plan);
    PlanAddsMissingKeysOnce(table, NameSet(cols), records, toTime);
    var newNames := AddedNames(applied);
    assert newNames == AddedNames(plan)[..|applied|];
    forall x | x in newNames ensures x !in Names(cols) {
      assert x in AddedNames(plan);
    }
  }

  lemma DistinctAppend(a: seq<string>, b: seq<string>)
    requires Distinct(a) && Distinct(b)
    requires forall x :: x in b ==> x !in a
    ensures Distinct(a + b)
  {
    forall i, j | 0 <= i < j < |a + b| ensures (a + b)[i] != (a + b)[j] {
      if i < |a| && j >= |a| {
        assert (a + b)[j] in b;
      }
    }
  }

  /** When the call completes, every key of every record is a column. */
  lemma LiveSyncCovers(table: string, cols: seq<Column>, records: seq<Record>, toTime: TimeParser, stringLimit: Option<nat>)
    requires AllUniqueKeys(records)
    requires LiveSync(table, cols, Records(records), toTime, stringLimit).1 == Done
    ensures KeySet(records) <= NameSet(LiveSync(table, cols, Records(records), toTime, stringLimit).0)
  {
    var plan := Plan(table, NameSet(cols), records, toTime);
    var cols' := cols + Added(plan, stringLimit);
    PlanAddsMissingKeysOnce(table, NameSet(cols), records, toTime);
    forall k | k in KeySet(records) ensures k in NameSet(cols') {
      if k !in NameSet(cols) {
        var i :| 0 <= i < |plan| && AddedNames(plan)[i] == k;
        assert cols'[|cols| + i].name == k;
      } else {
        var i :| 0 <= i < |cols| && cols[i].name == k;
        assert cols'[i].name == k;
      }
    }
  }

  /** Records whose keys are all columns already leave the table as it is. */
  lemma LiveSyncNothingNew(table: string, cols: seq<Column>, records: seq<Record>, toTime: TimeParser,
                           stringLimit: Option<nat>)
    requires AllUniqueKeys(records) && KeySet(records) <= NameSet(cols)
    ensures LiveSync(table, cols, Records(records), toTime, stringLimit) == (cols, Done)
  {
    var plan := Plan(table, NameSet(cols), records, toTime);
    PlanAddsMissingKeysOnce(table, NameSet(cols), records, toTime);
    assert forall i :: 0 <= i < |plan| ==> AddedNames(plan)[i] in AddedNames(plan);
    assert cols + Added([], stringLimit) == cols;
  }

  /** `add_column_live` is idempotent: once a call has completed, a second
      call with the same records changes nothing and completes too. */
  lemma LiveSyncIdempotent(table: string, cols: seq<Column>, records: seq<Record>, toTime: TimeParser,
                           stringLimit: Option<nat>)
    requires AllUniqueKeys(records)
    requires LiveSync(table, cols, Records(records), toTime, stringLimit).1 == Done
    ensures var once := LiveSync(table, cols, Records(records), toTime, stringLimit).0;
      LiveSync(table, once, Records(records), toTime, stringLimit) == (once, Done)
  {
    LiveSyncCovers(table, cols, records, toTime, stringLimit);
    LiveSyncNothingNew(table, LiveSync(table, cols, Records(records), toTime, stringLimit).0, records, toTime, stringLimit);
  }

  /** The names after appending typed lines are the old names and the lines'
      columns. */
  lemma NameSetAdded(cols: seq<Column>, plan: seq<AddColumnDsl>, stringLimit: Option<nat>)
    requires AllTyped(plan)
    ensures forall n :: n in NameSet(cols + Added(plan, stringLimit)) <==> n in NameSet(cols) || n in AddedNames(plan)
  {
    var added := Added(plan, stringLimit);
    forall n ensures n in NameSet(cols + added) <==> n in NameSet(cols) || n in AddedNames(plan) {
      if n in AddedNames(plan) {
        var i :| 0 <= i < |plan| && AddedNames(plan)[i] == n;
        assert (cols + added)[|cols| + i].name == n;
      }
      if n in NameSet(cols) {
        var i :| 0 <= i < |cols| && cols[i].name == n;
        assert (cols + added)[i].name == n;
      }
      if n in NameSet(cols + added) {
        var i :| 0 <= i < |cols + added| && (cols + added)[i].name == n;
        if i >= |cols| {
          assert Names(added)[i - |cols|] == n;
        }
      }
    }
  }

  lemma AddedSnoc(plan: seq<AddColumnDsl>, d: AddColumnDsl, stringLimit: Option<nat>)
    requires AllTyped(plan) && d.columnType.Some?
    ensures AllTyped(plan + [d])
    ensures Added(plan + [d], stringLimit)
         == Added(plan, stringLimit) + [ColumnOf(ColumnDef(d.column, d.columnType.value), stringLimit)]
  {
  }

  /** The first untyped line ends the evaluated prefix. */
  lemma {:induction false} TypedPrefixAt(plan: seq<AddColumnDsl>, n: nat)
    requires n < |plan| && AllTyped(plan[..n]) && plan[n].columnType.None?
    ensures TypedPrefix(plan) == plan[..n]
  {
    if n > 0 {
      assert plan[..n][0] == plan[0];
      assert plan[1..][..n - 1] == plan[..n][1..];
      TypedPrefixAt(plan[1..], n - 1);
      assert plan[..n] == [plan[0]] + plan[1..][..n - 1];
    }
  }

  lemma {:induction false} TypedPrefixAll(plan: seq<AddColumnDsl>)
    requires AllTyped(plan)
    ensures TypedPrefix(plan) == plan
  {
    if plan != [] {
      TypedPrefixAll(plan[1..]);
      assert plan == [plan[0]] + plan[1..];
    }
  }

  /** Typed lines ahead of a plan are all evaluated; an untyped line inside a
      plan hides whatever follows it. */
  lemma TypedPrefixAppend(a: seq<AddColumnDsl>, b: seq<AddColumnDsl>, c: seq<AddColumnDsl>)
    requires AllTyped(a) && TypedPrefix(b) != b
    ensures TypedPrefix(a + b + c) == a + TypedPrefix(b)
  {
    var n := |a| + |TypedPrefix(b)|;
    assert (a + b + c)[..n] == a + TypedPrefix(b);
    assert (a + b + c)[n] == b[|TypedPrefix(b)|];
    TypedPrefixAt(a + b + c, n);
  }

  lemma AddedAppend(a: seq<AddColumnDsl>, b: seq<AddColumnDsl>, stringLimit: Option<nat>)
    requires AllTyped(a) && AllTyped(b)
    ensures AllTyped(a + b)
    ensures Added(a + b, stringLimit) == Added(a, stringLimit) + Added(b, stringLimit)
  {
  }
}

/** Schema synchronisation in lib/arison/core.rb: `create_table` and
    `add_column_live`, evaluated against the backend catalog. */
module CoreSync {
  import opened Values
  import opened Catalog
  import opened CoreSchema

  predicate IsEmpty(data: Input) {
    match data
    case Records(records) => records == []
    case OneHash(record) => record == []
  }

  /** `data.class == Array ? data.first : data` */
  function First(data: Input): (first: Option<Record>)
    ensures first.None? <==> data.Records? && data.records == []
  {
    match data
    case Records(records) => if records == [] then None else Some(records[0])
    case OneHash(record) => Some(record)
  }

  /** The catalog and the outcome after `add_column_live`: a missing table
      raises as soon as there is a record to look at; an existing one ends as
      `LiveSync` says. */
  function SyncTables(tables: map<string, seq<Column>>, table: string, data: Input, toTime: TimeParser,
                      stringLimit: Option<nat>): (result: (map<string, seq<Column>>, Outcome))
    ensures result.0.Keys == tables.Keys
    ensures forall t :: t in tables && t != table ==> result.0[t] == tables[t]
    ensures table !in tables ==> result.0 == tables && (result.1 == Done <==> IsEmpty(data))
  {
    if table !in tables then (tables, if IsEmpty(data) then Done else Raised(UndefinedTable))
    else
      var synced := LiveSync(table, tables[table], data, toTime, stringLimit);
      (tables[table := synced.0], synced.1)
  }

  /** The catalog and the outcome after `create_table`: an existing table is
      only synchronised; otherwise the first record's block creates it (and
      is refused when two of its columns share a name), then every record is
      synchronised against it. */
  function CreateTables(tables: map<string, seq<Column>>, table: string, data: Input, toTime: TimeParser,
                        stringLimit: Option<nat>): (result: (map<string, seq<Column>>, Outcome))
    ensures tables.Keys <= result.0.Keys <= tables.Keys + {table}
    ensures forall t :: t in tables && t != table ==> result.0[t] == tables[t]
    ensures table !in tables && First(data).None? ==> result == (tables, Raised(NoFirstRecord))
  {
    if table in tables then SyncTables(tables, table, data, toTime, stringLimit)
    else match First(data)
      case None => (tables, Raised(NoFirstRecord))
      case Some(hash) =>
        var created := CreatedColumns(GetCreateTableDsl(table, hash, toTime), stringLimit);
        if !Distinct(Names(created)) then (tables, Raised(DdlRejected))
        else SyncTables(tables[table := created], table, data, toTime, stringLimit)
  }

  /** On an existing table `create_table` only appends: the table's columns
      stay first and unchanged, and no name occurs twice when none did. */
  lemma CreateTablesAdditive(tables: map<string, seq<Column>>, table: string, data: Input, toTime: TimeParser,
                             stringLimit: Option<nat>)
    requires table in tables
    requires data.Records? ==> AllUniqueKeys(data.records)
    ensures var after := CreateTables(tables, table, data, toTime, stringLimit).0;
      && table in after
      && after[table][..|tables[table]|] == tables[table]
      && (Distinct(Names(tables[table])) ==> Distinct(Names(after[table])))
  {
    LiveSyncKeepsColumns(table, tables[table], data, toTime, stringLimit);
    if Distinct(Names(tables[table])) {
      LiveSyncKeepsNamesDistinct(table, tables[table], data, toTime, stringLimit);
    }
  }

  /** A new table starts as its CREATE TABLE block says: `id`, a column for
      every typed field of the first record, `created_at`, `updated_at`; the
      columns of later records come after those. */
  lemma CreateTablesNewTable(tables: map<string, seq<Column>>, table: string, data: Input, toTime: TimeParser,
                             stringLimit: Option<nat>)
    requires table !in tables && First(data).Some?
    requires Distinct(Names(CreatedColumns(GetCreateTableDsl(table, First(data).value, toTime), stringLimit)))
    ensures var after := CreateTables(tables, table, data, toTime, stringLimit).0;
      var n := 3 + |TypedFields(First(data).value, toTime)|;
      && table in after && n <= |after[table]|
      && Names(after[table][..n]) == ["id"] + TypedFields(First(data).value, toTime) + ["created_at", "updated_at"]
  {
    var created := CreatedColumns(GetCreateTableDsl(table, First(data).value, toTime), stringLimit);
    CreatedTableNames(table, First(data).value, toTime, stringLimit);
    LiveSyncKeepsColumns(table, created, data, toTime, stringLimit);
    var after := CreateTables(tables, table, data, toTime, stringLimit).0;
    assert after[table] == LiveSync(table, created, data, toTime, stringLimit).0;
  }

  /** When `create_table` completes on an Array of records, every key of
      every record is a column of the table. */
  lemma CreateTablesCovers(tables: map<string, seq<Column>>, table: string, records: seq<Record>, toTime: TimeParser,
                           stringLimit: Option<nat>)
    requires AllUniqueKeys(records)
    requires CreateTables(tables, table, Records(records), toTime, stringLimit).1 == Done
    ensures var after := CreateTables(tables, table, Records(records), toTime, stringLimit).0;
      table in after && KeySet(records) <= NameSet(after[table])
  {
    var data := Records(records);
    if table in tables {
      LiveSyncCovers(table, tables[table], records, toTime, stringLimit);
    } else {
      var created := CreatedColumns(GetCreateTableDsl(table, First(data).value, toTime), stringLimit);
      LiveSyncCovers(table, created, records, toTime, stringLimit);
    }
  }

  /** `add_column_live`: before each record the column names are read afresh,
      and an `add_column` line is evaluated for each of the record's keys that
      is not a column yet, typed from the record's literal `column_name` key.
      The first line that cannot be evaluated ends the call. */
  method AddColumnLive(db: Database, table: string, data: Input, toTime: TimeParser) returns (r: Outcome)
    requires data.Records? ==> AllUniqueKeys(data.records)
    modifies db
    ensures db.inserted == old(db.inserted)
    ensures (db.tables, r) == SyncTables(old(db.tables), table, data, toTime, db.stringLimit)
  {
    if data.OneHash? {
      // Iterating a Hash yields [key, value] pairs, and the first `keys` call
      // on such a pair raises once the table exists.
      if table in db.tables {
        assert db.tables[table := db.tables[table]] == db.tables;
      }
      if data.record == [] {
        return Done;
      }
      if !db.DataSourceExists(table) {
        return Raised(UndefinedTable);
      }
      return Raised(NotAHash);
    }
    if data.records == [] {
      if table in db.tables {
        assert Plan(table, NameSet(db.tables[table]), [], toTime) == [];
        assert db.tables[table] + Added([], db.stringLimit) == db.tables[table];
        assert db.tables[table := db.tables[table]] == db.tables;
      }
      return Done;
    }
    // The existence test the loop repeats before every record: nothing in the
    // loop drops a table, so its first answer is its every answer.
    if !db.DataSourceExists(table) {
      return Raised(UndefinedTable);
    }
    r := AddRecordsLive(db, table, data.records, toTime);
  }

  /** The loop of `add_column_live` over the records of an existing table. */
  method AddRecordsLive(db: Database, table: string, records: seq<Record>, toTime: TimeParser) returns (r: Outcome)
    requires table in db.tables && AllUniqueKeys(records)
    modifies db
    ensures db.inserted == old(db.inserted)
    ensures var synced := LiveSync(table, old(db.tables)[table], Records(records), toTime, db.stringLimit);
      db.tables == old(db.tables)[table := synced.0] && r == synced.1
  {
    ghost var cols0 := db.tables[table];
    ghost var planI: seq<AddColumnDsl> := [];
    var i := 0;
    assert records[..0] == [];
    assert cols0 + Added([], db.stringLimit) == cols0;
    assert db.tables == old(db.tables)[table := cols0];
    while i < |records|
      invariant 0 <= i <= |records|
      invariant db.inserted == old(db.inserted)
      invariant planI == Plan(table, NameSet(cols0), records[..i], toTime) && AllTyped(planI)
      invariant db.tables == old(db.tables)[table := cols0 + Added(planI, db.stringLimit)]
    {
      ghost var before := db.tables;
      ghost var applied := cols0 + Added(planI, db.stringLimit);
      var ok;
      ok, planI := AddNextRecordColumns(db, table, records, i, cols0, planI, toTime);
      UpdateOver(old(db.tables), before, table, applied, db.tables[table]);
      if !ok {
        LiveSyncStops(table, cols0, records, toTime, db.stringLimit);
        return Raised(DdlRejected);
      }
      i := i + 1;
    }
    assert records[..i] == records;
    LiveSyncCompletes(table, cols0, records, toTime, db.stringLimit);
    r := Done;
  }

  lemma LiveSyncStops(table: string, cols: seq<Column>, records: seq<Record>, toTime: TimeParser, stringLimit: Option<nat>)
    requires var plan := Plan(table, NameSet(cols), records, toTime); TypedPrefix(plan) != plan
    ensures LiveSync(table, cols, Records(records), toTime, stringLimit)
         == (cols + Added(TypedPrefix(Plan(table, NameSet(cols), records, toTime)), stringLimit), Raised(DdlRejected))
  {
  }

  lemma LiveSyncCompletes(table: string, cols: seq<Column>, records: seq<Record>, toTime: TimeParser, stringLimit: Option<nat>)
    requires AllTyped(Plan(table, NameSet(cols), records, toTime))
    ensures LiveSync(table, cols, Records(records), toTime, stringLimit)
         == (cols + Added(Plan(table, NameSet(cols), records, toTime), stringLimit), Done)
  {
    TypedPrefixAll(Plan(table, NameSet(cols), records, toTime));
  }

  /** The pass for record `i`, stated against the plan of the whole call:
      either the plan up to record `i` is now applied, or the call stops
      with the plan's typed prefix applied. */
  method AddNextRecordColumns(db: Database, table: string, records: seq<Record>, i: nat,
                              ghost cols0: seq<Column>, ghost planI: seq<AddColumnDsl>, toTime: TimeParser)
    returns (ok: bool, ghost next: seq<AddColumnDsl>)
    requires i < |records| && AllUniqueKeys(records)
    requires planI == Plan(table, NameSet(cols0), records[..i], toTime) && AllTyped(planI)
    requires table in db.tables && db.tables[table] == cols0 + Added(planI, db.stringLimit)
    modifies db
    ensures db.inserted == old(db.inserted)
    ensures ok ==>
      && next == Plan(table, NameSet(cols0), records[..i + 1], toTime) && AllTyped(next)
      && db.tables == old(db.tables)[table := cols0 + Added(next, db.stringLimit)]
    ensures !ok ==> var plan := Plan(table, NameSet(cols0), records, toTime);
      TypedPrefix(plan) != plan && db.tables == old(db.tables)[table := cols0 + Added(TypedPrefix(plan), db.stringLimit)]
  {
    ghost var addedI := Added(planI, db.stringLimit);
    ghost var step := Step(table, NameSet(cols0 + addedI), records[i], toTime);
    NextStep(table, cols0, records, i, toTime, db.stringLimit);
    ghost var prior := db.tables;
    ok := AddRecordColumns(db, table, records[i], toTime);
    UpdateTwice(prior, table, cols0, addedI, Added(TypedPrefix(step), db.stringLimit));
    next := planI + step;
    if ok {
      NextStepApplies(planI, step, next, db.stringLimit);
    } else {
      PlanPrefix(table, NameSet(cols0), records, i + 1, toTime);
      NextStepStops(planI, step, Plan(table, NameSet(cols0), records, toTime), db.stringLimit);
    }
  }

  /** The names the pass for record `i` reads are the old columns plus the
      keys of the earlier records, so its lines are the plan's next piece. */
  lemma NextStep(table: string, cols0: seq<Column>, records: seq<Record>, i: nat, toTime: TimeParser, stringLimit: Option<nat>)
    requires i < |records| && AllUniqueKeys(records)
    requires AllTyped(Plan(table, NameSet(cols0), records[..i], toTime))
    ensures var planI := Plan(table, NameSet(cols0), records[..i], toTime);
      Plan(table, NameSet(cols0), records[..i + 1], toTime)
        == planI + Step(table, NameSet(cols0 + Added(planI, stringLimit)), records[i], toTime)
  {
    var known0 := NameSet(cols0);
    var planI := Plan(table, known0, records[..i], toTime);
    NameSetAdded(cols0, planI, stringLimit);
    PlanAddsMissingKeysOnce(table, known0, records[..i], toTime);
    assert NameSet(cols0 + Added(planI, stringLimit)) == known0 + KeySet(records[..i]);
    PlanSnoc(table, known0, records, i, toTime);
  }

  /** A pass that evaluates all its lines extends the applied plan. */
  lemma NextStepApplies(planI: seq<AddColumnDsl>, step: seq<AddColumnDsl>, next: seq<AddColumnDsl>, stringLimit: Option<nat>)
    requires AllTyped(planI) && TypedPrefix(step) == step && next == planI + step
    ensures AllTyped(next) && Added(next, stringLimit) == Added(planI, stringLimit) + Added(TypedPrefix(step), stringLimit)
  {
    TypedPrefixAll(step);
    AddedAppend(planI, step, stringLimit);
  }

  /** A pass that stops early stops the whole call at the plan's typed prefix. */
  lemma NextStepStops(planI: seq<AddColumnDsl>, step: seq<AddColumnDsl>, plan: seq<AddColumnDsl>, stringLimit: Option<nat>)
    requires AllTyped(planI) && TypedPrefix(step) != step && planI + step <= plan
    ensures TypedPrefix(plan) != plan
    ensures Added(TypedPrefix(plan), stringLimit) == Added(planI, stringLimit) + Added(TypedPrefix(step), stringLimit)
  {
    var rest := plan[|planI| + |step|..];
    assert plan == planI + step + rest;
    TypedPrefixAppend(planI, step, rest);
    AddedAppend(planI, TypedPrefix(step), stringLimit);
  }

  /** One pass of the loop in `add_column_live`: read the column names, then
      evaluate an `add_column` line for each key of the record that is not
      among them, stopping at the first line that cannot be evaluated. */
  method AddRecordColumns(db: Database, table: string, record: Record, toTime: TimeParser) returns (ok: bool)
    requires table in db.tables && UniqueKeys(record)
    modifies db
    ensures db.inserted == old(db.inserted)
    ensures var step := Step(table, NameSet(old(db.tables)[table]), record, toTime);
      && ok == (TypedPrefix(step) == step)
      && db.tables == old(db.tables)[table := old(db.tables)[table] + Added(TypedPrefix(step), db.stringLimit)]
  {
    ghost var cols0 := db.tables[table];
    var limits := LimitHash(db.tables[table]);
    var diff := Diff(Keys(record), limits.Keys);
    ghost var step := Step(table, NameSet(cols0), record, toTime);
    var j := 0;
    assert step[..0] == [];
    assert cols0 + Added([], db.stringLimit) == cols0;
    assert db.tables == old(db.tables)[table := cols0];
    while j < |diff|
      invariant 0 <= j <= |diff| == |step|
      invariant db.inserted == old(db.inserted)
      invariant AllTyped(step[..j])
      invariant db.tables == old(db.tables)[table := cols0 + Added(step[..j], db.stringLimit)]
    {
      var dsl := GetAddColumnDsl(table, diff[j], record, toTime);
      StepLine(table, cols0, record, toTime, db.stringLimit, j);
      ghost var prior := db.tables;
      ok := db.RunAddColumn(dsl);
      if !ok {
        return;
      }
      AppendToEntry(old(db.tables), prior, db.tables, table, cols0, Added(step[..j], db.stringLimit),
                    [ColumnOf(ColumnDef(dsl.column, dsl.columnType.value), db.stringLimit)]);
      j := j + 1;
    }
    assert step[..j] == step;
    TypedPrefixAll(step);
    ok := true;
  }

  /** Line `j` of a record's pass: it names a key that is not a column after
      the earlier lines, so it is evaluated exactly when it has a type. */
  lemma StepLine(table: string, cols0: seq<Column>, record: Record, toTime: TimeParser, stringLimit: Option<nat>, j: nat)
    requires UniqueKeys(record)
    requires var step := Step(table, NameSet(cols0), record, toTime); j < |step| && AllTyped(step[..j])
    ensures var step := Step(table, NameSet(cols0), record, toTime);
      var diff := Diff(Keys(record), LimitHash(cols0).Keys);
      && |diff| == |step|
      && step[j] == GetAddColumnDsl(table, diff[j], record, toTime)
      && step[j].column !in NameSet(cols0 + Added(step[..j], stringLimit))
      && (step[j].columnType.None? ==> TypedPrefix(step) == step[..j])
      && (step[j].columnType.Some? ==>
            && AllTyped(step[..j + 1])
            && Added(step[..j + 1], stringLimit)
               == Added(step[..j], stringLimit) + [ColumnOf(ColumnDef(step[j].column, step[j].columnType.value), stringLimit)])
  {
    var step := Step(table, NameSet(cols0), record, toTime);
    var diff := Diff(Keys(record), NameSet(cols0));
    UniqueKeysDistinct(record);
    NameSetAdded(cols0, step[..j], stringLimit);
    assert AddedNames(step[..j]) == diff[..j];
    assert diff[j] !in diff[..j];
    if step[j].columnType.None? {
      TypedPrefixAt(step, j);
    } else {
      AddedSnoc(step[..j], step[j], stringLimit);
      TakeOneMore(step, j);
    }
  }

  /** `create_table`: an existing table only gets the missing columns; a new
      one is created from the first record's fields plus the two timestamps,
      and then gets the missing columns of every record. */
  method CreateTable(db: Database, table: string, data: Input, toTime: TimeParser) returns (r: Outcome)
    requires data.Records? ==> AllUniqueKeys(data.records)
    modifies db
    ensures db.inserted == old(db.inserted)
    ensures (db.tables, r) == CreateTables(old(db.tables), table, data, toTime, db.stringLimit)
  {
    var first := First(data);
    if db.DataSourceExists(table) {
      r := AddColumnLive(db, table, data, toTime);
      return;
    }
    if first.None? {
      return Raised(NoFirstRecord);
    }
    var dsl := GetCreateTableDsl(table, first.value, toTime);
    var ok := db.RunCreateTable(dsl);
    if !ok {
      return Raised(DdlRejected);
    }
    r := AddColumnLive(db, table, data, toTime);
  }

  /** Two imports into `dynamic_table`, the second with a new key: the table
      is created from the first record, and the second call only appends the
      new column, typed `string` since the record has no `column_name` key. */
  lemma DynamicTableScenario(toTime: TimeParser, stringLimit: Option<nat>)
    ensures var first := CreateTables(map[], "dynamic_table", Records([[Field("col1", Str("value1"))]]),
                                      toTime, stringLimit);
      var second := CreateTables(first.0, "dynamic_table",
                                 Records([[Field("col1", Str("value2")), Field("col2", Str("value2"))]]),
                                 toTime, stringLimit);
      && first.1 == Done && second.1 == Done && "dynamic_table" in second.0
      && Names(second.0["dynamic_table"]) == ["id", "col1", "created_at", "updated_at", "col2"]
      && second.0["dynamic_table"][4].sqlType == Declared(StringType)
  {
    var table := "dynamic_table";
    var rec1 := [Field("col1", Str("value1"))];
    var created := CreatedColumns(GetCreateTableDsl(table, rec1, toTime), stringLimit);
    ScenarioCreated(toTime, stringLimit);
    ScenarioFirstCall(created, toTime, stringLimit);
    ScenarioSecondCall(created, toTime, stringLimit);
  }

  lemma ScenarioCreated(toTime: TimeParser, stringLimit: Option<nat>)
    ensures Names(CreatedColumns(GetCreateTableDsl("dynamic_table", [Field("col1", Str("value1"))], toTime), stringLimit))
         == ["id", "col1", "created_at", "updated_at"]
  {
    var rec1 := [Field("col1", Str("value1"))];
    Util.MatchesIdSingleLine("col1");
    assert !Util.IsDigit('v');
    assert CoreUtil.GetType("col1", Str("value1"), toTime).Some?;
    assert TypedFields(rec1, toTime) == ["col1"];
    CreatedTableNames("dynamic_table", rec1, toTime, stringLimit);
  }

  lemma ScenarioFirstCall(created: seq<Column>, toTime: TimeParser, stringLimit: Option<nat>)
    requires created == CreatedColumns(GetCreateTableDsl("dynamic_table", [Field("col1", Str("value1"))], toTime), stringLimit)
    requires Names(created) == ["id", "col1", "created_at", "updated_at"]
    ensures CreateTables(map[], "dynamic_table", Records([[Field("col1", Str("value1"))]]), toTime, stringLimit)
         == (map["dynamic_table" := created], Done)
  {
    var data := Records([[Field("col1", Str("value1"))]]);
    assert Distinct(Names(created));
    CreateTablesFresh(map[], "dynamic_table", data, toTime, stringLimit);
    ScenarioFirstSync(created, toTime, stringLimit);
  }

  /** A new table whose block is accepted is created, then synchronised. */
  lemma CreateTablesFresh(tables: map<string, seq<Column>>, table: string, data: Input, toTime: TimeParser,
                          stringLimit: Option<nat>)
    requires table !in tables && First(data).Some?
    requires Distinct(Names(CreatedColumns(GetCreateTableDsl(table, First(data).value, toTime), stringLimit)))
    ensures var created := CreatedColumns(GetCreateTableDsl(table, First(data).value, toTime), stringLimit);
      CreateTables(tables, table, data, toTime, stringLimit)
        == SyncTables(tables[table := created], table, data, toTime, stringLimit)
  {
  }

  lemma ScenarioFirstSync(created: seq<Column>, toTime: TimeParser, stringLimit: Option<nat>)
    requires Names(created) == ["id", "col1", "created_at", "updated_at"]
    ensures SyncTables(map["dynamic_table" := created], "dynamic_table", Records([[Field("col1", Str("value1"))]]),
                       toTime, stringLimit)
         == (map["dynamic_table" := created], Done)
  {
    var records := [[Field("col1", Str("value1"))]];
    ScenarioFirstKeys(created);
    LiveSyncNothingNew("dynamic_table", created, records, toTime, stringLimit);
    SyncTablesUnchanged(map["dynamic_table" := created], "dynamic_table", Records(records), toTime, stringLimit);
  }

  lemma ScenarioFirstKeys(created: seq<Column>)
    requires Names(created) == ["id", "col1", "created_at", "updated_at"]
    ensures AllUniqueKeys([[Field("col1", Str("value1"))]])
    ensures KeySet([[Field("col1", Str("value1"))]]) <= NameSet(created)
  {
    var records := [[Field("col1", Str("value1"))]];
    assert created[1].name == "col1";
    assert KeySet(records) == KeySet([]) + KeysOf(records[0]);
  }

  /** A sync that adds nothing leaves the catalog as it is. */
  lemma SyncTablesUnchanged(tables: map<string, seq<Column>>, table: string, data: Input, toTime: TimeParser,
                            stringLimit: Option<nat>)
    requires table in tables && LiveSync(table, tables[table], data, toTime, stringLimit) == (tables[table], Done)
    ensures SyncTables(tables, table, data, toTime, stringLimit) == (tables, Done)
  {
    assert tables[table := tables[table]] == tables;
  }

  lemma ScenarioSecondCall(created: seq<Column>, toTime: TimeParser, stringLimit: Option<nat>)
    requires Names(created) == ["id", "col1", "created_at", "updated_at"]
    ensures var second := CreateTables(map["dynamic_table" := created], "dynamic_table",
                                       Records([[Field("col1", Str("value2")), Field("col2", Str("value2"))]]),
                                       toTime, stringLimit);
      && second.1 == Done && "dynamic_table" in second.0
      && Names(second.0["dynamic_table"]) == ["id", "col1", "created_at", "updated_at", "col2"]
      && second.0["dynamic_table"][4].sqlType == Declared(StringType)
  {
    var table := "dynamic_table";
    var line := AddColumnDsl(table, "col2", Some(StringType));
    ScenarioSecondPlan(created, toTime);
    TypedPrefixAll([line]);
    NamesAppend(created, Added([line], stringLimit));
  }

  lemma ScenarioSecondPlan(created: seq<Column>, toTime: TimeParser)
    requires Names(created) == ["id", "col1", "created_at", "updated_at"]
    ensures Plan("dynamic_table", NameSet(created), [[Field("col1", Str("value2")), Field("col2", Str("value2"))]], toTime)
         == [AddColumnDsl("dynamic_table", "col2", Some(StringType))]
  {
    var table := "dynamic_table";
    var rec2 := [Field("col1", Str("value2")), Field("col2", Str("value2"))];
    Util.MatchesIdSingleLine("col2");
    assert created[1].name == "col1";
    assert "col2" !in NameSet(created);
    assert Keys(rec2) == ["col1", "col2"];
    DiffOfSecondRecord(NameSet(created));
    assert Lookup(rec2, "column_name") == Nil;
    assert [rec2][..0] == [];
    assert NameSet(created) + KeySet([]) == NameSet(created);
    assert Step(table, NameSet(created), rec2, toTime) == [AddColumnDsl(table, "col2", Some(StringType))];
  }

  /** Of the second record's keys, only the one that is not a column yet is new. */
  lemma DiffOfSecondRecord(known: set<string>)
    requires "col1" in known && "col2" !in known
    ensures Diff(["col1", "col2"], known) == ["col2"]
  {
    assert ["col1", "col2"][1..] == ["col2"];
    assert Diff(["col2"], known) == ["col2"] + Diff([], known);
  }

  /** Appending to an entry that was itself set to `base + a`. */
  lemma AppendToEntry<K, V>(m0: map<K, seq<V>>, m1: map<K, seq<V>>, m2: map<K, seq<V>>, k: K,
                            base: seq<V>, a: seq<V>, b: seq<V>)
    requires m1 == m0[k := base + a] && m2 == m1[k := m1[k] + b]
    ensures m2 == m0[k := base + (a + b)]
  {
    assert base + a + b == base + (a + b);
  }

  lemma UpdateTwice<K, V>(m: map<K, seq<V>>, k: K, base: seq<V>, a: seq<V>, b: seq<V>)
    requires k in m && m[k] == base + a
    ensures m[k := m[k] + b] == m[k := base + (a + b)]
  {
    assert base + a + b == base + (a + b);
  }

  /** A second update of the same entry overrides the first. */
  lemma UpdateOver<K, V>(m0: map<K, V>, m1: map<K, V>, k: K, a: V, b: V)
    requires m1 == m0[k := a]
    ensures m1[k := b] == m0[k := b]
  {
  }
}

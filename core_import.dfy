/** `Core#import` in lib/arison/core.rb: every record is cut to the table's
    column limits and turned into one model instance, and the instances are
    handed to the backend in chunks of 10,000. */
module CoreImport {
  import opened Values
  import opened Catalog
  import opened CoreSchema

  /** The chunk size of `in_groups_of(10000, false)`. */
  const CHUNK_SIZE: nat := 10000

  // ---------------------------------------------------------------------------
  // Sanitising a record

  function Min(a: nat, b: nat): nat {
    if a <= b then a else b
  }

  /** One field of the sanitiser: a String under a key with a limit keeps its
      first `limit` characters; nil, any other class, and a key without a
      limit pass through. */
  function SanitizeValue(v: Value, limit: Option<nat>): (r: Value)
    ensures v.Str? && limit.Some? ==> r.Str? && r.s <= v.s && |r.s| == Min(|v.s|, limit.value)
    ensures !(v.Str? && limit.Some?) ==> r == v
  {
    if limit.None? || v.Nil? || !v.Str? then v
    else if |v.s| <= limit.value then v
    else Str(v.s[..limit.value])
  }

  /** The `inject` that rebuilds a record with every value sanitised under
      its own key's limit. */
  function Sanitize(record: Record, limits: map<string, Option<nat>>): (r: Record)
    ensures |r| == |record|
    ensures forall i :: 0 <= i < |record| ==>
      r[i] == Field(record[i].key, SanitizeValue(record[i].value, LimitOf(limits, record[i].key)))
  {
    if record == [] then []
    else
      var f := record[0];
      [Field(f.key, SanitizeValue(f.value, LimitOf(limits, f.key)))] + Sanitize(record[1..], limits)
  }

  /** With a limit hash built from columns that carry no `limit` entry, the
      sanitiser gives back the record unchanged. */
  lemma SanitizeWithoutLimits(record: Record, cols: seq<Column>)
    requires forall i :: 0 <= i < |cols| ==> cols[i].limit == None
    ensures Sanitize(record, LimitHash(cols)) == record
  {
    LimitHashUnlimited(cols);
  }

  /** Sanitising keeps the keys and their order. */
  lemma SanitizeKeepsKeys(record: Record, limits: map<string, Option<nat>>)
    ensures Keys(Sanitize(record, limits)) == Keys(record)
    ensures UniqueKeys(record) ==> UniqueKeys(Sanitize(record, limits))
  {
    assert Keys(Sanitize(record, limits)) == Keys(record) by {
      var r := Sanitize(record, limits);
      assert forall i :: 0 <= i < |r| ==> Keys(r)[i] == Keys(record)[i];
    }
  }

  /** After sanitising, no String under a limited key is longer than its
      limit, and a value is only ever cut, never changed otherwise. */
  lemma SanitizeWithinLimits(record: Record, limits: map<string, Option<nat>>, i: nat)
    requires i < |record|
    ensures var v := Sanitize(record, limits)[i].value;
      var limit := LimitOf(limits, record[i].key);
      && (v.Str? && limit.Some? ==> |v.s| <= limit.value)
      && (record[i].value.Str? ==> v.Str? && v.s <= record[i].value.s)
      && (!record[i].value.Str? ==> v == record[i].value)
  {
  }

  /** Sanitising twice is sanitising once. */
  lemma {:induction false} SanitizeIdempotent(record: Record, limits: map<string, Option<nat>>)
    ensures Sanitize(Sanitize(record, limits), limits) == Sanitize(record, limits)
  {
    var once := Sanitize(record, limits);
    var twice := Sanitize(once, limits);
    forall i | 0 <= i < |record| ensures twice[i] == once[i] {
      var limit := LimitOf(limits, record[i].key);
      var v := record[i].value;
      if v.Str? && limit.Some? {
        var cut := SanitizeValue(v, limit);
        assert once[i] == Field(record[i].key, cut);
        assert twice[i] == Field(record[i].key, SanitizeValue(cut, limit));
        assert SanitizeValue(cut, limit) == cut;
      }
    }
  }

  // ---------------------------------------------------------------------------
  // One instance per record

  /** The instance built for one record: its sanitised attributes and whether
      the attribute assignment went through. */
  function InstanceFor(record: Record, limits: map<string, Option<nat>>, assignOk: Record -> bool): Instance {
    var attrs := Sanitize(record, limits);
    Instance(attrs, assignOk(attrs))
  }

  /** The loop of `import`: a new instance per record, appended by the
      `ensure` clause whether or not the assignment raised. */
  method BuildInstances(records: seq<Record>, limits: map<string, Option<nat>>, assignOk: Record -> bool)
    returns (instances: seq<Instance>)
    ensures |instances| == |records|
    ensures forall i :: 0 <= i < |records| ==>
      instances[i].attempted == Sanitize(records[i], limits)
      && instances[i].assignmentOk == assignOk(Sanitize(records[i], limits))
  {
    instances := [];
    var i := 0;
    while i < |records|
      invariant 0 <= i <= |records|
      invariant |instances| == i
      invariant forall j :: 0 <= j < i ==> instances[j] == InstanceFor(records[j], limits, assignOk)
    {
      var attrs := Sanitize(records[i], limits);
      var ok := assignOk(attrs);
      instances := instances + [Instance(attrs, ok)];
      i := i + 1;
    }
  }

  /** What `BuildInstances` returns, as a value. */
  function Instances(records: seq<Record>, limits: map<string, Option<nat>>, assignOk: Record -> bool)
    : (xs: seq<Instance>)
    ensures |xs| == |records|
  {
    seq(|records|, i requires 0 <= i < |records| => InstanceFor(records[i], limits, assignOk))
  }

  // ---------------------------------------------------------------------------
  // Chunking

  /** `in_groups_of(n, false)`: consecutive groups of `n`, the last one
      shorter and unpadded; no group for an empty list. */
  function InGroupsOf<T>(xs: seq<T>, n: nat): (groups: seq<seq<T>>)
    requires n > 0
    ensures forall g :: g in groups ==> 0 < |g| <= n
    ensures forall i :: 0 <= i < |groups| - 1 ==> |groups[i]| == n
    decreases |xs|
  {
    if xs == [] then []
    else if |xs| <= n then [xs]
    else [xs[..n]] + InGroupsOf(xs[n..], n)
  }

  function Flatten<T>(groups: seq<seq<T>>): seq<T> {
    if groups == [] then [] else groups[0] + Flatten(groups[1..])
  }

  /** The groups put back together are the list. */
  lemma {:induction false} InGroupsOfFlatten<T>(xs: seq<T>, n: nat)
    requires n > 0
    ensures Flatten(InGroupsOf(xs, n)) == xs
    decreases |xs|
  {
    if |xs| > n {
      var rest := InGroupsOf(xs[n..], n);
      InGroupsOfFlatten(xs[n..], n);
      assert ([xs[..n]] + rest)[1..] == rest;
      assert xs == xs[..n] + xs[n..];
    } else if xs != [] {
      assert Flatten([xs]) == xs + Flatten([]);
    }
  }

  /** There are |xs| / n groups, rounded up: the groups hold all of `xs`,
      and one group fewer could not. */
  lemma {:induction false} InGroupsOfCount<T>(xs: seq<T>, n: nat)
    requires n > 0
    ensures var count := |InGroupsOf(xs, n)|;
      (count - 1) * n < |xs| <= count * n
    decreases |xs|
  {
    if |xs| > n {
      var count := |InGroupsOf(xs[n..], n)|;
      InGroupsOfCount(xs[n..], n);
      assert (count + 1) * n == count * n + n;
      assert count * n == (count - 1) * n + n;
    }
  }

  // ---------------------------------------------------------------------------
  // import

  /** The batches `import` hands to the backend, in order. */
  function ImportBatches(table: string, records: seq<Record>, limits: map<string, Option<nat>>,
                         assignOk: Record -> bool): seq<Batch>
  {
    BatchesOf(table, InGroupsOf(Instances(records, limits, assignOk), CHUNK_SIZE))
  }

  /** One batch per group, all for the table. */
  function BatchesOf(table: string, groups: seq<seq<Instance>>): (batches: seq<Batch>)
    ensures |batches| == |groups|
    ensures forall i :: 0 <= i < |groups| ==> batches[i] == Batch(table, groups[i])
  {
    seq(|groups|, i requires 0 <= i < |groups| => Batch(table, groups[i]))
  }

  /** How many batches the backend takes before the first one it refuses. */
  function AcceptedCount(batches: seq<Batch>, accepts: Batch -> bool): (k: nat)
    ensures k <= |batches|
    ensures forall j :: 0 <= j < k ==> accepts(batches[j])
    ensures k < |batches| ==> !accepts(batches[k])
  {
    if batches == [] || !accepts(batches[0]) then 0
    else 1 + AcceptedCount(batches[1..], accepts)
  }

  function InstancesOf(batches: seq<Batch>): seq<Instance> {
    if batches == [] then [] else batches[0].instances + InstancesOf(batches[1..])
  }

  /** `import`: reading the table's limits raises when the table is missing;
      otherwise every record becomes one instance, and the chunks go to the
      backend in order until one is refused. The catalog is never touched. */
  method Import(db: Database, table: string, records: seq<Record>, assignOk: Record -> bool) returns (r: Outcome)
    modifies db
    ensures db.tables == old(db.tables)
    ensures table !in old(db.tables) ==> r == Raised(UndefinedTable) && db.inserted == old(db.inserted)
    ensures table in old(db.tables) ==>
      var batches := ImportBatches(table, records, LimitHash(old(db.tables)[table]), assignOk);
      var k := AcceptedCount(batches, db.acceptsBatch);
      && db.inserted == old(db.inserted) + batches[..k]
      && r == (if k == |batches| then Done else Raised(BatchRejected(k)))
  {
    if !db.DataSourceExists(table) {
      return Raised(UndefinedTable);
    }
    var limits := LimitHash(db.tables[table]);
    var instances := BuildInstances(records, limits, assignOk);
    assert instances == Instances(records, limits, assignOk);
    r := InsertGroups(db, table, InGroupsOf(instances, CHUNK_SIZE));
  }

  /** `in_groups_of(...) { |block| klass.import(block) }`: one bulk insert per
      group, in order, until the backend refuses one (which raises out of
      `import`). */
  method InsertGroups(db: Database, table: string, groups: seq<seq<Instance>>) returns (r: Outcome)
    modifies db
    ensures db.tables == old(db.tables)
    ensures var batches := BatchesOf(table, groups);
      var k := AcceptedCount(batches, db.acceptsBatch);
      && db.inserted == old(db.inserted) + batches[..k]
      && r == (if k == |batches| then Done else Raised(BatchRejected(k)))
  {
    ghost var batches := BatchesOf(table, groups);
    ghost var k := AcceptedCount(batches, db.acceptsBatch);
    var i := 0;
    while i < |groups|
      invariant 0 <= i <= |groups|
      invariant i <= k
      invariant db.tables == old(db.tables)
      invariant db.inserted == old(db.inserted) + batches[..i]
    {
      var ok := db.BulkInsert(Batch(table, groups[i]));
      if !ok {
        return Raised(BatchRejected(i));
      }
      TakeOneMore(batches, i);
      i := i + 1;
    }
    assert batches[..i] == batches;
    r := Done;
  }

  /** A completed import delivers every record's instance exactly once and in
      input order: the batches it adds, read in order, are the instances. */
  lemma ImportDeliversEveryRecord(table: string, records: seq<Record>, limits: map<string, Option<nat>>,
                                  assignOk: Record -> bool)
    ensures InstancesOf(ImportBatches(table, records, limits, assignOk)) == Instances(records, limits, assignOk)
    ensures |InstancesOf(ImportBatches(table, records, limits, assignOk))| == |records|
    ensures forall b :: b in ImportBatches(table, records, limits, assignOk) ==>
      b.table == table && 0 < |b.instances| <= CHUNK_SIZE
  {
    var groups := InGroupsOf(Instances(records, limits, assignOk), CHUNK_SIZE);
    InGroupsOfFlatten(Instances(records, limits, assignOk), CHUNK_SIZE);
    BatchesFlatten(table, groups);
  }

  lemma {:induction false} BatchesFlatten(table: string, groups: seq<seq<Instance>>)
    ensures InstancesOf(BatchesOf(table, groups)) == Flatten(groups)
  {
    if groups != [] {
      BatchesFlatten(table, groups[1..]);
      assert BatchesOf(table, groups)[1..] == BatchesOf(table, groups[1..]);
    }
  }
}

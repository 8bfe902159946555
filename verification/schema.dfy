/**
  The analyzer's schema manager (`init_db`): create the `packets` table if it is
  absent, then apply an ordered list of add-column-if-absent statements,
  skipping with a warning any that fails.

  Two versions are modelled. `InitDb` gives every statement its own
  transaction, so a failing statement is skipped and the others still take
  effect: this is what the skip-and-continue loop is written for.
  `InitDbAsWritten` follows the code as it runs: all statements share the one
  transaction the driver opens (autocommit is off), so after one failure the
  server refuses the rest and the final commit rolls everything back.
 */
module Schema {
  import opened Wrappers

  datatype Column = Column(name: string, sqlType: string, default: Option<string>)

  /** The `packets` table's columns in creation order, or None while the table does not exist. */
  type Catalog = Option<seq<Column>>

  const BaseColumns: seq<Column> := [
    Column("id", "INT GENERATED ALWAYS AS IDENTITY PRIMARY KEY", None),
    Column("src_ip", "VARCHAR(50)", None),
    Column("dst_ip", "VARCHAR(50)", None),
    Column("protocol", "VARCHAR(20)", None),
    Column("summary", "TEXT", None),
    Column("timestamp", "TIMESTAMP", None)
  ]

  /** `safe_alters`, in order. */
  const SafeAlters: seq<Column> := [
    Column("src_port", "VARCHAR(10)", None),
    Column("dst_port", "VARCHAR(10)", None),
    Column("dns_query", "TEXT", None),
    Column("source", "VARCHAR(10)", Some("'LIVE'"))
  ]

  /** Why an alter was skipped: the server rejected it, or the shared transaction had already failed. */
  datatype SkipReason = Rejected | TransactionAborted

  /** One entry per alter statement, in the order they were attempted. */
  datatype AlterLog = Applied(name: string) | Skipped(name: string, reason: SkipReason)

  datatype Outcome = Outcome(catalog: Catalog, log: seq<AlterLog>)

  function Names(cols: seq<Column>): (names: seq<string>)
    ensures |names| == |cols| && forall i :: 0 <= i < |cols| ==> names[i] == cols[i].name
  {
    seq(|cols|, i requires 0 <= i < |cols| => cols[i].name)
  }

  predicate DistinctNames(cols: seq<Column>)
  {
    forall i, j :: 0 <= i < j < |cols| ==> cols[i].name != cols[j].name
  }

  /** `CREATE TABLE IF NOT EXISTS packets (...)`. */
  function CreateIfAbsent(c: Catalog): (cols: seq<Column>)
    ensures c.Some? ==> cols == c.value
    ensures c.None? ==> cols == BaseColumns && DistinctNames(cols)
  {
    match c
    case Some(existing) => existing
    case None => BaseColumns
  }

  /** `ALTER TABLE packets ADD COLUMN IF NOT EXISTS ...`. */
  function AddIfAbsent(cols: seq<Column>, c: Column): (r: seq<Column>)
    ensures c.name in Names(r)
    ensures c.name in Names(cols) ==> r == cols
    ensures c.name !in Names(cols) ==> r == cols + [c]
    ensures DistinctNames(cols) ==> DistinctNames(r)
  {
    if c.name in Names(cols) then cols
    else
      assert Names(cols + [c])[|cols|] == c.name;
      cols + [c]
  }

  /**
    The alters in order, each in a transaction of its own. `rejected` names the
    columns whose alter the server refuses (a lock timeout, a missing privilege).
   */
  function ApplyIsolated(cols: seq<Column>, alters: seq<Column>, rejected: set<string>)
    : (r: (seq<Column>, seq<AlterLog>))
    // existing columns are kept, unchanged and in place; new ones come from the list
    ensures |cols| <= |r.0| && r.0[..|cols|] == cols
    ensures forall k :: |cols| <= k < |r.0| ==>
      r.0[k] in alters && r.0[k].name !in rejected && r.0[k].name !in Names(cols)
    // every alter the server accepts leaves its column in place
    ensures forall c :: c in alters && c.name !in rejected ==> c.name in Names(r.0)
    // every alter is attempted, in list order; exactly the rejected ones are skipped
    ensures |r.1| == |alters|
    ensures forall k :: 0 <= k < |r.1| ==>
      r.1[k].name == alters[k].name && (r.1[k].Skipped? <==> alters[k].name in rejected)
    decreases |alters|
  {
    if |alters| == 0 then (cols, [])
    else
      var c := alters[0];
      var next := if c.name in rejected then cols else AddIfAbsent(cols, c);
      var entry := if c.name in rejected then Skipped(c.name, Rejected) else Applied(c.name);
      var rest := ApplyIsolated(next, alters[1..], rejected);
      KeptColumns(cols, next, rest.0);
      NewColumnsStep(cols, next, rest.0, alters, rejected);
      NamesKept(next, rest.0, c.name);
      (rest.0, [entry] + rest.1)
  }

  lemma KeptColumns(a: seq<Column>, b: seq<Column>, c: seq<Column>)
    requires |a| <= |b| && b[..|a|] == a
    requires |b| <= |c| && c[..|b|] == b
    ensures c[..|a|] == a
  {
    assert c[..|a|] == c[..|b|][..|a|];
  }

  /** The columns one step adds, followed by those the remaining alters add, all come from accepted, absent alters. */
  lemma NewColumnsStep(cols: seq<Column>, next: seq<Column>, r: seq<Column>, alters: seq<Column>, rejected: set<string>)
    requires |alters| > 0
    requires next == if alters[0].name in rejected then cols else AddIfAbsent(cols, alters[0])
    requires |next| <= |r| && r[..|next|] == next
    requires forall k :: |next| <= k < |r| ==>
      r[k] in alters[1..] && r[k].name !in rejected && r[k].name !in Names(next)
    ensures forall k :: |cols| <= k < |r| ==>
      r[k] in alters && r[k].name !in rejected && r[k].name !in Names(cols)
  {
    forall k | |cols| <= k < |r|
      ensures r[k] in alters && r[k].name !in rejected && r[k].name !in Names(cols)
    {
      if k < |next| {
        assert r[k] == next[k] == alters[0];
      } else {
        assert r[k] in alters[1..];
        NamesKept(cols, next, r[k].name);
      }
    }
  }

  lemma NamesKept(b: seq<Column>, c: seq<Column>, name: string)
    requires |b| <= |c| && c[..|b|] == b
    ensures name in Names(b) ==> name in Names(c)
  {
    if name in Names(b) {
      var m :| 0 <= m < |b| && Names(b)[m] == name;
      assert Names(c)[m] == name;
    }
  }

  /** New columns are distinct from the old ones and from each other. */
  lemma {:induction false} ApplyIsolatedDistinct(cols: seq<Column>, alters: seq<Column>, rejected: set<string>)
    requires DistinctNames(cols)
    ensures DistinctNames(ApplyIsolated(cols, alters, rejected).0)
    decreases |alters|
  {
    if |alters| > 0 {
      var next := if alters[0].name in rejected then cols else AddIfAbsent(cols, alters[0]);
      ApplyIsolatedDistinct(next, alters[1..], rejected);
    }
  }

  /**
    `init_db` with each statement isolated: the table exists afterwards, nothing
    is removed or altered, and every column whose alter the server accepts exists.
   */
  function InitDb(c: Catalog, rejected: set<string>): (o: Outcome)
    ensures o.catalog.Some?
    ensures c.Some? ==> |c.value| <= |o.catalog.value| && o.catalog.value[..|c.value|] == c.value
    ensures c.None? ==>
      |BaseColumns| <= |o.catalog.value| && o.catalog.value[..|BaseColumns|] == BaseColumns
    ensures forall a :: a in SafeAlters && a.name !in rejected ==> a.name in Names(o.catalog.value)
    // a column is added only by an accepted alter, and only when it was absent
    ensures forall k :: |CreateIfAbsent(c)| <= k < |o.catalog.value| ==>
      && o.catalog.value[k] in SafeAlters
      && o.catalog.value[k].name !in rejected
      && o.catalog.value[k].name !in Names(CreateIfAbsent(c))
    ensures |o.log| == |SafeAlters| && forall k :: 0 <= k < |o.log| ==>
      o.log[k].name == SafeAlters[k].name && (o.log[k].Skipped? <==> SafeAlters[k].name in rejected)
  {
    var r := ApplyIsolated(CreateIfAbsent(c), SafeAlters, rejected);
    Outcome(Some(r.0), r.1)
  }

  /** No duplicate columns: a table without duplicates keeps none. */
  lemma InitDbNoDuplicates(c: Catalog, rejected: set<string>)
    requires c.None? || DistinctNames(c.value)
    ensures DistinctNames(InitDb(c, rejected).catalog.value)
  {
    ApplyIsolatedDistinct(CreateIfAbsent(c), SafeAlters, rejected);
  }

  /** With no failures, all four added columns exist afterwards. */
  lemma RequiredColumnsExist(c: Catalog)
    ensures forall n :: n in ["src_port", "dst_port", "dns_query", "source"] ==>
      n in Names(InitDb(c, {}).catalog.value)
  {
    var cols := InitDb(c, {}).catalog.value;
    assert SafeAlters[0] in SafeAlters && SafeAlters[1] in SafeAlters;
    assert SafeAlters[2] in SafeAlters && SafeAlters[3] in SafeAlters;
  }

  /** A `source` column that the run itself adds carries the default 'LIVE'. */
  lemma SourceDefaultsToLive(c: Catalog, rejected: set<string>)
    ensures forall k ::
      (|CreateIfAbsent(c)| <= k < |InitDb(c, rejected).catalog.value| &&
       InitDb(c, rejected).catalog.value[k].name == "source") ==>
      InitDb(c, rejected).catalog.value[k].default == Some("'LIVE'")
  {
    var o := InitDb(c, rejected);
    forall k | |CreateIfAbsent(c)| <= k < |o.catalog.value| && o.catalog.value[k].name == "source"
      ensures o.catalog.value[k].default == Some("'LIVE'")
    {
      SafeSourceDefault(o.catalog.value[k]);
    }
  }

  /** The only alter named `source` is the one with DEFAULT 'LIVE'. */
  lemma SafeSourceDefault(col: Column)
    requires col in SafeAlters && col.name == "source"
    ensures col.default == Some("'LIVE'")
  {
  }

  /** Once every alter is accepted or already satisfied, re-running the alters is a no-op. */
  lemma {:induction false} ApplyIsolatedStable(cols: seq<Column>, alters: seq<Column>, rejected: set<string>)
    requires forall a :: a in alters && a.name !in rejected ==> a.name in Names(cols)
    ensures ApplyIsolated(cols, alters, rejected).0 == cols
    decreases |alters|
  {
    if |alters| > 0 {
      ApplyIsolatedStable(cols, alters[1..], rejected);
    }
  }

  /** Running `init_db` twice gives the same table as running it once. */
  lemma InitDbIdempotent(c: Catalog, rejected: set<string>)
    ensures InitDb(InitDb(c, rejected).catalog, rejected).catalog == InitDb(c, rejected).catalog
  {
    ApplyIsolatedStable(InitDb(c, rejected).catalog.value, SafeAlters, rejected);
  }

  /** A table that already has every added column is left exactly as it is, whatever fails. */
  lemma CompleteTableUntouched(cols: seq<Column>, rejected: set<string>)
    requires forall a :: a in SafeAlters ==> a.name in Names(cols)
    ensures InitDb(Some(cols), rejected).catalog == Some(cols)
  {
    ApplyIsolatedStable(cols, SafeAlters, rejected);
  }

  /** Some alter of the list is one the server refuses. */
  predicate AnyRejected(alters: seq<Column>, rejected: set<string>)
  {
    exists a :: a in alters && a.name in rejected
  }

  /**
    The alters inside one shared transaction: once a statement fails, the
    server refuses every later one. The flag reports whether the transaction
    has failed.
   */
  function ApplyInTransaction(cols: seq<Column>, alters: seq<Column>, rejected: set<string>, aborted: bool)
    : (r: (seq<Column>, seq<AlterLog>, bool))
    ensures |r.1| == |alters|
    ensures forall k :: 0 <= k < |r.1| ==> r.1[k].name == alters[k].name
    ensures r.2 <==> aborted || AnyRejected(alters, rejected)
    ensures aborted ==> r.0 == cols && forall k :: 0 <= k < |r.1| ==> r.1[k] == Skipped(alters[k].name, TransactionAborted)
    ensures !r.2 ==> r.0 == ApplyIsolated(cols, alters, rejected).0 && r.1 == ApplyIsolated(cols, alters, rejected).1
    decreases |alters|
  {
    if |alters| == 0 then (cols, [], aborted)
    else
      var c := alters[0];
      var rest :=
        if aborted || c.name in rejected then ApplyInTransaction(cols, alters[1..], rejected, true)
        else ApplyInTransaction(AddIfAbsent(cols, c), alters[1..], rejected, false);
      var entry :=
        if aborted then Skipped(c.name, TransactionAborted)
        else if c.name in rejected then Skipped(c.name, Rejected)
        else Applied(c.name);
      assert AnyRejected(alters, rejected) <==> c.name in rejected || AnyRejected(alters[1..], rejected) by {
        assert alters == [c] + alters[1..];
      }
      (rest.0, [entry] + rest.1, rest.2)
  }

  /**
    `init_db` as it runs: CREATE and the alters share one transaction, and
    `commit` on a failed transaction rolls it back, leaving the catalog as it was.
   */
  function InitDbAsWritten(c: Catalog, rejected: set<string>): (o: Outcome)
    ensures |o.log| == |SafeAlters| && forall k :: 0 <= k < |o.log| ==> o.log[k].name == SafeAlters[k].name
    ensures AnyRejected(SafeAlters, rejected) ==> o.catalog == c
    ensures !AnyRejected(SafeAlters, rejected) ==> o == InitDb(c, rejected)
  {
    var r := ApplyInTransaction(CreateIfAbsent(c), SafeAlters, rejected, false);
    Outcome(if r.2 then c else Some(r.0), r.1)
  }

  /**
    One rejected alter on a fresh database: the code as written ends with no
    table at all, although the CREATE and the three other alters were fine.
   */
  lemma FirstAlterFailureLosesTable()
    ensures InitDbAsWritten(None, {"src_port"}).catalog == None
    ensures InitDbAsWritten(None, {"src_port"}).log[0] == Skipped("src_port", Rejected)
    ensures forall k :: 1 <= k < |SafeAlters| ==>
      InitDbAsWritten(None, {"src_port"}).log[k] == Skipped(SafeAlters[k].name, TransactionAborted)
    ensures InitDb(None, {"src_port"}).catalog.Some?
    ensures forall k :: 1 <= k < |SafeAlters| ==>
      SafeAlters[k].name in Names(InitDb(None, {"src_port"}).catalog.value)
  {
    var rejected := {"src_port"};
    assert SafeAlters[0] in SafeAlters && SafeAlters[0].name in rejected;
    var tail := ApplyInTransaction(BaseColumns, SafeAlters[1..], rejected, true);
    assert ApplyInTransaction(BaseColumns, SafeAlters, rejected, false).1 ==
      [Skipped("src_port", Rejected)] + tail.1;
    forall k | 1 <= k < |SafeAlters|
      ensures SafeAlters[k].name !in rejected && SafeAlters[k] in SafeAlters
    {
    }
  }

  /**
    One rejected alter on an existing table, such as one whose lock another
    session holds: the code as written adds none of the other three columns,
    which the isolated version adds.
   */
  lemma EarlyFailureAddsNothing(cols: seq<Column>)
    ensures InitDbAsWritten(Some(cols), {"src_port"}).catalog == Some(cols)
    ensures InitDbAsWritten(Some(cols), {"src_port"}).log[0] == Skipped("src_port", Rejected)
    ensures forall k :: 1 <= k < |SafeAlters| ==>
      InitDbAsWritten(Some(cols), {"src_port"}).log[k] == Skipped(SafeAlters[k].name, TransactionAborted)
    ensures forall k :: 1 <= k < |SafeAlters| ==>
      SafeAlters[k].name in Names(InitDb(Some(cols), {"src_port"}).catalog.value)
  {
    var rejected := {"src_port"};
    assert SafeAlters[0] in SafeAlters && SafeAlters[0].name in rejected;
    var tail := ApplyInTransaction(cols, SafeAlters[1..], rejected, true);
    assert ApplyInTransaction(cols, SafeAlters, rejected, false).1 ==
      [Skipped("src_port", Rejected)] + tail.1;
    forall k | 1 <= k < |SafeAlters|
      ensures SafeAlters[k].name !in rejected && SafeAlters[k] in SafeAlters
    {
    }
  }
}

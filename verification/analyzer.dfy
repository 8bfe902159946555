/**
  The analyzer service's read-only queries over the persistor's `packets`
  table: the recent list, the time histogram of the recent rows, and the
  protocol pie chart.
 */
module Analyzer {
  import opened Wrappers
  import opened Json
  import opened SqlText
  import opened Persistor
  import opened Histogram

  /** `LIMIT 50` of the recent list and of the timeline. */
  const RecentLimit: nat := 50

  /** The six keys of a record of `/packets`. */
  const PacketFields: set<string> := {"id", "src_ip", "dest_ip", "protocol", "summary", "time"}

  /** `/packet_timeline`: sorted distinct times and the count of each. */
  datatype Timeline = Timeline(times: seq<Text>, counts: seq<nat>)

  /** `sorted` compared a null time with a string time and raised. */
  datatype QueryError = TypeError

  /** `/protocol_summary_chart`: parallel labels and counts. */
  datatype Chart = Chart(labels: seq<string>, counts: seq<nat>)

  function Min(a: nat, b: nat): nat
  {
    if a <= b then a else b
  }

  function Reverse<T>(s: seq<T>): (r: seq<T>)
    ensures |r| == |s| && forall i :: 0 <= i < |s| ==> r[i] == s[|s| - 1 - i]
  {
    seq(|s|, i requires 0 <= i < |s| => s[|s| - 1 - i])
  }

  /** How a TEXT cell is rendered in JSON. */
  function Cell(c: Text): Value
  {
    match c
    case None => Null
    case Some(s) => Str(s)
  }

  /** `ORDER BY id DESC LIMIT 50`: the rows with the highest ids, newest first. */
  function RecentRows(t: Table): (recent: seq<Row>)
    requires t.Valid()
    ensures |recent| == Min(RecentLimit, |t.rows|)
    ensures forall i, j :: 0 <= i < j < |recent| ==> recent[i].id > recent[j].id
    ensures forall r :: r in recent ==> r in t.rows
    ensures forall x, y :: x in t.rows && x !in recent && y in recent ==> x.id < y.id
  {
    var n := |t.rows|;
    var recent := Reverse(t.rows[n - Min(RecentLimit, n)..]);
    OlderRowsHaveLowerIds(t, recent);
    recent
  }

  lemma OlderRowsHaveLowerIds(t: Table, recent: seq<Row>)
    requires t.Valid()
    requires recent == Reverse(t.rows[|t.rows| - Min(RecentLimit, |t.rows|)..])
    ensures forall x, y :: x in t.rows && x !in recent && y in recent ==> x.id < y.id
  {
    var n := |t.rows|;
    var cut := n - Min(RecentLimit, n);
    forall i | cut <= i < n
      ensures t.rows[i] in recent
    {
      assert recent[n - 1 - i] == t.rows[i];
    }
    forall x, y | x in t.rows && x !in recent && y in recent
      ensures x.id < y.id
    {
      var i :| 0 <= i < n && t.rows[i] == x;
      var j :| 0 <= j < |recent| && recent[j] == y;
      assert y == t.rows[n - 1 - j];
    }
  }

  /** One record of `/packets`: exactly the six columns, copied from the row. */
  function View(r: Row): (v: Record)
    ensures v.Keys == PacketFields
    ensures v["id"] == Int(r.id)
    ensures v["src_ip"] == Cell(r.srcIp) && v["dest_ip"] == Cell(r.destIp)
    ensures v["protocol"] == Cell(r.protocol) && v["summary"] == Cell(r.summary)
    ensures v["time"] == Cell(r.time)
  {
    map["id" := Int(r.id), "src_ip" := Cell(r.srcIp), "dest_ip" := Cell(r.destIp),
        "protocol" := Cell(r.protocol), "summary" := Cell(r.summary), "time" := Cell(r.time)]
  }

  /** `/packets`. */
  function Packets(t: Table): (records: seq<Record>)
    requires t.Valid()
    ensures |records| == Min(RecentLimit, |t.rows|)
    ensures forall i :: 0 <= i < |records| ==> records[i] == View(RecentRows(t)[i])
  {
    var recent := RecentRows(t);
    seq(|recent|, i requires 0 <= i < |recent| => View(recent[i]))
  }

  /** The `time` column of the recent rows. */
  function RecentTimes(t: Table): (times: seq<Text>)
    requires t.Valid()
    ensures |times| == Min(RecentLimit, |t.rows|)
  {
    var recent := RecentRows(t);
    seq(|recent|, i requires 0 <= i < |recent| => recent[i].time)
  }

  /** `/packet_timeline`: `Counter` over the recent times, keys sorted ascending. */
  function PacketTimeline(t: Table): (r: Result<Timeline, QueryError>)
    requires t.Valid()
    // sorting raises exactly when a null time meets a string time
    ensures r.Err? <==> None in RecentTimes(t) && exists s :: Some(s) in RecentTimes(t)
    ensures r.Ok? ==> |r.value.times| == |r.value.counts|
    // sorted and distinct
    ensures r.Ok? ==> forall i, j :: 0 <= i < j < |r.value.times| ==>
      TextLess(r.value.times[i], r.value.times[j])
    // sparse: exactly the times that occur, each with its number of occurrences
    ensures r.Ok? ==> forall x :: x in r.value.times <==> x in RecentTimes(t)
    ensures r.Ok? ==> forall i :: 0 <= i < |r.value.counts| ==>
      r.value.counts[i] >= 1 && r.value.counts[i] == Count(RecentTimes(t), r.value.times[i])
    ensures r.Ok? ==> Sum(r.value.counts) == Min(RecentLimit, |t.rows|)
  {
    var times := RecentTimes(t);
    var h := Tally(times);
    TallyCounts(times);
    MixedIffNullFirst(times);
    if |h| >= 2 && h[0].key == None then Err(TypeError)
    else Ok(Timeline(Keys(h), Counts(h)))
  }

  /** A null and a string both occur exactly when the tally starts with null and has a second key. */
  lemma MixedIffNullFirst(xs: seq<Text>)
    ensures (None in xs && exists s :: Some(s) in xs) <==> (|Tally(xs)| >= 2 && Tally(xs)[0].key == None)
  {
    var h := Tally(xs);
    if None in xs && exists s :: Some(s) in xs {
      var s :| Some(s) in xs;
      assert None in Keys(h) && Some(s) in Keys(h);
      KeysFromFirst(h, None);
      var m :| 0 <= m < |h| && Keys(h)[m] == Some(s);
      assert m != 0;
    }
    if |h| >= 2 && h[0].key == None {
      assert h[0].key in Keys(h) && h[1].key in Keys(h);
      assert h[1].key.Some?;
    }
  }

  /** The `protocol` column of every row. */
  function Protocols(t: Table): (ps: seq<Text>)
    ensures |ps| == |t.rows|
  {
    seq(|t.rows|, i requires 0 <= i < |t.rows| => t.rows[i].protocol)
  }

  /** `protocol if protocol else "Unknown"`: null and the empty string are both unknown. */
  function Label(k: Text): string
  {
    match k
    case None => "Unknown"
    case Some(s) => if s == "" then "Unknown" else s
  }

  function Labels(h: seq<Bucket>): (labels: seq<string>)
    ensures |labels| == |h| && forall i :: 0 <= i < |h| ==> labels[i] == Label(h[i].key)
  {
    seq(|h|, i requires 0 <= i < |h| => Label(h[i].key))
  }

  /**
    The chart lists the groups `ks` of `ps`: each distinct value once, labelled
    and counted by its number of occurrences.
   */
  predicate GroupedBy(c: Chart, ks: seq<Text>, ps: seq<Text>)
  {
    && Distinct(ks)
    && (forall k :: k in ks ==> k in ps)
    && (forall k :: k in ps ==> k in ks)
    && |c.labels| == |ks| && |c.counts| == |ks|
    && forall i :: 0 <= i < |ks| ==> c.labels[i] == Label(ks[i]) && c.counts[i] == Count(ps, ks[i])
  }

  /** A sequence holding only `k` counts it at every position. */
  lemma {:induction false} CountUniform(ps: seq<Text>, k: Text)
    requires forall i :: 0 <= i < |ps| ==> ps[i] == k
    ensures Count(ps, k) == |ps|
    decreases |ps|
  {
    if |ps| > 0 {
      CountUniform(ps[..|ps| - 1], k);
    }
  }

  /** Rows whose protocols are all null form a single "Unknown" group holding every row. */
  lemma AllNullOneGroup(c: Chart, ks: seq<Text>, ps: seq<Text>)
    requires |ps| > 0 && forall i :: 0 <= i < |ps| ==> ps[i] == None
    requires GroupedBy(c, ks, ps)
    ensures c == Chart(["Unknown"], [|ps|])
  {
    assert ps[0] in ks;
    forall i | 0 <= i < |ks| ensures ks[i] in {None} {
      assert ks[i] in ps;
    }
    DistinctBound(ks, {None});
    assert ks[0] in ps;
    CountUniform(ps, None);
  }

  /**
    `/protocol_summary_chart`: `columns` is the column list the table reports.
    The groups are listed in ascending key order; SQL leaves the order open.
   */
  function ProtocolSummaryChart(columns: set<string>, t: Table): (c: Chart)
    ensures "protocol" !in columns ==> c == Chart(["Unknown"], [0])
    ensures "protocol" in columns && |t.rows| == 0 ==> c == Chart(["No Data"], [0])
    ensures "protocol" in columns && |t.rows| > 0 ==>
      && |c.labels| == |c.counts|
      && Sum(c.counts) == |t.rows|
      && (forall i :: 0 <= i < |c.counts| ==> c.counts[i] >= 1)
      // a named group counts exactly the rows with that protocol
      && (forall i :: 0 <= i < |c.labels| && c.labels[i] != "Unknown" ==>
            c.counts[i] == Count(Protocols(t), Some(c.labels[i])))
      // every non-empty protocol gets its label; null or empty ones fall under "Unknown"
      && (forall p :: Some(p) in Protocols(t) && p != "" ==> p in c.labels)
      && (None in Protocols(t) || Some("") in Protocols(t) ==> "Unknown" in c.labels)
      // only "Unknown" can be repeated (a null group and an empty-string group)
      && (forall i, j :: 0 <= i < j < |c.labels| && c.labels[i] == c.labels[j] ==>
            c.labels[i] == "Unknown")
      // GROUP BY, in some order: one entry per distinct protocol, with its row count
      && (exists ks :: GroupedBy(c, ks, Protocols(t)))
  {
    if "protocol" !in columns then Chart(["Unknown"], [0])
    else
      var ps := Protocols(t);
      var h := Tally(ps);
      if |h| == 0 then
        assert |ps| == 0 by { assert Sum(Counts(h)) == 0; }
        Chart(["No Data"], [0])
      else
        TallyCounts(ps);
        NamedGroupsCount(ps, h);
        LabelsCover(ps, h);
        OnlyUnknownRepeats(h);
        AscendingDistinct(h);
        assert GroupedBy(Chart(Labels(h), Counts(h)), Keys(h), ps);
        Chart(Labels(h), Counts(h))
  }

  /** Each named group counts exactly the rows carrying that protocol. */
  lemma NamedGroupsCount(ps: seq<Text>, h: seq<Bucket>)
    requires forall i :: 0 <= i < |h| ==> h[i].count == Count(ps, h[i].key)
    ensures forall i :: 0 <= i < |h| && Label(h[i].key) != "Unknown" ==>
      h[i].count == Count(ps, Some(Label(h[i].key)))
  {
    forall i | 0 <= i < |h| && Label(h[i].key) != "Unknown"
      ensures h[i].count == Count(ps, Some(Label(h[i].key)))
    {
      assert h[i].key == Some(Label(h[i].key));
    }
  }

  /** Every protocol that occurs gets a label: its own when non-empty, otherwise "Unknown". */
  lemma LabelsCover(ps: seq<Text>, h: seq<Bucket>)
    requires forall k :: k in ps ==> k in Keys(h)
    ensures forall p :: Some(p) in ps && p != "" ==> p in Labels(h)
    ensures None in ps || Some("") in ps ==> "Unknown" in Labels(h)
  {
    forall p | Some(p) in ps && p != ""
      ensures p in Labels(h)
    {
      assert Some(p) in Keys(h);
      var m :| 0 <= m < |h| && Keys(h)[m] == Some(p);
      assert Labels(h)[m] == p;
    }
    if None in ps || Some("") in ps {
      var k: Text := if None in ps then None else Some("");
      assert k in Keys(h);
      var m :| 0 <= m < |h| && Keys(h)[m] == k;
      assert Labels(h)[m] == "Unknown";
    }
  }

  /** In a histogram with distinct keys, only "Unknown" (null and "") can label two groups. */
  lemma OnlyUnknownRepeats(h: seq<Bucket>)
    requires Ascending(h)
    ensures forall i, j :: 0 <= i < j < |h| && Label(h[i].key) == Label(h[j].key) ==>
      Label(h[i].key) == "Unknown"
  {
    forall i, j | 0 <= i < j < |h| && Label(h[i].key) == Label(h[j].key)
      ensures Label(h[i].key) == "Unknown"
    {
      if Label(h[i].key) != "Unknown" {
        assert h[i].key == h[j].key;
        TextLessIrreflexive(h[i].key);
      }
    }
  }
}

/**
  The persistor service: the `packets` table (SERIAL id plus five TEXT columns)
  and `store_packet`, which appends one row built from five named keys of the
  request body.
 */
module Persistor {
  import opened Wrappers
  import opened Json
  import opened SqlText

  datatype Row = Row(id: int, srcIp: Text, destIp: Text, protocol: Text, summary: Text, time: Text)

  /** The table's rows in insertion order, and the next value of its SERIAL sequence. */
  datatype Table = Table(rows: seq<Row>, nextId: int) {
    /** Ids are drawn from the sequence: ascending in insertion order and below its next value. */
    predicate Valid()
    {
      && 1 <= nextId
      && (forall i, j :: 0 <= i < j < |rows| ==> rows[i].id < rows[j].id)
      && (forall i :: 0 <= i < |rows| ==> rows[i].id < nextId)
    }
  }

  /** The Python exception raised by a missing key of the request body. */
  datatype StoreError = KeyError(key: string)

  /** The table after the call, and the reply (or the exception) of `/store`. */
  datatype Stored = Stored(table: Table, reply: Result<Record, StoreError>)

  /** The keys read by the INSERT, in the order Python evaluates them. */
  const StoredKeys: seq<string> := ["src_ip", "dest_ip", "protocol", "summary", "time"]

  const StoreReply: Record := map["status" := Str("stored")]

  /** `CREATE TABLE IF NOT EXISTS packets`: an existing table is kept as it is. */
  function CreateTable(existing: Option<Table>): (t: Table)
    ensures existing.Some? ==> t == existing.value
    ensures existing.None? ==> t.rows == [] && t.Valid()
  {
    match existing
    case Some(table) => table
    case None => Table([], 1)
  }

  function NatToDecimal(n: nat): string
    decreases n
  {
    var digit := "0123456789"[n % 10];
    if n < 10 then [digit] else NatToDecimal(n / 10) + [digit]
  }

  /** How a JSON value lands in a TEXT column: null as NULL, numbers and booleans as their text. */
  function ToText(v: Value): Text
  {
    match v
    case Null => None
    case Str(s) => Some(s)
    case Int(i) => Some(if i < 0 then "-" + NatToDecimal(-i) else NatToDecimal(i))
    case Bool(b) => Some(if b then "true" else "false")
  }

  /** The first key of `keys` that `packet` lacks, as Python's left-to-right tuple evaluation finds it. */
  function FirstMissing(packet: Record, keys: seq<string>): (m: Option<string>)
    ensures m.None? <==> forall k :: k in keys ==> k in packet
    ensures m.Some? ==> m.value in keys && m.value !in packet
    ensures m.Some? ==> exists i :: 0 <= i < |keys| && keys[i] == m.value && forall j :: 0 <= j < i ==> keys[j] in packet
  {
    if |keys| == 0 then None
    else if keys[0] !in packet then
      Some(keys[0])
    else
      var rest := FirstMissing(packet, keys[1..]);
      if rest.Some? then
        ghost var i :| 0 <= i < |keys[1..]| && keys[1..][i] == rest.value && forall j :: 0 <= j < i ==> keys[1..][j] in packet;
        assert keys[i + 1] == rest.value;
        rest
      else rest
  }

  /** `store_packet`: read the five keys, append one row, commit, reply "stored". */
  function StorePacket(t: Table, packet: Record): (s: Stored)
    // a KeyError exactly when one of the five keys is missing; it leaves the table as it was
    ensures s.reply.Err? <==> exists k :: k in StoredKeys && k !in packet
    ensures s.reply.Err? ==>
      s.table == t && s.reply.error.key in StoredKeys && s.reply.error.key !in packet
    // otherwise exactly one row is appended, holding the five values and nothing else
    ensures s.reply.Ok? ==>
      && s.reply.value == StoreReply
      && |s.table.rows| == |t.rows| + 1
      && s.table.rows[..|t.rows|] == t.rows
      && s.table.rows[|t.rows|] == Row(
           s.table.rows[|t.rows|].id,
           ToText(packet["src_ip"]), ToText(packet["dest_ip"]), ToText(packet["protocol"]),
           ToText(packet["summary"]), ToText(packet["time"]))
    // the SERIAL id exceeds every existing id, and the table stays well formed
    ensures s.reply.Ok? && t.Valid() ==>
      && s.table.Valid()
      && forall r :: r in t.rows ==> r.id < s.table.rows[|t.rows|].id
  {
    match FirstMissing(packet, StoredKeys)
    case Some(k) => Stored(t, Err(KeyError(k)))
    case None =>
      var row := Row(t.nextId,
        ToText(packet["src_ip"]), ToText(packet["dest_ip"]), ToText(packet["protocol"]),
        ToText(packet["summary"]), ToText(packet["time"]));
      assert (t.rows + [row])[..|t.rows|] == t.rows;
      Stored(Table(t.rows + [row], t.nextId + 1), Ok(StoreReply))
  }

  /** Keys other than the five stored ones have no effect on a store. */
  lemma ExtraKeysIgnored(t: Table, p: Record, q: Record)
    requires forall k :: k in StoredKeys ==> (k in p <==> k in q)
    requires forall k :: k in StoredKeys && k in p ==> p[k] == q[k]
    ensures StorePacket(t, p) == StorePacket(t, q)
  {
    FirstMissingAgrees(p, q, StoredKeys);
    if FirstMissing(p, StoredKeys).None? {
      assert p["src_ip"] == q["src_ip"] && p["dest_ip"] == q["dest_ip"];
      assert p["protocol"] == q["protocol"] && p["summary"] == q["summary"] && p["time"] == q["time"];
    }
  }

  lemma {:induction false} FirstMissingAgrees(p: Record, q: Record, keys: seq<string>)
    requires forall k :: k in keys ==> (k in p <==> k in q)
    ensures FirstMissing(p, keys) == FirstMissing(q, keys)
    decreases |keys|
  {
    if |keys| > 0 {
      FirstMissingAgrees(p, q, keys[1..]);
    }
  }

  /** Stores applied one after another, as the service handles successive requests. */
  function StoreAll(t: Table, packets: seq<Record>): Table
    decreases |packets|
  {
    if |packets| == 0 then t
    else StoreAll(StorePacket(t, packets[0]).table, packets[1..])
  }

  /** The number of requests that carry all five keys. */
  function Complete(packets: seq<Record>): nat
    decreases |packets|
  {
    if |packets| == 0 then 0
    else (if FirstMissing(packets[0], StoredKeys).None? then 1 else 0) + Complete(packets[1..])
  }

  /** The table is append-only: earlier rows are never changed, one row per complete request. */
  lemma {:induction false} StoreAllAppendOnly(t: Table, packets: seq<Record>)
    requires t.Valid()
    ensures StoreAll(t, packets).Valid()
    ensures |StoreAll(t, packets).rows| == |t.rows| + Complete(packets)
    ensures StoreAll(t, packets).rows[..|t.rows|] == t.rows
    decreases |packets|
  {
    if |packets| > 0 {
      var t' := StorePacket(t, packets[0]).table;
      StoreAllAppendOnly(t', packets[1..]);
      var final := StoreAll(t', packets[1..]);
      assert final.rows[..|t.rows|] == final.rows[..|t'.rows|][..|t.rows|];
    }
  }
}

/**
  The services side by side: what the persistor makes of a record that the
  capture service classified and the parser tagged.
 */
module Pipeline {
  import opened Wrappers
  import opened Json
  import opened Http
  import opened Capture
  import opened Parser
  import opened Persistor
  import Analyzer

  /** The status `/store` answers with: an uncaught KeyError becomes a server error. */
  function StoreStatus(s: Stored): int
  {
    if s.reply.Ok? then 200 else 500
  }

  /** The classifier's output has the address and protocol keys the store reads, but never `summary` or `time`. */
  lemma MetaLacksSummaryAndTime(f: Frame, now: Clock)
    ensures var meta := Tag(PacketToMeta(f, now));
      && "src_ip" in meta && "dest_ip" in meta && "protocol" in meta
      && "summary" !in meta && "time" !in meta
  {
    assert "summary" !in MetaKeys && "time" !in MetaKeys;
  }

  /** The KeyError names the first absent key. */
  lemma FourthKeyMissing(packet: Record, keys: seq<string>)
    requires |keys| >= 4
    requires keys[0] in packet && keys[1] in packet && keys[2] in packet && keys[3] !in packet
    ensures FirstMissing(packet, keys) == Some(keys[3])
  {
    assert keys[1..][1..][1..][0] == keys[3];
  }

  /** Every classified frame is refused by the store with KeyError('summary'); the table is untouched. */
  lemma LiveRecordRejected(f: Frame, now: Clock, t: Table)
    ensures StorePacket(t, Tag(PacketToMeta(f, now))) == Stored(t, Err(KeyError("summary")))
  {
    MetaLacksSummaryAndTime(f, now);
    FourthKeyMissing(Tag(PacketToMeta(f, now)), StoredKeys);
  }

  /**
    A classified frame through parser and persistor, with the persistor up:
    the first POST gets the server error, which is not an exception, so the
    parser counts it delivered and answers "ok" while nothing is stored.
   */
  method Ingest(f: Frame, now: Clock, t: Table) returns (reply: Record, delivered: bool, table: Table)
    ensures reply == ParseReply && delivered
    ensures table == t
  {
    var meta := PacketToMeta(f, now);
    LiveRecordRejected(f, now, t);
    var stored := StorePacket(t, Tag(meta));
    var network: nat -> PostOutcome := _ => Responded(StoreStatus(stored));
    assert network(0).Responded?;
    var posts;
    reply, delivered, posts := ParsePacket(meta, network);
    table := stored.table;
  }

  /**
    Storing a complete record and then listing recent packets shows that record
    first, with the five values as stored; strings and nulls come back unchanged.
   */
  lemma StoredRecordListedFirst(t: Table, packet: Record)
    requires t.Valid()
    requires forall k :: k in StoredKeys ==> k in packet
    ensures var s := StorePacket(t, packet);
      && s.reply.Ok?
      && |Analyzer.Packets(s.table)| >= 1
      && var first := Analyzer.Packets(s.table)[0];
      && first["src_ip"] == Analyzer.Cell(ToText(packet["src_ip"]))
      && first["dest_ip"] == Analyzer.Cell(ToText(packet["dest_ip"]))
      && first["protocol"] == Analyzer.Cell(ToText(packet["protocol"]))
      && first["summary"] == Analyzer.Cell(ToText(packet["summary"]))
      && first["time"] == Analyzer.Cell(ToText(packet["time"]))
      && forall r :: r in t.rows ==> Int(r.id) != first["id"]
  {
    var s := StorePacket(t, packet);
    var recent := Analyzer.RecentRows(s.table);
    assert recent[0] == s.table.rows[|t.rows|];
  }

  /** A string or null value reads back from the store exactly as it was sent. */
  lemma TextRoundTrip(v: Value)
    requires v.Null? || v.Str?
    ensures Analyzer.Cell(ToText(v)) == v
  {
  }
}

/**
  The parser service: `parse_packet` tags the incoming dictionary as parsed and
  forwards it with `send_to_persistor`, which retries a bounded number of times.
 */
module Parser {
  import opened Json
  import opened Http

  /** `range(10)` in `send_to_persistor`. */
  const MaxAttempts: nat := 10

  /** The reply of `/parse`, whatever happened downstream. */
  const ParseReply: Record := map["status" := Str("ok")]

  /** `packet["parsed"] = True`. */
  function Tag(packet: Record): (tagged: Record)
    ensures "parsed" in tagged && tagged["parsed"] == Bool(true)
    ensures tagged.Keys == packet.Keys + {"parsed"}
    ensures forall k :: k in packet && k != "parsed" ==> tagged[k] == packet[k]
  {
    packet["parsed" := Bool(true)]
  }

  /**
    `send_to_persistor`: `network(i)` is what the i-th POST does. Only a raised
    exception causes a retry; any HTTP answer, an error status included, ends
    the loop with success. `sleeps` counts the pauses after failed attempts.
   */
  method SendToPersistor(packet: Record, network: nat -> PostOutcome)
    returns (delivered: bool, posts: seq<Record>, sleeps: nat)
    ensures 1 <= |posts| <= MaxAttempts
    ensures forall i :: 0 <= i < |posts| ==> posts[i] == packet
    ensures delivered <==> exists i :: 0 <= i < MaxAttempts && network(i).Responded?
    // every attempt before the last one raised
    ensures forall i :: 0 <= i < |posts| - 1 ==> network(i).Raised?
    // success stops right after the first attempt that did not raise
    ensures delivered ==> network(|posts| - 1).Responded? && sleeps == |posts| - 1
    // failure only after every attempt raised, with a pause after each
    ensures !delivered ==> |posts| == MaxAttempts && sleeps == MaxAttempts
  {
    posts := [];
    sleeps := 0;
    var attempt := 0;
    while attempt < MaxAttempts
      invariant 0 <= attempt <= MaxAttempts
      invariant |posts| == attempt && sleeps == attempt
      invariant forall i :: 0 <= i < |posts| ==> posts[i] == packet
      invariant forall i :: 0 <= i < attempt ==> network(i).Raised?
    {
      posts := posts + [packet];
      if network(attempt).Responded? {
        delivered := true;
        return;
      }
      sleeps := sleeps + 1;
      attempt := attempt + 1;
    }
    delivered := false;
  }

  /** `parse_packet`: tag, forward, and answer "ok" whether or not forwarding worked. */
  method ParsePacket(packet: Record, network: nat -> PostOutcome)
    returns (reply: Record, delivered: bool, posts: seq<Record>)
    ensures reply == ParseReply
    ensures 1 <= |posts| <= MaxAttempts
    ensures forall i :: 0 <= i < |posts| ==> posts[i] == Tag(packet)
    ensures delivered <==> exists i :: 0 <= i < MaxAttempts && network(i).Responded?
  {
    var sleeps;
    delivered, posts, sleeps := SendToPersistor(Tag(packet), network);
    reply := ParseReply;
  }
}

/**
  The capture service's frame classifier (`packet_to_meta`): a captured frame is
  reduced to a dictionary of header metadata, choosing the protocol label by a
  first-match cascade over the transport layers the frame carries.
 */
module Capture {
  import opened Wrappers
  import opened Json

  datatype Ipv4Layer = Ipv4Layer(src: string, dst: string, ttl: int, proto: int)
  datatype TcpLayer = TcpLayer(sport: int, dport: int, flags: string)
  datatype UdpLayer = UdpLayer(sport: int, dport: int)
  datatype IcmpLayer = IcmpLayer(icmpType: int, code: int)

  /**
    A captured frame: the name of its outermost layer, its length in bytes, the
    first occurrence of each layer the classifier asks about, and the
    application payload bytes the classifier must never copy out.
   */
  datatype Frame = Frame(
    name: string,
    length: nat,
    ip: Option<Ipv4Layer>,
    tcp: Option<TcpLayer>,
    udp: Option<UdpLayer>,
    icmp: Option<IcmpLayer>,
    payload: seq<int>)

  /** One wall-clock reading: whole seconds since the epoch and its local rendering. */
  datatype Clock = Clock(epoch: int, human: string)

  /** Every key the classifier may emit; none of them carries payload bytes. */
  const MetaKeys: set<string> := {
    "time_epoch", "time_human", "length", "raw_proto",
    "src_ip", "dest_ip", "ttl", "ip_proto",
    "protocol", "src_port", "dest_port", "flags", "icmp_type", "icmp_code"
  }

  /** The keys present in every classification, whatever layers the frame has. */
  const AlwaysKeys: set<string> := {
    "time_epoch", "time_human", "length", "raw_proto", "src_ip", "dest_ip", "protocol"
  }

  function PacketToMeta(f: Frame, now: Clock): (meta: Record)
    // only header metadata: the key set is bounded
    ensures AlwaysKeys <= meta.Keys <= MetaKeys
    ensures meta["time_epoch"] == Int(now.epoch) && meta["time_human"] == Str(now.human)
    ensures meta["length"] == Int(f.length) && meta["raw_proto"] == Str(f.name)
    // addresses come from the IPv4 header, or are null without one
    ensures f.ip.Some? ==>
      && meta["src_ip"] == Str(f.ip.value.src) && meta["dest_ip"] == Str(f.ip.value.dst)
      && "ttl" in meta && meta["ttl"] == Int(f.ip.value.ttl)
      && "ip_proto" in meta && meta["ip_proto"] == Int(f.ip.value.proto)
    ensures f.ip.None? ==>
      meta["src_ip"] == Null && meta["dest_ip"] == Null && "ttl" !in meta && "ip_proto" !in meta
    // transport precedence: TCP, then UDP, then ICMP, then the outer layer's name
    ensures f.tcp.Some? ==> meta["protocol"] == Str("TCP")
    ensures f.tcp.None? && f.udp.Some? ==> meta["protocol"] == Str("UDP")
    ensures f.tcp.None? && f.udp.None? && f.icmp.Some? ==> meta["protocol"] == Str("ICMP")
    ensures f.tcp.None? && f.udp.None? && f.icmp.None? ==> meta["protocol"] == meta["raw_proto"]
    // ports exactly for TCP/UDP classifications, ICMP fields exactly for ICMP ones
    ensures ("src_port" in meta) <==> (f.tcp.Some? || f.udp.Some?)
    ensures ("dest_port" in meta) <==> (f.tcp.Some? || f.udp.Some?)
    ensures ("flags" in meta) <==> f.tcp.Some?
    ensures ("icmp_type" in meta) <==> (f.tcp.None? && f.udp.None? && f.icmp.Some?)
    ensures ("icmp_code" in meta) <==> (f.tcp.None? && f.udp.None? && f.icmp.Some?)
    ensures f.tcp.Some? ==>
      meta["src_port"] == Int(f.tcp.value.sport) && meta["dest_port"] == Int(f.tcp.value.dport)
      && meta["flags"] == Str(f.tcp.value.flags)
    ensures f.tcp.None? && f.udp.Some? ==>
      meta["src_port"] == Int(f.udp.value.sport) && meta["dest_port"] == Int(f.udp.value.dport)
    ensures f.tcp.None? && f.udp.None? && f.icmp.Some? ==>
      meta["icmp_type"] == Int(f.icmp.value.icmpType) && meta["icmp_code"] == Int(f.icmp.value.code)
  {
    var base := map[
      "time_epoch" := Int(now.epoch), "time_human" := Str(now.human),
      "length" := Int(f.length), "raw_proto" := Str(f.name)];
    var withIp :=
      match f.ip
      case Some(ip) =>
        base["src_ip" := Str(ip.src)]["dest_ip" := Str(ip.dst)]["ttl" := Int(ip.ttl)]["ip_proto" := Int(ip.proto)]
      case None => base["src_ip" := Null]["dest_ip" := Null];
    if f.tcp.Some? then
      withIp["protocol" := Str("TCP")]["src_port" := Int(f.tcp.value.sport)]
            ["dest_port" := Int(f.tcp.value.dport)]["flags" := Str(f.tcp.value.flags)]
    else if f.udp.Some? then
      withIp["protocol" := Str("UDP")]["src_port" := Int(f.udp.value.sport)]
            ["dest_port" := Int(f.udp.value.dport)]
    else if f.icmp.Some? then
      withIp["protocol" := Str("ICMP")]["icmp_type" := Int(f.icmp.value.icmpType)]
            ["icmp_code" := Int(f.icmp.value.code)]
    else
      // setdefault: no earlier step has set "protocol", so the outer layer's name is used
      withIp["protocol" := withIp["raw_proto"]]
  }

  /** The payload bytes have no influence on the classification. */
  lemma PayloadNeverCarried(f: Frame, payload: seq<int>, now: Clock)
    ensures PacketToMeta(f.(payload := payload), now) == PacketToMeta(f, now)
  {
  }
}

/**
  The text a lump contributes to a rewritten message: literal text, socket
  substitutions and conditions, as the length pass counts it and as the write
  pass produces it.
*/
module LumpText {
  import opened Words

  const SIP_PORT: int := 5060
  const TRANSPORT_PARAM: string := ";transport="

  datatype IpAddr = IpAddr(af: AddressFamily, octets: seq<int>)

  /** PROTO_NONE .. PROTO_SCTP; any other value is only logged by the source. */
  datatype Proto = NoProto | Udp | Tcp | Tls | Sctp | UnknownProto

  datatype Socket = Socket(ip: IpAddr, addressStr: string, port: int, portStr: string, proto: Proto)

  /** What both passes read besides the lumps: the receiving side, the sending
      socket (absent when relaying a reply) and the advertised address. */
  datatype Env = Env(bind: Option<Socket>, dstIp: IpAddr, dstPort: int, rcvProto: Proto,
                     sendSock: Option<Socket>, globalAddress: string, globalPort: string)

  datatype SubstKind =
    | SubstNop | RcvIp | SndIp | RcvPort | SndPort | RcvProto | SndProto | RcvAll | SndAll

  datatype Cond = CondFalse | CondTrue | DiffRealms | DiffAf | DiffProto | DiffPort | DiffIp

  /** One element of a before/after chain, or the operation of a top-level insertion. */
  datatype Chunk = Add(value: string) | Subst(kind: SubstKind) | Opt(cond: Cond)

  function RcvIpAddr(env: Env): IpAddr {
    if env.bind.Some? then env.bind.value.ip else env.dstIp
  }

  function RcvPortNo(env: Env): int {
    if env.bind.Some? then env.bind.value.port else env.dstPort
  }

  function RcvProtocol(env: Env): Proto {
    if env.bind.Some? then env.bind.value.proto else env.rcvProto
  }

  /** lump_check_opt: without a sending socket every comparison is presumed to differ. */
  predicate CheckOpt(env: Env, c: Cond) {
    match c
    case CondFalse => false
    case CondTrue => true
    case _ =>
      if env.sendSock.None? then true
      else
        var snd := env.sendSock.value;
        match c
        case DiffRealms =>
          !(RcvPortNo(env) == snd.port && RcvProtocol(env) == snd.proto && RcvIpAddr(env) == snd.ip)
        case DiffAf => RcvIpAddr(env).af != snd.ip.af
        case DiffProto => RcvProtocol(env) != snd.proto
        case DiffPort => RcvPortNo(env) != snd.port
        case _ => RcvIpAddr(env) != snd.ip
  }

  // --- the counting half (SUBST_LUMP_LEN) ---

  function ProtoLen(p: Proto): nat {
    match p
    case Sctp => 4
    case UnknownProto => 0
    case _ => 3
  }

  function TransportLen(p: Proto): nat {
    match p
    case NoProto => 0
    case Udp => 0
    case Sctp => |TRANSPORT_PARAM| + 4
    case UnknownProto => 0
    case _ => |TRANSPORT_PARAM| + 3
  }

  function SndAddressLen(env: Env, s: Socket): nat {
    if env.globalAddress != "" then |env.globalAddress|
    else |s.addressStr| + if s.ip.af != Inet then 2 else 0
  }

  function SndPortLen(env: Env, s: Socket): nat {
    if env.globalPort != "" then |env.globalPort| else |s.portStr|
  }

  function RcvAddressLen(s: Socket): nat {
    |s.addressStr| + if s.ip.af != Inet then 2 else 0
  }

  function SubstLen(env: Env, k: SubstKind): nat {
    match k
    case SubstNop => 0
    case RcvIp => if env.bind.Some? then RcvAddressLen(env.bind.value) else 0
    case RcvPort => if env.bind.Some? then |env.bind.value.portStr| else 0
    case RcvProto => if env.bind.Some? then ProtoLen(env.bind.value.proto) else 0
    case RcvAll =>
      if env.bind.None? then 0
      else
        var s := env.bind.value;
        RcvAddressLen(s) + (if s.port != SIP_PORT then 1 + |s.portStr| else 0) + TransportLen(s.proto)
    case SndIp => if env.sendSock.Some? then SndAddressLen(env, env.sendSock.value) else 0
    case SndPort => if env.sendSock.Some? then SndPortLen(env, env.sendSock.value) else 0
    case SndProto => if env.sendSock.Some? then ProtoLen(env.sendSock.value.proto) else 0
    case SndAll =>
      if env.sendSock.None? then 0
      else
        var s := env.sendSock.value;
        SndAddressLen(env, s)
        + (if s.port != SIP_PORT || env.globalPort != "" then 1 + SndPortLen(env, s) else 0)
        + TransportLen(s.proto)
  }

  function ChunkLen(env: Env, c: Chunk): nat {
    match c
    case Add(v) => |v|
    case Subst(k) => SubstLen(env, k)
    case Opt(_) => 0
  }

  /** A condition that fails ends its chain. */
  function ChainLen(env: Env, chain: seq<Chunk>): nat {
    if chain == [] || (chain[0].Opt? && !CheckOpt(env, chain[0].cond)) then 0
    else ChunkLen(env, chain[0]) + ChainLen(env, chain[1..])
  }

  // --- the writing half (SUBST_LUMP) ---

  function ProtoText(p: Proto): string {
    match p
    case NoProto => "udp"
    case Udp => "udp"
    case Tcp => "tcp"
    case Tls => "tls"
    case Sctp => "sctp"
    case UnknownProto => ""
  }

  function TransportText(p: Proto): string {
    match p
    case Tcp => TRANSPORT_PARAM + "tcp"
    case Tls => TRANSPORT_PARAM + "tls"
    case Sctp => TRANSPORT_PARAM + "sctp"
    case _ => ""
  }

  /** Addresses of any family but IPv4 are bracketed. */
  function Bracketed(s: Socket): string {
    if s.ip.af != Inet then "[" + s.addressStr + "]" else s.addressStr
  }

  function SndAddress(env: Env, s: Socket): string {
    if env.globalAddress != "" then env.globalAddress else Bracketed(s)
  }

  function SndPortText(env: Env, s: Socket): string {
    if env.globalPort != "" then env.globalPort else s.portStr
  }

  function SubstText(env: Env, k: SubstKind): string {
    match k
    case SubstNop => ""
    case RcvIp => if env.bind.Some? then Bracketed(env.bind.value) else ""
    case RcvPort => if env.bind.Some? then env.bind.value.portStr else ""
    case RcvProto => if env.bind.Some? then ProtoText(env.bind.value.proto) else ""
    case RcvAll =>
      if env.bind.None? then ""
      else
        var s := env.bind.value;
        Bracketed(s) + (if s.port != SIP_PORT then ":" + s.portStr else "") + TransportText(s.proto)
    case SndIp => if env.sendSock.Some? then SndAddress(env, env.sendSock.value) else ""
    case SndPort => if env.sendSock.Some? then SndPortText(env, env.sendSock.value) else ""
    case SndProto => if env.sendSock.Some? then ProtoText(env.sendSock.value.proto) else ""
    case SndAll =>
      if env.sendSock.None? then ""
      else
        var s := env.sendSock.value;
        SndAddress(env, s)
        + (if s.port != SIP_PORT || env.globalPort != "" then ":" + SndPortText(env, s) else "")
        + TransportText(s.proto)
  }

  function ChunkText(env: Env, c: Chunk): string {
    match c
    case Add(v) => v
    case Subst(k) => SubstText(env, k)
    case Opt(_) => ""
  }

  function ChainText(env: Env, chain: seq<Chunk>): string {
    if chain == [] || (chain[0].Opt? && !CheckOpt(env, chain[0].cond)) then ""
    else ChunkText(env, chain[0]) + ChainText(env, chain[1..])
  }

  /** The two independent expansions of a substitution agree on its size. */
  lemma SubstAgrees(env: Env, k: SubstKind)
    ensures |SubstText(env, k)| == SubstLen(env, k)
  {
  }

  lemma {:induction false} ChainAgrees(env: Env, chain: seq<Chunk>)
    ensures |ChainText(env, chain)| == ChainLen(env, chain)
  {
    if chain != [] {
      if chain[0].Subst? { SubstAgrees(env, chain[0].kind); }
      ChainAgrees(env, chain[1..]);
    }
  }
}

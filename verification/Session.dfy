/** The client, the VPN server and the destination as one transition system over
    byte channels: client.c, server.c and destination.c step by step. */
module Session {
  import opened Bytes
  import opened HostInfo
  import opened Headers
  import opened Wire

  /** Command lines and messages. The client names all three hosts; server and
      destination are each told their own name. */
  datatype Setup = Setup(
    clientName: string, serverName: string, destName: string,
    serverArg: string, destArg: string,
    request: seq<byte>, response: seq<byte>)

  /** Messages that keep every copy inside its buffer. */
  predicate Admissible(cfg: Setup) {
    && 0 !in cfg.request && |cfg.request| <= MAX_PAYLOAD
    && 0 !in cfg.response && |cfg.response| <= MAX_RESPONSE
  }

  type Config = cfg: Setup | Admissible(cfg) witness Setup("", "", "", "", "", [], [])

  /** Server and destination listen on the same port of every address of their
      host, so a client can find either one where it expects the server. */
  datatype Peer = ServerProgram | DestProgram

  /** Whose connection the destination accepted. */
  datatype Origin = FromServer | FromClient

  /** Where each program stands, with the local variables it still needs. */
  datatype Client =
    | CStart
    | CConnected(peer: Peer, clientIp: string, destIp: string)
    | CWaiting(peer: Peer)
    | CDone(peer: Peer, packet: WholePacket)
    | CExited

  datatype Server =
    | SListening(serverIp: string)
    | SReceiving(serverIp: string)
    | SHolding(packet: WholePacket, clientIp: uint32)
    | SConnected(packet: WholePacket, clientIp: uint32)
    | SWaiting(clientIp: uint32)
    | SReplying(packet: WholePacket)
    | SDone
    | SExited

  datatype Dest =
    | DListening(hostIp: string)
    | DReceiving(hostIp: string, from: Origin)
    | DHolding(hostIp: string, from: Origin, buf: InnerPacket)
    | DDone(from: Origin, buf: InnerPacket)
    | DExited

  type Channel = seq<seq<byte>>

  datatype State = State(client: Client, server: Server, dest: Dest,
                         c2s: Channel, s2d: Channel, d2s: Channel, s2c: Channel, c2d: Channel, d2c: Channel)

  datatype Event =
    | ClientConnectsServer | ClientConnectsDest | ClientGivesUp | ClientSends | ClientGetsReply
    | ServerAccepts | ServerReceives | ServerConnects | ServerForwards | ServerGetsReply | ServerReplies
    | DestAcceptsServer | DestAcceptsClient | DestReceives | DestReplies

  // ---------- channels ----------

  /** recv returns when a message is there, or, with 0 bytes, when the peer has gone. */
  predicate Readable(ch: Channel, closed: bool) { ch != [] || closed }

  function Message(ch: Channel): seq<byte> { if ch == [] then [] else ch[0] }

  function Remaining(ch: Channel): Channel { if ch == [] then [] else ch[1..] }

  predicate ClientClosed(c: Client) { c.CDone? || c.CExited? }
  predicate ServerClosed(s: Server) { s.SDone? || s.SExited? }
  predicate DestClosed(d: Dest) { d.DDone? || d.DExited? }

  // ---------- addresses ----------

  /** The names the client accepts: all known, and no two with the same address text. */
  predicate NamesOk(cfg: Config) {
    && HostIp(cfg.clientName).Some? && HostIp(cfg.serverName).Some? && HostIp(cfg.destName).Some?
    && HostIp(cfg.clientName) != HostIp(cfg.serverName)
    && HostIp(cfg.clientName) != HostIp(cfg.destName)
    && HostIp(cfg.serverName) != HostIp(cfg.destName)
  }

  function Addr(name: string): uint32
    requires HostIp(name).Some?
  {
    ParseAddr(HostIp(name).value)
  }

  /** The client passes its checks, and the server program is at the address it
      names for the server. */
  predicate Joined(cfg: Config) {
    NamesOk(cfg) && HostIp(cfg.serverArg) == HostIp(cfg.serverName)
  }

  /** The same with the destination program at that address. */
  predicate Misroutable(cfg: Config) {
    NamesOk(cfg) && HostIp(cfg.destArg) == HostIp(cfg.serverName)
  }

  // ---------- steps ----------

  function Init(cfg: Config): State {
    State(CStart,
          match HostIp(cfg.serverArg) case Some(ip) => SListening(ip) case None => SExited,
          match HostIp(cfg.destArg) case Some(ip) => DListening(ip) case None => DExited,
          [], [], [], [], [], [])
  }

  predicate ServerAnswers(cfg: Config, s: State) {
    NamesOk(cfg) && s.server.SListening? && Some(s.server.serverIp) == HostIp(cfg.serverName)
  }

  predicate DestAnswers(cfg: Config, s: State) {
    NamesOk(cfg) && s.dest.DListening? && Some(s.dest.hostIp) == HostIp(cfg.serverName)
  }

  /** The client has a connection to the given program and has not closed it. */
  predicate ClientOnLine(c: Client, peer: Peer) {
    (c.CConnected? || c.CWaiting?) && c.peer == peer
  }

  predicate ServerOnLine(s: Server) { s.SConnected? || s.SWaiting? }

  /** Which connect succeeds is up to the network when both programs listen at the
      address: both events are enabled then. */
  predicate Enabled(cfg: Config, s: State, e: Event) {
    match e
    case ClientConnectsServer => s.client.CStart? && ServerAnswers(cfg, s)
    case ClientConnectsDest => s.client.CStart? && DestAnswers(cfg, s)
    case ClientGivesUp => s.client.CStart? && !ServerAnswers(cfg, s) && !DestAnswers(cfg, s)
    case ClientSends => s.client.CConnected?
    case ClientGetsReply => s.client.CWaiting?
      && (match s.client.peer
          case ServerProgram => Readable(s.s2c, ServerClosed(s.server))
          case DestProgram => Readable(s.d2c, DestClosed(s.dest)))
    case ServerAccepts => s.server.SListening? && ClientOnLine(s.client, ServerProgram)
    case ServerReceives => s.server.SReceiving? && Readable(s.c2s, ClientClosed(s.client))
    case ServerConnects => s.server.SHolding?
    case ServerForwards => s.server.SConnected?
    case ServerGetsReply => s.server.SWaiting? && Readable(s.d2s, DestClosed(s.dest))
    case ServerReplies => s.server.SReplying?
    case DestAcceptsServer => s.dest.DListening? && ServerOnLine(s.server)
    case DestAcceptsClient => s.dest.DListening? && ClientOnLine(s.client, DestProgram)
    case DestReceives => s.dest.DReceiving?
      && (match s.dest.from
          case FromServer => Readable(s.s2d, ServerClosed(s.server))
          case FromClient => Readable(s.c2d, ClientClosed(s.client)))
    case DestReplies => s.dest.DHolding?
  }

  /** What the client does once some program has taken its connection. */
  function ClientOn(cfg: Config, peer: Peer): Client
    requires NamesOk(cfg)
  {
    CConnected(peer, HostIp(cfg.clientName).value, HostIp(cfg.destName).value)
  }

  /** A connect succeeds when a program still listens at the target address. The
      server looks for the destination only: no packet it holds names its own
      address as target (Theorems.ServerKnowsBothEnds). */
  function Apply(cfg: Config, s: State, e: Event): State
    requires Enabled(cfg, s, e)
  {
    match e
    case ClientConnectsServer => s.(client := ClientOn(cfg, ServerProgram))
    case ClientConnectsDest => s.(client := ClientOn(cfg, DestProgram))
    case ClientGivesUp => s.(client := CExited)
    case ClientSends =>
      var msg := ClientMessage(ParseAddr(s.client.clientIp), ParseAddr(s.client.destIp), cfg.request, TCP_FLAG_SYN);
      (match s.client.peer
       case ServerProgram => s.(client := CWaiting(ServerProgram), c2s := s.c2s + [msg])
       case DestProgram => s.(client := CWaiting(DestProgram), c2d := s.c2d + [msg]))
    case ClientGetsReply =>
      (match s.client.peer
       case ServerProgram => s.(client := CDone(ServerProgram, Received(Message(s.s2c))), s2c := Remaining(s.s2c))
       case DestProgram => s.(client := CDone(DestProgram, Received(Message(s.d2c))), d2c := Remaining(s.d2c)))
    case ServerAccepts =>
      s.(server := SReceiving(s.server.serverIp))
    case ServerReceives =>
      var msg := Message(s.c2s);
      var packet := ServerPacket(msg, ParseAddr(s.server.serverIp));
      s.(server := SHolding(packet, Get32(IpPart(Received(msg)), IP_SRC)), c2s := Remaining(s.c2s))
    case ServerConnects =>
      var target := PrintAddr(Get32(IpPart(s.server.packet), IP_DST));
      s.(server := if s.dest.DListening? && s.dest.hostIp == target
                   then SConnected(s.server.packet, s.server.clientIp) else SExited)
    case ServerForwards =>
      s.(server := SWaiting(s.server.clientIp), s2d := s.s2d + [Forwarded(s.server.packet)])
    case ServerGetsReply =>
      s.(server := SReplying(ReplyPacket(Message(s.d2s), s.server.clientIp)), d2s := Remaining(s.d2s))
    case ServerReplies =>
      s.(server := SDone, s2c := s.s2c + [ReplyMessage(s.server.packet)])
    case DestAcceptsServer =>
      s.(dest := DReceiving(s.dest.hostIp, FromServer))
    case DestAcceptsClient =>
      s.(dest := DReceiving(s.dest.hostIp, FromClient))
    case DestReceives =>
      (match s.dest.from
       case FromServer =>
         s.(dest := DHolding(s.dest.hostIp, FromServer, Deliver(Message(s.s2d), INNER_SIZE)), s2d := Remaining(s.s2d))
       case FromClient =>
         s.(dest := DHolding(s.dest.hostIp, FromClient, Deliver(Message(s.c2d), INNER_SIZE)), c2d := Remaining(s.c2d)))
    case DestReplies =>
      var answer := DestReply(s.dest.buf, ParseAddr(s.dest.hostIp), cfg.response);
      (match s.dest.from
       case FromServer => s.(dest := DDone(FromServer, s.dest.buf), d2s := s.d2s + [answer])
       case FromClient => s.(dest := DDone(FromClient, s.dest.buf), d2c := s.d2c + [answer]))
  }

  /** The state after a run of events, if every event was enabled when it happened. */
  function Exec(cfg: Config, run: seq<Event>): Option<State> {
    if run == [] then Some(Init(cfg))
    else
      var n := |run| - 1;
      match Exec(cfg, run[..n])
      case None => None
      case Some(s) => if Enabled(cfg, s, run[n]) then Some(Apply(cfg, s, run[n])) else None
  }

  // ---------- what travels ----------

  function Request(cfg: Config): seq<byte>
    requires NamesOk(cfg)
  {
    ClientMessage(Addr(cfg.clientName), Addr(cfg.destName), cfg.request, TCP_FLAG_SYN)
  }

  function SavedIp(cfg: Config): uint32
    requires Joined(cfg)
  {
    Get32(IpPart(Received(Request(cfg))), IP_SRC)
  }

  function Rewritten(cfg: Config): WholePacket
    requires Joined(cfg)
  {
    ServerPacket(Request(cfg), Addr(cfg.serverArg))
  }

  function Target(cfg: Config): string
    requires Joined(cfg)
  {
    PrintAddr(Get32(IpPart(Rewritten(cfg)), IP_DST))
  }

  /** The destination program is where the rewritten packet is sent. */
  predicate Routed(cfg: Config) {
    Joined(cfg) && HostIp(cfg.destArg) == Some(Target(cfg))
  }

  function DestBuffer(cfg: Config): InnerPacket
    requires Routed(cfg)
  {
    Deliver(Forwarded(Rewritten(cfg)), INNER_SIZE)
  }

  function Answer(cfg: Config): seq<byte>
    requires Routed(cfg)
  {
    DestReply(DestBuffer(cfg), ParseAddr(Target(cfg)), cfg.response)
  }

  function Reencapsulated(cfg: Config): WholePacket
    requires Routed(cfg)
  {
    ReplyPacket(Answer(cfg), SavedIp(cfg))
  }

  function FinalPacket(cfg: Config): WholePacket
    requires Routed(cfg)
  {
    Received(ReplyMessage(Reencapsulated(cfg)))
  }

  /** What the destination holds, and answers, when the client connected to it. */
  function DirectBuffer(cfg: Config): InnerPacket
    requires NamesOk(cfg)
  {
    Deliver(Request(cfg), INNER_SIZE)
  }

  function DirectAnswer(cfg: Config): seq<byte>
    requires NamesOk(cfg)
  {
    DestReply(DirectBuffer(cfg), Addr(cfg.serverName), cfg.response)
  }

  // ---------- the invariant ----------

  predicate DestIdle(cfg: Config, s: State) {
    s.dest == Init(cfg).dest && s.s2d == [] && s.d2s == []
  }

  predicate ClientAhead(cfg: Config, s: State) {
    Joined(cfg)
    && ((s.client == ClientOn(cfg, ServerProgram) && s.c2s == [])
        || (s.client == CWaiting(ServerProgram) && s.c2s == [Request(cfg)]))
  }

  predicate ClientWaits(s: State) { s.client == CWaiting(ServerProgram) && s.c2s == [] && s.s2c == [] }

  predicate NotJoining(s: State) {
    (s.client.CStart? || s.client.CExited?) && s.c2s == []
  }

  predicate WaitsForAnswer(cfg: Config, s: State)
    requires Routed(cfg)
  {
    match s.dest
    case DListening(hostIp) => hostIp == Target(cfg) && s.s2d == [Forwarded(Rewritten(cfg))] && s.d2s == []
    case DReceiving(hostIp, from) =>
      hostIp == Target(cfg) && from.FromServer? && s.s2d == [Forwarded(Rewritten(cfg))] && s.d2s == []
    case DHolding(hostIp, from, buf) =>
      hostIp == Target(cfg) && from.FromServer? && buf == DestBuffer(cfg) && s.s2d == [] && s.d2s == []
    case DDone(from, buf) => from.FromServer? && buf == DestBuffer(cfg) && s.s2d == [] && s.d2s == [Answer(cfg)]
    case DExited => false
  }

  /** Runs in which the client reaches the server program, or none yet, or none at all. */
  predicate ProxyInv(cfg: Config, s: State) {
    s.c2d == [] && s.d2c == [] &&
    match s.server
    case SListening(ip) =>
      HostIp(cfg.serverArg) == Some(ip) && DestIdle(cfg, s) && s.s2c == []
      && (NotJoining(s) || ClientAhead(cfg, s)) && (s.client.CExited? ==> !Joined(cfg) && !Misroutable(cfg))
    case SReceiving(ip) =>
      HostIp(cfg.serverArg) == Some(ip) && ClientAhead(cfg, s) && DestIdle(cfg, s) && s.s2c == []
    case SHolding(p, ip) =>
      Joined(cfg) && p == Rewritten(cfg) && ip == SavedIp(cfg) && ClientWaits(s) && DestIdle(cfg, s)
    case SConnected(p, ip) =>
      Routed(cfg) && p == Rewritten(cfg) && ip == SavedIp(cfg) && ClientWaits(s) && s.s2d == [] && s.d2s == []
      && (s.dest == DListening(Target(cfg)) || s.dest == DReceiving(Target(cfg), FromServer))
    case SWaiting(ip) =>
      Routed(cfg) && ip == SavedIp(cfg) && ClientWaits(s) && WaitsForAnswer(cfg, s)
    case SReplying(p) =>
      Routed(cfg) && p == Reencapsulated(cfg) && ClientWaits(s)
      && s.dest == DDone(FromServer, DestBuffer(cfg)) && s.s2d == [] && s.d2s == []
    case SDone =>
      Routed(cfg) && s.dest == DDone(FromServer, DestBuffer(cfg)) && s.c2s == [] && s.s2d == [] && s.d2s == []
      && ((s.client == CWaiting(ServerProgram) && s.s2c == [ReplyMessage(Reencapsulated(cfg))])
          || (s.client == CDone(ServerProgram, FinalPacket(cfg)) && s.s2c == []))
    case SExited =>
      DestIdle(cfg, s) && s.c2s == [] && s.s2c == []
      && ((HostIp(cfg.serverArg).None? && NotJoining(s) && (s.client.CExited? ==> !Misroutable(cfg)))
          || (Joined(cfg) && !Routed(cfg)
              && (s.client == CWaiting(ServerProgram) || s.client == CDone(ServerProgram, Received([])))))
  }

  /** Runs in which the client took the destination program for the server. */
  predicate DirectInv(cfg: Config, s: State) {
    Misroutable(cfg) && s.server == Init(cfg).server
    && s.c2s == [] && s.s2d == [] && s.d2s == [] && s.s2c == []
    && var hostIp := HostIp(cfg.serverName).value;
    match s.client
    case CConnected(_, _, _) =>
      s.client == ClientOn(cfg, DestProgram) && s.c2d == [] && s.d2c == []
      && (s.dest == DListening(hostIp) || s.dest == DReceiving(hostIp, FromClient))
    case CWaiting(_) =>
      s.client == CWaiting(DestProgram)
      && (if s.dest.DListening? || s.dest.DReceiving? then
            (s.dest == DListening(hostIp) || s.dest == DReceiving(hostIp, FromClient))
            && s.c2d == [Request(cfg)] && s.d2c == []
          else if s.dest.DHolding? then
            s.dest == DHolding(hostIp, FromClient, DirectBuffer(cfg)) && s.c2d == [] && s.d2c == []
          else
            s.dest == DDone(FromClient, DirectBuffer(cfg)) && s.c2d == [] && s.d2c == [DirectAnswer(cfg)])
    case CDone(_, _) =>
      s.client == CDone(DestProgram, Received(DirectAnswer(cfg)))
      && s.dest == DDone(FromClient, DirectBuffer(cfg)) && s.c2d == [] && s.d2c == []
    case _ => false
  }

  predicate TookDestForServer(c: Client) {
    (c.CConnected? || c.CWaiting? || c.CDone?) && c.peer.DestProgram?
  }

  /** Where every process is, and exactly what is in every channel. */
  predicate Inv(cfg: Config, s: State) {
    if TookDestForServer(s.client) then DirectInv(cfg, s) else ProxyInv(cfg, s)
  }

  predicate OfClient(e: Event) {
    e.ClientConnectsServer? || e.ClientConnectsDest? || e.ClientGivesUp? || e.ClientSends? || e.ClientGetsReply?
  }

  predicate OfDest(e: Event) {
    e.DestAcceptsServer? || e.DestAcceptsClient? || e.DestReceives? || e.DestReplies?
  }

  lemma ClientPreserves(cfg: Config, s: State, e: Event)
    requires !TookDestForServer(s.client) && ProxyInv(cfg, s) && Enabled(cfg, s, e)
    requires OfClient(e)
    ensures Inv(cfg, Apply(cfg, s, e))
  {
    hide HostIp, Admissible, ParseAddr, PrintAddr, ClientMessage, ServerPacket, Forwarded, DestReply,
         ReplyPacket, ReplyMessage, Received, Deliver, Get32, IpPart;
  }

  lemma ServerPreserves(cfg: Config, s: State, e: Event)
    requires !TookDestForServer(s.client) && ProxyInv(cfg, s) && Enabled(cfg, s, e)
    requires !OfClient(e) && !OfDest(e)
    ensures Inv(cfg, Apply(cfg, s, e))
  {
    hide HostIp, Admissible, ParseAddr, PrintAddr, ClientMessage, ServerPacket, Forwarded, DestReply,
         ReplyPacket, ReplyMessage, Received, Deliver, Get32, IpPart;
  }

  lemma DestPreserves(cfg: Config, s: State, e: Event)
    requires !TookDestForServer(s.client) && ProxyInv(cfg, s) && Enabled(cfg, s, e)
    requires OfDest(e)
    ensures Inv(cfg, Apply(cfg, s, e))
  {
    hide HostIp, Admissible, ParseAddr, PrintAddr, ClientMessage, ServerPacket, Forwarded, DestReply,
         ReplyPacket, ReplyMessage, Received, Deliver, Get32, IpPart;
  }

  lemma ProxyPreserved(cfg: Config, s: State, e: Event)
    requires !TookDestForServer(s.client) && ProxyInv(cfg, s) && Enabled(cfg, s, e)
    ensures Inv(cfg, Apply(cfg, s, e))
  {
    hide *;
    if OfClient(e) {
      ClientPreserves(cfg, s, e);
    } else if OfDest(e) {
      DestPreserves(cfg, s, e);
    } else {
      ServerPreserves(cfg, s, e);
    }
  }

  lemma DirectPreserved(cfg: Config, s: State, e: Event)
    requires TookDestForServer(s.client) && DirectInv(cfg, s) && Enabled(cfg, s, e)
    ensures Inv(cfg, Apply(cfg, s, e))
  {
    hide HostIp, Admissible, ParseAddr, PrintAddr, ClientMessage, ServerPacket, Forwarded, DestReply,
         ReplyPacket, ReplyMessage, Received, Deliver, Get32, IpPart;
  }

  lemma InvPreserved(cfg: Config, s: State, e: Event)
    requires Inv(cfg, s) && Enabled(cfg, s, e)
    ensures Inv(cfg, Apply(cfg, s, e))
  {
    hide ProxyInv, DirectInv, Apply, Enabled;
    if TookDestForServer(s.client) {
      DirectPreserved(cfg, s, e);
    } else {
      ProxyPreserved(cfg, s, e);
    }
  }

  /** Every reachable state, under every interleaving. */
  lemma {:induction false} Reachable(cfg: Config, run: seq<Event>)
    requires Exec(cfg, run).Some?
    ensures Inv(cfg, Exec(cfg, run).value)
  {
    hide HostIp, Inv, Apply, Enabled;
    if run != [] {
      var n := |run| - 1;
      Reachable(cfg, run[..n]);
      InvPreserved(cfg, Exec(cfg, run[..n]).value, run[n]);
    } else {
      InvInit(cfg);
    }
  }

  lemma InvInit(cfg: Config)
    ensures Inv(cfg, Init(cfg))
  {
  }
}

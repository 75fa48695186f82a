/** What holds of every run of the three programs, whatever the interleaving. */
module Theorems {
  import opened Bytes
  import opened HostInfo
  import opened Headers
  import opened Rewrite
  import opened Wire
  import opened Delivery
  import opened Session

  // ---------- routing ----------

  /** The client's string comparisons separate the three 32-bit addresses. */
  lemma AddressesDiffer(cfg: Config)
    requires NamesOk(cfg)
    ensures Addr(cfg.clientName) != Addr(cfg.serverName)
    ensures Addr(cfg.clientName) != Addr(cfg.destName)
    ensures Addr(cfg.serverName) != Addr(cfg.destName)
  {
    hide HostIp, ParseAddr, Canonical;
    HostIpIsCanonical(cfg.clientName);
    HostIpIsCanonical(cfg.serverName);
    HostIpIsCanonical(cfg.destName);
    ParseIsInjective(HostIp(cfg.clientName).value, HostIp(cfg.serverName).value);
    ParseIsInjective(HostIp(cfg.clientName).value, HostIp(cfg.destName).value);
    ParseIsInjective(HostIp(cfg.serverName).value, HostIp(cfg.destName).value);
  }

  /** The client accepts exactly three different names that are all in the table. */
  lemma NamesAccepted(cfg: Config)
    ensures NamesOk(cfg) <==>
      && HostIp(cfg.clientName).Some? && HostIp(cfg.serverName).Some? && HostIp(cfg.destName).Some?
      && cfg.clientName != cfg.serverName && cfg.clientName != cfg.destName && cfg.serverName != cfg.destName
  {
    hide HostIp;
    SameNames(cfg.clientName, cfg.serverName);
    SameNames(cfg.clientName, cfg.destName);
    SameNames(cfg.serverName, cfg.destName);
  }

  /** The address the server saves is the client's, and the text it connects to is
      the one the client looked up, after encryption, decryption and rewriting. */
  lemma ServerKnowsBothEnds(cfg: Config)
    requires Joined(cfg)
    ensures SavedIp(cfg) == Addr(cfg.clientName)
    ensures Some(Target(cfg)) == HostIp(cfg.destName)
    ensures Some(Target(cfg)) != HostIp(cfg.serverArg)
    ensures Routed(cfg) <==> HostIp(cfg.destArg) == HostIp(cfg.destName)
  {
    hide HostIp, ParseAddr, PrintAddr, Canonical, Received, ServerPacket, ClientMessage, IpPart, Get32,
         Accepts, Recovered, Forwarded;
    RequestDecrypted(Addr(cfg.clientName), Addr(cfg.destName), cfg.request);
    RequestDelivered(Addr(cfg.clientName), Addr(cfg.serverArg), Addr(cfg.destName), cfg.request);
    HostIpIsCanonical(cfg.destName);
    ParseThenPrint(HostIp(cfg.destName).value);
  }

  // ---------- end to end ----------

  /** From the server, to the destination, with the recovered request. */
  predicate RequestArrived(cfg: Config, buf: InnerPacket)
    requires NamesOk(cfg)
  {
    && Get32(InnerIp(buf), IP_SRC) == Addr(cfg.serverName)
    && Get32(InnerIp(buf), IP_DST) == Addr(cfg.destName)
    && InnerText(buf) == Recovered(cfg.request)
    && Accepts(InnerTcp(buf), TCP_SUM) && PlainTcp(InnerTcp(buf), 0x02)
  }

  /** From the destination, to the client, with the recovered response. */
  predicate AnswerArrived(cfg: Config, q: WholePacket)
    requires NamesOk(cfg)
  {
    && Get32(IpPart(q), IP_SRC) == Addr(cfg.destName)
    && Get32(IpPart(q), IP_DST) == Addr(cfg.clientName)
    && PayloadText(q) == Recovered(cfg.response)
    && Accepts(TcpPart(q), TCP_SUM) && PlainTcp(TcpPart(q), 0x16)
  }

  /** The destination's packet has the TCP header and the text the server decrypted,
      under a header the proxy stamped. */
  lemma RequestAtDestination(cfg: Config)
    requires Routed(cfg)
    ensures RequestArrived(cfg, DestBuffer(cfg))
    ensures InnerTcp(DestBuffer(cfg)) == TcpPart(Received(Request(cfg)))
    ensures InnerText(DestBuffer(cfg)) == PayloadText(Received(Request(cfg)))
    ensures InnerIp(DestBuffer(cfg)) == Stamp(InnerIp(DestBuffer(cfg)))
    ensures Swap16(Get16(InnerIp(DestBuffer(cfg)), IP_LEN)) == MAX_PAYLOAD + IP_SIZE
    ensures DestBuffer(cfg) == Forwarded(Rewritten(cfg))
  {
    hide HostIp, ParseAddr, Received, ServerPacket, ClientMessage, Forwarded, Deliver, IpPart, TcpPart,
         InnerIp, InnerTcp, InnerText, PayloadText, PlainTcp, Tail, Get32, Get16, Accepts, Recovered, Stamp,
         Swap16, Target;
    RequestDelivered(Addr(cfg.clientName), Addr(cfg.serverName), Addr(cfg.destName), cfg.request);
  }

  /** The client's packet has the TCP header of the destination's answer, which
      itself names only server and destination. */
  lemma AnswerAtClient(cfg: Config)
    requires Routed(cfg)
    ensures AnswerArrived(cfg, FinalPacket(cfg))
    ensures |Answer(cfg)| >= 40
    ensures TcpPart(FinalPacket(cfg)) == InnerTcp(Answer(cfg))
    ensures Get32(InnerIp(Answer(cfg)), IP_SRC) == Addr(cfg.destName)
    ensures Get32(InnerIp(Answer(cfg)), IP_DST) == Addr(cfg.serverName)
    ensures IpPart(FinalPacket(cfg)) == Stamp(IpPart(FinalPacket(cfg)))
    ensures Swap16(Get16(IpPart(FinalPacket(cfg)), IP_LEN)) == MAX_PAYLOAD + IP_SIZE
  {
    hide HostIp, ParseAddr, Received, DestReply, ReplyPacket, ReplyMessage, IpPart, TcpPart, InnerIp,
         InnerTcp, InnerText, PayloadText, Get32, Get16, Accepts, Recovered, Stamp, Swap16, Target, Request,
         Rewritten, SavedIp, DestBuffer;
    var d := Addr(cfg.destName);
    ServerKnowsBothEnds(cfg);
    RequestAtDestination(cfg);
    ReplyFields(DestBuffer(cfg), d, cfg.response);
    ReplyDelivered(DestBuffer(cfg), Addr(cfg.clientName), d, cfg.response);
  }

  predicate DestHolds(s: State) { s.dest.DHolding? || s.dest.DDone? }

  /** What the invariant says about packets held and messages in flight beyond the server. */
  lemma Holdings(cfg: Config, s: State)
    requires Inv(cfg, s)
    ensures DestHolds(s) && s.dest.from.FromServer? ==> Routed(cfg) && s.dest.buf == DestBuffer(cfg)
    ensures DestHolds(s) && s.dest.from.FromClient? ==> Misroutable(cfg) && s.dest.buf == DirectBuffer(cfg)
    ensures s.client.CDone? && s.server.SDone? ==> Routed(cfg) && s.client.packet == FinalPacket(cfg)
    ensures s.client.CDone? && !s.server.SDone? && s.client.peer.ServerProgram? ==>
      Joined(cfg) && !Routed(cfg) && s.client.packet == Received([])
    ensures s.client.CDone? && s.client.peer.DestProgram? ==>
      Misroutable(cfg) && !s.server.SDone? && s.client.packet == Received(DirectAnswer(cfg))
    ensures forall msg :: msg in s.s2d ==> Routed(cfg) && msg == Forwarded(Rewritten(cfg))
    ensures forall msg :: msg in s.d2s ==> Routed(cfg) && msg == Answer(cfg)
    ensures TookDestForServer(s.client) ==> Misroutable(cfg)
  {
    hide HostIp, NamesOk, Request, SavedIp, Rewritten, Target, DestBuffer, Answer, Reencapsulated,
         FinalPacket, DirectBuffer, DirectAnswer, Received, Forwarded, ReplyMessage;
  }

  /** The destination's buffer and the client's packet when the client took the
      destination program for the server: neither has the right source. */
  lemma DirectPackets(cfg: Config)
    requires NamesOk(cfg)
    ensures Get32(InnerIp(DirectBuffer(cfg)), IP_SRC) == UNPROXIED_SOURCE
    ensures Get32(IpPart(Received(DirectAnswer(cfg))), IP_SRC) == MISREAD_SOURCE
    ensures PayloadText(Received(DirectAnswer(cfg))) == Misread(cfg.response)
    ensures !RequestArrived(cfg, DirectBuffer(cfg))
    ensures !AnswerArrived(cfg, Received(DirectAnswer(cfg)))
  {
    hide HostIp, ParseAddr, Received, DestReply, IpPart, TcpPart, InnerIp, InnerTcp, InnerText, PayloadText,
         Get32, Accepts, Recovered, Misread, ClientMessage, Deliver;
    UnproxiedRequest(Addr(cfg.clientName), Addr(cfg.destName), cfg.request);
    UnproxiedAnswerSource(DirectBuffer(cfg), Addr(cfg.serverName), cfg.response);
    UnproxiedAnswerText(DirectBuffer(cfg), Addr(cfg.serverName), cfg.response);
    NoHostMisread(cfg.serverName);
    NoHostMisread(cfg.destName);
  }

  /** End-of-file has no text and not the right source either. */
  lemma EmptyPacket(cfg: Config)
    requires NamesOk(cfg)
    ensures PayloadText(Received([])) == []
    ensures !AnswerArrived(cfg, Received([]))
  {
    hide HostIp, ParseAddr, Received, IpPart, TcpPart, PayloadText, Get32, Accepts, Recovered;
    EmptyAnswer();
    NoHostMisread(cfg.destName);
  }

  lemma RoutedIsJoined(cfg: Config)
    requires Routed(cfg)
    ensures Joined(cfg)
  {
  }

  /** In every reachable state, for all command lines: a destination holds the request
      as it should arrive exactly when its connection is the server's, and a client
      that is done holds the answer as it should exactly when the server is done. */
  lemma EndToEnd(cfg: Config, run: seq<Event>)
    requires Exec(cfg, run).Some?
    ensures var s := Exec(cfg, run).value;
      DestHolds(s) ==> NamesOk(cfg) && (RequestArrived(cfg, s.dest.buf) <==> s.dest.from.FromServer?)
    ensures var s := Exec(cfg, run).value;
      s.client.CDone? ==> NamesOk(cfg) && (AnswerArrived(cfg, s.client.packet) <==> s.server.SDone?)
  {
    hide HostIp, RequestArrived, AnswerArrived, Exec, Admissible, Inv, Routed, DestBuffer, Answer,
         FinalPacket, DirectBuffer, DirectAnswer, Received, Forwarded, NamesOk;
    Reachable(cfg, run);
    Holdings(cfg, Exec(cfg, run).value);
    if Routed(cfg) {
      RoutedIsJoined(cfg);
      RequestAtDestination(cfg);
      AnswerAtClient(cfg);
    }
    if NamesOk(cfg) {
      DirectPackets(cfg);
      EmptyPacket(cfg);
    }
  }

  // ---------- misrouting ----------

  /** Nobody takes the destination for the server unless the destination program was
      started with a name of the server's address. */
  lemma NeverMisrouted(cfg: Config, run: seq<Event>)
    requires Exec(cfg, run).Some? && HostIp(cfg.destArg) != HostIp(cfg.serverName)
    ensures var s := Exec(cfg, run).value;
      !TookDestForServer(s.client) && (DestHolds(s) ==> s.dest.from.FromServer?)
  {
    hide HostIp, Exec, Inv, Routed, DestBuffer, Answer, FinalPacket, DirectBuffer, DirectAnswer, Received, Forwarded;
    Reachable(cfg, run);
    Holdings(cfg, Exec(cfg, run).value);
  }

  lemma OneMore(cfg: Config, run: seq<Event>, e: Event)
    requires Exec(cfg, run).Some? && Enabled(cfg, Exec(cfg, run).value, e)
    ensures Exec(cfg, run + [e]) == Some(Apply(cfg, Exec(cfg, run).value, e))
  {
    hide Enabled, Apply;
    assert (run + [e])[..|run|] == run;
  }

  lemma MisroutedStart(cfg: Config) returns (run: seq<Event>)
    requires Misroutable(cfg)
    ensures Exec(cfg, run).Some?
    ensures var s := Exec(cfg, run).value;
      s.client == CWaiting(DestProgram) && s.dest.DListening? && s.c2d != []
  {
    hide ClientMessage, ParseAddr, HostIp, ServerAnswers;
    run := [];
    assert Exec(cfg, run) == Some(Init(cfg));
    hide Exec;
    OneMore(cfg, run, ClientConnectsDest);
    run := run + [ClientConnectsDest];
    OneMore(cfg, run, ClientSends);
    run := run + [ClientSends];
  }

  /** The run that shows it: connect, send, accept, receive. */
  lemma MisroutedRun(cfg: Config) returns (run: seq<Event>)
    requires Misroutable(cfg)
    ensures Exec(cfg, run).Some?
    ensures DestHolds(Exec(cfg, run).value) && Exec(cfg, run).value.dest.from.FromClient?
  {
    run := MisroutedStart(cfg);
    hide Exec, Deliver, NamesOk, HostIp, ServerAnswers, DestAnswers;
    OneMore(cfg, run, DestAcceptsClient);
    run := run + [DestAcceptsClient];
    OneMore(cfg, run, DestReceives);
    run := run + [DestReceives];
  }

  predicate RequestSound(cfg: Config, s: State) {
    DestHolds(s) ==> NamesOk(cfg) && RequestArrived(cfg, s.dest.buf)
  }

  /** Every run brings only proper requests to the destination if and only if the
      client does not look for the server where the destination program listens. */
  lemma RequestsSoundIff(cfg: Config)
    ensures (forall run :: Exec(cfg, run).Some? ==> RequestSound(cfg, Exec(cfg, run).value)) <==> !Misroutable(cfg)
  {
    hide HostIp, RequestArrived, AnswerArrived, Exec, NamesOk, RequestSound;
    if Misroutable(cfg) {
      var run := MisroutedRun(cfg);
      EndToEnd(cfg, run);
      assert !RequestSound(cfg, Exec(cfg, run).value) by { UnsoundState(cfg, Exec(cfg, run).value); }
    } else {
      forall run | Exec(cfg, run).Some? ensures RequestSound(cfg, Exec(cfg, run).value) {
        EndToEnd(cfg, run);
        DirectNeedsMisroute(cfg, run);
        SoundState(cfg, Exec(cfg, run).value);
      }
    }
  }

  lemma UnsoundState(cfg: Config, s: State)
    requires DestHolds(s) && NamesOk(cfg) && !RequestArrived(cfg, s.dest.buf)
    ensures !RequestSound(cfg, s)
  {
  }

  lemma SoundState(cfg: Config, s: State)
    requires DestHolds(s) ==> NamesOk(cfg) && RequestArrived(cfg, s.dest.buf)
    ensures RequestSound(cfg, s)
  {
  }

  lemma DirectNeedsMisroute(cfg: Config, run: seq<Event>)
    requires Exec(cfg, run).Some?
    ensures DestHolds(Exec(cfg, run).value) && Exec(cfg, run).value.dest.from.FromClient? ==> Misroutable(cfg)
  {
    hide HostIp, Exec, Inv, Routed, DestBuffer, Answer, FinalPacket, DirectBuffer, DirectAnswer, Received, Forwarded;
    Reachable(cfg, run);
    Holdings(cfg, Exec(cfg, run).value);
  }

  /** Such command lines exist: the destination program started with the name the
      client gives for the server. */
  lemma MisroutedCommandLines(request: seq<byte>, response: seq<byte>) returns (cfg: Config, run: seq<Event>)
    requires Admissible(Setup("h1", "h2", "h4", "h3", "h2", request, response))
    ensures cfg == Setup("h1", "h2", "h4", "h3", "h2", request, response)
    ensures Exec(cfg, run).Some? && DestHolds(Exec(cfg, run).value)
    ensures NamesOk(cfg) && !RequestArrived(cfg, Exec(cfg, run).value.dest.buf)
  {
    cfg := Setup("h1", "h2", "h4", "h3", "h2", request, response);
    hide Exec, RequestArrived, AnswerArrived, Admissible;
    HostNamesInjective("h1", "h2");
    HostNamesInjective("h1", "h4");
    HostNamesInjective("h2", "h4");
    run := MisroutedRun(cfg);
    EndToEnd(cfg, run);
  }

  // ---------- texts ----------

  /** Both messages arrive whole exactly when they fit and no byte meets its key byte. */
  lemma WholeMessages(cfg: Config, run: seq<Event>)
    requires Exec(cfg, run).Some?
    ensures var s := Exec(cfg, run).value;
      DestHolds(s) && s.dest.from.FromServer? ==>
        (InnerText(s.dest.buf) == cfg.request <==> |cfg.request| < MAX_PAYLOAD && KeyFree(cfg.request))
    ensures var s := Exec(cfg, run).value;
      s.client.CDone? && s.server.SDone? ==>
        (PayloadText(s.client.packet) == cfg.response <==> KeyFree(cfg.response))
  {
    hide HostIp, ParseAddr, IpPart, TcpPart, InnerIp, InnerTcp, InnerText, PayloadText, PlainTcp, Tail, Get32, Accepts,
         Recovered, Exec, KeyFree;
    EndToEnd(cfg, run);
    RecoveredIsWhole(cfg.request);
    RecoveredIsWhole(cfg.response);
  }

  // ---------- the proxy ----------

  predicate Names(msg: seq<byte>, a: uint32) {
    |msg| >= 40 && (Get32(InnerIp(msg), IP_SRC) == a || Get32(InnerIp(msg), IP_DST) == a)
  }

  lemma RoutedMessagesHideClient(cfg: Config)
    requires Routed(cfg)
    ensures var fwd, rep := Forwarded(Rewritten(cfg)), Answer(cfg);
      && |fwd| >= 40 && !Names(fwd, Addr(cfg.clientName))
      && |rep| >= 40 && !Names(rep, Addr(cfg.clientName))
  {
    hide HostIp, ParseAddr, Get32, InnerIp, InnerText, Recovered, Accepts, DestBuffer, Answer, Forwarded,
         Rewritten, FinalPacket, AnswerArrived, Target;
    RequestAtDestination(cfg);
    AnswerAtClient(cfg);
    AddressesDiffer(cfg);
  }

  /** No packet between server and destination, in either direction and in any
      reachable state, names the client. */
  lemma ClientStaysHidden(cfg: Config, run: seq<Event>)
    requires Exec(cfg, run).Some?
    requires HostIp(cfg.clientName).Some?
    ensures var s := Exec(cfg, run).value;
      forall msg :: msg in s.s2d + s.d2s ==> |msg| >= 40 && !Names(msg, Addr(cfg.clientName))
  {
    hide HostIp, Addr, Exec, Inv, Routed, Answer, Forwarded, Rewritten, DirectBuffer, DirectAnswer, Received, Names;
    Reachable(cfg, run);
    Holdings(cfg, Exec(cfg, run).value);
    if Routed(cfg) {
      RoutedMessagesHideClient(cfg);
    }
  }

  // ---------- the stamped headers ----------

  /** With the shipped host table, no IP header the destination holds, and none a
      client that is done holds, verifies against its own checksum: not the two the
      proxy stamps, and not what misrouted messages and end-of-file decrypt to. */
  lemma DeliveredHeadersNeverVerify(cfg: Config, run: seq<Event>)
    requires Exec(cfg, run).Some?
    ensures var s := Exec(cfg, run).value;
      && (DestHolds(s) ==> !Accepts(InnerIp(s.dest.buf), IP_SUM))
      && (s.client.CDone? ==> !Accepts(IpPart(s.client.packet), IP_SUM))
  {
    hide HostIp, ParseAddr, IpPart, InnerIp, InnerText, PayloadText, Get32, Get16, Swap16, Stamp, Accepts,
         Recovered, Exec, Inv, Routed, DestBuffer, FinalPacket, DirectBuffer, DirectAnswer, Received,
         Forwarded;
    Reachable(cfg, run);
    Holdings(cfg, Exec(cfg, run).value);
    if Routed(cfg) {
      RoutedIsJoined(cfg);
      RequestAtDestination(cfg);
      AnswerAtClient(cfg);
      TableHeadersNeverVerify(InnerIp(DestBuffer(cfg)), cfg.serverName, cfg.destName);
      TableHeadersNeverVerify(IpPart(FinalPacket(cfg)), cfg.destName, cfg.clientName);
    }
    EmptyAnswerRejected();
    if Misroutable(cfg) {
      DirectHeadersRejected(cfg);
    }
  }

  lemma DirectHeadersRejected(cfg: Config)
    requires Misroutable(cfg)
    ensures !Accepts(InnerIp(DirectBuffer(cfg)), IP_SUM)
    ensures !Accepts(IpPart(Received(DirectAnswer(cfg))), IP_SUM)
  {
    hide HostIp, HostNumber, ParseAddr, Canonical, IpPart, InnerIp, Get32, Accepts, Received, ClientMessage, DestReply,
         Deliver, InnerTcp, InnerText, PayloadText, Recovered, Misread, RequestArrived, AnswerArrived;
    HostIpIsCanonical(cfg.clientName);
    HostIpIsCanonical(cfg.destName);
    UnproxiedHeaderRejected(HostNumber(cfg.clientName), HostNumber(cfg.destName), cfg.request);
    assert !Accepts(InnerIp(DirectBuffer(cfg)), IP_SUM);
    DirectPackets(cfg);
    hide DirectBuffer;
    UnproxiedAnswerRejected(DirectBuffer(cfg), Addr(cfg.serverName), cfg.response);
  }

  // ---------- memory ----------

  predicate FitsParser(ip: string) { '\0' !in ip && FieldsFit(ip, 4) }

  /** The payload of a received message ends before the receiver's buffer does, with
      a GRE header (client and server) and without one (the server's other socket). */
  predicate EndsWithGre(msg: seq<byte>) { 0 in Deliver(msg, PACKET_SIZE)[PAYLOAD_START..] }

  predicate EndsWithoutGre(msg: seq<byte>) { 0 in Deliver(msg, PACKET_SIZE)[40..INNER_SIZE] }

  /** In every reachable state: each message in flight has its NUL inside the buffer
      its receiver runs strlen on, and each address text held is one the parser reads
      without overflow. So the preconditions of the program legs are met. */
  lemma BuffersSuffice(cfg: Config, run: seq<Event>)
    requires Exec(cfg, run).Some?
    ensures var s := Exec(cfg, run).value;
      && (forall msg :: msg in s.c2s + s.s2c + s.d2c ==> EndsWithGre(msg))
      && (forall msg :: msg in s.d2s ==> EndsWithoutGre(msg))
      && (s.client.CConnected? ==> FitsParser(s.client.clientIp) && FitsParser(s.client.destIp))
      && (s.server.SListening? || s.server.SReceiving? ==> FitsParser(s.server.serverIp))
      && (s.dest.DListening? || s.dest.DReceiving? || s.dest.DHolding? ==> FitsParser(s.dest.hostIp))
  {
    hide HostIp, Exec, Inv, EndsWithGre, EndsWithoutGre, FitsParser;
    Reachable(cfg, run);
    var s := Exec(cfg, run).value;
    InFlight(cfg, s);
    forall name | HostIp(name).Some? ensures FitsParser(HostIp(name).value) {
      TableFits(name);
    }
    Texts(cfg, s);
  }

  lemma TableFits(name: string)
    requires HostIp(name).Some?
    ensures FitsParser(HostIp(name).value)
  {
    HostIpIsCanonical(name);
    CanonicalFits(HostIp(name).value);
  }

  lemma InFlight(cfg: Config, s: State)
    requires Inv(cfg, s)
    ensures forall msg :: msg in s.c2s + s.s2c + s.d2c ==> EndsWithGre(msg)
    ensures forall msg :: msg in s.d2s ==> EndsWithoutGre(msg)
  {
    hide Inv, NamesOk, Routed, EndsWithGre, EndsWithoutGre, Request, Answer, DirectAnswer, ReplyMessage, Reencapsulated;
    Travelling(cfg, s);
    if NamesOk(cfg) {
      UnroutedMessagesEnd(cfg);
    }
    if Routed(cfg) {
      RoutedMessagesEnd(cfg);
    }
  }

  lemma UnroutedMessagesEnd(cfg: Config)
    requires NamesOk(cfg)
    ensures EndsWithGre(Request(cfg)) && EndsWithGre(DirectAnswer(cfg))
  {
    hide HostIp, ParseAddr, Deliver, ClientMessage, DestReply, DirectBuffer;
    RequestHasNul(Addr(cfg.clientName), Addr(cfg.destName), cfg.request, TCP_FLAG_SYN);
    UnproxiedHasNul(DirectBuffer(cfg), Addr(cfg.serverName), cfg.response);
  }

  lemma RoutedMessagesEnd(cfg: Config)
    requires Routed(cfg)
    ensures EndsWithoutGre(Answer(cfg)) && EndsWithGre(ReplyMessage(Reencapsulated(cfg)))
  {
    hide HostIp, ParseAddr, Deliver, DestReply, ReplyPacket, ReplyMessage, DestBuffer, SavedIp, Target;
    AnswerHasNul(DestBuffer(cfg), ParseAddr(Target(cfg)), cfg.response);
    ReplyHasNul(DestBuffer(cfg), SavedIp(cfg), ParseAddr(Target(cfg)), cfg.response);
  }

  /** What the messages are that somebody will run strlen on. */
  lemma Travelling(cfg: Config, s: State)
    requires Inv(cfg, s)
    ensures forall msg :: msg in s.c2s ==> NamesOk(cfg) && msg == Request(cfg)
    ensures forall msg :: msg in s.c2d ==> NamesOk(cfg) && msg == Request(cfg)
    ensures forall msg :: msg in s.d2s ==> Routed(cfg) && msg == Answer(cfg)
    ensures forall msg :: msg in s.s2c ==> Routed(cfg) && msg == ReplyMessage(Reencapsulated(cfg))
    ensures forall msg :: msg in s.d2c ==> NamesOk(cfg) && msg == DirectAnswer(cfg)
  {
    hide HostIp, NamesOk, Request, SavedIp, Rewritten, Target, DestBuffer, Answer, Reencapsulated,
         FinalPacket, DirectBuffer, DirectAnswer, Received, Forwarded, ReplyMessage;
  }

  /** Every address text a process holds is one of the table's. */
  lemma Texts(cfg: Config, s: State)
    requires Inv(cfg, s)
    ensures s.client.CConnected? ==>
      Some(s.client.clientIp) == HostIp(cfg.clientName) && Some(s.client.destIp) == HostIp(cfg.destName)
    ensures s.server.SListening? || s.server.SReceiving? ==> Some(s.server.serverIp) == HostIp(cfg.serverArg)
    ensures s.dest.DListening? || s.dest.DReceiving? || s.dest.DHolding? ==>
      Some(s.dest.hostIp) == HostIp(cfg.destArg)
  {
    hide HostIp, Request, SavedIp, Rewritten, Target, DestBuffer, Answer, Reencapsulated, FinalPacket,
         DirectBuffer, DirectAnswer, Received, Forwarded, ReplyMessage;
  }

  /** What is sent, in bytes: 46 and the text, and always 168 to the destination. */
  lemma MessageSizes(cfg: Config, run: seq<Event>)
    requires Exec(cfg, run).Some?
    ensures var s := Exec(cfg, run).value;
      && (forall msg :: msg in s.c2s + s.c2d ==> |msg| == 46 + |cfg.request|)
      && (forall msg :: msg in s.s2d ==> |msg| == 168)
      && (forall msg :: msg in s.d2s + s.d2c + s.s2c ==> |msg| == 46 + |cfg.response|)
  {
    hide Exec, Inv, NamesOk, Routed, Request, Answer, DirectAnswer, ReplyMessage, Reencapsulated, Forwarded, Rewritten,
         DestBuffer, DirectBuffer, FinalPacket, Received;
    Reachable(cfg, run);
    Travelling(cfg, Exec(cfg, run).value);
    Holdings(cfg, Exec(cfg, run).value);
    if NamesOk(cfg) {
      UnroutedSizes(cfg);
    }
    if Routed(cfg) {
      RoutedSizes(cfg);
    }
  }

  lemma UnroutedSizes(cfg: Config)
    requires NamesOk(cfg)
    ensures |Request(cfg)| == 46 + |cfg.request| && |DirectAnswer(cfg)| == 46 + |cfg.response|
  {
    hide HostIp, ParseAddr, DirectBuffer, Built, ClientPacket;
    ClientPacketBytes(Addr(cfg.clientName), Addr(cfg.destName), cfg.request, TCP_FLAG_SYN);
  }

  lemma RoutedSizes(cfg: Config)
    requires Routed(cfg)
    ensures |Forwarded(Rewritten(cfg))| == 168
    ensures |Answer(cfg)| == |ReplyMessage(Reencapsulated(cfg))| == 46 + |cfg.response|
  {
    hide HostIp, ParseAddr, DestBuffer, SavedIp, Target, Rewritten, DestReply, ReplyPacket, ReplyMessage, Received,
         PlainTcp, Tail, PayloadText, IpPart, TcpPart, Stamp, Accepts, Get32, Get16, Swap16, Recovered;
    ReplyDelivered(DestBuffer(cfg), SavedIp(cfg), ParseAddr(Target(cfg)), cfg.response);
  }

  // ---------- progress ----------

  /** How many steps are left at most. */
  function Rank(s: State): nat {
    (match s.client
     case CStart => 3 case CConnected(_, _, _) => 2 case CWaiting(_) => 1 case CDone(_, _) => 0 case CExited => 0)
    + (match s.server
       case SListening(_) => 6 case SReceiving(_) => 5 case SHolding(_, _) => 4 case SConnected(_, _) => 3
       case SWaiting(_) => 2 case SReplying(_) => 1 case SDone => 0 case SExited => 0)
    + (match s.dest
       case DListening(_) => 3 case DReceiving(_, _) => 2 case DHolding(_, _, _) => 1
       case DDone(_, _) => 0 case DExited => 0)
  }

  lemma StepLowersRank(cfg: Config, s: State, e: Event)
    requires Enabled(cfg, s, e)
    ensures Rank(Apply(cfg, s, e)) < Rank(s)
  {
    hide ClientMessage, ServerPacket, Received, Forwarded, ReplyPacket, ReplyMessage, DestReply, Deliver,
         NamesOk, HostIp, PrintAddr, ParseAddr;
  }

  /** No run has more than twelve steps. */
  lemma {:induction false} RunsEnd(cfg: Config, run: seq<Event>)
    requires Exec(cfg, run).Some?
    ensures |run| + Rank(Exec(cfg, run).value) <= 12
    decreases |run|
  {
    hide HostIp, Apply, Enabled;
    if run != [] {
      var n := |run| - 1;
      RunsEnd(cfg, run[..n]);
      StepLowersRank(cfg, Exec(cfg, run[..n]).value, run[n]);
    }
  }

  predicate Stuck(cfg: Config, s: State) { forall e :: !Enabled(cfg, s, e) }

  /** The end of a run over the server program: the answer, or end-of-file when the
      server could not reach the destination. */
  function ProxyOutcome(cfg: Config): State
    requires Joined(cfg)
  {
    if Routed(cfg) then
      State(CDone(ServerProgram, FinalPacket(cfg)), SDone, DDone(FromServer, DestBuffer(cfg)), [], [], [], [], [], [])
    else
      State(CDone(ServerProgram, Received([])), SExited, Init(cfg).dest, [], [], [], [], [], [])
  }

  /** The end of a run in which the client took the destination for the server. */
  function DirectOutcome(cfg: Config): State
    requires Misroutable(cfg)
  {
    Init(cfg).(client := CDone(DestProgram, Received(DirectAnswer(cfg))), dest := DDone(FromClient, DirectBuffer(cfg)))
  }

  /** The states in which a run can end, given the command lines. */
  predicate IsOutcome(cfg: Config, s: State) {
    || (Joined(cfg) && s == ProxyOutcome(cfg))
    || (Misroutable(cfg) && s == DirectOutcome(cfg))
    || (!Joined(cfg) && !Misroutable(cfg) && s == Init(cfg).(client := CExited))
  }

  /** Every run that cannot go on has ended in an outcome; so nobody deadlocks before
      the client has an answer, has read end-of-file, or has refused to start. */
  lemma RunsEndInOutcomes(cfg: Config, run: seq<Event>)
    requires Exec(cfg, run).Some? && Stuck(cfg, Exec(cfg, run).value)
    ensures IsOutcome(cfg, Exec(cfg, run).value)
  {
    hide Exec, Enabled, Stuck, HostIp, Admissible, Request, SavedIp, Rewritten, Target, DestBuffer, Answer,
         Reencapsulated, FinalPacket, DirectBuffer, DirectAnswer, Received, Forwarded, ReplyMessage;
    Reachable(cfg, run);
    StuckMeans(cfg, Exec(cfg, run).value);
  }

  /** What it takes for no event to be enabled. */
  lemma StuckMeans(cfg: Config, s: State)
    requires Stuck(cfg, s)
    ensures s.client.CWaiting? || s.client.CDone? || s.client.CExited?
    ensures s.client == CWaiting(ServerProgram) ==> s.s2c == [] && !ServerClosed(s.server) && !s.server.SListening?
    ensures s.client == CWaiting(DestProgram) ==> s.d2c == [] && !DestClosed(s.dest) && !s.dest.DListening?
    ensures s.server.SListening? || s.server.SReceiving? || s.server.SWaiting? || s.server.SDone? || s.server.SExited?
    ensures s.server.SReceiving? ==> s.c2s == [] && !ClientClosed(s.client)
    ensures s.server.SWaiting? ==> s.d2s == [] && !s.dest.DListening? && !DestClosed(s.dest)
    ensures s.dest.DReceiving? && s.dest.from.FromServer? ==> s.s2d == []
    ensures s.dest.DReceiving? && s.dest.from.FromClient? ==> s.c2d == []
    ensures !s.dest.DHolding?
  {
    hide ServerAnswers, DestAnswers;
    assert !Enabled(cfg, s, ClientConnectsServer) && !Enabled(cfg, s, ClientConnectsDest);
    assert !Enabled(cfg, s, ClientGivesUp) && !Enabled(cfg, s, ClientSends) && !Enabled(cfg, s, ClientGetsReply);
    assert !Enabled(cfg, s, ServerAccepts) && !Enabled(cfg, s, ServerReceives) && !Enabled(cfg, s, ServerConnects);
    assert !Enabled(cfg, s, ServerForwards) && !Enabled(cfg, s, ServerGetsReply) && !Enabled(cfg, s, ServerReplies);
    assert !Enabled(cfg, s, DestAcceptsServer) && !Enabled(cfg, s, DestAcceptsClient);
    assert !Enabled(cfg, s, DestReceives) && !Enabled(cfg, s, DestReplies);
  }

  /** The program a client is or was connected to. */
  function PeerOf(c: Client): Option<Peer> {
    if c.CConnected? || c.CWaiting? || c.CDone? then Some(c.peer) else None
  }

  lemma StepKeepsPeer(cfg: Config, s: State, e: Event)
    requires Enabled(cfg, s, e) && PeerOf(s.client).Some?
    ensures PeerOf(Apply(cfg, s, e).client) == PeerOf(s.client)
  {
    hide ClientMessage, ServerPacket, Received, Forwarded, ReplyPacket, ReplyMessage, DestReply, Deliver,
         NamesOk, HostIp, PrintAddr, ParseAddr;
  }

  lemma SomeStep(cfg: Config, s: State) returns (e: Event)
    requires !Stuck(cfg, s)
    ensures Enabled(cfg, s, e)
  {
    e :| Enabled(cfg, s, e);
  }

  /** Every run can be continued to an outcome, with the same program at the other
      end of the client's connection. */
  lemma {:induction false} EveryRunCompletes(cfg: Config, run: seq<Event>) returns (more: seq<Event>)
    requires Exec(cfg, run).Some?
    ensures Exec(cfg, run + more).Some? && Stuck(cfg, Exec(cfg, run + more).value)
    ensures IsOutcome(cfg, Exec(cfg, run + more).value)
    ensures var s, t := Exec(cfg, run).value, Exec(cfg, run + more).value;
      PeerOf(s.client).Some? ==> PeerOf(t.client) == PeerOf(s.client)
    decreases Rank(Exec(cfg, run).value)
  {
    hide Exec, Enabled, Apply, Stuck, IsOutcome, Rank, PeerOf;
    var s := Exec(cfg, run).value;
    if Stuck(cfg, s) {
      RunsEndInOutcomes(cfg, run);
      more := [];
      assert run + [] == run;
    } else {
      var e := SomeStep(cfg, s);
      StepLowersRank(cfg, s, e);
      OneMore(cfg, run, e);
      if PeerOf(s.client).Some? {
        StepKeepsPeer(cfg, s, e);
      }
      var rest := EveryRunCompletes(cfg, run + [e]);
      more := [e] + rest;
      assert run + more == run + [e] + rest;
    }
  }

  /** Every outcome is the end of some run. */
  lemma OutcomesHappen(cfg: Config, s: State) returns (run: seq<Event>)
    requires IsOutcome(cfg, s)
    ensures Exec(cfg, run) == Some(s) && Stuck(cfg, s)
  {
    hide Stuck, Received, FinalPacket, DestBuffer, DirectBuffer, DirectAnswer, Routed, HostIp;
    var first := if s.client.CExited? then ClientGivesUp
                 else if s.client.peer.ServerProgram? then ClientConnectsServer else ClientConnectsDest;
    assert Exec(cfg, []) == Some(Init(cfg));
    FirstStep(cfg, s, first);
    OneMore(cfg, [], first);
    hide Exec, Apply;
    var rest := EveryRunCompletes(cfg, [] + [first]);
    run := [] + [first] + rest;
  }

  lemma FirstStep(cfg: Config, s: State, first: Event)
    requires IsOutcome(cfg, s)
    requires first == if s.client.CExited? then ClientGivesUp
                      else if s.client.peer.ServerProgram? then ClientConnectsServer else ClientConnectsDest
    ensures Enabled(cfg, Init(cfg), first)
    ensures PeerOf(Apply(cfg, Init(cfg), first).client) == PeerOf(s.client)
  {
    hide Received, FinalPacket, DestBuffer, DirectBuffer, DirectAnswer, Routed, HostIp;
  }

  predicate Complete(cfg: Config, run: seq<Event>) {
    Exec(cfg, run).Some? && Stuck(cfg, Exec(cfg, run).value)
  }

  /** The command lines determine how a session ends unless server and destination
      program were both started with a name of the address the client looks at. */
  lemma OutcomeIsUniqueIff(cfg: Config)
    ensures (forall a, b :: Complete(cfg, a) && Complete(cfg, b) ==> Exec(cfg, a) == Exec(cfg, b))
       <==> !(Joined(cfg) && Misroutable(cfg))
  {
    hide Exec, Stuck, Received, FinalPacket, DestBuffer, DirectBuffer, DirectAnswer, Routed, HostIp, NamesOk;
    if Joined(cfg) && Misroutable(cfg) {
      var a := OutcomesHappen(cfg, ProxyOutcome(cfg));
      var b := OutcomesHappen(cfg, DirectOutcome(cfg));
      assert Complete(cfg, a) && Complete(cfg, b) && Exec(cfg, a) != Exec(cfg, b);
    } else {
      forall a, b | Complete(cfg, a) && Complete(cfg, b) ensures Exec(cfg, a) == Exec(cfg, b) {
        RunsEndInOutcomes(cfg, a);
        RunsEndInOutcomes(cfg, b);
      }
    }
  }

  /** Every maximal run delivers request and answer if and only if the client was
      given three different known hosts and the other two programs the matching
      names. Otherwise a client that is done either joined a server that could not
      route, and takes end-of-file for an answer without text, or took the
      destination for the server, and scrambles an answer that was never encrypted. */
  lemma DeliveredExactlyWhenConsistent(cfg: Config, run: seq<Event>)
    requires Complete(cfg, run)
    ensures var s := Exec(cfg, run).value;
      s.server.SDone? <==> NamesOk(cfg) && cfg.serverArg == cfg.serverName && cfg.destArg == cfg.destName
    ensures var s := Exec(cfg, run).value;
      s.server.SDone? ==>
        && s.client.CDone? && s.dest.DDone?
        && RequestArrived(cfg, s.dest.buf) && AnswerArrived(cfg, s.client.packet)
    ensures var s := Exec(cfg, run).value;
      s.client.CDone? && !s.server.SDone? ==>
        match s.client.peer
        case ServerProgram => Joined(cfg) && !Routed(cfg) && PayloadText(s.client.packet) == []
        case DestProgram => Misroutable(cfg) && PayloadText(s.client.packet) == Misread(cfg.response)
  {
    hide HostIp, ParseAddr, PayloadText, Exec, Stuck, Request, Rewritten, Target, DestBuffer, FinalPacket,
         DirectBuffer, DirectAnswer, Received, RequestArrived, AnswerArrived, Misread;
    RunsEndInOutcomes(cfg, run);
    EndToEnd(cfg, run);
    SameNames(cfg.serverArg, cfg.serverName);
    SameNames(cfg.destArg, cfg.destName);
    if NamesOk(cfg) {
      EmptyPacket(cfg);
      DirectPackets(cfg);
    }
    if Joined(cfg) {
      ServerKnowsBothEnds(cfg);
    }
  }

  lemma SameNames(a: string, b: string)
    ensures HostIp(b).Some? ==> (HostIp(a) == HostIp(b) <==> a == b)
  {
    if HostIp(a).Some? && HostIp(b).Some? {
      HostNamesInjective(a, b);
    }
  }

  // ---------- the shipped messages ----------

  function Ascii(t: string): seq<byte> {
    seq(|t|, i requires 0 <= i < |t| => t[i] as int % 0x100)
  }

  /** No character of t is a key byte. */
  predicate AvoidsKey(t: string) {
    forall i :: 0 <= i < |t| ==> t[i] < '\U{80}' && t[i] != '\U{12}' && t[i] != '4' && t[i] != 'V' && t[i] != 'x'
  }

  lemma AvoidingIsKeyFree(t: string)
    requires AvoidsKey(t)
    ensures KeyFree(Ascii(t))
  {
  }

  /** The two messages compiled into the programs arrive whole. */
  lemma ShippedMessagesSurvive()
    ensures Recovered(Ascii("payload")) == Ascii("payload")
    ensures Recovered(Ascii("Hello from the other side!")) == Ascii("Hello from the other side!")
  {
    hide KeyFree, Recovered;
    assert AvoidsKey("payload") && AvoidsKey("Hello from the other side!");
    hide AvoidsKey;
    AvoidingIsKeyFree("payload");
    AvoidingIsKeyFree("Hello from the other side!");
    RecoveredIsWhole(Ascii("payload"));
    RecoveredIsWhole(Ascii("Hello from the other side!"));
  }
}

/** Which sequences of events are runs: exactly those that respect the causes of
    every event, stated without states and channels. */
module Interleavings {
  import opened Bytes
  import opened HostInfo
  import opened Headers
  import opened Wire
  import opened Session
  import opened Theorems

  /** The ways a session can go: over the server to the destination, to a server
      that cannot reach the destination, straight to the destination, or nowhere. */
  datatype Route = Proxied | CutOff | Direct | Refused

  predicate Open(cfg: Config, r: Route) {
    match r
    case Proxied => Routed(cfg)
    case CutOff => Joined(cfg) && !Routed(cfg)
    case Direct => Misroutable(cfg)
    case Refused => !Joined(cfg) && !Misroutable(cfg)
  }

  /** The events of a route. */
  predicate Happens(r: Route, e: Event) {
    match r
    case Proxied => !e.ClientConnectsDest? && !e.ClientGivesUp? && !e.DestAcceptsClient?
    case CutOff =>
      || e.ClientConnectsServer? || e.ClientSends? || e.ClientGetsReply?
      || e.ServerAccepts? || e.ServerReceives? || e.ServerConnects?
    case Direct =>
      || e.ClientConnectsDest? || e.ClientSends? || e.ClientGetsReply?
      || e.DestAcceptsClient? || e.DestReceives? || e.DestReplies?
    case Refused => e.ClientGivesUp?
  }

  /** The causal order: c is one of the events that e has to wait for. */
  predicate Causes(r: Route, c: Event, e: Event) {
    match e
    case ClientConnectsServer => false
    case ClientConnectsDest => false
    case ClientGivesUp => false
    case ClientSends => c == if r.Direct? then ClientConnectsDest else ClientConnectsServer
    case ServerAccepts => c == ClientConnectsServer
    case ServerReceives => c == ServerAccepts || c == ClientSends
    case ServerConnects => c == ServerReceives
    case ServerForwards => c == ServerConnects
    case DestAcceptsServer => c == ServerConnects
    case DestAcceptsClient => c == ClientConnectsDest
    case DestReceives =>
      if r.Direct? then c == DestAcceptsClient || c == ClientSends else c == DestAcceptsServer || c == ServerForwards
    case DestReplies => c == DestReceives
    case ServerGetsReply => c == ServerForwards || c == DestReplies
    case ServerReplies => c == ServerGetsReply
    case ClientGetsReply =>
      || c == ClientSends
      || c == (match r case Direct => DestReplies case CutOff => ServerConnects case _ => ServerReplies)
  }

  /** The event at index i belongs to the route, is new, and comes after its causes. */
  predicate InOrder(r: Route, run: seq<Event>, i: nat)
    requires i < |run|
  {
    Happens(r, run[i]) && run[i] !in run[..i] && forall c :: Causes(r, c, run[i]) ==> c in run[..i]
  }

  predicate Lawful(r: Route, run: seq<Event>) {
    forall i :: 0 <= i < |run| ==> InOrder(r, run, i)
  }

  // ---------- what a state remembers ----------

  /** e has happened on the way to s. */
  predicate Happened(cfg: Config, s: State, e: Event) {
    match e
    case ClientConnectsServer => PeerOf(s.client) == Some(ServerProgram)
    case ClientConnectsDest => PeerOf(s.client) == Some(DestProgram)
    case ClientGivesUp => s.client.CExited?
    case ClientSends => s.client.CWaiting? || s.client.CDone?
    case ClientGetsReply => s.client.CDone?
    case ServerAccepts => s.server != Init(cfg).server
    case ServerReceives => s.server != Init(cfg).server && !s.server.SReceiving?
    case ServerConnects => s.server != Init(cfg).server && !s.server.SReceiving? && !s.server.SHolding?
    case ServerForwards => s.server.SWaiting? || s.server.SReplying? || s.server.SDone?
    case ServerGetsReply => s.server.SReplying? || s.server.SDone?
    case ServerReplies => s.server.SDone?
    case DestAcceptsServer => (s.dest.DReceiving? || DestHolds(s)) && s.dest.from.FromServer?
    case DestAcceptsClient => (s.dest.DReceiving? || DestHolds(s)) && s.dest.from.FromClient?
    case DestReceives => DestHolds(s)
    case DestReplies => s.dest.DDone?
  }

  function EventsOf(run: seq<Event>): set<Event> { set e | e in run }

  /** Exactly these events have happened on the way to s. */
  predicate Remembers(cfg: Config, s: State, done: set<Event>) {
    forall e :: Happened(cfg, s, e) <==> e in done
  }

  /** The state s can be reached on route r. */
  predicate OnRoute(cfg: Config, r: Route, s: State) {
    Open(cfg, r) && Inv(cfg, s) && Follows(s.client, r)
  }

  /** The client has not started yet, or it went this way. */
  predicate Follows(c: Client, r: Route) {
    c.CStart? || ((TookDestForServer(c) <==> r.Direct?) && (c.CExited? <==> r.Refused?))
  }

  /** The causes of e, one by one. */
  predicate Ready(cfg: Config, r: Route, s: State, e: Event) {
    match e
    case ClientConnectsServer => true
    case ClientConnectsDest => true
    case ClientGivesUp => true
    case ClientSends => Happened(cfg, s, if r.Direct? then ClientConnectsDest else ClientConnectsServer)
    case ServerAccepts => Happened(cfg, s, ClientConnectsServer)
    case ServerReceives => Happened(cfg, s, ServerAccepts) && Happened(cfg, s, ClientSends)
    case ServerConnects => Happened(cfg, s, ServerReceives)
    case ServerForwards => Happened(cfg, s, ServerConnects)
    case DestAcceptsServer => Happened(cfg, s, ServerConnects)
    case DestAcceptsClient => Happened(cfg, s, ClientConnectsDest)
    case DestReceives =>
      Happened(cfg, s, if r.Direct? then DestAcceptsClient else DestAcceptsServer)
      && Happened(cfg, s, if r.Direct? then ClientSends else ServerForwards)
    case DestReplies => Happened(cfg, s, DestReceives)
    case ServerGetsReply => Happened(cfg, s, ServerForwards) && Happened(cfg, s, DestReplies)
    case ServerReplies => Happened(cfg, s, ServerGetsReply)
    case ClientGetsReply =>
      Happened(cfg, s, ClientSends)
      && Happened(cfg, s, match r case Direct => DestReplies case CutOff => ServerConnects case _ => ServerReplies)
  }

  lemma ReadyIff(cfg: Config, r: Route, s: State, e: Event)
    ensures Ready(cfg, r, s, e) <==> forall c :: Causes(r, c, e) ==> Happened(cfg, s, c)
  {
    hide Happened;
    if forall c :: Causes(r, c, e) ==> Happened(cfg, s, c) {
      ReadyWhenCaused(cfg, r, s, e);
    }
  }

  lemma ReadyWhenCaused(cfg: Config, r: Route, s: State, e: Event)
    requires forall c :: Causes(r, c, e) ==> Happened(cfg, s, c)
    ensures Ready(cfg, r, s, e)
  {
    hide Happened;
    var source, relay := if r.Direct? then ClientConnectsDest else ClientConnectsServer,
                         if r.Direct? then DestAcceptsClient else DestAcceptsServer;
    var last := match r case Direct => DestReplies case CutOff => ServerConnects case _ => ServerReplies;
    match e {
      case ClientSends => assert Causes(r, source, e);
      case ServerAccepts => assert Causes(r, ClientConnectsServer, e);
      case ServerReceives => assert Causes(r, ServerAccepts, e) && Causes(r, ClientSends, e);
      case ServerConnects => assert Causes(r, ServerReceives, e);
      case ServerForwards => assert Causes(r, ServerConnects, e);
      case DestAcceptsServer => assert Causes(r, ServerConnects, e);
      case DestAcceptsClient => assert Causes(r, ClientConnectsDest, e);
      case DestReceives =>
        assert Causes(r, relay, e) && Causes(r, if r.Direct? then ClientSends else ServerForwards, e);
      case DestReplies => assert Causes(r, DestReceives, e);
      case ServerGetsReply => assert Causes(r, ServerForwards, e) && Causes(r, DestReplies, e);
      case ServerReplies => assert Causes(r, ServerGetsReply, e);
      case ClientGetsReply => assert Causes(r, ClientSends, e) && Causes(r, last, e);
      case _ =>
    }
  }

  lemma StepOfClient(cfg: Config, s: State, e: Event, f: Event)
    requires Inv(cfg, s) && Enabled(cfg, s, e) && OfClient(e)
    ensures Happened(cfg, Apply(cfg, s, e), f) <==> Happened(cfg, s, f) || f == e
  {
    hide Inv, HostIp, NamesOk, Admissible, ParseAddr, PrintAddr, ClientMessage, ServerPacket, Forwarded,
         DestReply, ReplyPacket, ReplyMessage, Received, Deliver, Get32, IpPart;
  }

  lemma StepOfServer(cfg: Config, s: State, e: Event, f: Event)
    requires Inv(cfg, s) && Enabled(cfg, s, e) && !OfClient(e) && !OfDest(e)
    ensures Happened(cfg, Apply(cfg, s, e), f) <==> Happened(cfg, s, f) || f == e
  {
    hide HostIp, Admissible, ParseAddr, PrintAddr, ClientMessage, ServerPacket, Forwarded, DestReply,
         ReplyPacket, ReplyMessage, Received, Deliver, Get32, IpPart;
  }

  lemma StepOfDest(cfg: Config, s: State, e: Event, f: Event)
    requires Inv(cfg, s) && Enabled(cfg, s, e) && OfDest(e)
    ensures Happened(cfg, Apply(cfg, s, e), f) <==> Happened(cfg, s, f) || f == e
  {
    hide Inv, HostIp, NamesOk, Admissible, ParseAddr, PrintAddr, ClientMessage, ServerPacket, Forwarded,
         DestReply, ReplyPacket, ReplyMessage, Received, Deliver, Get32, IpPart;
  }

  lemma ProxiedClient(cfg: Config, s: State, e: Event)
    requires OnRoute(cfg, Proxied, s) && Happens(Proxied, e) && OfClient(e)
    ensures Enabled(cfg, s, e) <==> !Happened(cfg, s, e) && Ready(cfg, Proxied, s, e)
  {
    hide HostIp, Request, SavedIp, Rewritten, Target, DestBuffer, Answer, Reencapsulated, FinalPacket,
         DirectBuffer, DirectAnswer, Received, Forwarded, ReplyMessage;
  }

  lemma ProxiedServer(cfg: Config, s: State, e: Event)
    requires OnRoute(cfg, Proxied, s) && Happens(Proxied, e) && !OfClient(e) && !OfDest(e)
    ensures Enabled(cfg, s, e) <==> !Happened(cfg, s, e) && Ready(cfg, Proxied, s, e)
  {
    hide HostIp, Request, SavedIp, Rewritten, Target, DestBuffer, Answer, Reencapsulated, FinalPacket,
         DirectBuffer, DirectAnswer, Received, Forwarded, ReplyMessage;
  }

  lemma ProxiedDest(cfg: Config, s: State, e: Event)
    requires OnRoute(cfg, Proxied, s) && Happens(Proxied, e) && OfDest(e)
    ensures Enabled(cfg, s, e) <==> !Happened(cfg, s, e) && Ready(cfg, Proxied, s, e)
  {
    hide HostIp, Request, SavedIp, Rewritten, Target, DestBuffer, Answer, Reencapsulated, FinalPacket,
         DirectBuffer, DirectAnswer, Received, Forwarded, ReplyMessage;
  }

  lemma CutOffClient(cfg: Config, s: State, e: Event)
    requires OnRoute(cfg, CutOff, s) && Happens(CutOff, e) && OfClient(e)
    ensures Enabled(cfg, s, e) <==> !Happened(cfg, s, e) && Ready(cfg, CutOff, s, e)
  {
    hide HostIp, Request, SavedIp, Rewritten, Target, DestBuffer, Answer, Reencapsulated, FinalPacket,
         DirectBuffer, DirectAnswer, Received, Forwarded, ReplyMessage;
  }

  lemma CutOffServer(cfg: Config, s: State, e: Event)
    requires OnRoute(cfg, CutOff, s) && Happens(CutOff, e) && !OfClient(e) && !OfDest(e)
    ensures Enabled(cfg, s, e) <==> !Happened(cfg, s, e) && Ready(cfg, CutOff, s, e)
  {
    hide HostIp, Request, SavedIp, Rewritten, Target, DestBuffer, Answer, Reencapsulated, FinalPacket,
         DirectBuffer, DirectAnswer, Received, Forwarded, ReplyMessage;
  }

  lemma DirectClient(cfg: Config, s: State, e: Event)
    requires OnRoute(cfg, Direct, s) && Happens(Direct, e) && OfClient(e)
    ensures Enabled(cfg, s, e) <==> !Happened(cfg, s, e) && Ready(cfg, Direct, s, e)
  {
    hide HostIp, Request, SavedIp, Rewritten, Target, DestBuffer, Answer, Reencapsulated, FinalPacket,
         DirectBuffer, DirectAnswer, Received, Forwarded, ReplyMessage;
  }

  lemma DirectDest(cfg: Config, s: State, e: Event)
    requires OnRoute(cfg, Direct, s) && Happens(Direct, e) && OfDest(e)
    ensures Enabled(cfg, s, e) <==> !Happened(cfg, s, e) && Ready(cfg, Direct, s, e)
  {
    hide HostIp, Request, SavedIp, Rewritten, Target, DestBuffer, Answer, Reencapsulated, FinalPacket,
         DirectBuffer, DirectAnswer, Received, Forwarded, ReplyMessage;
  }

  lemma RefusedClient(cfg: Config, s: State, e: Event)
    requires OnRoute(cfg, Refused, s) && Happens(Refused, e) && OfClient(e)
    ensures Enabled(cfg, s, e) <==> !Happened(cfg, s, e) && Ready(cfg, Refused, s, e)
  {
    hide HostIp, Request, SavedIp, Rewritten, Target, DestBuffer, Answer, Reencapsulated, FinalPacket,
         DirectBuffer, DirectAnswer, Received, Forwarded, ReplyMessage;
  }

  /** On a route, an event is possible exactly when it is new and its causes are there. */
  lemma EnabledIff(cfg: Config, r: Route, s: State, e: Event)
    requires OnRoute(cfg, r, s) && Happens(r, e)
    ensures Enabled(cfg, s, e)
       <==> !Happened(cfg, s, e) && forall c :: Causes(r, c, e) ==> Happened(cfg, s, c)
  {
    ReadyIff(cfg, r, s, e);
    hide OnRoute, Enabled, Happened, Ready, Causes;
    match r {
      case Proxied =>
        if OfClient(e) { ProxiedClient(cfg, s, e); }
        else if OfDest(e) { ProxiedDest(cfg, s, e); }
        else { ProxiedServer(cfg, s, e); }
      case CutOff =>
        if OfClient(e) { CutOffClient(cfg, s, e); } else { CutOffServer(cfg, s, e); }
      case Direct =>
        if OfClient(e) { DirectClient(cfg, s, e); } else { DirectDest(cfg, s, e); }
      case Refused =>
        RefusedClient(cfg, s, e);
    }
  }

  /** An event adds itself, and nothing else, to what has happened. */
  lemma StepHappens(cfg: Config, s: State, e: Event, f: Event)
    requires Inv(cfg, s) && Enabled(cfg, s, e)
    ensures Happened(cfg, Apply(cfg, s, e), f) <==> Happened(cfg, s, f) || f == e
  {
    hide Inv, Enabled, Happened, Apply;
    if OfClient(e) {
      StepOfClient(cfg, s, e, f);
    } else if OfDest(e) {
      StepOfDest(cfg, s, e, f);
    } else {
      StepOfServer(cfg, s, e, f);
    }
  }

  /** What a step does to the client's connection. */
  predicate Moves(c: Client, e: Event, c': Client) {
    match e
    case ClientConnectsServer => PeerOf(c') == Some(ServerProgram)
    case ClientConnectsDest => PeerOf(c') == Some(DestProgram)
    case ClientGivesUp => c'.CExited?
    case ClientSends => PeerOf(c') == PeerOf(c) && PeerOf(c).Some?
    case ClientGetsReply => PeerOf(c') == PeerOf(c) && PeerOf(c).Some?
    case _ => c' == c
  }

  lemma ClientAfter(cfg: Config, s: State, e: Event)
    requires Enabled(cfg, s, e)
    ensures Moves(s.client, e, Apply(cfg, s, e).client)
  {
    hide HostIp, NamesOk, ParseAddr, PrintAddr, ClientMessage, ServerPacket, Forwarded, DestReply,
         ReplyPacket, ReplyMessage, Received, Deliver, Get32, IpPart;
  }

  lemma StillFollows(c: Client, r: Route, e: Event, c': Client)
    requires Follows(c, r) && Happens(r, e) && Moves(c, e, c')
    ensures Follows(c', r)
  {
  }

  lemma AfterStep(cfg: Config, r: Route, s: State, e: Event)
    requires OnRoute(cfg, r, s) && Enabled(cfg, s, e) && Happens(r, e)
    ensures OnRoute(cfg, r, Apply(cfg, s, e))
  {
    hide Inv, Apply, Enabled, Open, Follows, Happens, Moves;
    InvPreserved(cfg, s, e);
    ClientAfter(cfg, s, e);
    StillFollows(s.client, r, e, Apply(cfg, s, e).client);
  }

  /** Whoever has left the start stays on the route taken. */
  lemma NoOtherRoute(cfg: Config, r: Route, s: State, e: Event)
    requires OnRoute(cfg, r, s) && Enabled(cfg, s, e) && !s.client.CStart?
    ensures Happens(r, e)
  {
    hide HostIp, NamesOk, Request, SavedIp, Rewritten, Target, DestBuffer, Answer, Reencapsulated, FinalPacket,
         DirectBuffer, DirectAnswer, Received, Forwarded, ReplyMessage;
  }

  // ---------- runs ----------

  lemma AtStart(cfg: Config, r: Route)
    requires Open(cfg, r)
    ensures OnRoute(cfg, r, Init(cfg))
    ensures forall e :: !Happened(cfg, Init(cfg), e)
  {
    InvInit(cfg);
    hide HostIp, Inv, NamesOk, Open;
  }

  /** A run in the causal order can happen, and its state remembers its events. */
  lemma {:induction false} LawfulRunsHappen(cfg: Config, r: Route, run: seq<Event>)
    requires Open(cfg, r) && Lawful(r, run)
    ensures Exec(cfg, run).Some?
    ensures OnRoute(cfg, r, Exec(cfg, run).value)
    ensures Remembers(cfg, Exec(cfg, run).value, EventsOf(run))
  {
    hide Open, OnRoute, Happened, Happens, Causes, Enabled, Apply, Init;
    if run == [] {
      AtStart(cfg, r);
    } else {
      var n := |run| - 1;
      var first, e := run[..n], run[n];
      PrefixLawful(r, run, n);
      LawfulRunsHappen(cfg, r, first);
      var s := Exec(cfg, first).value;
      assert InOrder(r, run, n);
      EnabledIff(cfg, r, s, e);
      hide Exec;
      OneMore(cfg, first, e);
      assert run == first + [e];
      AfterStep(cfg, r, s, e);
      AllHappened(cfg, r, s, e);
    }
  }

  lemma AllHappened(cfg: Config, r: Route, s: State, e: Event)
    requires OnRoute(cfg, r, s) && Enabled(cfg, s, e)
    ensures forall f :: Happened(cfg, Apply(cfg, s, e), f) <==> Happened(cfg, s, f) || f == e
  {
    hide Happened, Enabled, Apply, Inv, Open;
    forall f ensures Happened(cfg, Apply(cfg, s, e), f) <==> Happened(cfg, s, f) || f == e {
      StepHappens(cfg, s, e, f);
    }
  }

  lemma PrefixLawful(r: Route, run: seq<Event>, n: nat)
    requires Lawful(r, run) && n <= |run|
    ensures Lawful(r, run[..n])
  {
    hide Happens, Causes;
    forall i | 0 <= i < n ensures InOrder(r, run[..n], i) {
      assert InOrder(r, run, i);
      assert run[..n][..i] == run[..i];
    }
  }

  /** A state whose client has not moved remembers nothing. */
  lemma NothingAtStart(cfg: Config, s: State, e: Event)
    requires Inv(cfg, s) && s.client.CStart?
    ensures !Happened(cfg, s, e)
  {
    hide HostIp, Request, SavedIp, Rewritten, Target, DestBuffer, Answer, Reencapsulated, FinalPacket,
         DirectBuffer, DirectAnswer, Received, Forwarded, ReplyMessage;
  }

  lemma FirstEvent(cfg: Config, e: Event) returns (r: Route)
    requires Enabled(cfg, Init(cfg), e)
    ensures Open(cfg, r) && Happens(r, e)
  {
    hide Target, Routed;
    r := match e
      case ClientConnectsServer => if Routed(cfg) then Proxied else CutOff
      case ClientConnectsDest => Direct
      case _ => Refused;
  }

  lemma LawfulMore(cfg: Config, r: Route, first: seq<Event>, e: Event)
    requires Open(cfg, r) && Lawful(r, first)
    requires Exec(cfg, first).Some? && Enabled(cfg, Exec(cfg, first).value, e) && Happens(r, e)
    ensures Lawful(r, first + [e])
  {
    hide Open, OnRoute, Happened, Happens, Causes, Enabled, Apply, Init, Exec;
    LawfulRunsHappen(cfg, r, first);
    EnabledIff(cfg, r, Exec(cfg, first).value, e);
    var run := first + [e];
    forall i | 0 <= i < |run| ensures InOrder(r, run, i) {
      assert run[..i] == first[..i];
      if i < |first| {
        assert InOrder(r, first, i);
      } else {
        assert first[..i] == first;
      }
    }
  }

  lemma SomeRoute(cfg: Config) returns (r: Route)
    ensures Open(cfg, r)
  {
    hide HostIp, NamesOk, Target;
    r := if Routed(cfg) then Proxied else if Joined(cfg) then CutOff else if Misroutable(cfg) then Direct else Refused;
  }

  /** Every run is in the causal order of a route that the command lines open. */
  lemma {:induction false} RunsAreLawful(cfg: Config, run: seq<Event>) returns (r: Route)
    requires Exec(cfg, run).Some?
    ensures Open(cfg, r) && Lawful(r, run)
    decreases |run|
  {
    hide Open, OnRoute, Happened, Happens, Causes, Enabled, Apply, Init, InOrder;
    if run == [] {
      r := SomeRoute(cfg);
    } else {
      var n := |run| - 1;
      var first, e := run[..n], run[n];
      if n == 0 {
        r := FirstEvent(cfg, e);
        assert first == [];
        assert Lawful(r, first);
      } else {
        r := RunsAreLawful(cfg, first);
        Departed(cfg, r, first);
        NoOtherRoute(cfg, r, Exec(cfg, first).value, e);
      }
      LawfulMore(cfg, r, first, e);
      assert run == first + [e];
    }
  }

  lemma Departed(cfg: Config, r: Route, run: seq<Event>)
    requires Open(cfg, r) && Lawful(r, run) && run != []
    ensures Exec(cfg, run).Some?
    ensures OnRoute(cfg, r, Exec(cfg, run).value) && !Exec(cfg, run).value.client.CStart?
  {
    hide Open, Inv, Happened, Happens, Causes, Enabled, Apply, Init, Exec, Lawful;
    LawfulRunsHappen(cfg, r, run);
    if Exec(cfg, run).value.client.CStart? {
      NothingAtStart(cfg, Exec(cfg, run).value, run[0]);
    }
  }

  /** The runs are exactly the sequences in the causal order of an open route: every
      interleaving of what is not ordered by cause, and nothing else. */
  lemma RunsExactly(cfg: Config, run: seq<Event>)
    ensures Exec(cfg, run).Some? <==> exists r :: Open(cfg, r) && Lawful(r, run)
  {
    hide Open, OnRoute, Happened, Exec, Lawful;
    if Exec(cfg, run).Some? {
      var r := RunsAreLawful(cfg, run);
    }
    if r :| Open(cfg, r) && Lawful(r, run) {
      LawfulRunsHappen(cfg, r, run);
    }
  }

  /** With consistent command lines: twelve different events, in causal order. */
  lemma ConsistentRunsExactly(cfg: Config, run: seq<Event>)
    requires NamesOk(cfg) && cfg.serverArg == cfg.serverName && cfg.destArg == cfg.destName
    ensures Exec(cfg, run).Some? <==> Lawful(Proxied, run)
  {
    hide HostIp, Exec, Lawful, Target;
    ServerKnowsBothEnds(cfg);
    RunsExactly(cfg, run);
    assert forall r :: Open(cfg, r) <==> r == Proxied;
  }

  // ---------- the state after a run ----------

  /** A message is under way from the event that sends it to the one that takes it. */
  function UnderWay(msg: seq<byte>, sent: bool, taken: bool): Channel {
    if sent && !taken then [msg] else []
  }

  function ClientAt(cfg: Config, peer: Peer, last: WholePacket, done: set<Event>): Client
    requires NamesOk(cfg)
  {
    if ClientGetsReply in done then CDone(peer, last)
    else if ClientSends in done then CWaiting(peer)
    else if ClientConnectsServer in done || ClientConnectsDest in done then ClientOn(cfg, peer)
    else CStart
  }

  function ServerAt(cfg: Config, done: set<Event>): Server
    requires Joined(cfg)
  {
    if ServerConnects !in done then
      if ServerReceives in done then SHolding(Rewritten(cfg), SavedIp(cfg))
      else if ServerAccepts in done then SReceiving(HostIp(cfg.serverArg).value)
      else SListening(HostIp(cfg.serverArg).value)
    else if !Routed(cfg) then SExited
    else if ServerReplies in done then SDone
    else if ServerGetsReply in done then SReplying(Reencapsulated(cfg))
    else if ServerForwards in done then SWaiting(SavedIp(cfg))
    else SConnected(Rewritten(cfg), SavedIp(cfg))
  }

  function DestAt(hostIp: string, from: Origin, buf: InnerPacket, done: set<Event>): Dest {
    if DestReplies in done then DDone(from, buf)
    else if DestReceives in done then DHolding(hostIp, from, buf)
    else if DestAcceptsServer in done || DestAcceptsClient in done then DReceiving(hostIp, from)
    else DListening(hostIp)
  }

  /** The state after any run with these events, in closed form. */
  function After(cfg: Config, r: Route, done: set<Event>): State
    requires Open(cfg, r)
  {
    match r
    case Proxied =>
      State(ClientAt(cfg, ServerProgram, FinalPacket(cfg), done), ServerAt(cfg, done),
            DestAt(Target(cfg), FromServer, DestBuffer(cfg), done),
            UnderWay(Request(cfg), ClientSends in done, ServerReceives in done),
            UnderWay(Forwarded(Rewritten(cfg)), ServerForwards in done, DestReceives in done),
            UnderWay(Answer(cfg), DestReplies in done, ServerGetsReply in done),
            UnderWay(ReplyMessage(Reencapsulated(cfg)), ServerReplies in done, ClientGetsReply in done), [], [])
    case CutOff =>
      State(ClientAt(cfg, ServerProgram, Received([]), done), ServerAt(cfg, done), Init(cfg).dest,
            UnderWay(Request(cfg), ClientSends in done, ServerReceives in done), [], [], [], [], [])
    case Direct =>
      State(ClientAt(cfg, DestProgram, Received(DirectAnswer(cfg)), done), Init(cfg).server,
            DestAt(HostIp(cfg.serverName).value, FromClient, DirectBuffer(cfg), done), [], [], [], [],
            UnderWay(Request(cfg), ClientSends in done, DestReceives in done),
            UnderWay(DirectAnswer(cfg), DestReplies in done, ClientGetsReply in done))
    case Refused => Init(cfg).(client := if ClientGivesUp in done then CExited else CStart)
  }

  /** The same, event by event. */
  predicate RemembersEach(cfg: Config, s: State, done: set<Event>) {
    && (Happened(cfg, s, ClientConnectsServer) <==> ClientConnectsServer in done)
    && (Happened(cfg, s, ClientConnectsDest) <==> ClientConnectsDest in done)
    && (Happened(cfg, s, ClientGivesUp) <==> ClientGivesUp in done)
    && (Happened(cfg, s, ClientSends) <==> ClientSends in done)
    && (Happened(cfg, s, ClientGetsReply) <==> ClientGetsReply in done)
    && (Happened(cfg, s, ServerAccepts) <==> ServerAccepts in done)
    && (Happened(cfg, s, ServerReceives) <==> ServerReceives in done)
    && (Happened(cfg, s, ServerConnects) <==> ServerConnects in done)
    && (Happened(cfg, s, ServerForwards) <==> ServerForwards in done)
    && (Happened(cfg, s, ServerGetsReply) <==> ServerGetsReply in done)
    && (Happened(cfg, s, ServerReplies) <==> ServerReplies in done)
    && (Happened(cfg, s, DestAcceptsServer) <==> DestAcceptsServer in done)
    && (Happened(cfg, s, DestAcceptsClient) <==> DestAcceptsClient in done)
    && (Happened(cfg, s, DestReceives) <==> DestReceives in done)
    && (Happened(cfg, s, DestReplies) <==> DestReplies in done)
  }

  lemma RemembersIff(cfg: Config, s: State, done: set<Event>)
    requires Remembers(cfg, s, done)
    ensures RemembersEach(cfg, s, done)
  {
    hide Happened;
  }

  lemma ProxiedState(cfg: Config, s: State, done: set<Event>)
    requires OnRoute(cfg, Proxied, s) && RemembersEach(cfg, s, done)
    ensures s == After(cfg, Proxied, done)
  {
    hide HostIp, Request, SavedIp, Rewritten, Target, DestBuffer, Answer, Reencapsulated, FinalPacket,
         DirectBuffer, DirectAnswer, Received, Forwarded, ReplyMessage;
  }

  lemma CutOffState(cfg: Config, s: State, done: set<Event>)
    requires OnRoute(cfg, CutOff, s) && RemembersEach(cfg, s, done)
    ensures s == After(cfg, CutOff, done)
  {
    hide HostIp, Request, SavedIp, Rewritten, Target, DestBuffer, Answer, Reencapsulated, FinalPacket,
         DirectBuffer, DirectAnswer, Received, Forwarded, ReplyMessage;
  }

  lemma DirectState(cfg: Config, s: State, done: set<Event>)
    requires OnRoute(cfg, Direct, s) && RemembersEach(cfg, s, done)
    ensures s == After(cfg, Direct, done)
  {
    hide HostIp, Request, SavedIp, Rewritten, Target, DestBuffer, Answer, Reencapsulated, FinalPacket,
         DirectBuffer, DirectAnswer, Received, Forwarded, ReplyMessage;
  }

  lemma RefusedState(cfg: Config, s: State, done: set<Event>)
    requires OnRoute(cfg, Refused, s) && RemembersEach(cfg, s, done)
    ensures s == After(cfg, Refused, done)
  {
    hide HostIp, Request, SavedIp, Rewritten, Target, DestBuffer, Answer, Reencapsulated, FinalPacket,
         DirectBuffer, DirectAnswer, Received, Forwarded, ReplyMessage;
  }

  /** The route and the set of events determine the state, whatever their order. */
  lemma StateAfterRun(cfg: Config, r: Route, run: seq<Event>)
    requires Open(cfg, r) && Lawful(r, run)
    ensures Exec(cfg, run) == Some(After(cfg, r, EventsOf(run)))
  {
    hide Open, Lawful, Exec, OnRoute, After, RemembersEach, EventsOf;
    LawfulRunsHappen(cfg, r, run);
    var s, done := Exec(cfg, run).value, EventsOf(run);
    RemembersIff(cfg, s, done);
    match r {
      case Proxied => ProxiedState(cfg, s, done);
      case CutOff => CutOffState(cfg, s, done);
      case Direct => DirectState(cfg, s, done);
      case Refused => RefusedState(cfg, s, done);
    }
  }
}

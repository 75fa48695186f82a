/** What a request and its answer look like at each hop, for any addresses of
    client (c), server (s) and destination (d), request m and response r. */
module Delivery {
  import opened Bytes
  import opened OnesComplement
  import opened HostInfo
  import opened Headers
  import opened Rewrite
  import opened Cipher
  import opened Wire

  /** Two packets with the same first 46 bytes have the same headers. */
  lemma SameHeaders(p: seq<byte>, q: seq<byte>)
    requires |p| >= PAYLOAD_START && |q| >= PAYLOAD_START
    requires p[..PAYLOAD_START] == q[..PAYLOAD_START]
    ensures IpPart(p) == IpPart(q) && TcpPart(p) == TcpPart(q)
  {
  }

  lemma InnerOfPacket(p: seq<byte>)
    requires |p| == PACKET_SIZE
    ensures InnerIp(p[GRE_SIZE..]) == IpPart(p)
    ensures InnerTcp(p[GRE_SIZE..]) == TcpPart(p)
    ensures InnerText(p[GRE_SIZE..]) == PayloadText(p)
    ensures Deliver(p[GRE_SIZE..], INNER_SIZE) == p[GRE_SIZE..]
  {
  }

  lemma RewriteKeepsRest(p: seq<byte>, h: IpHeader)
    requires |p| >= PAYLOAD_START
    ensures TcpPart(WithIp(p, h)) == TcpPart(p)
    ensures WithIp(p, h)[TCP_START..] == p[TCP_START..]
    ensures WithIp(p, h)[PAYLOAD_START..] == p[PAYLOAD_START..]
    ensures PayloadText(WithIp(p, h)) == PayloadText(p)
  {
  }

  /** The TCP header both builders write, and its checksum. */
  lemma BuiltTcpAccepted(flags: byte)
    ensures Accepts(SealedTcp(Zeros(20), flags), TCP_SUM)
  {
    SetTcpAccepted(Zeros(20), flags);
  }

  // ---------- the request ----------

  /** The 128 payload bytes that arrive for text m: m itself, with a NUL where it is
      cut, and behind it the key where the sender had nothing. */
  predicate Tail(a: seq<byte>, m: seq<byte>) {
    && |a| == 128 && |m| < 128
    && forall j :: 0 <= j < 128 ==>
         a[j] == if j == Cut(m) then 0 else if j < |m| then m[j] else KeyAt(PAYLOAD_START + j)
  }

  lemma ArrivingTail(q: seq<byte>, p: seq<byte>, m: seq<byte>)
    requires Arrives(q, p, m)
    requires forall j :: 0 <= j < |m| ==> p[PAYLOAD_START + j] == m[j]
    ensures Tail(q[PAYLOAD_START..], m)
  {
    hide Cut, KeyAt;
    assert forall j :: 0 <= j < 128 ==> q[PAYLOAD_START..][j] == q[PAYLOAD_START + j];
  }

  /** The packet the server decrypts: addresses, both checksums and the payload. */
  lemma RequestDecrypted(c: uint32, d: uint32, m: seq<byte>)
    requires |m| <= MAX_PAYLOAD && 0 !in m
    ensures var q := Received(ClientMessage(c, d, m, TCP_FLAG_SYN));
      && IpPart(q) == SealedIp(Zeros(20), c, d, IP_PROTOCOL_TCP, MAX_PAYLOAD)
      && TcpPart(q) == SealedTcp(Zeros(20), TCP_FLAG_SYN)
      && Get32(IpPart(q), IP_SRC) == c && Get32(IpPart(q), IP_DST) == d
      && Swap16(Get16(IpPart(q), IP_LEN)) == MAX_PAYLOAD + IP_SIZE
      && Accepts(IpPart(q), IP_SUM) && Accepts(TcpPart(q), TCP_SUM)
      && PlainIp(IpPart(q), c, d) && PlainTcp(TcpPart(q), 0x02)
      && PayloadText(q) == Recovered(m)
      && Tail(q[PAYLOAD_START..], Kept(m))
  {
    hide Built, Received, SealedIp, SealedTcp, ClientMessage, Accepts, Recovered, CStr, PlainIp, PlainTcp,
         Arrives, Tail;
    SealedIpIsPlain(c, d);
    SealedTcpIsPlain(TCP_FLAG_SYN);
    BuiltInNumbers(c, d, m, TCP_FLAG_SYN);
    ClientHop(c, d, m, TCP_FLAG_SYN);
    ArrivingTail(Received(ClientMessage(c, d, m, TCP_FLAG_SYN)), Built(c, d, m, TCP_FLAG_SYN), Kept(m));
    BuiltParts(c, d, m, TCP_FLAG_SYN);
    SameHeaders(Received(ClientMessage(c, d, m, TCP_FLAG_SYN)), Built(c, d, m, TCP_FLAG_SYN));
    SetIpAccepted(Zeros(20), c, d, IP_PROTOCOL_TCP, MAX_PAYLOAD);
    BuiltTcpAccepted(TCP_FLAG_SYN);
  }

  /** The packet the destination receives: from the server, to the destination,
      with the TCP header and the payload the server decrypted. */
  lemma RequestDelivered(c: uint32, s: uint32, d: uint32, m: seq<byte>)
    requires |m| <= MAX_PAYLOAD && 0 !in m
    ensures var q := Received(ClientMessage(c, d, m, TCP_FLAG_SYN));
      var p := ServerPacket(ClientMessage(c, d, m, TCP_FLAG_SYN), s);
      var buf := Deliver(Forwarded(p), INNER_SIZE);
      && buf == Forwarded(p)
      && Get32(IpPart(p), IP_DST) == d
      && Get32(InnerIp(buf), IP_SRC) == s && Get32(InnerIp(buf), IP_DST) == d
      && Swap16(Get16(InnerIp(buf), IP_LEN)) == MAX_PAYLOAD + IP_SIZE
      && InnerIp(buf) == Stamp(InnerIp(buf))
      && InnerTcp(buf) == TcpPart(q) && Accepts(InnerTcp(buf), TCP_SUM) && PlainTcp(InnerTcp(buf), 0x02)
      && InnerText(buf) == PayloadText(q) == Recovered(m)
      && Tail(buf[40..], Kept(m))
      && (forall i :: 0 <= i < 168 && !(10 <= i < 16) ==> buf[i] == q[6 + i])
      && (forall i :: 0 <= i < 168 ==> buf[i] == p[6 + i])
  {
    hide Built, Received, SealedIp, SealedTcp, ClientMessage, Accepts, Recovered, CStr, RewriteSrc, Stamp,
         Get32, Get16, WithIp, IpPart, TcpPart, InnerIp, InnerTcp, InnerText, PayloadText, PlainIp, PlainTcp, Tail;
    HandlePktFrame(Received(ClientMessage(c, d, m, TCP_FLAG_SYN)), s);
    var msg := ClientMessage(c, d, m, TCP_FLAG_SYN);
    var q := Received(msg);
    RequestDecrypted(c, d, m);
    RewrittenFields(IpPart(q), s);
    RewrittenIp(q, RewriteSrc(IpPart(q), s));
    RewriteKeepsRest(q, RewriteSrc(IpPart(q), s));
    InnerOfPacket(ServerPacket(msg, s));
    assert ServerPacket(msg, s)[GRE_SIZE..][40..] == q[PAYLOAD_START..];
  }

  // ---------- the answer ----------

  /** What the destination sends is its built packet without the GRE header and
      without trailing zeros, addressed to the sender of buf. */
  lemma ReplyFields(buf: seq<byte>, d: uint32, r: seq<byte>)
    requires |buf| == INNER_SIZE && |r| <= MAX_RESPONSE && 0 !in r
    ensures var rep := DestReply(buf, d, r);
      && |rep| == PAYLOAD_START + |r|
      && Get32(InnerIp(rep), IP_SRC) == d && Get32(InnerIp(rep), IP_DST) == Get32(InnerIp(buf), IP_SRC)
      && Accepts(InnerIp(rep), IP_SUM)
      && InnerTcp(rep) == SealedTcp(Zeros(20), TCP_FLAG_ACK)
  {
    hide Built, SealedIp, SealedTcp, Accepts, Get32;
    var s := Get32(InnerIp(buf), IP_SRC);
    var b := Built(d, s, r, TCP_FLAG_ACK);
    BuiltParts(d, s, r, TCP_FLAG_ACK);
    SetIpAccepted(Zeros(20), d, s, IP_PROTOCOL_TCP, MAX_PAYLOAD);
    SliceOfSlice(b, GRE_SIZE, GRE_SIZE + PAYLOAD_START + |r|, 0, 20);
    SliceOfSlice(b, GRE_SIZE, GRE_SIZE + PAYLOAD_START + |r|, 20, 40);
  }

  lemma BuiltTail(src: uint32, dst: uint32, r: seq<byte>, flags: byte)
    requires |r| < MAX_PAYLOAD && 0 !in r
    ensures var b := Built(src, dst, r, flags);
      && b[..GRE_SIZE] == GreHeader()
      && (forall j :: 0 <= j < |r| ==> b[PAYLOAD_START + j] == r[j])
      && (forall i :: PAYLOAD_START + |r| <= i < PACKET_SIZE ==> b[i] == 0)
  {
  }

  /** The server's re-encapsulation gives back the packet the destination built,
      with only ip_dst and ip_sum rewritten. */
  lemma ReencapsulationRestores(buf: seq<byte>, c: uint32, d: uint32, r: seq<byte>)
    requires |buf| == INNER_SIZE && |r| <= MAX_RESPONSE && 0 !in r
    ensures ReplyPacket(DestReply(buf, d, r), c)
         == HandlePktDest(Built(d, Get32(InnerIp(buf), IP_SRC), r, TCP_FLAG_ACK), c)
  {
    hide Built, HandlePktDest, GreHeader, Get32;
    var b := Built(d, Get32(InnerIp(buf), IP_SRC), r, TCP_FLAG_ACK);
    BuiltTail(d, Get32(InnerIp(buf), IP_SRC), r, TCP_FLAG_ACK);
    var inner := Deliver(DestReply(buf, d, r), PACKET_SIZE)[..INNER_SIZE];
    assert inner == b[GRE_SIZE..];
    assert GreHeader() + inner == b;
  }

  /** The packet the client decrypts: from the destination, to the client, with the
      destination's TCP header and the recovered response. */
  lemma ReplyDelivered(buf: seq<byte>, c: uint32, d: uint32, r: seq<byte>)
    requires |buf| == INNER_SIZE && |r| <= MAX_RESPONSE && 0 !in r
    ensures var rep := DestReply(buf, d, r);
      var q := Received(ReplyMessage(ReplyPacket(rep, c)));
      && Get32(IpPart(q), IP_SRC) == d && Get32(IpPart(q), IP_DST) == c
      && Swap16(Get16(IpPart(q), IP_LEN)) == MAX_PAYLOAD + IP_SIZE
      && IpPart(q) == Stamp(IpPart(q))
      && TcpPart(q) == InnerTcp(rep) && Accepts(TcpPart(q), TCP_SUM) && PlainTcp(TcpPart(q), 0x16)
      && PayloadText(q) == Recovered(r)
      && Tail(q[PAYLOAD_START..], r)
      && |rep| == |ReplyMessage(ReplyPacket(rep, c))| == 46 + |r|
  {
    SealedTcpIsPlain(TCP_FLAG_ACK);
    hide Built, Received, SealedIp, SealedTcp, Accepts, Recovered, CStr, RewriteDst, Stamp, Get32, Get16,
         WithIp, IpPart, TcpPart, InnerIp, InnerTcp, PayloadText, DestReply, EncryptedMessage, StrLen,
         ReplyPacket, PlainTcp, Arrives, Tail;
    var s := Get32(InnerIp(buf), IP_SRC);
    var rep := DestReply(buf, d, r);
    var b := Built(d, s, r, TCP_FLAG_ACK);
    var p := ReplyPacket(rep, c);
    ReencapsulationRestores(buf, c, d, r);
    BuiltParts(d, s, r, TCP_FLAG_ACK);
    SetIpAccepted(Zeros(20), d, s, IP_PROTOCOL_TCP, MAX_PAYLOAD);
    RewrittenFields(IpPart(b), c);
    RewrittenIp(b, RewriteDst(IpPart(b), c));
    RewriteKeepsRest(b, RewriteDst(IpPart(b), c));
    ReplyFields(buf, d, r);
    BuiltTcpAccepted(TCP_FLAG_ACK);
    ReplyLength(p, b, d, s, r);
    ServerHop(p, r);
    EncryptedMessageBytes(p, |r|);
    ArrivingTail(Received(ReplyMessage(p)), p, r);
    SameHeaders(Received(ReplyMessage(p)), p);
  }

  /** What the server makes of any answer, byte by byte: a GRE header in front of its
      first 168 bytes, with ip_dst and ip_sum rewritten. */
  lemma ReplyPacketBytes(msg: seq<byte>, c: uint32)
    ensures var p := ReplyPacket(msg, c);
      && p[..6] == [0, 1, 8, 0, 0xfe, 0xf7]
      && Get32(IpPart(p), IP_DST) == c
      && forall i :: 6 <= i < 174 && !(16 <= i < 18) && !(22 <= i < 26) ==>
           p[i] == if i - 6 < |msg| then msg[i - 6] else 0
  {
    hide HandlePktDest, GreHeader, Get32, IpPart;
    GreBytes();
    var buf := Deliver(msg, PACKET_SIZE);
    var inner := GreHeader() + buf[..INNER_SIZE];
    HandlePktDestFrame(inner, c);
    assert forall i :: 6 <= i < 174 ==> inner[i] == buf[i - 6];
    assert forall i :: 0 <= i < 6 ==> inner[i] == GreHeader()[i];
  }

  /** strlen of the rebuilt payload is the response's length. */
  lemma ReplyLength(p: seq<byte>, b: seq<byte>, d: uint32, s: uint32, r: seq<byte>)
    requires |r| <= MAX_RESPONSE && 0 !in r
    requires b == Built(d, s, r, TCP_FLAG_ACK)
    requires |p| == PACKET_SIZE && p[PAYLOAD_START..] == b[PAYLOAD_START..]
    ensures StrLen(p[PAYLOAD_START..]) == |r|
    ensures forall j :: 0 <= j < |r| ==> p[PAYLOAD_START + j] == r[j]
  {
    hide Built, StrLen;
    BuiltTail(d, s, r, TCP_FLAG_ACK);
    forall i | PAYLOAD_START <= i < PACKET_SIZE ensures p[i] == b[i] {
      assert p[i] == p[PAYLOAD_START..][i - PAYLOAD_START];
    }
    CStrAt(p, PAYLOAD_START, r);
  }

  // ---------- strlen stays inside every buffer ----------

  lemma RequestHasNul(src: uint32, dst: uint32, m: seq<byte>, flags: byte)
    requires |m| <= MAX_PAYLOAD
    ensures 0 in Deliver(ClientMessage(src, dst, m, flags), PACKET_SIZE)[PAYLOAD_START..]
  {
    hide Built, Encrypted;
    var buf := Deliver(ClientMessage(src, dst, m, flags), PACKET_SIZE);
    assert buf[PAYLOAD_START..][|Kept(m)|] == 0;
  }

  lemma AnswerHasNul(buf: seq<byte>, d: uint32, r: seq<byte>)
    requires |buf| == INNER_SIZE && |r| <= MAX_RESPONSE && 0 !in r
    ensures 0 in Deliver(DestReply(buf, d, r), PACKET_SIZE)[40..INNER_SIZE]
  {
    hide Built, Get32;
    var b := Built(d, Get32(InnerIp(buf), IP_SRC), r, TCP_FLAG_ACK);
    BuiltTail(d, Get32(InnerIp(buf), IP_SRC), r, TCP_FLAG_ACK);
    var rep := DestReply(buf, d, r);
    assert rep[40 + |r|] == b[PAYLOAD_START + |r|] == 0;
    NulInside(Deliver(rep, PACKET_SIZE), 40, INNER_SIZE, 40 + |r|);
  }

  lemma NulInside(s: seq<byte>, lo: nat, hi: nat, k: nat)
    requires lo <= k < hi <= |s| && s[k] == 0
    ensures 0 in s[lo..hi]
  {
  }

  /** The re-encapsulated packet, and what the client receives, end in time too. */
  lemma ReplyHasNul(buf: seq<byte>, c: uint32, d: uint32, r: seq<byte>)
    requires |buf| == INNER_SIZE && |r| <= MAX_RESPONSE && 0 !in r
    ensures 0 in Deliver(ReplyMessage(ReplyPacket(DestReply(buf, d, r), c)), PACKET_SIZE)[PAYLOAD_START..]
  {
    hide Built, Get32, DestReply, ReplyPacket, HandlePktDest, RewriteDst, StrLen, Encrypted;
    var s := Get32(InnerIp(buf), IP_SRC);
    var b := Built(d, s, r, TCP_FLAG_ACK);
    var p := ReplyPacket(DestReply(buf, d, r), c);
    ReencapsulationRestores(buf, c, d, r);
    assert p[PAYLOAD_START..] == b[PAYLOAD_START..] by { HandledPayload(b, c); }
    ReplyLength(p, b, d, s, r);
    assert |ReplyMessage(p)| == PAYLOAD_START + |r|;
    assert Deliver(ReplyMessage(p), PACKET_SIZE)[PAYLOAD_START..][|r|] == 0;
  }

  lemma HandledPayload(b: seq<byte>, c: uint32)
    requires |b| == PACKET_SIZE
    ensures HandlePktDest(b, c)[PAYLOAD_START..] == b[PAYLOAD_START..]
  {
  }

  // ---------- a request that reaches the destination unproxied ----------

  /** How the destination reads the source of an encrypted packet: 126.86.52.18. */
  const UNPROXIED_SOURCE: uint32 := 0x7e56_3412

  /** How the client reads the source of an answer that was never encrypted: 242.81.6.0. */
  const MISREAD_SOURCE: uint32 := 0xf251_0600

  /** How the client reads the source of end-of-file: 52.18.120.86. */
  const EMPTY_SOURCE: uint32 := 0x3412_7856

  lemma XorValues()
    ensures Xor(6, 0x78) == 0x7e && Xor(0x7e, 0x78) == 6
    ensures Xor(0x56, 0x56) == 0 && Xor(0x43, 0x12) == 0x51 && Xor(0xc6, 0x34) == 0xf2
  {
    XorWithZero(15); XorWithZero(2); XorWithZero(3);
    assert Xor(3, 60) == 63 by { assert Xor(1, 30) == 31; }
    XorTwice(6, 0x78);
    XorIsZero(0x56, 0x56);
    assert Xor(16, 4) == 20 by { assert Xor(8, 2) == 10 by { assert Xor(4, 1) == 5; } }
    assert Xor(33, 9) == 40;
    assert Xor(24, 6) == 30 by { assert Xor(12, 3) == 15 by { assert Xor(6, 1) == 7; } }
    assert Xor(99, 26) == 121 by { assert Xor(49, 13) == 60; }
  }

  /** Bytes of a built packet that do not depend on text and checksums: ip_off,
      ip_ttl and ip_p, the high half of ip_dst, and the source port. */
  lemma BuiltBytes(src: uint32, dst: uint32, m: seq<byte>, flags: byte)
    requires |m| <= MAX_PAYLOAD
    ensures var b := Built(src, dst, m, flags);
      && b[12] == b[13] == b[14] == 0 && b[15] == IP_PROTOCOL_TCP
      && b[22] == Byte0(dst) && b[23] == Byte1(dst) && b[24] == Byte2(dst) && b[25] == Byte3(dst)
      && b[26] == 0x43 && b[27] == 0xc6
  {
    var h := SealedIp(Zeros(20), src, dst, IP_PROTOCOL_TCP, MAX_PAYLOAD);
    var t := SealedTcp(Zeros(20), flags);
    SealedBytes(src, dst, flags);
    PartsOf(GreHeader(), h, t, PayloadArea(m));
    hide SealedIp, SealedTcp, GreHeader, PayloadArea, Byte0, Byte1, Byte2, Byte3;
    var b := Built(src, dst, m, flags);
    assert forall i :: 0 <= i < 20 ==> IpPart(b)[i] == b[GRE_SIZE + i] && TcpPart(b)[i] == b[TCP_START + i];
    assert h[6] == b[12] && h[7] == b[13] && h[8] == b[14] && h[9] == b[15];
    assert h[16] == b[22] && h[17] == b[23] && h[18] == b[24] && h[19] == b[25];
    assert t[0] == b[26] && t[1] == b[27];
  }

  lemma SealedBytes(src: uint32, dst: uint32, flags: byte)
    ensures var h := SealedIp(Zeros(20), src, dst, IP_PROTOCOL_TCP, MAX_PAYLOAD);
      && h[6] == h[7] == h[8] == 0 && h[9] == IP_PROTOCOL_TCP
      && h[16] == Byte0(dst) && h[17] == Byte1(dst) && h[18] == Byte2(dst) && h[19] == Byte3(dst)
    ensures var t := SealedTcp(Zeros(20), flags);
      && t[0] == 0x43 && t[1] == 0xc6
  {
    hide Checksum, Byte0, Byte1, Byte2, Byte3;
  }

  /** Without the proxy the destination reads ip_off, ip_ttl and ip_p, encrypted, as
      the source, whatever the addresses and the text. */
  lemma UnproxiedRequest(c: uint32, d: uint32, m: seq<byte>)
    requires |m| <= MAX_PAYLOAD
    ensures Get32(InnerIp(Deliver(ClientMessage(c, d, m, TCP_FLAG_SYN), INNER_SIZE)), IP_SRC) == UNPROXIED_SOURCE
  {
    hide Built, XorByte;
    var b := Built(c, d, m, TCP_FLAG_SYN);
    BuiltBytes(c, d, m, TCP_FLAG_SYN);
    var msg := ClientMessage(c, d, m, TCP_FLAG_SYN);
    assert msg[12] == XorByte(0, 0x12) && msg[13] == XorByte(0, 0x34);
    assert msg[14] == XorByte(0, 0x56) && msg[15] == XorByte(6, 0x78);
    UnproxiedBytes();
  }

  lemma UnproxiedBytes()
    ensures Join32(XorByte(6, 0x78), XorByte(0, 0x56), XorByte(0, 0x34), XorByte(0, 0x12)) == UNPROXIED_SOURCE
    ensures Join32(XorByte(0xc6, 0x34), XorByte(0x43, 0x12), XorByte(0x7e, 0x78), XorByte(0x56, 0x56)) == MISREAD_SOURCE
    ensures Join32(XorByte(0, 0x34), XorByte(0, 0x12), XorByte(0, 0x78), XorByte(0, 0x56)) == EMPTY_SOURCE
  {
    hide Xor;
    XorValues();
    XorWithZero(0x12); XorWithZero(0x34); XorWithZero(0x56); XorWithZero(0x78);
  }

  /** The text a client makes of an unencrypted answer: the GRE header is missing,
      so it starts six bytes late, and decryption scrambles it up to its first
      meeting with the key. */
  function Misread(r: seq<byte>): seq<byte> {
    var late := if |r| > GRE_SIZE then r[GRE_SIZE..] else [];
    seq(Cut(late), j requires 0 <= j < Cut(late) => XorByte(late[j], KeyAt(PAYLOAD_START + j)))
  }

  lemma HeaderByte(msg: seq<byte>, i: nat)
    requires i < PAYLOAD_START
    ensures Received(msg)[i] == XorByte(if i < |msg| then msg[i] else 0, KeyAt(i))
  {
    hide XorByte, KeyAt, StrLen;
  }

  lemma UnproxiedAnswerText(buf: seq<byte>, d: uint32, r: seq<byte>)
    requires |buf| == INNER_SIZE && |r| <= MAX_RESPONSE && 0 !in r
    ensures PayloadText(Received(DestReply(buf, d, r))) == Misread(r)
  {
    hide Built, Get32, XorByte, KeyAt, StrLen, CutFrom;
    var b := Built(d, Get32(InnerIp(buf), IP_SRC), r, TCP_FLAG_ACK);
    BuiltTail(d, Get32(InnerIp(buf), IP_SRC), r, TCP_FLAG_ACK);
    var rep := DestReply(buf, d, r);
    var late := if |r| > GRE_SIZE then r[GRE_SIZE..] else [];
    var got := Deliver(rep, PACKET_SIZE);
    forall j | 0 <= j < |late| ensures got[PAYLOAD_START + j] == late[j] {
      assert rep[PAYLOAD_START + j] == b[PAYLOAD_START + (GRE_SIZE + j)] == r[GRE_SIZE + j];
    }
    assert got[PAYLOAD_START + |late|] == 0;
    ScrambledText(rep, late);
  }

  lemma ScrambledText(rep: seq<byte>, late: seq<byte>)
    requires |late| < MAX_PAYLOAD && 0 !in late
    requires var got := Deliver(rep, PACKET_SIZE);
      got[PAYLOAD_START + |late|] == 0 && forall j :: 0 <= j < |late| ==> got[PAYLOAD_START + j] == late[j]
    ensures PayloadText(Received(rep))
         == seq(Cut(late), j requires 0 <= j < Cut(late) => XorByte(late[j], KeyAt(PAYLOAD_START + j)))
  {
    hide XorByte, KeyAt, StrLen;
    var got := Deliver(rep, PACKET_SIZE);
    CStrAt(got, PAYLOAD_START, late);
    var q := Received(rep);
    assert q == Encrypted(got)[PAYLOAD_START + |late| := 0];
    var n := Cut(late);
    var text := seq(n, j requires 0 <= j < n => XorByte(late[j], KeyAt(PAYLOAD_START + j)));
    forall j | 0 <= j < |late|
      ensures q[PAYLOAD_START + j] == XorByte(late[j], KeyAt(PAYLOAD_START + j))
      ensures q[PAYLOAD_START + j] == 0 <==> late[j] == KeyAt(PAYLOAD_START + j)
    {
      XorByteFacts(late[j], KeyAt(PAYLOAD_START + j));
    }
    assert 0 !in text;
    CStrAt(q, PAYLOAD_START, text);
  }

  lemma UnproxiedAnswerSource(buf: seq<byte>, d: uint32, r: seq<byte>)
    requires |buf| == INNER_SIZE && |r| <= MAX_RESPONSE && 0 !in r
    requires Get32(InnerIp(buf), IP_SRC) == UNPROXIED_SOURCE
    ensures Get32(IpPart(Received(DestReply(buf, d, r))), IP_SRC) == MISREAD_SOURCE
  {
    hide Built, XorByte, Received;
    var b := Built(d, UNPROXIED_SOURCE, r, TCP_FLAG_ACK);
    BuiltBytes(d, UNPROXIED_SOURCE, r, TCP_FLAG_ACK);
    var rep := DestReply(buf, d, r);
    assert rep[18] == b[24] == 0x56 && rep[19] == b[25] == 0x7e && rep[20] == b[26] && rep[21] == b[27];
    ClientSource(rep);
    UnproxiedBytes();
  }

  /** Where a client finds the source of what it received. */
  lemma ClientSource(msg: seq<byte>)
    ensures var at := (i: nat) => if i < |msg| then msg[i] else 0;
      Get32(IpPart(Received(msg)), IP_SRC)
      == Join32(XorByte(at(21), 0x34), XorByte(at(20), 0x12), XorByte(at(19), 0x78), XorByte(at(18), 0x56))
  {
    hide XorByte, Received;
    HeaderByte(msg, 18); HeaderByte(msg, 19); HeaderByte(msg, 20); HeaderByte(msg, 21);
  }

  /** What a client makes of end-of-file: a packet without text from nowhere. */
  lemma EmptyAnswer()
    ensures PayloadText(Received([])) == []
    ensures Get32(IpPart(Received([])), IP_SRC) == EMPTY_SOURCE
  {
    hide XorByte, Received;
    ScrambledText([], []);
    ClientSource([]);
    UnproxiedBytes();
  }

  /** No host of the table has one of these three addresses. */
  lemma NoHostMisread(name: string)
    requires HostIp(name).Some?
    ensures ParseAddr(HostIp(name).value) !in {UNPROXIED_SOURCE, MISREAD_SOURCE, EMPTY_SOURCE}
  {
    hide ParseAddr;
    HostIpIsCanonical(name);
  }

  /** The answer the client gets without the proxy still ends inside its buffer. */
  lemma UnproxiedHasNul(buf: seq<byte>, d: uint32, r: seq<byte>)
    requires |buf| == INNER_SIZE && |r| <= MAX_RESPONSE
    ensures 0 in Deliver(DestReply(buf, d, r), PACKET_SIZE)[PAYLOAD_START..]
  {
    hide Built, Get32;
    NulInside(Deliver(DestReply(buf, d, r), PACKET_SIZE), PAYLOAD_START, PACKET_SIZE, PACKET_SIZE - 1);
  }

  // ---------- headers nobody meant to be one ----------

  /** A byte's two nibbles are combined one by one. */
  lemma XorNibbles(a: nat, b: nat, c: nat, d: nat)
    requires b < 16 && d < 16
    ensures Xor(16 * a + b, 16 * c + d) == 16 * Xor(a, c) + Xor(b, d)
  {
    hide Xor;
    assert 16 * a + b == 4 * (4 * a + b / 4) + b % 4 && 16 * c + d == 4 * (4 * c + d / 4) + d % 4;
    XorPairs(4 * a + b / 4, b % 4, 4 * c + d / 4, d % 4);
    XorPairs(a, b / 4, c, d / 4);
    XorPairs(b / 4, b % 4, d / 4, d % 4);
  }

  lemma XorPairs(a: nat, b: nat, c: nat, d: nat)
    requires b < 4 && d < 4
    ensures Xor(4 * a + b, 4 * c + d) == 4 * Xor(a, c) + Xor(b, d)
  {
    hide Xor;
    assert 4 * a + b == 2 * (2 * a + b / 2) + b % 2 && 4 * c + d == 2 * (2 * c + d / 2) + d % 2;
    XorDouble(2 * a + b / 2, b % 2, 2 * c + d / 2, d % 2);
    XorDouble(a, b / 2, c, d / 2);
    XorDouble(b / 2, b % 2, d / 2, d % 2);
    XorDouble(0, b / 2, 0, d / 2);
    XorWithZero(0);
  }

  lemma XorDouble(a: nat, b: nat, c: nat, d: nat)
    requires b < 2 && d < 2
    ensures Xor(2 * a + b, 2 * c + d) == 2 * Xor(a, c) + if b != d then 1 else 0
  {
  }

  lemma NibbleValues()
    ensures Xor(1, 4) == 5 && Xor(8, 6) == 14 && Xor(15, 1) == 14 && Xor(14, 2) == 12 && Xor(15, 3) == 12
    ensures Xor(7, 4) == 3 && Xor(4, 5) == 1 && Xor(9, 3) == 10 && Xor(5, 1) == 4 && Xor(1, 2) == 3
    ensures Xor(5, 4) == 1 && Xor(4, 4) == 0
  {
    XorWithZero(1); XorWithZero(2); XorWithZero(3); XorWithZero(7);
    XorIsZero(1, 1); XorIsZero(4, 4);
    XorDouble(0, 1, 2, 0); XorDouble(0, 1, 1, 0); XorDouble(7, 1, 0, 1); XorDouble(2, 1, 0, 1);
    XorPairs(2, 0, 1, 2); XorPairs(3, 2, 0, 2); XorPairs(3, 3, 0, 3); XorPairs(1, 3, 1, 0);
    XorPairs(1, 0, 1, 1); XorPairs(2, 1, 0, 3); XorPairs(1, 1, 1, 0);
    assert Xor(0, 2) == 2 && Xor(2, 1) == 3 && Xor(2, 2) == 0 && Xor(3, 3) == 0;
    hide Xor;
  }

  lemma MoreXorValues()
    ensures Xor(1, 0x34) == 0x35 && Xor(8, 0x56) == 0x5e && Xor(0xfe, 0x12) == 0xec && Xor(0xf7, 0x34) == 0xc3
    ensures Xor(0x40, 0x56) == 0x16 && Xor(0x94, 0x34) == 0xa0 && Xor(0x51, 0x12) == 0x43 && Xor(0xf5, 0x34) == 0xc1
  {
    hide Xor;
    NibbleValues();
    XorWithZero(3); XorWithZero(5); XorWithZero(6);
    XorNibbles(0, 1, 3, 4); XorNibbles(0, 8, 5, 6); XorNibbles(15, 14, 1, 2); XorNibbles(15, 7, 3, 4);
    XorNibbles(4, 0, 5, 6); XorNibbles(9, 4, 3, 4); XorNibbles(5, 1, 1, 2); XorNibbles(15, 5, 3, 4);
  }

  /** The start of the packet the client builds for two hosts of the table: its GRE
      header, and its IP header up to the high bytes of ip_src. */
  predicate TableStart(b: seq<byte>, sum: byte, src: byte) {
    && |b| >= 20
    && b[0] == 0 && b[1] == 1 && b[2] == 8 && b[3] == 0 && b[4] == 0xfe && b[5] == 0xf7
    && b[6] == 0x40 && b[7] == b[8] == 0 && b[9] == 0x94 && b[10] == b[11] == b[12] == b[13] == b[14] == 0
    && b[15] == 6 && b[16] == 0x51 && b[17] == sum && b[18] == src && b[19] == 0
  }

  lemma FieldBytes(src: uint32, dst: uint32)
    ensures var z := IpFields(Zeros(20), src, dst, IP_PROTOCOL_TCP, MAX_PAYLOAD);
      && z[0] == 0x40 && z[1] == z[2] == 0 && z[3] == 0x94 && z[4] == z[5] == z[6] == z[7] == z[8] == 0
      && z[9] == 6 && z[10] == z[11] == 0
      && z[12] == Byte0(src) && z[13] == Byte1(src) && z[14] == Byte2(src) && z[15] == Byte3(src)
      && z[16] == Byte0(dst) && z[17] == Byte1(dst) && z[18] == Byte2(dst) && z[19] == Byte3(dst)
  {
    hide Byte0, Byte1, Byte2, Byte3;
  }

  lemma TableFields(j: byte, k: byte)
    ensures var z := IpFields(Zeros(20), 0x0a00_0000 + j, 0x0a00_0000 + k, IP_PROTOCOL_TCP, MAX_PAYLOAD);
      && z[0] == 0x40 && z[1] == z[2] == 0 && z[3] == 0x94 && z[4] == z[5] == z[6] == z[7] == z[8] == 0
      && z[9] == 6 && z[10] == z[11] == 0 && z[12] == j && z[13] == z[14] == 0 && z[15] == 10
      && z[16] == k && z[17] == z[18] == 0 && z[19] == 10
  {
    hide IpFields, Byte0, Byte1, Byte2, Byte3;
    BytesOfJoin32(10, 0, 0, j);
    BytesOfJoin32(10, 0, 0, k);
    FieldBytes(0x0a00_0000 + j, 0x0a00_0000 + k);
  }

  lemma TableSum(z: IpHeader, j: byte, k: byte)
    requires 1 <= j <= 7 && 1 <= k <= 7
    requires z[0] == 0x40 && z[1] == z[2] == 0 && z[3] == 0x94 && z[4] == z[5] == z[6] == z[7] == z[8] == 0
    requires z[9] == 6 && z[10] == z[11] == 0 && z[12] == j && z[13] == z[14] == 0 && z[15] == 10
    requires z[16] == k && z[17] == z[18] == 0 && z[19] == 10
    ensures Seal(z, IP_SUM)[IP_SUM] == 0x51 && Seal(z, IP_SUM)[IP_SUM + 1] == 0xbf - j - k
  {
    TenWords(z);
    hide WordSum;
    var w := WordSum(z);
    assert w == 16558 + 256 * (j + k);
    SmallChecksum(z);
    hide Swap16, Checksum;
    BytesOfJoin16(0xbf - j - k, 0x51);
  }

  lemma TableHeader(j: byte, k: byte, m: seq<byte>)
    requires 1 <= j <= 7 && 1 <= k <= 7 && |m| <= MAX_PAYLOAD
    ensures TableStart(Built(0x0a00_0000 + j, 0x0a00_0000 + k, m, TCP_FLAG_SYN), 0xbf - j - k, j)
  {
    hide SealedIp, SealedTcp, GreHeader, PayloadArea, TableStart;
    var h := SealedIp(Zeros(20), 0x0a00_0000 + j, 0x0a00_0000 + k, IP_PROTOCOL_TCP, MAX_PAYLOAD);
    TableIp(j, k);
    GreBytes();
    var b := Built(0x0a00_0000 + j, 0x0a00_0000 + k, m, TCP_FLAG_SYN);
    assert b[..6] == GreHeader();
    assert b[6..26] == h;
    hide Built;
    StartOf(b, h, 0xbf - j - k, j);
  }

  /** The start of ip_hdr between two hosts of the table. */
  predicate TableIpStart(h: IpHeader, sum: byte, src: byte) {
    && h[0] == 0x40 && h[1] == h[2] == 0 && h[3] == 0x94 && h[4] == h[5] == h[6] == h[7] == h[8] == 0
    && h[9] == 6 && h[10] == 0x51 && h[11] == sum && h[12] == src && h[13] == 0
  }

  lemma TableIp(j: byte, k: byte)
    requires 1 <= j <= 7 && 1 <= k <= 7
    ensures TableIpStart(SealedIp(Zeros(20), 0x0a00_0000 + j, 0x0a00_0000 + k, IP_PROTOCOL_TCP, MAX_PAYLOAD),
                         0xbf - j - k, j)
  {
    hide IpFields, Checksum, Swap16;
    var z := IpFields(Zeros(20), 0x0a00_0000 + j, 0x0a00_0000 + k, IP_PROTOCOL_TCP, MAX_PAYLOAD);
    TableFields(j, k);
    TableSum(z, j, k);
    assert forall i :: 0 <= i < 20 && i != IP_SUM && i != IP_SUM + 1 ==> Seal(z, IP_SUM)[i] == z[i];
  }

  lemma StartOf(b: seq<byte>, h: IpHeader, sum: byte, src: byte)
    requires |b| >= 26 && b[..6] == [0, 1, 8, 0, 0xfe, 0xf7] && b[6..26] == h
    requires TableIpStart(h, sum, src)
    ensures TableStart(b, sum, src)
  {
    assert forall i :: 0 <= i < 6 ==> b[i] == b[..6][i];
    assert forall i :: 0 <= i < 20 ==> b[6 + i] == h[i];
    assert b[6] == h[0] && b[7] == h[1] && b[8] == h[2] && b[9] == h[3] && b[10] == h[4] && b[11] == h[5];
    assert b[12] == h[6] && b[13] == h[7] && b[14] == h[8] && b[15] == h[9] && b[16] == h[10] && b[17] == h[11];
    assert b[18] == h[12] && b[19] == h[13];
  }

  /** No header a destination reads without the proxy verifies, between any two hosts
      of the table: it would need 0xc1 where ip_sum has at most 0xbd. */
  lemma UnproxiedHeaderRejected(j: byte, k: byte, m: seq<byte>)
    requires 1 <= j <= 7 && 1 <= k <= 7 && |m| <= MAX_PAYLOAD
    ensures !Accepts(InnerIp(Deliver(ClientMessage(0x0a00_0000 + j, 0x0a00_0000 + k, m, TCP_FLAG_SYN), INNER_SIZE)),
                     IP_SUM)
  {
    hide Accepts, XorByte, Built;
    var b := Built(0x0a00_0000 + j, 0x0a00_0000 + k, m, TCP_FLAG_SYN);
    var msg := ClientMessage(0x0a00_0000 + j, 0x0a00_0000 + k, m, TCP_FLAG_SYN);
    var e := InnerIp(Deliver(msg, INNER_SIZE));
    TableHeader(j, k, m);
    assert forall i :: 0 <= i < 20 ==> e[i] == msg[i] == XorByte(b[i], KeyAt(i));
    hide InnerIp, ClientMessage, Deliver, TableStart;
    EncryptedBytes(e, b, 0xbf - j - k, j);
    EncryptedWords(e);
    AcceptsIff(e, IP_SUM);
  }

  /** TableStart encrypted, but for the two bytes that depend on the addresses. */
  predicate EncryptedStart(e: IpHeader) {
    && e[0] == 0x12 && e[1] == 0x35 && e[2] == 0x5e && e[3] == 0x78 && e[4] == 0xec && e[5] == 0xc3
    && e[6] == 0x16 && e[7] == 0x78 && e[8] == 0x12 && e[9] == 0xa0 && e[10] == 0x56 && e[11] == 0x78
    && e[12] == 0x12 && e[13] == 0x34 && e[14] == 0x56 && e[15] == 0x7e && e[16] == 0x43 && e[19] == 0x78
  }

  lemma EncryptedBytes(e: IpHeader, b: seq<byte>, sum: byte, src: byte)
    requires TableStart(b, sum, src) && sum != 0xc1
    requires forall i :: 0 <= i < 20 ==> e[i] == XorByte(b[i], KeyAt(i))
    ensures EncryptedStart(e) && e[17] != 0xf5
  {
    hide Xor;
    XorValues();
    MoreXorValues();
    XorWithZero(0x12); XorWithZero(0x34); XorWithZero(0x56); XorWithZero(0x78);
    XorTwice(sum, 0x34);
  }

  lemma EncryptedSum(e: IpHeader, x: int, y: int)
    requires EncryptedStart(e) && x == e[17] && y == e[18]
    ensures WordSum(Put16(e, IP_SUM, 0)) == 144050 + x + 0x100 * y
    ensures Get16(e, IP_SUM) == 0x7856
  {
    hide WordSum;
    TenWords(Put16(e, IP_SUM, 0));
  }

  lemma SumMisses(w: int, x: int, y: int)
    requires 0 <= x < 0x100 && 0 <= y < 0x100 && x != 0xf5
    requires w == 144050 + x + 0x100 * y
    ensures !Congruent(w + 0x7856, 0)
  {
    if Congruent(w + 0x7856, 0) {
      var k := Witness(w + 0x7856, 0);
    }
  }

  lemma EncryptedWords(e: IpHeader)
    requires EncryptedStart(e) && e[17] != 0xf5
    ensures !Congruent(WordSum(Put16(e, IP_SUM, 0)) + Get16(e, IP_SUM), 0)
  {
    hide EncryptedStart, WordSum, Congruent, Put16, Get16;
    EncryptedSum(e, e[17], e[18]);
    SumMisses(WordSum(Put16(e, IP_SUM, 0)), e[17], e[18]);
  }

  /** The answer to an unproxied request leaves the client an ip_sum of zero, and no
      checksum is zero. */
  lemma UnproxiedAnswerRejected(buf: seq<byte>, d: uint32, r: seq<byte>)
    requires |buf| == INNER_SIZE && |r| <= MAX_RESPONSE
    requires Get32(InnerIp(buf), IP_SRC) == UNPROXIED_SOURCE
    ensures !Accepts(IpPart(Received(DestReply(buf, d, r))), IP_SUM)
  {
    hide Built, XorByte, Received, Accepts, InnerIp, Get32;
    var b := Built(d, UNPROXIED_SOURCE, r, TCP_FLAG_ACK);
    BuiltBytes(d, UNPROXIED_SOURCE, r, TCP_FLAG_ACK);
    var rep := DestReply(buf, d, r);
    assert rep[16] == b[22] == 0x12 && rep[17] == b[23] == 0x34;
    hide DestReply, UNPROXIED_SOURCE;
    ZeroSumRejected(rep);
  }

  lemma ZeroSumRejected(msg: seq<byte>)
    requires |msg| >= 18 && msg[16] == 0x12 && msg[17] == 0x34
    ensures !Accepts(IpPart(Received(msg)), IP_SUM)
  {
    hide XorByte, Received, Accepts;
    HeaderByte(msg, 16);
    HeaderByte(msg, 17);
    XorByteFacts(0x12, 0x12);
    XorByteFacts(0x34, 0x34);
    AcceptsIff(IpPart(Received(msg)), IP_SUM);
    hide Congruent, WordSum, Put16;
  }

  /** Nor does the key, which is what end-of-file decrypts to, verify. */
  lemma EmptyAnswerRejected()
    ensures !Accepts(IpPart(Received([])), IP_SUM)
  {
    hide Accepts, Xor, Received;
    var h := IpPart(Received([]));
    forall i | 0 <= i < 20 ensures h[i] == KeyAt(GRE_SIZE + i) {
      HeaderByte([], GRE_SIZE + i);
      XorWithZero(KeyAt(GRE_SIZE + i));
    }
    var z := Put16(h, IP_SUM, 0);
    TenWords(z);
    hide WordSum;
    assert WordSum(z) == 5 * 0x5678 + 4 * 0x1234;
    assert Get16(h, IP_SUM) == 0x3412;
    AcceptsIff(h, IP_SUM);
    if Congruent(WordSum(z) + 0x3412, 0) {
      var k := Witness(WordSum(z) + 0x3412, 0);
    }
  }

  // ---------- the rewritten header's checksum on the shipped hosts ----------

  /** Between any two hosts of the table, no header the proxy stamps on a packet of
      the code's length verifies: 148 is never the sum of the addresses modulo 257. */
  lemma TableHeadersNeverVerify(h: IpHeader, a: string, b: string)
    requires HostIp(a).Some? && HostIp(b).Some?
    requires Get32(h, IP_SRC) == ParseAddr(HostIp(a).value)
    requires Get32(h, IP_DST) == ParseAddr(HostIp(b).value)
    requires Swap16(Get16(h, IP_LEN)) == MAX_PAYLOAD + IP_SIZE
    ensures !Accepts(Stamp(h), IP_SUM)
  {
    hide Accepts, Stamp, Get32, Get16, Swap16, ParseAddr, Canonical, HostIp, HostNumber;
    FinalHeaderAccepted(h);
    HostIpIsCanonical(a);
    HostIpIsCanonical(b);
    SmallHostsMiss(HostNumber(a), HostNumber(b));
  }

  lemma SmallHostsMiss(j: int, k: int)
    requires 1 <= j <= 7 && 1 <= k <= 7
    ensures (0x0a00_0000 + j + (0x0a00_0000 + k) - (MAX_PAYLOAD + IP_SIZE)) % 257 != 0
  {
    assert 0x0a00_0000 + j + (0x0a00_0000 + k) - 148 == 257 * 1305619 + (j + k + 89);
  }
}

/** The messages the three programs put on their sockets, and what the encrypted
    hop between client and server does to a packet. */
module Wire {
  import opened Bytes
  import opened Cipher
  import opened Headers

  /** What create_packets returns: the built packet encrypted, and a NUL written
      over the byte after the payload. */
  function ClientPacket(src: uint32, dst: uint32, m: seq<byte>, flags: byte): (p: seq<byte>)
    requires |m| <= MAX_PAYLOAD
    ensures |p| == PACKET_SIZE
  {
    Encrypted(Built(src, dst, m, flags))[PAYLOAD_START + |Kept(m)| := 0]
  }

  /** The bytes the client sends: headers and strlen(payload) more. */
  function ClientMessage(src: uint32, dst: uint32, m: seq<byte>, flags: byte): seq<byte>
    requires |m| <= MAX_PAYLOAD
  {
    ClientPacket(src, dst, m, flags)[..PAYLOAD_START + |m|]
  }

  /** serv_rec_from_cli: the length is taken from the encrypted payload. */
  function Received(msg: seq<byte>): (p: seq<byte>)
    ensures |p| == PACKET_SIZE
  {
    var buf := Deliver(msg, PACKET_SIZE);
    var len := StrLen(buf[PAYLOAD_START..]);
    Encrypted(buf)[PAYLOAD_START + (if len > MAX_PAYLOAD - 1 then MAX_PAYLOAD - 1 else len) := 0]
  }

  /** serv_cli_encrypt_free, for a payload of n bytes. */
  function EncryptedMessage(p: seq<byte>, n: nat): seq<byte>
    requires PAYLOAD_START + n <= |p|
  {
    Encrypted(p[..PAYLOAD_START + n])
  }

  /** How far a payload gets over the hop, looking from index j on: to its first
      byte that equals the key byte at its position, which encrypts to NUL. */
  function CutFrom(m: seq<byte>, j: nat): (n: nat)
    requires j <= |m|
    ensures j <= n <= |m|
    ensures n < |m| ==> m[n] == KeyAt(PAYLOAD_START + n)
    ensures forall i :: j <= i < n ==> m[i] != KeyAt(PAYLOAD_START + i)
    decreases |m| - j
  {
    if j == |m| || m[j] == KeyAt(PAYLOAD_START + j) then j else CutFrom(m, j + 1)
  }

  function Cut(m: seq<byte>): (n: nat)
    ensures n <= |m|
  {
    CutFrom(m, 0)
  }

  /** The payload text the far end of the hop recovers. */
  function Recovered(m: seq<byte>): seq<byte> {
    Kept(m)[..Cut(Kept(m))]
  }

  /** No payload byte meets its own key byte. */
  predicate KeyFree(m: seq<byte>) {
    forall j :: 0 <= j < |m| ==> m[j] != KeyAt(PAYLOAD_START + j)
  }

  /** A payload survives the hop exactly when it fits and is key-free. */
  lemma RecoveredIsWhole(m: seq<byte>)
    ensures Recovered(m) == m <==> |m| < MAX_PAYLOAD && KeyFree(m)
  {
  }

  /** A payload that starts with 'V' arrives empty, whatever follows. */
  lemma LeadingKeyByte(m: seq<byte>)
    ensures Recovered([0x56] + m) == []
  {
    var s := [0x56] + m;
    assert Kept(s)[0] == 0x56 == KeyAt(PAYLOAD_START);
  }

  /** Every byte of what create_packets returns: the built packet encrypted, but for
      a NUL behind the payload. */
  lemma ClientPacketBytes(src: uint32, dst: uint32, m: seq<byte>, flags: byte)
    requires |m| <= MAX_PAYLOAD
    ensures var p, b := ClientPacket(src, dst, m, flags), Built(src, dst, m, flags);
      var n := PAYLOAD_START + if |m| < 127 then |m| else 127;
      forall i :: 0 <= i < PACKET_SIZE ==> p[i] == if i == n then 0 else XorByte(b[i], KeyAt(i))
    ensures var msg := ClientMessage(src, dst, m, flags);
      |msg| == PAYLOAD_START + |m| && msg == ClientPacket(src, dst, m, flags)[..|msg|]
  {
    hide Built, XorByte, KeyAt;
  }

  /** Every byte of what serv_rec_from_cli returns: all 174 bytes of its buffer
      decrypted, but for a NUL at the end of the encrypted text, at 127 at the latest. */
  lemma ReceivedBytes(msg: seq<byte>)
    ensures var q, buf := Received(msg), Deliver(msg, PACKET_SIZE);
      var len := StrLen(buf[PAYLOAD_START..]);
      var n := PAYLOAD_START + if len < 127 then len else 127;
      forall i :: 0 <= i < PACKET_SIZE ==> q[i] == if i == n then 0 else XorByte(buf[i], KeyAt(i))
  {
    hide XorByte, KeyAt, StrLen;
  }

  /** What the hop makes of packet p with payload m, byte by byte: p itself, a NUL
      where the text is cut, and the bare key behind the payload. */
  predicate Arrives(q: seq<byte>, p: seq<byte>, m: seq<byte>) {
    && |q| == |p| == PACKET_SIZE && |m| < MAX_PAYLOAD
    && forall i :: 0 <= i < PACKET_SIZE ==>
         q[i] == if i == PAYLOAD_START + Cut(m) then 0
                 else if i < PAYLOAD_START + |m| then p[i]
                 else KeyAt(i)
  }

  /** msg carries the first 46 + n bytes of p encrypted, and nothing but NULs after. */
  ghost predicate Carries(msg: seq<byte>, p: seq<byte>, n: nat) {
    && |p| == PACKET_SIZE && n < MAX_PAYLOAD && |msg| <= PACKET_SIZE
    && PAYLOAD_START + n <= |msg|
    && (forall i :: 0 <= i < PAYLOAD_START + n ==> msg[i] == XorByte(p[i], KeyAt(i)))
    && (forall i :: PAYLOAD_START + n <= i < |msg| ==> msg[i] == 0)
  }

  lemma EncryptedTextLength(buf: seq<byte>, m: seq<byte>)
    requires |buf| == PACKET_SIZE && |m| < MAX_PAYLOAD
    requires forall j :: 0 <= j < |m| ==> buf[PAYLOAD_START + j] == XorByte(m[j], KeyAt(PAYLOAD_START + j))
    requires buf[PAYLOAD_START + |m|] == 0
    ensures StrLen(buf[PAYLOAD_START..]) == Cut(m)
  {
    hide KeyAt, XorByte, StrLen;
    var n := Cut(m);
    if n < |m| {
      XorByteFacts(m[n], KeyAt(PAYLOAD_START + n));
    }
    forall i | PAYLOAD_START <= i < PAYLOAD_START + n ensures buf[i] != 0 {
      var j := i - PAYLOAD_START;
      XorByteFacts(m[j], KeyAt(PAYLOAD_START + j));
    }
    StrLenAt(buf, PAYLOAD_START, n);
  }

  lemma HopBytes(msg: seq<byte>, p: seq<byte>, m: seq<byte>)
    requires Carries(msg, p, |m|)
    requires forall j :: 0 <= j < |m| ==> p[PAYLOAD_START + j] == m[j]
    ensures Arrives(Received(msg), p, m)
  {
    hide KeyAt, XorByte, StrLen, Cut, PayloadText;
    var buf := Deliver(msg, PACKET_SIZE);
    EncryptedTextLength(buf, m);
    var q := Received(msg);
    assert q == Encrypted(buf)[PAYLOAD_START + Cut(m) := 0];
    forall i | 0 <= i < PAYLOAD_START + |m| ensures XorByte(buf[i], KeyAt(i)) == p[i] {
      XorByteFacts(p[i], KeyAt(i));
    }
    forall i | PAYLOAD_START + |m| <= i < PACKET_SIZE ensures XorByte(buf[i], KeyAt(i)) == KeyAt(i) {
      assert buf[i] == 0;
      XorByteZero(KeyAt(i));
    }
  }

  /** The hop: every header byte arrives, whatever the payload, and the payload is
      cut at its first meeting with the key. */
  lemma Hop(msg: seq<byte>, p: seq<byte>, m: seq<byte>)
    requires Carries(msg, p, |m|)
    requires forall j :: 0 <= j < |m| ==> p[PAYLOAD_START + j] == m[j]
    requires 0 !in m
    ensures var q := Received(msg);
      && Arrives(q, p, m)
      && q[..PAYLOAD_START] == p[..PAYLOAD_START]
      && PayloadText(q) == m[..Cut(m)]
  {
    HopBytes(msg, p, m);
    hide Received, Carries, Cut, StrLen, KeyAt, XorByte;
    var kept := m[..Cut(m)];
    forall j | 0 <= j < |kept| ensures Received(msg)[PAYLOAD_START + j] == kept[j] {
      assert p[PAYLOAD_START + j] == m[j];
    }
    CStrAt(Received(msg), PAYLOAD_START, kept);
  }

  /** From create_packets to serv_rec_from_cli: the 46 header bytes arrive as they
      were built, and the payload text is what Recovered says. */
  lemma ClientHop(src: uint32, dst: uint32, m: seq<byte>, flags: byte)
    requires |m| <= MAX_PAYLOAD && 0 !in m
    ensures var q := Received(ClientMessage(src, dst, m, flags));
      && Arrives(q, Built(src, dst, m, flags), Kept(m))
      && q[..PAYLOAD_START] == Built(src, dst, m, flags)[..PAYLOAD_START]
      && PayloadText(q) == Recovered(m)
  {
    hide KeyAt, XorByte, Built;
    var p := Built(src, dst, m, flags);
    var kept := Kept(m);
    BuiltPayload(src, dst, m, flags);
    Hop(ClientMessage(src, dst, m, flags), p, kept);
  }

  lemma BuiltPayload(src: uint32, dst: uint32, m: seq<byte>, flags: byte)
    requires |m| <= MAX_PAYLOAD && 0 !in m
    ensures var p := Built(src, dst, m, flags);
      && (forall j :: 0 <= j < |Kept(m)| ==> p[PAYLOAD_START + j] == Kept(m)[j])
      && 0 !in Kept(m)
      && p[PAYLOAD_START + |Kept(m)|] == 0
  {
    BuiltParts(src, dst, m, flags);
    hide Built;
    var p := Built(src, dst, m, flags);
    var area := p[PAYLOAD_START..];
    assert area == PayloadArea(m);
    assert forall j :: 0 <= j < |Kept(m)| ==> p[PAYLOAD_START + j] == area[j];
    assert area[..|Kept(m)|] == Kept(m);
    assert area[|Kept(m)|] == 0;
  }

  /** If recv returns only the first k bytes of the request, headers included, the
      server recovers the payload cut at the same place or at those k bytes. */
  lemma PartialReceive(src: uint32, dst: uint32, m: seq<byte>, flags: byte, k: nat)
    requires |m| <= MAX_PAYLOAD && 0 !in m
    requires PAYLOAD_START <= k <= PAYLOAD_START + |Kept(m)|
    ensures var q := Received(ClientMessage(src, dst, m, flags)[..k]);
      && Arrives(q, Built(src, dst, m, flags), m[..k - PAYLOAD_START])
      && q[..PAYLOAD_START] == Built(src, dst, m, flags)[..PAYLOAD_START]
      && PayloadText(q) == Recovered(m[..k - PAYLOAD_START])
  {
    hide KeyAt, XorByte, Built;
    var p := Built(src, dst, m, flags);
    var part := m[..k - PAYLOAD_START];
    BuiltPayload(src, dst, m, flags);
    assert forall j :: 0 <= j < |part| ==> part[j] == Kept(m)[j];
    Hop(ClientMessage(src, dst, m, flags)[..k], p, part);
  }

  /** From serv_cli_encrypt_free to the client's serv_rec_from_cli. */
  lemma ServerHop(p: seq<byte>, m: seq<byte>)
    requires |p| == PACKET_SIZE && |m| < MAX_PAYLOAD && 0 !in m
    requires forall j :: 0 <= j < |m| ==> p[PAYLOAD_START + j] == m[j]
    ensures var q := Received(EncryptedMessage(p, |m|));
      && Arrives(q, p, m)
      && q[..PAYLOAD_START] == p[..PAYLOAD_START]
      && PayloadText(q) == Recovered(m)
  {
    hide KeyAt, XorByte;
    Hop(EncryptedMessage(p, |m|), p, m);
  }

  /** What serv_cli_encrypt_free sends: 46 + n bytes, each encrypted in its place. */
  lemma EncryptedMessageBytes(p: seq<byte>, n: nat)
    requires PAYLOAD_START + n <= |p|
    ensures var msg := EncryptedMessage(p, n);
      |msg| == PAYLOAD_START + n && forall i :: 0 <= i < |msg| ==> msg[i] == XorByte(p[i], KeyAt(i))
  {
    hide XorByte, KeyAt;
  }

  // ---------- the proxy and the destination ----------

  /** The server's packet after serv_rec_from_cli and serv_handle_pkt. */
  function ServerPacket(msg: seq<byte>, serverAddr: uint32): (p: seq<byte>)
    ensures |p| == PACKET_SIZE
  {
    HandlePkt(Received(msg), serverAddr)
  }

  /** The decapsulated packet the server sends on: everything after the GRE header. */
  function Forwarded(p: seq<byte>): (msg: seq<byte>)
    requires |p| == PACKET_SIZE
    ensures |msg| == INNER_SIZE
  {
    p[GRE_SIZE..]
  }

  /** Fields of a decapsulated packet. */
  function InnerIp(buf: seq<byte>): IpHeader
    requires |buf| >= 40
  {
    buf[..20]
  }

  function InnerTcp(buf: seq<byte>): TcpHeader
    requires |buf| >= 40
  {
    buf[20..40]
  }

  function InnerText(buf: seq<byte>): seq<byte>
    requires |buf| >= 40
  {
    CStr(buf[40..])
  }

  const MAX_RESPONSE := 122

  /** The destination's answer, addressed to whoever sent buf. It sends
      46 + strlen(response) bytes starting 6 bytes into the built packet. */
  function DestReply(buf: seq<byte>, hostAddr: uint32, response: seq<byte>): seq<byte>
    requires |buf| == INNER_SIZE && |response| <= MAX_RESPONSE
  {
    var built := Built(hostAddr, Get32(InnerIp(buf), IP_SRC), response, TCP_FLAG_ACK);
    built[GRE_SIZE..GRE_SIZE + PAYLOAD_START + |response|]
  }

  /** The server's packet for the client: a fresh GRE header in front of what the
      destination sent, and the client's address as destination. */
  function ReplyPacket(msg: seq<byte>, clientAddr: uint32): (p: seq<byte>)
    ensures |p| == PACKET_SIZE
  {
    HandlePktDest(GreHeader() + Deliver(msg, PACKET_SIZE)[..INNER_SIZE], clientAddr)
  }

  function ReplyMessage(p: seq<byte>): seq<byte>
    requires |p| == PACKET_SIZE
  {
    EncryptedMessage(p, StrLen(p[PAYLOAD_START..]))
  }
}

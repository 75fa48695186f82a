/** Packet layout, and what each header writer leaves in the buffer: a GRE header
    of 6 bytes, an IP header of 20, a TCP header of 20 and 128 payload bytes. */
module Headers {
  import opened Bytes
  import opened OnesComplement

  const GRE_SIZE := 6
  const IP_SIZE := 20
  const TCP_SIZE := 20
  const MAX_PAYLOAD := 128
  const TCP_START := 26
  const PAYLOAD_START := 46
  const PACKET_SIZE := 174
  const INNER_SIZE := 168

  const IP_LEN := 2
  const IP_SUM := 10
  const IP_SRC := 12
  const IP_DST := 16
  const TCP_SUM := 16

  const IP_PROTOCOL_TCP: byte := 6
  const TCP_FLAG_ACK: byte := 0x16
  const TCP_FLAG_SYN: byte := 0x02

  type IpHeader = h: seq<byte> | |h| == 20 witness Zeros(20)
  type WholePacket = p: seq<byte> | |p| == PACKET_SIZE witness Zeros(PACKET_SIZE)
  type InnerPacket = p: seq<byte> | |p| == INNER_SIZE witness Zeros(INNER_SIZE)
  type TcpHeader = t: seq<byte> | |t| == 20 witness Zeros(20)

  // ---------- parts of a packet ----------

  /** The 20-byte header at offset base, and the packet with that header replaced. */
  function Part(p: seq<byte>, base: nat): (h: seq<byte>)
    requires base + 20 <= |p|
    ensures |h| == 20
  {
    p[base..base + 20]
  }

  function WithPart(p: seq<byte>, base: nat, h: seq<byte>): (r: seq<byte>)
    requires base + 20 <= |p| && |h| == 20
    ensures |r| == |p|
  {
    p[..base] + h + p[base + 20..]
  }

  function IpPart(p: seq<byte>): IpHeader
    requires |p| >= TCP_START
  {
    Part(p, GRE_SIZE)
  }

  function WithIp(p: seq<byte>, h: IpHeader): (r: seq<byte>)
    requires |p| >= TCP_START
    ensures |r| == |p|
  {
    WithPart(p, GRE_SIZE, h)
  }

  function TcpPart(p: seq<byte>): TcpHeader
    requires |p| >= PAYLOAD_START
  {
    Part(p, TCP_START)
  }

  function PayloadText(p: seq<byte>): seq<byte>
    requires |p| >= PAYLOAD_START
  {
    CStr(p[PAYLOAD_START..])
  }

  /** get_packet_size: a uint8_t, so large payload sizes wrap; 255 for other protocols. */
  function GetPacketSize(ipProtocol: byte, payloadSize: byte): byte {
    if ipProtocol == IP_PROTOCOL_TCP then (payloadSize + TCP_SIZE + GRE_SIZE + IP_SIZE) % 0x100 else 0xff
  }

  lemma TenWords(h: IpHeader)
    ensures WordSum(h) == Word(h, 0) + Word(h, 2) + Word(h, 4) + Word(h, 6) + Word(h, 8)
                        + Word(h, 10) + Word(h, 12) + Word(h, 14) + Word(h, 16) + Word(h, 18)
  {
    hide Word;
    WordsFrom(h, 18); WordsFrom(h, 16); WordsFrom(h, 14); WordsFrom(h, 12); WordsFrom(h, 10);
    WordsFrom(h, 8); WordsFrom(h, 6); WordsFrom(h, 4); WordsFrom(h, 2); WordsFrom(h, 0);
    assert h[0..] == h;
    assert WordSum(h[20..]) == 0;
  }

  lemma WordsFrom(h: IpHeader, o: nat)
    requires o + 2 <= 20
    ensures WordSum(h[o..]) == Word(h, o) + WordSum(h[o + 2..])
  {
  }

  /** For TCP the size is right exactly up to 209 payload bytes; otherwise it is -1
      as a uint8_t. */
  lemma PacketSizeExact(ipProtocol: byte, payloadSize: byte)
    ensures ipProtocol == 6 ==> (GetPacketSize(ipProtocol, payloadSize) == 46 + payloadSize <==> payloadSize <= 209)
    ensures ipProtocol != 6 ==> GetPacketSize(ipProtocol, payloadSize) == 255
  {
  }

  // ---------- checksummed fields ----------

  /** `field = htons(cksum(header))` over a header whose field was zeroed. */
  function Seal(z: seq<byte>, o: nat): (r: seq<byte>)
    requires o + 2 <= |z|
    ensures |r| == |z|
  {
    Put16(z, o, Swap16(Checksum(z)))
  }

  /** verify_checksum of the header with its field zeroed, against ntohs of the field. */
  predicate Accepts(h: seq<byte>, o: nat)
    requires o + 2 <= |h|
  {
    Checksum(Put16(h, o, 0)) == Swap16(Get16(h, o))
  }

  /** Sealing is accepted exactly when the field held one of the two zeros before. */
  lemma SealAccepted(z: seq<byte>, o: nat)
    requires o % 2 == 0 && o + 2 <= |z|
    ensures Accepts(Seal(z, o), o) <==> Word(z, o) == 0 || Word(z, o) == 0xffff
  {
    hide Checksum, Swap16;
    var c := Checksum(z);
    var r := Seal(z, o);
    GetPut16(z, o, Swap16(c));
    Swap16Twice(c);
    assert Put16(r, o, 0) == z[o := 0][o + 1 := 0];
    OneWordChange(z, o, 0, 0);
  }

  /** What the verifier accepts, in numbers: a field that is not zero and that,
      read natively, cancels the word sum of the rest modulo 65535. */
  lemma AcceptsIff(h: seq<byte>, o: nat)
    requires o + 2 <= |h|
    ensures Accepts(h, o) <==> Get16(h, o) != 0 && Congruent(WordSum(Put16(h, o, 0)) + Get16(h, o), 0)
  {
    hide OnesSum, Finish, WordSum, Swap16, Congruent, Put16, Get16;
    var w, v := WordSum(Put16(h, o, 0)), Get16(h, o);
    var c := Finish(OnesSum(w));
    var j := OnesSumWitness(w);
    var i := FinishIsNegation(OnesSum(w));
    Swap16Twice(c);
    Swap16Twice(v);
    assert Accepts(h, o) <==> Swap16(c) == v;
    if Swap16(c) == v {
      CongruentBy(w + v, 0, j + i);
    }
    if v != 0 && Congruent(w + v, 0) {
      var k := Witness(w + v, 0);
      assert v - Swap16(c) == 0xffff * (k - j - i);
    }
  }

  lemma GetPut16(s: seq<byte>, o: nat, v: uint16)
    requires o + 2 <= |s|
    ensures Get16(Put16(s, o, v), o) == v
  {
  }

  // ---------- header writers ----------

  function BigEndian16(v: uint16): seq<byte> { [v / 0x100, v % 0x100] }

  function LittleEndian32(v: uint32): seq<byte> { [Byte0(v), Byte1(v), Byte2(v), Byte3(v)] }

  /** packet_encapsulate before its checksum: checksum flag 1, IPv4 ethertype. */
  function GreFields(): seq<byte> { [0, 1, 8, 0, 0, 0] }

  function GreHeader(): (g: seq<byte>)
    ensures |g| == GRE_SIZE
  {
    Seal(GreFields(), 4)
  }

  /** The GRE header the code always sends verifies, but does not sum to all ones:
      its words sum to 0x0801, which is 250 modulo 257. */
  lemma GreHeaderChecksum()
    ensures GreHeader() == [0, 1, 8, 0, 0xfe, 0xf7]
    ensures Accepts(GreHeader(), 4)
    ensures OnesSum(WordSum(GreHeader())) != 0xffff
  {
    GreBytes();
    hide WordSum, OnesSum, Checksum, Accepts, Put16, Swap16;
    GreWords();
    SealAccepted(GreFields(), 4);
    SumToAllOnesSwapped(GreFields(), 4);
  }

  lemma GreBytes()
    ensures GreHeader() == [0, 1, 8, 0, 0xfe, 0xf7]
  {
    hide WordSum, Checksum, Swap16;
    GreWords();
    SmallChecksum(GreFields());
  }

  lemma GreWords()
    ensures WordSum(GreFields()) == 0x801
  {
    var z := GreFields();
    assert z[2..] == [8, 0, 0, 0] && z[2..][2..] == [0, 0] && z[2..][2..][2..] == [];
  }

  /** set_ip before its checksum: version 4, the low nibble of byte 0 kept. */
  function IpFields(h: IpHeader, src: uint32, dst: uint32, ipProtocol: byte, payloadSize: byte): IpHeader {
    [h[0] % 0x10 + 0x40, h[1]] + BigEndian16(payloadSize + IP_SIZE) + h[4..9] + [ipProtocol, 0, 0]
    + LittleEndian32(src) + LittleEndian32(dst)
  }

  function SealedIp(h: IpHeader, src: uint32, dst: uint32, ipProtocol: byte, payloadSize: byte): IpHeader {
    Seal(IpFields(h, src, dst, ipProtocol, payloadSize), IP_SUM)
  }

  const PORT: uint16 := 17350

  /** set_tcp before its checksum, which covers whatever tcp_sum held. */
  function TcpFields(t: TcpHeader, flags: byte): TcpHeader {
    BigEndian16(PORT) + BigEndian16(PORT) + t[4..13] + [flags] + t[14..]
  }

  function SealedTcp(t: TcpHeader, flags: byte): TcpHeader {
    Seal(TcpFields(t, flags), TCP_SUM)
  }

  /** A header set_ip wrote verifies, whatever the buffer held before. */
  lemma SetIpAccepted(h: IpHeader, src: uint32, dst: uint32, ipProtocol: byte, payloadSize: byte)
    ensures Accepts(SealedIp(h, src, dst, ipProtocol, payloadSize), IP_SUM)
    ensures Get32(SealedIp(h, src, dst, ipProtocol, payloadSize), IP_SRC) == src
    ensures Get32(SealedIp(h, src, dst, ipProtocol, payloadSize), IP_DST) == dst
    ensures Swap16(Get16(SealedIp(h, src, dst, ipProtocol, payloadSize), IP_LEN)) == payloadSize + IP_SIZE
    ensures var r := SealedIp(h, src, dst, ipProtocol, payloadSize);
      && r[0] / 0x10 == 4 && r[0] % 0x10 == h[0] % 0x10 && r[9] == ipProtocol
      && forall i :: i == 1 || 4 <= i < 9 ==> r[i] == h[i]
  {
    var z := IpFields(h, src, dst, ipProtocol, payloadSize);
    SealAccepted(z, IP_SUM);
    Split32(src);
    Split32(dst);
    assert Get16(z, IP_LEN) == Swap16(payloadSize + IP_SIZE);
    Swap16Twice(payloadSize + IP_SIZE);
  }

  /** set_tcp does not zero tcp_sum first: its header verifies exactly when the
      buffer's tcp_sum was one of the two zeros. */
  lemma SetTcpAccepted(t: TcpHeader, flags: byte)
    ensures Accepts(SealedTcp(t, flags), TCP_SUM)
       <==> Get16(t, TCP_SUM) == 0 || Get16(t, TCP_SUM) == 0xffff
    ensures var r := SealedTcp(t, flags);
      && Swap16(Get16(r, 0)) == Swap16(Get16(r, 2)) == 17350 && r[13] == flags
      && forall i :: 4 <= i < 20 && i != 13 && i != 16 && i != 17 ==> r[i] == t[i]
  {
    var z := TcpFields(t, flags);
    SealAccepted(z, TCP_SUM);
    TcpFieldBytes(t, flags);
    hide Checksum, Accepts, TcpFields;
    var r := SealedTcp(t, flags);
    assert forall i :: 0 <= i < 20 && i != 16 && i != 17 ==> r[i] == z[i];
    hide Put16, SealedTcp;
    PortBytes(r);
  }

  lemma TcpFieldBytes(t: TcpHeader, flags: byte)
    ensures var z := TcpFields(t, flags);
      && z[0] == z[2] == 0x43 && z[1] == z[3] == 0xc6 && z[13] == flags
      && Get16(z, TCP_SUM) == Get16(t, TCP_SUM)
      && forall i :: 4 <= i < 20 && i != 13 ==> z[i] == t[i]
  {
  }

  lemma PortBytes(r: TcpHeader)
    requires r[0] == r[2] == 0x43 && r[1] == r[3] == 0xc6
    ensures Swap16(Get16(r, 0)) == Swap16(Get16(r, 2)) == 17350
  {
  }

  /** The TCP header of every packet of the session, in numbers: both ports 17350,
      the flags, and nothing else but a checksum. */
  predicate PlainTcp(t: TcpHeader, flags: byte) {
    && Swap16(Get16(t, 0)) == 17350 && Swap16(Get16(t, 2)) == 17350 && t[13] == flags
    && (forall i :: 4 <= i < 20 && i != 13 && i != 16 && i != 17 ==> t[i] == 0)
    && Get16(t, TCP_SUM) == 0x7873 - flags
  }

  lemma SealedTcpIsPlain(flags: byte)
    ensures PlainTcp(SealedTcp(Zeros(20), flags), flags)
  {
    var z := TcpFields(Zeros(20), flags);
    TcpZeros(z, flags);
    SmallChecksum(z);
    hide WordSum, Checksum, TcpFields, Swap16, PlainTcp;
    GetPut16(z, TCP_SUM, Swap16(Checksum(z)));
    var t := Put16(z, TCP_SUM, Swap16(Checksum(z)));
    assert forall i :: 0 <= i < 20 && i != 16 && i != 17 ==> t[i] == z[i];
    hide Put16, Get16;
    PlainBytes(z, t, flags);
  }

  lemma PlainBytes(z: TcpHeader, t: TcpHeader, flags: byte)
    requires z[0] == z[2] == 0x43 && z[1] == z[3] == 0xc6 && z[13] == flags
    requires forall i :: 4 <= i < 20 && i != 13 ==> z[i] == 0
    requires forall i :: 0 <= i < 20 && i != 16 && i != 17 ==> t[i] == z[i]
    requires Get16(t, TCP_SUM) == 0x7873 - flags
    ensures PlainTcp(t, flags)
  {
  }

  lemma TcpZeros(z: TcpHeader, flags: byte)
    requires z == TcpFields(Zeros(20), flags)
    ensures WordSum(z) == 0x878c + flags
    ensures z[0] == z[2] == 0x43 && z[1] == z[3] == 0xc6 && z[13] == flags
    ensures forall i :: 4 <= i < 20 && i != 13 ==> z[i] == 0
  {
    hide WordSum, TcpFields;
    TcpFieldBytes(Zeros(20), flags);
    TenWords(z);
  }

  /** The IP header of every packet of the session: version 4, length 148, protocol
      6, the two addresses, zeros, and a checksum that verifies. */
  predicate PlainIp(h: IpHeader, src: uint32, dst: uint32) {
    && h[0] == 0x40 && h[1] == 0 && Swap16(Get16(h, IP_LEN)) == 148 && h[9] == 6
    && (forall i :: 4 <= i < 9 ==> h[i] == 0)
    && Get32(h, IP_SRC) == src && Get32(h, IP_DST) == dst
    && Accepts(h, IP_SUM)
  }

  lemma SealedIpIsPlain(src: uint32, dst: uint32)
    ensures PlainIp(SealedIp(Zeros(20), src, dst, IP_PROTOCOL_TCP, MAX_PAYLOAD), src, dst)
  {
    hide SealedIp, Accepts, Get32, Get16, Swap16;
    SetIpAccepted(Zeros(20), src, dst, IP_PROTOCOL_TCP, MAX_PAYLOAD);
  }

  /** So it does not on a buffer that is zero but for one bit of tcp_sum. */
  lemma StaleTcpSum(flags: byte)
    ensures !Accepts(SealedTcp(Zeros(20)[TCP_SUM := 1], flags), TCP_SUM)
  {
    SetTcpAccepted(Zeros(20)[TCP_SUM := 1], flags);
    hide SealedTcp, Accepts;
  }

  /** strncpy into zeroed payload bytes, then the terminator at 127 at the latest. */
  function PayloadArea(m: seq<byte>): (r: seq<byte>)
    requires |m| <= MAX_PAYLOAD
    ensures |r| == MAX_PAYLOAD
  {
    (m + Zeros(MAX_PAYLOAD - |m|))[|Kept(m)| := 0]
  }

  /** The part of a payload that fits before the terminator. */
  function Kept(m: seq<byte>): seq<byte> {
    if |m| > MAX_PAYLOAD - 1 then m[..MAX_PAYLOAD - 1] else m
  }

  /** What create_packets_des builds, and create_packets before encryption. */
  function Built(src: uint32, dst: uint32, m: seq<byte>, flags: byte): (p: seq<byte>)
    requires |m| <= MAX_PAYLOAD
    ensures |p| == PACKET_SIZE
  {
    GreHeader() + SealedIp(Zeros(20), src, dst, IP_PROTOCOL_TCP, MAX_PAYLOAD)
    + SealedTcp(Zeros(20), flags) + PayloadArea(m)
  }

  lemma PartsOf(g: seq<byte>, h: seq<byte>, t: seq<byte>, d: seq<byte>)
    requires |g| == GRE_SIZE && |h| == 20 && |t| == 20
    ensures IpPart(g + h + t + d) == h && TcpPart(g + h + t + d) == t
    ensures (g + h + t + d)[PAYLOAD_START..] == d
  {
  }

  lemma AreaText(m: seq<byte>)
    requires |m| <= MAX_PAYLOAD && 0 !in m
    ensures CStr(PayloadArea(m)) == Kept(m)
  {
    var area := PayloadArea(m);
    assert area[0..] == area;
    CStrAt(area, 0, Kept(m));
  }

  lemma BuiltParts(src: uint32, dst: uint32, m: seq<byte>, flags: byte)
    requires |m| <= MAX_PAYLOAD && 0 !in m
    ensures var p := Built(src, dst, m, flags);
      && IpPart(p) == SealedIp(Zeros(20), src, dst, IP_PROTOCOL_TCP, MAX_PAYLOAD)
      && TcpPart(p) == SealedTcp(Zeros(20), flags)
      && p[PAYLOAD_START..] == PayloadArea(m)
      && PayloadText(p) == Kept(m)
  {
    hide SealedIp, SealedTcp, GreHeader, PayloadArea, CStr, Kept;
    PartsOf(GreHeader(), SealedIp(Zeros(20), src, dst, IP_PROTOCOL_TCP, MAX_PAYLOAD),
            SealedTcp(Zeros(20), flags), PayloadArea(m));
    AreaText(m);
  }

  /** Every byte of a built packet, in numbers. */
  lemma BuiltInNumbers(src: uint32, dst: uint32, m: seq<byte>, flags: byte)
    requires |m| <= MAX_PAYLOAD
    ensures var p := Built(src, dst, m, flags);
      && p[..GRE_SIZE] == [0, 1, 8, 0, 0xfe, 0xf7]
      && PlainIp(IpPart(p), src, dst) && PlainTcp(TcpPart(p), flags)
      && forall j :: 0 <= j < 128 ==> p[PAYLOAD_START + j] == if j < |m| && j < 127 then m[j] else 0
  {
    hide SealedIp, SealedTcp, GreHeader, PlainIp, PlainTcp, PayloadArea;
    var h, t := SealedIp(Zeros(20), src, dst, IP_PROTOCOL_TCP, MAX_PAYLOAD), SealedTcp(Zeros(20), flags);
    GreBytes();
    SealedIpIsPlain(src, dst);
    SealedTcpIsPlain(flags);
    AreaBytes(m);
    PartsOf(GreHeader(), h, t, PayloadArea(m));
    var p := Built(src, dst, m, flags);
    assert p[..GRE_SIZE] == GreHeader();
    assert forall j :: 0 <= j < 128 ==> p[PAYLOAD_START + j] == p[PAYLOAD_START..][j];
  }

  lemma AreaBytes(m: seq<byte>)
    requires |m| <= MAX_PAYLOAD
    ensures forall j :: 0 <= j < 128 ==> PayloadArea(m)[j] == if j < |m| && j < 127 then m[j] else 0
  {
  }

  // ---------- the proxy's rewrite ----------

  /** The header as the proxy checksums it: ip_len and both addresses byte-swapped
      in memory, ip_sum zero. */
  function Image(h: IpHeader): IpHeader {
    h[..2] + [h[3], h[2]] + h[4..10] + [0, 0]
    + [h[15], h[14], h[13], h[12]] + [h[19], h[18], h[17], h[16]]
  }

  function Stamp(h: IpHeader): IpHeader {
    Put16(h, IP_SUM, Swap16(Checksum(Image(h))))
  }

  function RewriteSrc(h: IpHeader, a: uint32): IpHeader { Stamp(Put32(h, IP_SRC, a)) }

  function RewriteDst(h: IpHeader, a: uint32): IpHeader { Stamp(Put32(h, IP_DST, a)) }

  /** serv_handle_pkt and serv_handle_pkt_dest on the whole packet. */
  function HandlePkt(p: seq<byte>, a: uint32): (r: seq<byte>)
    requires |p| >= TCP_START
    ensures |r| == |p|
  {
    WithIp(p, RewriteSrc(IpPart(p), a))
  }

  function HandlePktDest(p: seq<byte>, a: uint32): (r: seq<byte>)
    requires |p| >= TCP_START
    ensures |r| == |p|
  {
    WithIp(p, RewriteDst(IpPart(p), a))
  }
}

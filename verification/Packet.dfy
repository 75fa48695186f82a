/** packet.c, encap.c and decap.c: the functions that write headers and payload
    in place in a packet buffer. */
module Packet {
  import opened Bytes
  import opened OnesComplement
  import opened HostInfo
  import opened Cipher
  import opened Headers
  import opened Wire
  import Utils

  // ---------- field access ----------
  // Each store keeps track of the packet as p with header h at offset base.

  method Store8(buf: array<byte>, base: nat, ghost p: seq<byte>, ghost h: seq<byte>, o: nat, v: byte)
    requires base + 20 <= buf.Length == |p| && |h| == 20 && o < 20
    requires buf[..] == WithPart(p, base, h)
    modifies buf
    ensures buf[..] == WithPart(p, base, h[o := v])
  {
    buf[base + o] := v;
  }

  method Store16(buf: array<byte>, base: nat, ghost p: seq<byte>, ghost h: seq<byte>, o: nat, v: uint16)
    requires base + 20 <= buf.Length == |p| && |h| == 20 && o + 2 <= 20
    requires buf[..] == WithPart(p, base, h)
    modifies buf
    ensures buf[..] == WithPart(p, base, Put16(h, o, v))
  {
    buf[base + o] := v % 0x100;
    buf[base + o + 1] := v / 0x100;
  }

  method Store32(buf: array<byte>, base: nat, ghost p: seq<byte>, ghost h: seq<byte>, o: nat, v: uint32)
    requires base + 20 <= buf.Length == |p| && |h| == 20 && o + 4 <= 20
    requires buf[..] == WithPart(p, base, h)
    modifies buf
    ensures buf[..] == WithPart(p, base, Put32(h, o, v))
  {
    hide Byte0, Byte1, Byte2, Byte3;
    buf[base + o] := Byte0(v);
    buf[base + o + 1] := Byte1(v);
    buf[base + o + 2] := Byte2(v);
    buf[base + o + 3] := Byte3(v);
  }

  function Load16(buf: array<byte>, at: nat): uint16
    reads buf
    requires at + 2 <= buf.Length
  {
    Join16(buf[at + 1], buf[at])
  }

  function Load32(buf: array<byte>, at: nat): uint32
    reads buf
    requires at + 4 <= buf.Length
  {
    Join32(buf[at + 3], buf[at + 2], buf[at + 1], buf[at])
  }

  lemma OwnPart(p: seq<byte>, base: nat)
    requires base + 20 <= |p|
    ensures WithPart(p, base, Part(p, base)) == p
  {
  }

  lemma PartOf(p: seq<byte>, base: nat, h: seq<byte>)
    requires base + 20 <= |p| && |h| == 20
    ensures Part(WithPart(p, base, h), base) == h
    ensures Utils.Window(WithPart(p, base, h), base, 20) == h
  {
  }

  /** `sum = 0; sum = htons(cksum(header))`. */
  method SealField(buf: array<byte>, base: nat, ghost p: seq<byte>, ghost h: seq<byte>, o: nat)
    requires base + 20 <= buf.Length == |p| && |h| == 20 && o + 2 <= 20
    requires buf[..] == WithPart(p, base, h)
    modifies buf
    ensures buf[..] == WithPart(p, base, Put16(Put16(h, o, 0), o, Swap16(Checksum(Put16(h, o, 0)))))
  {
    hide Put16, Checksum, Swap16;
    Store16(buf, base, p, h, o, 0);
    PartOf(p, base, Put16(h, o, 0));
    var c := Utils.Cksum(buf, base, 20);
    Store16(buf, base, p, Put16(h, o, 0), o, Swap16(c));
  }

  // ---------- header writers ----------

  method Write16(buf: array<byte>, at: nat, v: uint16)
    requires at + 2 <= buf.Length
    modifies buf
    ensures buf[..] == Put16(old(buf[..]), at, v)
  {
    buf[at] := v % 0x100;
    buf[at + 1] := v / 0x100;
  }

  /** packet_encapsulate. */
  method PacketEncapsulate(packet: array<byte>)
    requires packet.Length >= GRE_SIZE
    modifies packet
    ensures packet[..] == GreHeader() + old(packet[GRE_SIZE..])
  {
    hide Put16, Swap16, Checksum;
    ghost var p := packet[..];
    Write16(packet, 0, Swap16(1));
    Write16(packet, 2, Swap16(0x0800));
    Write16(packet, 4, 0);
    GreFieldsWritten(p);
    assert Utils.Window(packet[..], 0, GRE_SIZE) == [0, 1, 8, 0, 0, 0];
    var c := Utils.Cksum(packet, 0, GRE_SIZE);
    Write16(packet, 4, Swap16(c));
    PutInPrefix([0, 1, 8, 0, 0, 0], p[6..], Swap16(c));
  }

  lemma GreFieldsWritten(p: seq<byte>)
    requires |p| >= GRE_SIZE
    ensures Put16(Put16(Put16(p, 0, Swap16(1)), 2, Swap16(0x0800)), 4, 0) == [0, 1, 8, 0, 0, 0] + p[6..]
  {
    assert Swap16(1) == 0x100 && Swap16(0x0800) == 8;
    PutPair(p, 0, 0, 1);
    PutPair(Put16(p, 0, 0x100), 2, 8, 0);
    PutPair(Put16(Put16(p, 0, 0x100), 2, 8), 4, 0, 0);
    hide Put16, Swap16;
  }

  lemma PutPair(p: seq<byte>, o: nat, b0: byte, b1: byte)
    requires o + 2 <= |p|
    ensures Put16(p, o, Join16(b1, b0)) == p[o := b0][o + 1 := b1]
  {
    BytesOfJoin16(b1, b0);
  }

  lemma PutInPrefix(g: seq<byte>, rest: seq<byte>, v: uint16)
    requires |g| == GRE_SIZE
    ensures Put16(g + rest, 4, v) == Put16(g, 4, v) + rest
  {
  }

  /** packet_decapsulate: the offset of the IP header. */
  function PacketDecapsulate(start: nat): nat { start + GRE_SIZE }

  /** set_ip, on the header at offset 6 of the packet. */
  method SetIp(packet: array<byte>, ipDest: string, ipHost: string, ipProtocol: byte, payloadSize: byte)
    requires packet.Length >= TCP_START
    requires '\0' in ipDest && FieldsFit(Text(ipDest), 4)
    requires '\0' in ipHost && FieldsFit(Text(ipHost), 4)
    modifies packet
    ensures packet[..] == WithIp(old(packet[..]),
      SealedIp(IpPart(old(packet[..])), ParseAddr(Text(ipHost)), ParseAddr(Text(ipDest)), ipProtocol, payloadSize))
  {
    hide Put16, Put32, Checksum, Swap16, FieldsFit, ParseAddr, Text, WithPart;
    ghost var p, h := packet[..], IpPart(packet[..]);
    OwnPart(p, GRE_SIZE);
    Store8(packet, GRE_SIZE, p, h, 0, packet[GRE_SIZE] % 0x10 + 0x40);
    ghost var h1 := h[0 := h[0] % 0x10 + 0x40];
    Store16(packet, GRE_SIZE, p, h1, IP_LEN, Swap16(payloadSize + IP_SIZE));
    ghost var h2 := Put16(h1, IP_LEN, Swap16(payloadSize + IP_SIZE));
    Store8(packet, GRE_SIZE, p, h2, 9, ipProtocol);
    ghost var h3 := h2[9 := ipProtocol];
    var src := ParseIpAddr(ipHost);
    Store32(packet, GRE_SIZE, p, h3, IP_SRC, src);
    var dst := ParseIpAddr(ipDest);
    Store32(packet, GRE_SIZE, p, Put32(h3, IP_SRC, src), IP_DST, dst);
    SealField(packet, GRE_SIZE, p, Put32(Put32(h3, IP_SRC, src), IP_DST, dst), IP_SUM);
    IpFieldsWritten(h, src, dst, ipProtocol, payloadSize);
  }

  lemma IpFieldsWritten(h: IpHeader, src: uint32, dst: uint32, ipProtocol: byte, payloadSize: byte)
    ensures var h1 := h[0 := h[0] % 0x10 + 0x40];
      var h2 := Put16(h1, IP_LEN, Swap16(payloadSize + IP_SIZE))[9 := ipProtocol];
      Put16(Put32(Put32(h2, IP_SRC, src), IP_DST, dst), IP_SUM, 0) == IpFields(h, src, dst, ipProtocol, payloadSize)
  {
    var n := payloadSize + IP_SIZE;
    BytesOfJoin16(n % 0x100, n / 0x100);
    hide Byte0, Byte1, Byte2, Byte3;
  }

  /** set_tcp, on the header at offset 26; tcp_sum is summed as it was. */
  method SetTcp(packet: array<byte>, flags: byte)
    requires packet.Length >= PAYLOAD_START
    modifies packet
    ensures packet[..] == WithPart(old(packet[..]), TCP_START, SealedTcp(TcpPart(old(packet[..])), flags))
  {
    hide Put16, Checksum, Swap16, WithPart;
    ghost var p, t := packet[..], TcpPart(packet[..]);
    OwnPart(p, TCP_START);
    Store16(packet, TCP_START, p, t, 0, Swap16(PORT));
    Store16(packet, TCP_START, p, Put16(t, 0, Swap16(PORT)), 2, Swap16(PORT));
    ghost var t1 := Put16(Put16(t, 0, Swap16(PORT)), 2, Swap16(PORT));
    Store8(packet, TCP_START, p, t1, 13, flags);
    TcpFieldsWritten(t, flags);
    PartOf(p, TCP_START, TcpFields(t, flags));
    var c := Utils.Cksum(packet, TCP_START, TCP_SIZE);
    Store16(packet, TCP_START, p, TcpFields(t, flags), TCP_SUM, Swap16(c));
  }

  lemma TcpFieldsWritten(t: TcpHeader, flags: byte)
    ensures Put16(Put16(t, 0, Swap16(PORT)), 2, Swap16(PORT))[13 := flags] == TcpFields(t, flags)
  {
    assert Swap16(PORT) == 0xc643;
  }

  // ---------- the proxy's rewrite ----------

  /** `temp = ntohs(field); field = 0; field = temp`. */
  function SwapField16(h: IpHeader, o: nat): IpHeader
    requires o + 2 <= 20
  {
    Put16(Put16(h, o, 0), o, Swap16(Get16(h, o)))
  }

  function SwapField32(h: IpHeader, o: nat): IpHeader
    requires o + 4 <= 20
  {
    Put32(Put32(h, o, 0), o, Swap32(Get32(h, o)))
  }

  /** Swapping a field reverses its bytes in memory. */
  lemma SwapReverses(h: IpHeader, o: nat)
    requires o + 4 <= 20
    ensures SwapField16(h, o) == h[o := h[o + 1]][o + 1 := h[o]]
    ensures SwapField32(h, o) == h[o := h[o + 3]][o + 1 := h[o + 2]][o + 2 := h[o + 1]][o + 3 := h[o]]
  {
    BytesOfJoin16(h[o + 1], h[o]);
    BytesOfJoin16(h[o], h[o + 1]);
    BytesOfJoin32(h[o + 3], h[o + 2], h[o + 1], h[o]);
    BytesOfJoin32(h[o], h[o + 1], h[o + 2], h[o + 3]);
    hide Byte0, Byte1, Byte2, Byte3, Join16, Join32;
  }

  method SwapStored16(buf: array<byte>, ghost p: seq<byte>, ghost h: IpHeader, o: nat)
    requires TCP_START <= buf.Length == |p| && o + 2 <= 20
    requires buf[..] == WithIp(p, h)
    modifies buf
    ensures buf[..] == WithIp(p, SwapField16(h, o))
  {
    hide Put16, Swap16;
    var temp := Swap16(Load16(buf, GRE_SIZE + o));
    PartOf(p, GRE_SIZE, h);
    assert buf[GRE_SIZE + o] == h[o] && buf[GRE_SIZE + o + 1] == h[o + 1];
    Store16(buf, GRE_SIZE, p, h, o, 0);
    Store16(buf, GRE_SIZE, p, Put16(h, o, 0), o, temp);
  }

  method SwapStored32(buf: array<byte>, ghost p: seq<byte>, ghost h: IpHeader, o: nat)
    requires TCP_START <= buf.Length == |p| && o + 4 <= 20
    requires buf[..] == WithIp(p, h)
    modifies buf
    ensures buf[..] == WithIp(p, SwapField32(h, o))
  {
    hide Put32, Swap32, Join32;
    var temp := Swap32(Load32(buf, GRE_SIZE + o));
    PartOf(p, GRE_SIZE, h);
    assert buf[GRE_SIZE + o] == h[o] && buf[GRE_SIZE + o + 1] == h[o + 1];
    assert buf[GRE_SIZE + o + 2] == h[o + 2] && buf[GRE_SIZE + o + 3] == h[o + 3];
    Store32(buf, GRE_SIZE, p, h, o, 0);
    Store32(buf, GRE_SIZE, p, Put32(h, o, 0), o, temp);
  }

  /** serv_handle_pkt: swap ip_len, replace ip_src, swap ip_dst, sum, swap back. */
  method ServHandlePkt(packet: array<byte>, serverIp: string) returns (fixedPkt: nat)
    requires packet.Length >= TCP_START
    requires '\0' in serverIp && FieldsFit(Text(serverIp), 4)
    modifies packet
    ensures fixedPkt == GRE_SIZE
    ensures packet[..] == HandlePkt(old(packet[..]), ParseAddr(Text(serverIp)))
  {
    hide SwapField16, SwapField32, Put16, Put32, Checksum, Swap16, Swap32, Image, FieldsFit, ParseAddr, Text,
         WithPart;
    ghost var p, h := packet[..], IpPart(packet[..]);
    OwnPart(p, GRE_SIZE);
    fixedPkt := PacketDecapsulate(0);
    SwapStored16(packet, p, h, IP_LEN);
    ghost var h1 := SwapField16(h, IP_LEN);
    var tempAddr := ParseIpAddr(serverIp);
    Store32(packet, GRE_SIZE, p, h1, IP_SRC, 0);
    Store32(packet, GRE_SIZE, p, Put32(h1, IP_SRC, 0), IP_SRC, Swap32(tempAddr));
    ghost var h2 := Put32(Put32(h1, IP_SRC, 0), IP_SRC, Swap32(tempAddr));
    SwapStored32(packet, p, h2, IP_DST);
    SealField(packet, GRE_SIZE, p, SwapField32(h2, IP_DST), IP_SUM);
    PreparedSrc(h, tempAddr);
    ghost var g := Put32(h, IP_SRC, tempAddr);
    ghost var h3 := Put16(Image(g), IP_SUM, Swap16(Checksum(Image(g))));
    SwapStored32(packet, p, h3, IP_SRC);
    SwapStored32(packet, p, SwapField32(h3, IP_SRC), IP_DST);
    SwapStored16(packet, p, SwapField32(SwapField32(h3, IP_SRC), IP_DST), IP_LEN);
    Restored(g, Swap16(Checksum(Image(g))));
  }

  /** serv_handle_pkt_dest: the same with the two addresses exchanged. */
  method ServHandlePktDest(packet: array<byte>, serverIp: string) returns (fixedPkt: nat)
    requires packet.Length >= TCP_START
    requires '\0' in serverIp && FieldsFit(Text(serverIp), 4)
    modifies packet
    ensures fixedPkt == GRE_SIZE
    ensures packet[..] == HandlePktDest(old(packet[..]), ParseAddr(Text(serverIp)))
  {
    hide SwapField16, SwapField32, Put16, Put32, Checksum, Swap16, Swap32, Image, FieldsFit, ParseAddr, Text,
         WithPart;
    ghost var p, h := packet[..], IpPart(packet[..]);
    OwnPart(p, GRE_SIZE);
    fixedPkt := PacketDecapsulate(0);
    SwapStored16(packet, p, h, IP_LEN);
    ghost var h1 := SwapField16(h, IP_LEN);
    var tempAddr := ParseIpAddr(serverIp);
    Store32(packet, GRE_SIZE, p, h1, IP_DST, 0);
    Store32(packet, GRE_SIZE, p, Put32(h1, IP_DST, 0), IP_DST, Swap32(tempAddr));
    ghost var h2 := Put32(Put32(h1, IP_DST, 0), IP_DST, Swap32(tempAddr));
    SwapStored32(packet, p, h2, IP_SRC);
    SealField(packet, GRE_SIZE, p, SwapField32(h2, IP_SRC), IP_SUM);
    PreparedDst(h, tempAddr);
    ghost var g := Put32(h, IP_DST, tempAddr);
    ghost var h3 := Put16(Image(g), IP_SUM, Swap16(Checksum(Image(g))));
    SwapStored32(packet, p, h3, IP_DST);
    SwapStored32(packet, p, SwapField32(h3, IP_DST), IP_SRC);
    SwapStored16(packet, p, SwapField32(SwapField32(h3, IP_DST), IP_SRC), IP_LEN);
    Restored(g, Swap16(Checksum(Image(g))));
  }

  /** The image is what the four swaps and the zeroed sum make of a header. */
  lemma ImageIsSwapped(g: IpHeader)
    ensures Put16(SwapField32(SwapField32(SwapField16(g, IP_LEN), IP_SRC), IP_DST), IP_SUM, 0) == Image(g)
    ensures Put16(SwapField32(SwapField32(SwapField16(g, IP_LEN), IP_DST), IP_SRC), IP_SUM, 0) == Image(g)
  {
    var l := SwapField16(g, IP_LEN);
    var s, d := SwapField32(l, IP_SRC), SwapField32(l, IP_DST);
    SwapReverses(g, IP_LEN);
    SwapReverses(l, IP_SRC);
    SwapReverses(l, IP_DST);
    SwapReverses(s, IP_DST);
    SwapReverses(d, IP_SRC);
    PutPair(SwapField32(s, IP_DST), IP_SUM, 0, 0);
    PutPair(SwapField32(d, IP_SRC), IP_SUM, 0, 0);
    hide SwapField16, SwapField32, Put16;
  }

  /** Writing an address commutes with swapping ip_len. */
  lemma PutPastLength(h: IpHeader, o: nat, a: uint32)
    requires IP_LEN + 2 <= o && o + 4 <= 20
    ensures SwapField16(Put32(h, o, a), IP_LEN) == Put32(SwapField16(h, IP_LEN), o, a)
  {
    SwapReverses(h, IP_LEN);
    SwapReverses(Put32(h, o, a), IP_LEN);
    hide SwapField16, Byte0, Byte1, Byte2, Byte3;
  }

  /** Storing ntohl of an address is storing the address and swapping the field. */
  lemma PutSwapped(h: IpHeader, o: nat, a: uint32)
    requires o + 4 <= 20
    ensures Put32(Put32(h, o, 0), o, Swap32(a)) == SwapField32(Put32(h, o, a), o)
  {
    GetPut32(h, o, a);
    hide Byte0, Byte1, Byte2, Byte3, Swap32, Join32;
  }

  /** The header at the moment of the checksum is the image of the new header. */
  lemma PreparedSrc(h: IpHeader, a: uint32)
    ensures var h1 := SwapField16(h, IP_LEN);
      var h2 := Put32(Put32(h1, IP_SRC, 0), IP_SRC, Swap32(a));
      Put16(SwapField32(h2, IP_DST), IP_SUM, 0) == Image(Put32(h, IP_SRC, a))
  {
    hide SwapField16, SwapField32, Put16, Put32, Swap32, Image;
    PutSwapped(SwapField16(h, IP_LEN), IP_SRC, a);
    PutPastLength(h, IP_SRC, a);
    ImageIsSwapped(Put32(h, IP_SRC, a));
  }

  lemma PreparedDst(h: IpHeader, a: uint32)
    ensures var h1 := SwapField16(h, IP_LEN);
      var h2 := Put32(Put32(h1, IP_DST, 0), IP_DST, Swap32(a));
      Put16(SwapField32(h2, IP_SRC), IP_SUM, 0) == Image(Put32(h, IP_DST, a))
  {
    hide SwapField16, SwapField32, Put16, Put32, Swap32, Image;
    PutSwapped(SwapField16(h, IP_LEN), IP_DST, a);
    PutPastLength(h, IP_DST, a);
    ImageIsSwapped(Put32(h, IP_DST, a));
  }

  /** The swaps after the checksum undo the ones before it. */
  lemma Restored(g: IpHeader, v: uint16)
    ensures var i := Put16(Image(g), IP_SUM, v);
      && SwapField16(SwapField32(SwapField32(i, IP_SRC), IP_DST), IP_LEN) == Put16(g, IP_SUM, v)
      && SwapField16(SwapField32(SwapField32(i, IP_DST), IP_SRC), IP_LEN) == Put16(g, IP_SUM, v)
  {
    var i := Put16(Image(g), IP_SUM, v);
    SwapReverses(i, IP_SRC);
    SwapReverses(i, IP_DST);
    var s, d := SwapField32(i, IP_SRC), SwapField32(i, IP_DST);
    SwapReverses(s, IP_DST);
    SwapReverses(d, IP_SRC);
    SwapReverses(SwapField32(s, IP_DST), IP_LEN);
    SwapReverses(SwapField32(d, IP_SRC), IP_LEN);
    hide SwapField16, SwapField32;
  }

  /** save_client_ip. */
  method SaveClientIp(packet: array<byte>) returns (clientIp: uint32)
    requires packet.Length >= TCP_START
    ensures clientIp == Get32(IpPart(packet[..]), IP_SRC)
  {
    clientIp := Load32(packet, GRE_SIZE + IP_SRC);
  }

  // ---------- building, sending and receiving ----------

  /** create_packets_des; payload is the text of a C string. */
  method CreatePacketsDes(ipSrc: string, ipDest: string, payload: seq<byte>, flags: byte) returns (packet: array<byte>)
    requires '\0' in ipSrc && FieldsFit(Text(ipSrc), 4)
    requires '\0' in ipDest && FieldsFit(Text(ipDest), 4)
    requires 0 !in payload && |payload| <= MAX_PAYLOAD
    ensures fresh(packet)
    ensures packet[..] == Built(ParseAddr(Text(ipSrc)), ParseAddr(Text(ipDest)), payload, flags)
  {
    hide SealedIp, SealedTcp, GreHeader, FieldsFit, ParseAddr, Text;
    packet := new byte[PACKET_SIZE](_ => 0);
    PacketEncapsulate(packet);
    assert packet[..] == GreHeader() + Zeros(20) + Zeros(20) + Zeros(MAX_PAYLOAD);
    PartsOf(GreHeader(), Zeros(20), Zeros(20), Zeros(MAX_PAYLOAD));
    SetIp(packet, ipDest, ipSrc, IP_PROTOCOL_TCP, MAX_PAYLOAD);
    ghost var ip := SealedIp(Zeros(20), ParseAddr(Text(ipSrc)), ParseAddr(Text(ipDest)), IP_PROTOCOL_TCP, MAX_PAYLOAD);
    HeadersReplaced(GreHeader(), Zeros(20), Zeros(20), Zeros(MAX_PAYLOAD), ip, SealedTcp(Zeros(20), flags));
    PartsOf(GreHeader(), ip, Zeros(20), Zeros(MAX_PAYLOAD));
    SetTcp(packet, flags);
    ghost var front := GreHeader() + ip + SealedTcp(Zeros(20), flags);
    HeadersReplaced(GreHeader(), ip, Zeros(20), Zeros(MAX_PAYLOAD), ip, SealedTcp(Zeros(20), flags));
    assert packet[..] == front + Zeros(MAX_PAYLOAD);
    CopyPayload(packet, payload, front);
  }

  /** `strncpy` of the text, and the terminator at 127 at the latest. */
  method CopyPayload(packet: array<byte>, payload: seq<byte>, ghost front: seq<byte>)
    requires packet.Length == PACKET_SIZE && |front| == PAYLOAD_START
    requires packet[..] == front + Zeros(MAX_PAYLOAD)
    requires |payload| <= MAX_PAYLOAD
    modifies packet
    ensures packet[..] == front + PayloadArea(payload)
  {
    ghost var p := packet[..];
    assert forall i :: PAYLOAD_START <= i < PACKET_SIZE ==> p[i] == 0;
    for i := 0 to |payload|
      invariant forall j :: 0 <= j < PACKET_SIZE ==>
        packet[j] == if PAYLOAD_START <= j < PAYLOAD_START + i then payload[j - PAYLOAD_START] else p[j]
    {
      packet[PAYLOAD_START + i] := payload[i];
    }
    var length := if |payload| > MAX_PAYLOAD - 1 then MAX_PAYLOAD - 1 else |payload|;
    packet[PAYLOAD_START + length] := 0;
    ghost var area := PayloadArea(payload);
    assert forall j :: PAYLOAD_START <= j < PACKET_SIZE ==> packet[j] == area[j - PAYLOAD_START];
  }

  lemma HeadersReplaced(g: seq<byte>, h: seq<byte>, t: seq<byte>, d: seq<byte>, h': seq<byte>, t': seq<byte>)
    requires |g| == GRE_SIZE && |h| == |h'| == 20 && |t| == |t'| == 20
    ensures WithIp(g + h + t + d, h') == g + h' + t + d
    ensures WithPart(g + h + t + d, TCP_START, t') == g + h + t' + d
  {
  }

  /** create_packets: built, encrypted, and terminated after the payload. */
  method CreatePackets(ipSrc: string, ipDest: string, payload: seq<byte>, flags: byte) returns (packet: array<byte>)
    requires '\0' in ipSrc && FieldsFit(Text(ipSrc), 4)
    requires '\0' in ipDest && FieldsFit(Text(ipDest), 4)
    requires 0 !in payload && |payload| <= MAX_PAYLOAD
    ensures fresh(packet)
    ensures packet[..] == ClientPacket(ParseAddr(Text(ipSrc)), ParseAddr(Text(ipDest)), payload, flags)
    ensures var built := Built(ParseAddr(Text(ipSrc)), ParseAddr(Text(ipDest)), payload, flags);
      var n := PAYLOAD_START + if |payload| < 127 then |payload| else 127;
      forall i :: 0 <= i < PACKET_SIZE ==> packet[i] == if i == n then 0 else XorByte(built[i], KeyAt(i))
  {
    hide Built, Encrypted, FieldsFit, ParseAddr, Text, XorByte, KeyAt;
    ClientPacketBytes(ParseAddr(Text(ipSrc)), ParseAddr(Text(ipDest)), payload, flags);
    var plain := CreatePacketsDes(ipSrc, ipDest, payload, flags);
    packet := new byte[PACKET_SIZE](_ => 0);
    ghost var built := plain[..];
    assert plain[..PACKET_SIZE] == built;
    XorEncryptDecrypt(plain, packet, PACKET_SIZE);
    assert packet[..] == Encrypted(built);
    var length := if |payload| > MAX_PAYLOAD - 1 then MAX_PAYLOAD - 1 else |payload|;
    packet[PAYLOAD_START + length] := 0;
  }

  /** serv_rec_from_cli, for a message whose payload ends inside the buffer. */
  method ServRecFromCli(msg: seq<byte>) returns (packet: array<byte>)
    requires 0 in Deliver(msg, PACKET_SIZE)[PAYLOAD_START..]
    ensures fresh(packet) && packet[..] == Received(msg)
    ensures var buf := Deliver(msg, PACKET_SIZE);
      var len := StrLen(buf[PAYLOAD_START..]);
      var n := PAYLOAD_START + if len < 127 then len else 127;
      forall i :: 0 <= i < PACKET_SIZE ==> packet[i] == if i == n then 0 else XorByte(buf[i], KeyAt(i))
  {
    hide Encrypted, StrLen, XorByte, KeyAt;
    ReceivedBytes(msg);
    var received := new byte[PACKET_SIZE](i => if 0 <= i < |msg| then msg[i] else 0);
    assert received[..] == Deliver(msg, PACKET_SIZE);
    assert received[PAYLOAD_START..] == Deliver(msg, PACKET_SIZE)[PAYLOAD_START..];
    var length := StrLen(received[PAYLOAD_START..]);
    packet := new byte[PACKET_SIZE](_ => 0);
    assert received[..PACKET_SIZE] == received[..];
    XorEncryptDecrypt(received, packet, PACKET_SIZE);
    length := if length > MAX_PAYLOAD - 1 then MAX_PAYLOAD - 1 else length;
    packet[PAYLOAD_START + length] := 0;
  }

  /** serv_cli_encrypt_free. The source stores a terminator one byte past the
      bytes it sends, so this buffer is one byte longer than the source's. */
  method ServCliEncrypt(packet: array<byte>, payloadSize: byte) returns (sent: seq<byte>)
    requires packet.Length == PACKET_SIZE && payloadSize <= MAX_PAYLOAD
    ensures sent == EncryptedMessage(packet[..], payloadSize)
    ensures |sent| == PAYLOAD_START + payloadSize
    ensures forall i :: 0 <= i < |sent| ==> sent[i] == XorByte(packet[i], KeyAt(i))
  {
    hide Encrypted, XorByte, KeyAt;
    EncryptedMessageBytes(packet[..], payloadSize);
    var length := GetPacketSize(IP_PROTOCOL_TCP, payloadSize);
    assert length == PAYLOAD_START + payloadSize;
    var encrypted := new byte[length + 1](_ => 0);
    XorEncryptDecrypt(packet, encrypted, length);
    encrypted[PAYLOAD_START + payloadSize] := 0;
    sent := encrypted[..length];
    assert packet[..length] == packet[..][..length];
  }
}

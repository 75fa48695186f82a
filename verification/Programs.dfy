/** The work client.c, server.c and destination.c do between two socket calls. */
module Programs {
  import opened Bytes
  import opened HostInfo
  import opened Headers
  import opened Cipher
  import opened Wire
  import opened Packet

  /** client.c: look the three names up, and refuse unknown or equal hosts. */
  method ClientAddresses(clientName: string, serverName: string, destName: string)
    returns (ok: bool, clientIp: string, serverIp: string, destIp: string)
    ensures ok <==> (
      && HostIp(clientName).Some? && HostIp(serverName).Some? && HostIp(destName).Some?
      && clientName != serverName && clientName != destName && serverName != destName)
    ensures ok ==> HostIp(clientName) == Some(clientIp)
    ensures ok ==> HostIp(serverName) == Some(serverIp)
    ensures ok ==> HostIp(destName) == Some(destIp)
  {
    var client := GetHostIp(clientName);
    var server := GetHostIp(serverName);
    var dest := GetHostIp(destName);
    if client == None || server == None || dest == None {
      return false, "", "", "";
    }
    HostNamesInjective(clientName, serverName);
    HostNamesInjective(clientName, destName);
    HostNamesInjective(serverName, destName);
    ok := client != server && client != dest && server != dest;
    return ok, client.value, server.value, dest.value;
  }

  /** client.c: build the request and send headers and strlen(payload) bytes. */
  method ClientRequest(clientIp: string, destIp: string, payload: seq<byte>) returns (msg: seq<byte>)
    requires '\0' in clientIp && FieldsFit(Text(clientIp), 4)
    requires '\0' in destIp && FieldsFit(Text(destIp), 4)
    requires 0 !in payload && |payload| <= MAX_PAYLOAD
    ensures msg == ClientMessage(ParseAddr(Text(clientIp)), ParseAddr(Text(destIp)), payload, TCP_FLAG_SYN)
    ensures |msg| == 46 + |payload|
    ensures var built := Built(ParseAddr(Text(clientIp)), ParseAddr(Text(destIp)), payload, 0x02);
      forall i :: 0 <= i < 46 + |payload| && i != 173 ==> msg[i] == XorByte(built[i], KeyAt(i))
  {
    hide ClientPacket, FieldsFit, ParseAddr, Text, Built, XorByte, KeyAt;
    ClientPacketBytes(ParseAddr(Text(clientIp)), ParseAddr(Text(destIp)), payload, TCP_FLAG_SYN);
    var packet := CreatePackets(clientIp, destIp, payload, TCP_FLAG_SYN);
    var length := GetPacketSize(IP_PROTOCOL_TCP, |payload|);
    msg := packet[..length];
    assert packet[..][..length] == msg;
  }

  /** recv of one whole send into a zeroed buffer of n bytes. */
  method Receive(msg: seq<byte>, n: nat) returns (buf: array<byte>)
    ensures fresh(buf) && buf[..] == Deliver(msg, n)
  {
    buf := new byte[n](i => if 0 <= i < |msg| then msg[i] else 0);
  }

  /** A 16-byte buffer with the printed address in it. */
  method PrintedAddress(addr: uint32) returns (str: array<char>)
    ensures fresh(str) && '\0' in str[..] && Text(str[..]) == PrintAddr(addr)
    ensures FieldsFit(Text(str[..]), 4) && ParseAddr(Text(str[..])) == addr
  {
    hide FieldsFit, ParseAddr, Text, PrintAddr;
    PrintThenParse(addr);
    CanonicalFits(PrintAddr(addr));
    str := new char[16](_ => ' ');
    ParseIpAddrToStr(str, addr);
  }

  /** server.c, up to the send to the destination: the client's address is saved
      before the rewrite, and the address to connect to is printed from the packet. */
  method ServerRequestLeg(msg: seq<byte>, serverIp: string)
    returns (forwarded: seq<byte>, clientIp: uint32, destIp: array<char>)
    requires 0 in Deliver(msg, PACKET_SIZE)[PAYLOAD_START..]
    requires '\0' in serverIp && FieldsFit(Text(serverIp), 4)
    ensures var p := ServerPacket(msg, ParseAddr(Text(serverIp)));
      && forwarded == Forwarded(p) && |forwarded| == 168 && (forall i :: 0 <= i < 168 ==> forwarded[i] == p[6 + i])
      && clientIp == Get32(IpPart(Received(msg)), IP_SRC)
      && '\0' in destIp[..] && Text(destIp[..]) == PrintAddr(Get32(IpPart(p), IP_DST))
  {
    hide Received, HandlePkt, FieldsFit, ParseAddr, Text, PrintAddr, Get32, IpPart, Load32, Deliver;
    var packet := ServRecFromCli(msg);
    clientIp := SaveClientIp(packet);
    var fixedPkt := ServHandlePkt(packet, serverIp);
    LoadedField(packet);
    destIp := PrintedAddress(Load32(packet, fixedPkt + IP_DST));
    forwarded := packet[fixedPkt..fixedPkt + INNER_SIZE];
    assert packet[..][GRE_SIZE..] == forwarded;
  }

  lemma LoadedField(packet: array<byte>)
    requires packet.Length == PACKET_SIZE
    ensures Load32(packet, GRE_SIZE + IP_DST) == Get32(IpPart(packet[..]), IP_DST)
  {
  }

  /** destination.c: answer whoever the packet says it came from, by way of the
      printed address. */
  method DestinationLeg(msg: seq<byte>, hostIp: string, response: seq<byte>) returns (sent: seq<byte>)
    requires '\0' in hostIp && FieldsFit(Text(hostIp), 4)
    requires 0 !in response && |response| <= MAX_RESPONSE
    ensures sent == DestReply(Deliver(msg, INNER_SIZE), ParseAddr(Text(hostIp)), response)
    ensures |sent| == 46 + |response|
    ensures var built := Built(ParseAddr(Text(hostIp)), Get32(Deliver(msg, INNER_SIZE), IP_SRC), response, 0x16);
      forall i :: 0 <= i < 46 + |response| ==> sent[i] == built[6 + i]
  {
    hide Built, FieldsFit, ParseAddr, Text, PrintAddr, Join32, Deliver;
    var received := Receive(msg, INNER_SIZE);
    var clientIpStr := PrintedAddress(Load32(received, IP_SRC));
    var packet := CreatePacketsDes(hostIp, clientIpStr[..], response, TCP_FLAG_ACK);
    var fixedPkt := PacketDecapsulate(0);
    var length := GetPacketSize(IP_PROTOCOL_TCP, |response|);
    sent := packet[fixedPkt..fixedPkt + length];
    assert packet[..][GRE_SIZE..GRE_SIZE + length] == sent;
  }

  /** server.c, from the destination's answer to the send to the client. */
  method ServerReplyLeg(msg: seq<byte>, clientIp: uint32) returns (sent: seq<byte>)
    requires 0 in Deliver(msg, PACKET_SIZE)[40..INNER_SIZE]
    ensures sent == ReplyMessage(ReplyPacket(msg, clientIp))
    ensures |sent| == 46 + StrLen(ReplyPacket(msg, clientIp)[PAYLOAD_START..])
    ensures forall i :: 0 <= i < |sent| ==> sent[i] == XorByte(ReplyPacket(msg, clientIp)[i], KeyAt(i))
  {
    hide HandlePktDest, FieldsFit, ParseAddr, Text, PrintAddr, GreHeader, StrLen, EncryptedMessage, Deliver;
    var received := Receive(msg, PACKET_SIZE);
    var packet := Encapsulated(received);
    var clientIpStr := PrintedAddress(clientIp);
    var fixedPkt := ServHandlePktDest(packet, clientIpStr[..]);
    assert packet[..][PAYLOAD_START..] == packet[PAYLOAD_START..];
    var length := StrLen(packet[PAYLOAD_START..]);
    sent := ServCliEncrypt(packet, length);
  }

  /** A fresh packet with a GRE header, and the 168 received bytes copied after it. */
  method Encapsulated(received: array<byte>) returns (packet: array<byte>)
    requires received.Length == PACKET_SIZE
    ensures fresh(packet) && packet[..] == GreHeader() + received[..][..INNER_SIZE]
  {
    hide GreHeader;
    packet := new byte[PACKET_SIZE](_ => 0);
    PacketEncapsulate(packet);
    assert packet[..GRE_SIZE] == GreHeader();
    forall i | 0 <= i < INNER_SIZE {
      packet[GRE_SIZE + i] := received[i];
    }
    assert packet[..GRE_SIZE] == GreHeader();
    assert packet[GRE_SIZE..] == received[..][..INNER_SIZE];
    assert packet[..] == packet[..GRE_SIZE] + packet[GRE_SIZE..];
  }
}
